# EspWaveRider: a Dafny model

EspWaveRider is a radar presence node with two firmwares for the same hardware, one in Rust and
one in C++. This project models the parts of both that turn unbounded streams of bytes and
events into small bounded state, and proves that they do so faithfully: each bounded structure is
tied to an unbounded reference, a list of packets, an image, a log of everything heard.

`dafny verify dfyconfig.toml` checks the whole project.

| file | what it models |
|---|---|
| `Wrappers.dfy`, `Heapless.dfy` | shared vocabulary; fixed-capacity vectors and the socket |
| `Mqtt.dfy`, `MqttPublish.dfy` | MQTT framing, reassembly from reads, PUBLISH packets |
| `MqttHandoff.dfy` | configuration hand-off from the main loop to the MQTT task |
| `Flash.dfy`, `Ota.dfy`, `HttpHeader.dfy`, `HttpDownload.dfy`, `StagedImage.dfy`, `Redirects.dfy` | the Rust update path, from response to flash |
| `FirmwareUpdate.dfy`, `ReleaseListing.dfy` | the C++ update path: published checksum, hash, then activate |
| `Versions.dfy`, `VersionTexts.dfy`, `Mesh.dfy`, `ReleaseUrl.dfy` | version order, firmware convergence, release addresses |
| `Radar.dfy`, `RadarFrame.dfy`, `Metrics.dfy`, `Clutter.dfy` | the radar UART, its frames, what they say |
| `Presence.dfy`, `RoomFusion.dfy`, `RoomSense.dfy` | presence over time; people over several nodes |
| `Recency.dfy`, `Ble.dfy`, `Peers.dfy`, `AdStructures.dfy` | bounded recency tables; advertising data |
| `Discovery.dfy` | from the text of an announcement to the table |
| `WebSocket.dfy` | the C++ WebSocket client's two buffers |
| `Json.dfy`, `JsonScan.dfy`, `RustReader.dfy`, `Announcement.dfy`, `Percent.dfy` | text on the wire and back |
| `Texts.dfy`, `Decimals.dfy`, `Utf8.dfy` | trimming, numbers as text, well-formed UTF-8 |

Conventions. A socket read returns any non-empty piece that fits, or fails; sends, flash
operations and update steps may fail at any time, except those of a network, flash or platform that
is declared reliable, so that contracts can say that nothing else fails. A flash cell is taken to behave like NOR flash:
programming can only clear bits, so only an erased cell takes any byte. Where code updates state in place there is a
class whose methods are tied to value-level predicates, and what those predicates mean is proved
as lemmas. A `char` stands for one byte of text. Integer widths are modelled where they matter:
saturating and wrapping operations are written out.

Where the code does something other than one might expect, the code is kept and the exact
condition is proved:

- a packet of more than 1024 bytes blocks the stream (`Mqtt.StreamDelivered`);
- the HTTPS clamp does not apply to bytes read along with the header (`HttpDownload.ClampExact`);
- the Rust download never compares the length of the body with the announced one before it
  activates the image: `StagedImage.StagesAnnounced` says exactly when the two agree,
  `StagedImage.ShortBodyStaged` covers every shorter body on either path and
  `StagedImage.LongBodyStaged` every longer one over HTTP, `StagedImage.ShortResponse` and
  `StagedImage.LongResponse` are one of each in full, and `StagedImage.WholeExactly` says what
  becomes of bytes beyond the erased range;
- an idle flush of less than one frame gives the bytes up, and on an aligned stream nothing else
  does (`Radar.Uart.DroppedExactly`);
- the C++ printer loses control characters other than newline, return and tab
  (`Json.RecoveredExactly`);
- the energy threshold is cut to 16 bits, so above a setting of 46811 more sensitivity can see
  less, unless the tuning rejects energy frames anyway (`Metrics.SensitivityHelpsExactly`);
- the Rust field reader undoes no escapes (`RustReader.AnnouncementReadExactly`);
- the checksum of a release asset without a digest is taken from the next entry that has one
  (`ReleaseListing.OwnDigestExactly`, with a release in `ReleaseListing.OthersAccepted`);
- an energy frame whose presence byte is neither 0 nor 1 is not what its parse encodes to
  (`RadarFrame.EncodeOfParsed`);
- the generation counter would match again after exactly 2^32 - 1 unannounced changes
  (`MqttHandoff.SameGeneration`).

## Model

| member | source | states |
|---|---|---|
| Mqtt.EncodeRemainingLength | rust/firmware/esp32s3/src/main.rs:3155-3170 | The loop appends exactly the base-128 digits of the length, or refuses when they do not fit. |
| Mqtt.EncodedLengthValue | rust/firmware/esp32s3/src/main.rs:3155-3170 | Those digits form a well-formed length field and their value is the length (section 2.2.3 of MQTT 3.1.1). |
| Mqtt.EncodedLengthSize | rust/firmware/esp32s3/src/main.rs:3155-3170 | A length takes at most n digits if and only if it is below 128^n. |
| Mqtt.PacketLength | rust/firmware/esp32s3/src/main.rs:3383-3415 | The loop with its running multiplier agrees with the digit-by-digit parser on incomplete, malformed and complete buffers alike. |
| Mqtt.ParseStable | rust/firmware/esp32s3/src/main.rs:3383-3415 | Once a length field has been read, bytes that arrive later never change what it says. |
| Mqtt.CutsExactly | rust/firmware/esp32s3/src/main.rs:3383-3415 | A valid packet followed by any bytes is measured at exactly its own length. |
| Mqtt.WaitsForAll | rust/firmware/esp32s3/src/main.rs:3383-3415 | Every proper prefix of a valid packet is reported as incomplete. |
| Mqtt.DecodersAgree | rust/crates/espwaverider-core/src/mqtt.rs:35-63 | The extractor's own length decoder stops where the cutter's does, on every input. |
| Mqtt.TakePacket | rust/firmware/esp32s3/src/main.rs:3417-3429 | The in-place cut returns the first packet and leaves precisely the bytes behind it; otherwise it changes nothing. |
| Mqtt.DrainSplit | rust/firmware/esp32s3/src/main.rs:2225-2252 | Draining is independent of where the stream was cut: draining early and then the rest gives the same packets and the same remainder. |
| Mqtt.DrainsAll | rust/firmware/esp32s3/src/main.rs:2225-2237 | Any list of valid packets of at most 1024 bytes, followed by anything, drains to that list. |
| Mqtt.DrainRecovers | rust/firmware/esp32s3/src/main.rs:2225-2252 | Whatever part of a packet stream has arrived, the drained packets are a prefix of those sent and fewer than 1024 bytes remain. |
| Mqtt.HeadDelivered | rust/firmware/esp32s3/src/main.rs:3417-3429 | A leading packet is delivered if and only if it has at most 1024 bytes; a longer one blocks the stream. |
| Mqtt.StreamDelivered | rust/firmware/esp32s3/src/main.rs:3417-3429 | All packets of a stream are delivered if and only if none has more than 1024 bytes. |
| Mqtt.DrainInbound | rust/firmware/esp32s3/src/main.rs:2225-2237 | The drain loop takes every whole packet and leaves the remainder. |
| Mqtt.RoomToRead | rust/firmware/esp32s3/src/main.rs:2246-2252 | After draining there is always room for another 512-byte read in the 2048-byte buffer. |
| Mqtt.ReceiveLoop | rust/firmware/esp32s3/src/main.rs:2225-2252 | For every split into reads of 1 to 512 bytes: the packets are those of all bytes that arrived; the loop ends only when a read fails, the peer closes or a read does not fit, and a stream of valid small packets never overflows the buffer. |
| Mqtt.WaitForPacket | rust/firmware/esp32s3/src/main.rs:3431-3446 | The packet returned is the first of everything that arrived and the rest stays buffered; without a failed read it gives up only when no packet is complete and the stream has ended or passes the buffer. |
| Mqtt.FirstTaken | rust/firmware/esp32s3/src/main.rs:3417-3446 | So, however reads split it, the first packet of a stream of valid packets that holds it whole is what is taken, as soon as it has arrived. |
| Mqtt.TakenByThen | rust/firmware/esp32s3/src/main.rs:3417-3446 | Once 1024 bytes hold no packet that can be taken, later bytes bring none. |
| MqttPublish.EncodeUtf8 | rust/firmware/esp32s3/src/main.rs:3172-3180 | A two-byte big-endian length and the text, if both fit. |
| MqttPublish.BuildPublish | rust/firmware/esp32s3/src/main.rs:3239-3253 | A packet is built if and only if body and header fit 768 bytes, and is the wire form of the PUBLISH packet (section 3.3 of MQTT 3.1.1). |
| MqttPublish.PublishIsValid | rust/firmware/esp32s3/src/main.rs:3239-3253 | Every built packet has a well-formed length field that states its body length. |
| MqttPublish.KindSays | rust/firmware/esp32s3/src/main.rs:3239-3253 | The first byte says PUBLISH, QoS 0, no duplicate, and the retain bit as asked for (section 3.3.1 of MQTT 3.1.1). |
| MqttPublish.TopicBuilt | rust/firmware/esp32s3/src/main.rs:3239-3253 | The topic stands in the packet whole, behind its own length. |
| MqttPublish.ExtractPayload | rust/crates/espwaverider-core/src/mqtt.rs:35-63 | The extractor as written, including the QoS packet id, short packets and the UTF-8 check. |
| Utf8.ValidExactly | rust/crates/espwaverider-core/src/mqtt.rs:61-62 | The texts accepted are exactly the codes of sequences of Unicode scalar values (section 3 of RFC 3629). |
| MqttPublish.ExtractBuilt | rust/crates/espwaverider-core/src/mqtt.rs:35-63 | Extraction undoes building for every topic and UTF-8 payload that fit. |
| MqttPublish.PublishedIsReceived | rust/firmware/esp32s3/src/main.rs:2225-2252 | Node to node: the payloads extracted from a stream of published messages are the messages in order, all of them once the stream is complete. |
| Ota.EraseCovers | rust/firmware/esp32s3/src/main.rs:3866-3887 | What is erased is the least whole number of blocks within the partition that covers the announced image. |
| Ota.PartitionWriter.Open | rust/firmware/esp32s3/src/main.rs:3866-3887 | A writer exists only over an erased range, and always over reliable flash. |
| Ota.PartitionWriter.WriteChunk | rust/firmware/esp32s3/src/main.rs:3889-3924 | For any split into chunks the bytes fed so far are the words programmed followed by the 0 to 3 held back; over reliable flash it fails only when they pass the partition. |
| Ota.PartitionWriter.Finish | rust/firmware/esp32s3/src/main.rs:3926-3939 | Flash then holds the image padded with 0xFF to a whole word, the byte counter is the image length and nothing is held back. |
| Ota.LaidOutInOrder | rust/firmware/esp32s3/src/main.rs:3889-3939 | Every write is word-aligned, carries its own stretch of the image, and ends before the next begins. |
| Ota.LaidOutWhole | rust/firmware/esp32s3/src/main.rs:3889-3939 | Every byte of the padded image is covered by some write. |
| Ota.ImageOnFlash | rust/firmware/esp32s3/src/main.rs:3866-3939 | An image no longer than the erased range is on the flash to the last byte. |
| Ota.WritesInside | rust/firmware/esp32s3/src/main.rs:3889-3939 | And none of its writes passes that range. |
| Ota.EmitKeeps | rust/firmware/esp32s3/src/main.rs:3889-3924 | Programming the next words keeps the account: the partition as it was found, with everything written so far burned in from offset 0. |
| Ota.BurnedHolds | rust/firmware/esp32s3/src/main.rs:3889-3924 | Over the erased range the data is held as it is, and the rest of that range stays erased. |
| HttpDownload.FindTerminator | rust/firmware/esp32s3/src/main.rs:4311-4344 | The scan finds the first blank line, or none exists. |
| HttpDownload.ReadHeader | rust/firmware/esp32s3/src/main.rs:4311-4381 | However reads split the stream, the header end found is the true one and the bytes read along with it are kept; none is reported only when no header ends within the buffer. |
| HttpDownload.HeaderEndUnique | rust/firmware/esp32s3/src/main.rs:4311-4381 | A stream has at most one header end. |
| HttpDownload.ReceiveHttpBody | rust/firmware/esp32s3/src/main.rs:4112-4135 | The prefix and all further bytes are written once, in order. |
| HttpDownload.ReceiveHttpsBody | rust/firmware/esp32s3/src/main.rs:4218-4271 | The deferred prefix and the clamp write the body up to the announced length. |
| HttpDownload.ClampExact | rust/firmware/esp32s3/src/main.rs:4228-4271 | The clamp is exact if and only if the bytes read with the header do not already pass the announced length. |
| HttpHeader.ParseResponseHeader | rust/firmware/esp32s3/src/main.rs:4383-4429 | The parser with its loop agrees with the reference reader on every header: text that is UTF-8 and has a status as its second word, the last length and the last location in it; anything else is refused. |
| HttpHeader.ReadFields | rust/firmware/esp32s3/src/main.rs:4405-4420 | The loop over the lines takes the last content-length line, even if its value is no number, and the last location line. |
| HttpHeader.HeaderRead | rust/firmware/esp32s3/src/main.rs:4383-4429 | A header printed with any status, reason and fields is read back: its status, its last content length, its last location. |
| Texts.SameLettersExactly | rust/firmware/esp32s3/src/main.rs:4415-4420 | Header names are compared letter by letter, whatever their case. |
| Texts.TrimsAround | rust/firmware/esp32s3/src/main.rs:4414-4414 | Trimming takes away the white space at both ends, and nothing else. |
| HttpDownload.Judge | rust/firmware/esp32s3/src/main.rs:4102-4156 | The branch taken is the one the parsed header calls for, and no failure of network or flash. |
| HttpDownload.AnswerLeadsTo | rust/firmware/esp32s3/src/main.rs:4102-4156 | What every answer leads to: 200 to staging or to the refusal of an announced length above the partition; 301, 302, 303, 307 and 308 to the address of their location, or to the refusal of a missing, unparsable or other-scheme one; 404, 429 and all others to theirs. |
| HttpDownload.Download | rust/firmware/esp32s3/src/main.rs:4102-4135 | For every split of the response, on either path: the outcome is the one the header calls for, and over a reliable network and flash there is no other but an image that passes the partition; a staged image leaves on the partition its earlier contents, erased as announced, with the written part of the body programmed from offset 0; a refusal or redirect leaves it untouched. |
| HttpDownload.Fetch | rust/firmware/esp32s3/src/main.rs:4078-4156 | The whole loop of at most four requests: each address is the one the answer before it redirects to, the outcome is what the last answer calls for, an unreachable server or the redirect limit, and nothing is written before the answer that is staged. |
| Redirects.RedirectFollowed | rust/firmware/esp32s3/src/main.rs:4136-4147 | A response printed with any redirect status, reason and fields, whose last Location is an address, is followed there if it keeps the scheme and refused if it does not. |
| Redirects.KeepsToPath | rust/firmware/esp32s3/src/main.rs:4078-4156 | A download keeps to the path that the answers lead along. |
| Redirects.RedirectedImage | rust/firmware/esp32s3/src/main.rs:4078-4156 | Over a reliable network and flash, the image behind at most three redirects is staged and ends up on the partition whole, on either path. |
| StagedImage.StagesAnnounced | rust/firmware/esp32s3/src/main.rs:4102-4135 | The number of bytes staged is the announced one if and only if the body was not cut short and, where it is not clamped, not too long; the partition then holds the announced image. |
| StagedImage.WholeWhenErased | rust/firmware/esp32s3/src/main.rs:3866-3939 | What does not pass the announced length stands on the flash whole. |
| StagedImage.WholeExactly | rust/firmware/esp32s3/src/main.rs:3889-3939 | In general it does if and only if the cells beyond the erased range could still take it. |
| StagedImage.ShortBodyStaged | rust/firmware/esp32s3/src/main.rs:4121-4135 | Any body shorter than a 200 response announced is staged as it is, over HTTP and HTTPS; over a reliable network and flash always. |
| StagedImage.LongBodyStaged | rust/firmware/esp32s3/src/main.rs:4121-4135 | Any body longer than announced is staged whole over HTTP. |
| StagedImage.UsualAnnounces | rust/firmware/esp32s3/src/main.rs:4383-4429 | The header "HTTP/1.1 200 OK" with a Content-Length line is such a response, for every length that fits 32 bits. |
| StagedImage.LiteralAnnounces | rust/firmware/esp32s3/src/main.rs:4383-4429 | So is its literal text for two bytes. |
| StagedImage.ShortResponse | rust/firmware/esp32s3/src/main.rs:4121-4135 | That text followed by one byte is staged, on either path. |
| StagedImage.LongResponse | rust/firmware/esp32s3/src/main.rs:4121-4135 | That text followed by three bytes is staged over HTTP. |
| StagedImage.ExactBodyOnFlash | rust/firmware/esp32s3/src/main.rs:4102-4135 | A body of exactly the announced length that fits the partition ends up on it whole. |
| FirmwareUpdate.ExtractSha256Hex | src/main.cpp:3325-3349 | The first run of 64 hexadecimal digits, lower-cased, or nothing if there is none. |
| FirmwareUpdate.LookUpChecksum | src/main.cpp:3410-3433 | The checksum found is the first digest in the first digest field after the asset name; an error means there is none, and each error names what is missing. |
| FirmwareUpdate.FirstDigestUnique | src/main.cpp:3325-3349 | A value has at most one first digest. |
| ReleaseListing.Searches | src/main.cpp:3410-3420 | A search in a printed listing stops at the first field with the key and the text sought, and nowhere inside any other field. |
| ReleaseListing.DigestTaken | src/main.cpp:3410-3433 | Over every release and every list of assets, the value taken for an asset is the digest of the first entry that has one, from the asset's own entry on; if none has, no value is taken. |
| ReleaseListing.NotListed | src/main.cpp:3410-3414 | For an asset that is not listed no value is taken. |
| ReleaseListing.OwnDigestExactly | src/main.cpp:3410-3433 | The value is the asset's own digest if and only if its entry has one or no later entry has one either. |
| ReleaseListing.GenuineAccepted | src/main.cpp:3410-3433 | For an asset whose entry carries the digest of an image exactly the text computed from the image is accepted. |
| ReleaseListing.OthersAccepted | src/main.cpp:3410-3433 | A release with an asset whose digest is null, followed by another asset: the other's digest is accepted for the first. |
| FirmwareUpdate.HexTextInjective | src/main.cpp:3522-3529 | Equal digest texts mean equal digests. |
| FirmwareUpdate.HexDigitsAre | src/main.cpp:3325-3349 | The digits looked for are those the digest is computed in, in either case. |
| FirmwareUpdate.DownloadAndApply | src/main.cpp:3436-3550 | The update is finalised if and only if it is reported applied; then the bytes flashed are the bytes received and hashed, their number is the content length and their digest the expected one. Every failure after begin aborts, each failure has its cause, and an expected image that nothing stands in the way of is applied. |
| FirmwareUpdate.ReceiveImage | src/main.cpp:3475-3508 | The loop hashes and writes every byte read; it stops early only on 15 s of silence, a refused write, or a closed connection. |
| FirmwareUpdate.SyncQueue.RequestUpdate | src/main.cpp:3584-3621 | A busy or unusable request changes neither the target nor what is pending. |
| FirmwareUpdate.SyncQueue.TakePending | src/main.cpp:3623-3632 | Pending and in progress are never both set. |
| FirmwareUpdate.SyncQueue.Run | src/main.cpp:3623-3732 | A service run always ends idle; it succeeds only over an image whose digest is the one the release text publishes for the target asset, and does succeed when nothing stands in the way of one. |
| Radar.ScanIsGreedy | src/main.cpp:4249-4281 | The scan takes the leftmost windows that do not overlap, and misses none but those inside a taken one. |
| Radar.GreedyIsScan | src/main.cpp:4249-4281 | That description has only one solution. |
| Radar.TryEmitEmbedded | src/main.cpp:4249-4281 | The loop returns the frames at the greedy positions and the number of bytes consumed. |
| Radar.TailHoldsNoFrame | src/main.cpp:4249-4281 | No further window starts in the retained tail. |
| Radar.FlushCovers | src/main.cpp:4676-4698 | Frames, skipped bytes and the retained tail are together the whole buffer. |
| Radar.AlignedScan | src/main.cpp:4249-4281 | In a frame-aligned buffer the scan takes every whole frame, on the 45-byte grid. |
| Radar.GridPieces | src/main.cpp:4249-4281 | Windows on the grid leave no bytes skipped. |
| Radar.FlushKeeps | src/main.cpp:4676-4698 | A flush keeps the account of all bytes received: nothing is dropped from an aligned stream while flushes are patient, and something has been once one was not. |
| Radar.PiecesEmit | src/main.cpp:4249-4281 | The frames the scan returns are exactly the frames of the account. |
| Radar.FramesAndRest | src/main.cpp:4676-4698 | Emitted frames and dropped bytes make up the account. |
| Radar.Uart.Flush | src/main.cpp:4676-4698 | Emits the greedy frames, moves the tail to the front in place, and leaves the buffer not full. |
| Radar.Uart.Receive | src/main.cpp:4700-4720 | One byte is stored below index 256, after a flush when the buffer was full. |
| Radar.Uart.ReadUart | src/main.cpp:4700-4720 | Over any batch of bytes the account is kept and nothing is flushed without cause; after an idle line no window is left in the buffer, and an aligned stream of whole frames has been handed on whole. |
| Radar.Uart.FlushIfNeeded | src/main.cpp:4676-4698 | Flushes exactly when the line is idle or the buffer full. |
| Radar.Uart.NothingDropped | src/main.cpp:4676-4720 | On an aligned stream without impatient flushes, the frames handed on followed by the buffered bytes are the bytes received. |
| Radar.Uart.DroppedExactly | src/main.cpp:4676-4720 | On an aligned stream that equation holds if and only if no flush found less than one frame. |
| Radar.ImpatientFlushDrops | src/main.cpp:4676-4698 | A flush of less than one frame drops every byte it found. |
| Radar.IdleMayLeaveMore | src/main.cpp:4676-4698 | After such a flush an idle line may leave a frame's worth in the buffer: an aligned stream that lost its first byte, of which 59 bytes stay. |
| RadarFrame.TryParseEnergyFrame | rust/crates/espwaverider-core/src/radar.rs:71-96 | Accepts exactly the data with header, footer and 45 bytes or more, and reads its fields. |
| RadarFrame.EncodedSays | rust/crates/espwaverider-core/src/radar.rs:71-96 | An encoded frame is accepted and says what it was made of. |
| RadarFrame.ParseEncoded | rust/crates/espwaverider-core/src/radar.rs:71-96 | Parsing an encoded frame gives the frame. |
| RadarFrame.EncodeOfParsed | rust/crates/espwaverider-core/src/radar.rs:71-96 | Encoding what was parsed gives the bytes back if and only if there are 45 of them and the presence byte is 0 or 1. |
| RadarFrame.EnergyIsNeverText | rust/crates/espwaverider-core/src/radar.rs:51-69 | No data is both an energy and a text frame, so the order of the parsers does not matter. |
| RadarFrame.TextishExactly | rust/crates/espwaverider-core/src/radar.rs:131-142 | What is not text: controls other than tab, newline and return, and everything above 126. |
| Recency.HearKeeps | rust/crates/espwaverider-core/src/ble.rs:60-114 | Refreshing an entry or taking a free place keeps the table faithful to the unbounded log. |
| Recency.EvictKeeps | rust/crates/espwaverider-core/src/ble.rs:60-114 | Replacing the oldest entry does too. |
| Recency.PruneKeeps | rust/firmware/esp32s3/src/main.rs:1327-1328 | So does dropping everything older than the freshness window. |
| Recency.ActiveCount | rust/crates/espwaverider-core/src/ble.rs:43-46 | A faithful table of n places shows min(n, distinct keys heard within the window) active entries. |
| Ble.NormalizedTwice | rust/crates/espwaverider-core/src/ble.rs:48-58 | Normalising an identity twice is normalising it once. |
| Ble.NormalizedOne | rust/crates/espwaverider-core/src/ble.rs:48-58 | Hexadecimal digits stay, in small letters; anything else goes. |
| Ble.NormalizeIdentity | rust/crates/espwaverider-core/src/ble.rs:48-58 | The loop computes the normalised identity. |
| Ble.FindSlot | rust/crates/espwaverider-core/src/ble.rs:74-91 | The slot of the address, else a free one, else the one heard longest ago. |
| Ble.RecordAdvertisement | rust/crates/espwaverider-core/src/ble.rs:60-114 | Only that slot changes, and only the tags that match and are strong enough. |
| Ble.RecordKeepsFaithful | rust/crates/espwaverider-core/src/ble.rs:60-114 | Recording keeps the slots faithful to the log: distinct addresses, last times, and only the oldest lost. |
| Ble.BleState.Record | rust/crates/espwaverider-core/src/ble.rs:60-114 | Over every run with non-decreasing time the state stays faithful. |
| Ble.SightingsKept | rust/crates/espwaverider-core/src/ble.rs:60-114 | Every sighting repeats what the last advertisement from its address said. |
| Ble.HeedKeeps | rust/crates/espwaverider-core/src/ble.rs:101-114 | A tag shows the last advertisement that is from its address and strong enough. |
| Ble.BleState.ConfigureTag | rust/firmware/esp32s3/src/main.rs:1774-1793 | A tag needs a label and an address, its limit is held to -120..-20, and nothing heard before counts. |
| Ble.BleState.ClearTag | rust/firmware/esp32s3/src/main.rs:1795-1802 | A cleared tag is empty; the others stay. |
| Ble.BleState.TagHeard | rust/crates/espwaverider-core/src/ble.rs:37-41 | A tag is present if and only if an advertisement that counts for it was heard in the last 45 s and since it was configured. |
| Ble.BleState.ActiveBeaconCount | rust/firmware/esp32s3/src/main.rs:2000-2006 | The count is min(slots, distinct addresses heard within 30 s). |
| AdStructures.Cursor.Next | rust/crates/espwaverider-core/src/ble.rs:165-187 | One step of the cursor yields the next structure, and none at the end, at a zero length or at a truncated one. |
| AdStructures.ReadsSent | rust/crates/espwaverider-core/src/ble.rs:165-187 | Every list of structures put on the air is read back, whatever follows. |
| AdStructures.ExtractLocalName | rust/crates/espwaverider-core/src/ble.rs:116-138 | The first complete name of scan response and advertisement, else the first shortened one. |
| AdStructures.CompleteNameFound | rust/crates/espwaverider-core/src/ble.rs:116-138 | A complete name is found behind any structures of other kinds, shortened names included. |
| Peers.StoreKeeps | rust/firmware/esp32s3/src/main.rs:1261-1329 | Storing a peer keeps the invariant of the table: at most 12, distinct, never the node itself, faithful to the log. |
| Peers.PruneKeepsHealthy | rust/firmware/esp32s3/src/main.rs:2995-3024 | Pruning keeps it. |
| Peers.RetainTable | rust/firmware/esp32s3/src/main.rs:1327-1328 | Pruning drops exactly the peers outside the 20 s window. |
| Peers.StoredSurvives | rust/firmware/esp32s3/src/main.rs:1261-1329 | A peer just stored is never the one dropped. |
| Peers.PeerState.Store | rust/firmware/esp32s3/src/main.rs:1261-1398 | Refresh in place, push, or evict the oldest and push. |
| Peers.PeerState.SyncDiscoveryPeer | rust/firmware/esp32s3/src/main.rs:1261-1329 | A discovery packet of another node is stored and the table pruned; anything else changes nothing. |
| Peers.PeerState.SyncRoomSummaryPeer | rust/firmware/esp32s3/src/main.rs:1331-1398 | A room summary of another node is stored; anything else changes nothing. |
| Peers.PeerState.NeverSelf | rust/firmware/esp32s3/src/main.rs:1261-1398 | The node is never its own peer. |
| Peers.PeerState.Prune | rust/firmware/esp32s3/src/main.rs:2995-3024 | Keeps the active peers and only them. |
| Peers.PeerState.ActivePeerCount | rust/firmware/esp32s3/src/main.rs:934-954 | Over every interleaving the count is min(12, distinct ids heard within 20 s). |
| Presence.TrailingMeaning | src/main.cpp:4726-4776 | The number of misses since the last hit. |
| Presence.HitsSinceReleaseMeaning | src/main.cpp:4726-4776 | The number of hits since the last run of 80 misses. |
| Presence.HitKeeps | src/main.cpp:4741-4758 | A hit keeps the counters equal to min(4, hits since release) and min(80, misses since hit), and active equal to four hits reached. |
| Presence.MissKeeps | src/main.cpp:4744-4758 | So does a miss, including the releasing one. |
| Presence.SpacedApart | src/main.cpp:4726-4733 | Samples i and j are at least 25 (j - i) ms apart. |
| Presence.ReleasesOnce | src/main.cpp:4744-4758 | The run of misses that ended the last activity is unique. |
| Presence.DecayMeaning | src/main.cpp:2332-2350 | Hold time is left exactly while the last detection is less than the configured hold ago, taken as 3 s below that and as 60 s above a minute; and how much. |
| Presence.PresentExactly | src/main.cpp:4741-4762 | Presence over the whole history: four hits without eighty misses in between, or an activity whose 79th releasing miss is less than the hold ago. |
| Presence.ActivityForgets | src/main.cpp:4744-4758 | Once detection is active again, no earlier release justifies a fall. |
| Presence.FallsLate | src/main.cpp:2332-2350 | A fall comes at least 79 * 25 + 3000 ms after the hit before the run that ended the last activity. |
| Presence.Monitor.Poll | src/main.cpp:4728-4776 | Polls within 25 ms change nothing; every other one reports presence as the history and the configured hold call for, and a change exactly when there is one. Presence falls only long after the last hit. |
| WebSocket.Client.Write | src/websocket_mqtt_client.cpp:59-88 | All or nothing and in order; refused only when the bytes did not fit and a frame was refused; frames are sent only when they must be, and with what was pending first. |
| WebSocket.Client.WriteByte | src/websocket_mqtt_client.cpp:48-57 | One byte is accepted unless the buffer is full and its frame refused; no frame is sent before the buffer is full. |
| WebSocket.Client.FlushPendingFrame | src/websocket_mqtt_client.cpp:188-203 | Sends the whole pending frame or keeps it; refused only without a connection or by the library. |
| WebSocket.Client.AppendRx | src/websocket_mqtt_client.cpp:163-186 | The receive buffer is the longest suffix of at most 2048 bytes of what was unread and what arrived. |
| WebSocket.NewestKept | src/websocket_mqtt_client.cpp:163-186 | Truncating the payload and then the buffer gives the suffix of both together. |
| WebSocket.WindowKeeps | src/websocket_mqtt_client.cpp:163-186 | While unread bytes never passed 2048, delivered followed by unread is everything received. |
| WebSocket.Client.Read | src/websocket_mqtt_client.cpp:101-115 | Takes the oldest unread bytes; the rest stays in order. |
| WebSocket.Client.Stop | src/websocket_mqtt_client.cpp:125-131 | Both buffers are emptied. |
| Json.JsonFieldString | src/string_utils.cpp:101-150 | The scanner as a loop: first key match, then an unescaped text or a bare value. |
| Json.EscapedQuotesGuarded | src/string_utils.cpp:17-43 | In escaped text every quote follows a backslash. |
| Json.TextComesBack | src/string_utils.cpp:17-150 | Scanning an escaped text up to its closing quote gives the text the printer kept. |
| Json.RecoveredExactly | src/string_utils.cpp:17-43 | A text comes back unchanged if and only if it was printed by the Rust firmware or has no control characters but newline, return and tab. |
| JsonScan.NoMatchInField | src/string_utils.cpp:101-112 | A key pattern matches inside a printed field only at its start and only for its own key, whatever the value holds. |
| JsonScan.FindsField | src/string_utils.cpp:101-112 | The search for a key stops at that key's value. |
| JsonScan.ReadBack | src/string_utils.cpp:101-150 | Every field of a printed flat object is read back, under either printer. |
| JsonScan.AbsentReadsEmpty | src/string_utils.cpp:101-107 | A key the object lacks reads as the empty string. |
| JsonScan.SignedReadsBack | src/string_utils.cpp:152-158 | A printed number converts back to itself, held to 32 bits. |
| JsonScan.NumberReadBack | src/string_utils.cpp:152-158 | An integer field is read back if and only if it is in the signed 32-bit range. |
| JsonScan.NoNumberFallsBack | src/string_utils.cpp:152-158 | A number that is absent or null is what the caller falls back to. |
| RustReader.TextRead | rust/firmware/esp32s3/src/main.rs:3532-3540 | The Rust reader returns the printed text up to its first quote, escapes included. |
| RustReader.RawExactly | rust/firmware/esp32s3/src/main.rs:3532-3540 | That is the text sent if and only if it holds nothing that is escaped or blotted out. |
| RustReader.NumberRead | rust/firmware/esp32s3/src/main.rs:3542-3558 | A printed number is read if and only if it fits the type asked for. |
| Decimals.ParsesWithSign | rust/firmware/esp32s3/src/main.rs:3542-3558 | Texts of digits parse to their value in the range of the type, with a plus sign too, and with a minus sign only for signed types. |
| RustReader.AnnouncementReadExactly | rust/firmware/esp32s3/src/main.rs:1261-1297 | A Rust node reads an announcement of either firmware as it was meant if and only if no text needs escaping and every number fits its machine type. |
| Discovery.Hear | rust/firmware/esp32s3/src/main.rs:1261-1329 | After the text of an announcement arrives the table holds one record under the announced id, just seen, which says what was announced if and only if no text needs escaping and every number fits; the other records were there before; nameless ones and one's own change nothing. |
| Discovery.HearSummary | rust/firmware/esp32s3/src/main.rs:1331-1398 | After a room summary the table holds one record of the node, with its place, room, role, version and target as it says and everything else as it was. |
| Announcement.SplitDigits | rust/firmware/esp32s3/src/main.rs:3472-3486 | Ten places suffice for the digits of any u32. |
| Announcement.AppendU32 | rust/firmware/esp32s3/src/main.rs:3472-3491 | Appends the decimal text, if it fits. |
| Announcement.AppendI32 | rust/firmware/esp32s3/src/main.rs:3497-3504 | Appends the signed decimal text, if it fits. |
| Announcement.PushJsonStringField | rust/firmware/esp32s3/src/main.rs:3510-3530 | Appends the escaped field, if it fits. |
| Announcement.PrintFlat | rust/firmware/esp32s3/src/main.rs:3026-3058 | Prints the whole object if and only if it fits the buffer. |
| Announcement.BuildPayload | rust/firmware/esp32s3/src/main.rs:3026-3058 | The announcement exists if and only if it fits 384 bytes. |
| Announcement.AnnouncementHeard | src/main.cpp:1720-1763 | A C++ node hears every announcement of either firmware but nameless ones and its own, and keeps the sender's fields. |
| Announcement.DeliveredExactly | src/main.cpp:1658-1672 | The record is the sender's if and only if no text loses a character, every number fits 32 signed bits, and a missing address is not filled in. |
| Percent.PercentDecode | src/string_utils.cpp:45-76 | The loop decodes every valid escape, turns plus into a space and keeps the rest, bad escapes included. |
| Percent.HexValueExactly | src/string_utils.cpp:55-61 | Hexadecimal digits of either case count, and nothing else. |
| Percent.DecodesEncoded | src/string_utils.cpp:45-76 | Every byte string is decoded from its percent-encoding (section 2.1 of RFC 3986). |
| Percent.DecodesToItself | src/string_utils.cpp:45-76 | A text is its own decoding if and only if it holds no plus and no whole escape; bad escapes are kept. |
| Percent.EncodesOne | include/generated_visualizer_page.h:3137-3148 | Letters, digits and nine marks are left alone; every other byte is a percent sign and its two hexadecimal digits. |
| Percent.SplitConfigFields | src/string_utils.cpp:78-99 | The array holds the decoded first fields of the payload, then empty ones. |
| Percent.SplitsJoined | include/generated_visualizer_page.h:3137-3148 | Joining pieces without a bar and splitting gives the pieces. |
| Percent.CommandArrives | include/generated_visualizer_page.h:3137-3148 | Every field of an encoded, joined command arrives as it was. |
| Metrics.PeakMeaning | rust/crates/espwaverider-core/src/metrics.rs:167-179 | The dominant gate is the first loudest one, or -1 when all are silent. |
| Metrics.RunCountMeaning | rust/crates/espwaverider-core/src/metrics.rs:187-199 | The cluster counter is the number of maximal runs of active gates. |
| Metrics.ScanPeak | rust/crates/espwaverider-core/src/metrics.rs:173-179 | Sum, peak and position; the sum fits 32 bits. |
| Metrics.CountActive | rust/crates/espwaverider-core/src/metrics.rs:187-199 | Active gates and clusters; both counters stay in range. |
| Metrics.LoudPeakHasRun | rust/crates/espwaverider-core/src/metrics.rs:181-210 | There is a run if and only if the peak reaches 25, so the floor of one person matters only for quiet frames. |
| Metrics.ApplyEnergyMetrics | rust/crates/espwaverider-core/src/metrics.rs:167-219 | The estimate is runs plus bonus, capped at four, zero without presence. |
| Metrics.BuildMetrics | rust/crates/espwaverider-core/src/metrics.rs:75-95 | The metrics of every frame, text and pin included, zero people on clutter, every counter in its range. |
| Metrics.ThresholdFallsExactly | rust/crates/espwaverider-core/src/metrics.rs:155-159 | The energy threshold falls as sensitivity rises if and only if the setting is at most 46811. |
| Metrics.CandidateExactly | rust/crates/espwaverider-core/src/metrics.rs:108-153 | The decision is Candidate if and only if the reading is valid, near, active, and for energy frames loud and not clutter; the people estimate plays no part. |
| Metrics.StaysCandidate | rust/crates/espwaverider-core/src/metrics.rs:108-153 | With an uncut threshold, or without an energy frame, a candidate stays one when sensitivity rises, whatever its metrics. |
| Metrics.BlindToEnergy | rust/crates/espwaverider-core/src/metrics.rs:108-153 | A maximum range below 35 cm or more than sixteen required gates rejects every energy frame. |
| Metrics.SensitivityHelpsExactly | rust/firmware/esp32s3/src/main.rs:1467-1478 | Over all frames, with the metrics built from them, raising the sensitivity never loses a candidate if and only if the setting is at most 46811 or the tuning rejects every energy frame. |
| Metrics.LosesCandidate | rust/firmware/esp32s3/src/main.rs:1467-1478 | For every other tuning, a 45-byte frame whose own metrics are a candidate at 10 percent and low energy at 100. |
| Clutter.ClutterExactly | rust/crates/espwaverider-core/src/metrics.rs:238-289 | A frame looks like clutter if and only if its loudest gate is one of the nearest two, the reported distance lies 105 cm behind it, and the first three gates hold 55 percent or the loudest holds 45 percent and beats the gates around that distance. |
| Clutter.ReasonExactly | rust/crates/espwaverider-core/src/metrics.rs:108-153 | The first test that fails names the reason, and every rejection has one. |
| Clutter.EffectiveSettings | rust/crates/espwaverider-core/src/metrics.rs:155-165 | From 10 to 100 percent a setting counts (150 - sensitivity) percent, outside as at the ends; the energy is cut to 16 bits. |
| Clutter.ActiveExactly | rust/crates/espwaverider-core/src/metrics.rs:181-199 | A gate is active when it reaches 25 and a fifth of the loudest. |
| Clutter.ScoreExactly | rust/crates/espwaverider-core/src/metrics.rs:215-218 | The activity score and its cap. |
| Clutter.LoudExactly | rust/crates/espwaverider-core/src/metrics.rs:137-143 | Loud enough is the loudest gate alone or all gates as much as is asked for together. |
| RoomFusion.RunningMean | src/main.cpp:2137-2139 | The incremental update is the exact mean of the members. |
| RoomFusion.GroupsPartition | src/main.cpp:2132-2149 | Every placed point is in exactly one group. |
| RoomFusion.ClusterTable.Place | src/main.cpp:2132-2149 | A point joins the first cluster within 110 cm or opens one; the table never fills. |
| RoomFusion.IsGhost | src/main.cpp:2119-2130 | A detection is a ghost if and only if it is within 80 cm of another node's sensor. |
| RoomFusion.ClusterTable.AddDetection | src/main.cpp:2088-2150 | Each report is placed, rejected or counted as unresolved, and the unresolved counter saturates at 255. |
| RoomFusion.FatesAddUp | src/main.cpp:2088-2150 | Placed, rejected and distance-less reports add up to all reports. |
| RoomFusion.PeopleConserved | src/main.cpp:2088-2150 | The people reported are the extras, the rejected reports and the placed points. |
| RoomFusion.BuildRoomMetrics | src/main.cpp:2049-2194 | The fused estimate and counters are those of the nodes that count. |
| RoomFusion.EstimateBounds | src/main.cpp:2189-2191 | The estimate is between the peak node count and min(255, sum), and positive if and only if a counted node is a candidate. |
| RoomFusion.FusionAccount | src/main.cpp:2189-2191 | Clusters and extras never exceed the people reported, with equality if and only if nothing was rejected or merged. |
| RoomSense.NearIsDistance | src/main.cpp:2119-2149 | Near means a distance of at most the radius. |
| RoomSense.CountedExactly | src/main.cpp:2070-2075 | On a 32-bit clock that wraps around, a slot counts if it was written at most 15 s ago. |
| RoomSense.PlacedExactly | src/main.cpp:2105-2130 | A report is placed if and only if it has a distance, points at most 80 cm outside the room, and lies more than 80 cm from every other node. |
| RoomSense.Vouches | src/main.cpp:2053-2056 | A node that sees a candidate vouches for what it counted, at least one. |
| RoomSense.LoneNode | src/main.cpp:2189-2191 | What a node on its own reports is what it counted. |
| RoomSense.NobodyOverlooked | src/main.cpp:2189-2191 | The estimate is never below what any node that sees a candidate counted. |
| RoomSense.TwoNodes | src/main.cpp:2088-2150 | Two nodes that each see one person are counted as two if and only if both reports are placed, more than 110 cm apart. |
| Versions.SemanticVersionCore | rust/crates/espwaverider-core/src/release.rs:26-61 | The cursor loops find the version core exactly when the text contains one. |
| Versions.CoreExact | rust/crates/espwaverider-core/src/release.rs:26-61 | The core is exactly what the trimmed text contains. |
| Versions.CoreIdempotent | rust/crates/espwaverider-core/src/release.rs:26-61 | Extracting the core of a core gives the core. |
| Versions.CompareVersions | rust/firmware/esp32s3/src/main.rs:3597-3631 | The three-part loop decides the order of the releases. |
| Versions.CompareIsPreorder | rust/firmware/esp32s3/src/main.rs:3597-3631 | The comparison is reflexive, antisymmetric in sign, and transitive, strictly where either side is. |
| Versions.CompareCores | rust/firmware/esp32s3/src/main.rs:3597-3631 | Only the cores matter. |
| VersionTexts.CoreOfWritten | rust/crates/espwaverider-core/src/release.rs:26-61 | White space around, a v in front and anything but a digit behind three numbers change nothing: the core is the three numbers. |
| VersionTexts.RankOfWritten | rust/firmware/esp32s3/src/main.rs:3597-3631 | A written version ranks as its major, minor and patch, in this order; a number above 32 bits counts as 0. |
| VersionTexts.OrderOfWritten | rust/firmware/esp32s3/src/main.rs:3597-3631 | The order of written versions is that of their numbers, major first. |
| VersionTexts.WrittenIsAbove | rust/firmware/esp32s3/src/main.rs:3597-3631 | Any written version is above a text that holds none. |
| Versions.HighestPeer | rust/firmware/esp32s3/src/main.rs:977-1012 | The chosen peer is the first maximum over the fresh peers of the same build target. |
| Versions.SourceExactly | rust/firmware/esp32s3/src/main.rs:997-1005 | The version came with a room summary if and only if one came in the last 20 s. |
| Mesh.StepKeepsRooted | rust/firmware/esp32s3/src/main.rs:1082-1110 | A sync step never lowers a version nor brings in one that was not there at the start. |
| Mesh.StepCosts | rust/firmware/esp32s3/src/main.rs:1082-1110 | Every step decreases a measure. |
| Mesh.RunsAreShort | rust/firmware/esp32s3/src/main.rs:1082-1110 | A run over n nodes has at most n * n steps. |
| Mesh.QuietIffLevel | rust/firmware/esp32s3/src/main.rs:1082-1110 | A fully visible mesh has no sync left to do if and only if all nodes of each build target run the same release. |
| Mesh.InstallIsSync | rust/firmware/esp32s3/src/main.rs:1082-1110 | Installing the core of the best visible version is such a step. |
| Mesh.ChosenIsBest | rust/firmware/esp32s3/src/main.rs:977-1012 | If the fresh peers of a node tell the targets and versions of other devices, the peer chosen from the table is one of the best the node sees. |
| Mesh.SyncsToHighest | rust/firmware/esp32s3/src/main.rs:1082-1110 | So installing what the search of the table returns is a step of the mesh if it is above the node's own version, and otherwise the node has no step to take. |
| ReleaseUrl.PrintParse | rust/crates/espwaverider-core/src/release.rs:128-168 | Printing and parsing an address give it back if and only if it can be asked for at all. |
| ReleaseUrl.ParsedIsValid | rust/crates/espwaverider-core/src/release.rs:128-168 | What a parsed address looks like. |
| ReleaseUrl.UsualPort | rust/crates/espwaverider-core/src/release.rs:128-168 | Without a port it is 80 for http and 443 for https. |
| ReleaseUrl.AssetUrlParses | rust/crates/espwaverider-core/src/release.rs:77-102 | Every asset address the firmware builds is parsed into github.com, port 443 and the asset's path. |
| MqttHandoff.AdvancedOnce | rust/firmware/esp32s3/src/main.rs:1432-1434 | One mark advances the generation by one, skipping 0. |
| MqttHandoff.SameGeneration | rust/firmware/esp32s3/src/main.rs:1432-1434 | Two generations agree if and only if the marks between them are a multiple of 2^32 - 1. |
| MqttHandoff.AgreedMeans | rust/firmware/esp32s3/src/main.rs:2945-2953 | Matching counters mean that the last configuration sent is that of the current settings. |
| MqttHandoff.ConfigTells | rust/firmware/esp32s3/src/main.rs:1443-1455 | What the task is told: every setting in its own field, enabled only with a network, a broker and an identity, texts that are too long left out. |
| MqttHandoff.EndpointExactly | rust/firmware/esp32s3/src/main.rs:5318-5323 | An endpoint asks for WebSockets if and only if it names one of four schemes. |
| MqttHandoff.NewestOfTail | rust/firmware/esp32s3/src/main.rs:2147-2152 | Taking the oldest command does not change what the task ends up with. |
| MqttHandoff.Handoff.ApplyRoomConfig | rust/firmware/esp32s3/src/main.rs:1680-1690 | Only the room changes, and the change is marked. |
| MqttHandoff.Handoff.ApplyHomeAssistantConfig | rust/firmware/esp32s3/src/main.rs:1692-1727 | The new settings with their defaults; the connection is dropped when they name no network. |
| MqttHandoff.Handoff.ApplyWebsocketConfig | rust/firmware/esp32s3/src/main.rs:1729-1741 | Only the transport flag changes, and the change is marked. |
| MqttHandoff.Handoff.ApplyEndpoint | rust/firmware/esp32s3/src/main.rs:1743-1761 | Fields left out keep their values, and the change is marked. |
| MqttHandoff.Handoff.Announce | rust/firmware/esp32s3/src/main.rs:2945-2953 | With room in the channel the current configuration is queued and the counters match; a full channel changes nothing. |
| MqttHandoff.Handoff.ProcessMqttRuntime | rust/firmware/esp32s3/src/main.rs:2945-2969 | The configuration is queued before the room summary, each as far as there is room; nothing is left to announce unless the channel was full. |
| MqttHandoff.Handoff.TaskReceive | rust/firmware/esp32s3/src/main.rs:2147-2152 | First in, first out, and the final configuration is unchanged. |
| MqttHandoff.Handoff.Perform | rust/firmware/esp32s3/src/main.rs:2935-2970 | Each step makes of the settings, the connection and the queue what it says, and nothing else. |
| MqttHandoff.Handoff.Run | rust/firmware/esp32s3/src/main.rs:2935-2970 | Every interleaving of commands, Wi-Fi changes, sends and task steps keeps the agreement and leaves the settings its steps call for. |
| MqttHandoff.Handoff.RunAndSettle | rust/firmware/esp32s3/src/main.rs:2147-2152 | After any run, once the task has read, the main loop has gone round and the task has read again, it has the configuration that the steps call for, unless the generation has gone all the way round since the last announcement. |
| MqttHandoff.Handoff.Synchronized | rust/firmware/esp32s3/src/main.rs:2945-2953 | When the counters match, the newest queued configuration, or else the task's own, is that of the current settings. |

## Left out

- Sockets, TLS, Wi-Fi, DNS, DHCP, NVS, LED and radio drivers: foreign calls, modelled as nondeterministic reads and failures or not at all.
- MQTT CONNECT, SUBSCRIBE, ping and reconnection; the inbound buffer is not cleared on reconnect, so the MQTT theorems are about one connection.
- `Mqtt.ReceiveLoop`: commands and keep-alive timers between reads are left out, since they do not touch the inbound buffer.
- `HttpDownload.Fetch`: name resolution, connecting and sending the request are one step that may fail; the candidate addresses tried in turn, and the activation of the staged image, are left out.
- `HttpHeader.ParseResponseHeader`: white space is ASCII white space; other Unicode spaces are not modelled.
- `ReleaseListing.DigestTaken`: the listing is compact JSON whose texts escape quotes, backslashes, newline, return and tab; nested objects and lists contribute their keys and punctuation, so lists of bare texts are not modelled.
- `FirmwareUpdate.DownloadAndApply`: SHA-256 is an arbitrary function of the bytes, and what each look at the connection finds is a parameter; the platform's own words in an error text are left out.
- `FirmwareUpdate.SyncQueue.Run`: the branch for a missing download address is not modelled; a pending request always has one.
- `Versions.SemanticVersionCore`: white space is ASCII white space; the trimming of other Unicode spaces is not modelled.
- `Versions.CompareVersions`: a version part that does not fit 32 bits counts as 0, as in the code.
- `Json.JsonFieldString`: texts contain no NUL; the platform's string search stops at one.
- `JsonScan.SignedReadsBack`: the platform's string-to-integer conversion is taken to saturate at 32 bits.
- `Announcement.PrintFlat`: the source appends its fixed fields one by one; here one loop goes over the list of fields.
- `Percent.CommandArrives`: fields are byte strings; the UTF-8 encoding of the dashboard's text into bytes is not modelled.
- `RoomFusion.BuildRoomMetrics`: positions are real numbers and the detection points are given; the sine and cosine projection and floating-point rounding are not modelled.
- `Presence.Monitor.Poll`: uptime below 2^32 ms; clock wrap-around is not modelled here or in the tables.
- `Ble.BleState.Record`: the log is only kept for advertisements with an address, which are the ones the code records.
- `Peers.PeerState.SyncDiscoveryPeer`: the payload is given with its fields extracted; `Discovery.Hear` puts the reader of an announcement's text before it.
- `Peers.PeerState.SyncRoomSummaryPeer`: the payload is given with its fields extracted, and so is the test whether it looks like a room summary.
- `FirmwareUpdate.LookUpChecksum`: the request for the release text, and the message of an HTTP error, are not modelled.
- `MqttHandoff.Handoff.ProcessMqttRuntime`: the status and summary events it first drains are not modelled, as they do not touch the configuration.
- `MqttHandoff.Handoff.Run`: what the task does with a configuration besides storing it is not modelled.
- `Mesh.RunsAreShort`: a sync is one step; failed and unfinished downloads leave the mesh as it was.
- `ReleaseUrl.AssetUrlParses`: the second, legacy address of a renamed build target is not modelled.
- `RadarFrame.EnergyIsNeverText`: the contents of text frames, their range and hexadecimal dump, are not modelled.
- `AdStructures.ExtractLocalName`: the service identifier extraction, which uses the same cursor, is not modelled.
- Home Assistant discovery and state publishing, snapshots, board profiles, the benchmark block and the dashboard: straight-line code that would only add easy members.
