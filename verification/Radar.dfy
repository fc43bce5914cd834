/** The radar UART of the C++ firmware: a 256-byte buffer from which fixed-length energy
    frames are cut, with an account of every byte received. */
module Radar {
  import opened Wrappers

  const FRAME_LENGTH: nat := 45
  const BUFFER_SIZE: nat := 256

  // ---------------------------------------------------------------------------
  // Windows
  // ---------------------------------------------------------------------------

  predicate StartsWithHeader(s: seq<byte>, i: nat)
    requires i + 4 <= |s|
  {
    s[i] == 0xF4 && s[i + 1] == 0xF3 && s[i + 2] == 0xF2 && s[i + 3] == 0xF1
  }

  predicate EndsWithFooter(s: seq<byte>, end: nat)
    requires 4 <= end <= |s|
  {
    s[end - 4] == 0xF8 && s[end - 3] == 0xF7 && s[end - 2] == 0xF6 && s[end - 1] == 0xF5
  }

  /** A 45-byte window with header and footer starts at i. */
  predicate FrameAt(s: seq<byte>, i: nat) {
    i + FRAME_LENGTH <= |s| && StartsWithHeader(s, i) && EndsWithFooter(s, i + FRAME_LENGTH)
  }

  ghost function Windows(s: seq<byte>): set<nat> {
    set i: nat | i < |s| && FrameAt(s, i)
  }

  lemma WindowsOfTail(s: seq<byte>, k: nat, q: nat)
    requires k <= |s|
    ensures q in Windows(s[k..]) <==> k + q in Windows(s)
  {
    assert FrameAt(s[k..], q) <==> FrameAt(s, k + q);
  }

  /** Where the scan takes its windows, from a cursor on, in a buffer of n bytes. */
  ghost function Scan(windows: set<nat>, n: nat, cursor: nat): seq<nat>
    decreases n - cursor
  {
    if cursor + FRAME_LENGTH > n then []
    else if cursor in windows then [cursor] + Scan(windows, n, cursor + FRAME_LENGTH)
    else Scan(windows, n, cursor + 1)
  }

  ghost predicate Claims(starts: seq<nat>, i: nat, q: nat) {
    i < |starts| && starts[i] <= q < starts[i] + FRAME_LENGTH
  }

  ghost predicate Claimed(starts: seq<nat>, q: nat) {
    exists i: nat :: Claims(starts, i, q)
  }

  ghost predicate Apart(starts: seq<nat>) {
    forall i, j :: 0 <= i < j < |starts| ==> starts[i] + FRAME_LENGTH <= starts[j]
  }

  ghost predicate From(windows: set<nat>, starts: seq<nat>, cursor: nat) {
    Apart(starts) && forall i :: 0 <= i < |starts| ==> cursor <= starts[i] && starts[i] in windows
  }

  /** Windows from the left, each as early as possible: they do not overlap, and any window
      of the buffer is one of them or begins inside an earlier one. */
  ghost predicate Greedy(windows: set<nat>, starts: seq<nat>, cursor: nat) {
    && From(windows, starts, cursor)
    && (forall q :: q in windows && cursor <= q ==> Claimed(starts, q))
  }

  ghost predicate Fits(windows: set<nat>, n: nat) {
    forall q :: q in windows ==> q + FRAME_LENGTH <= n
  }

  lemma PrependClaimed(starts: seq<nat>, cursor: nat, q: nat)
    ensures Claimed([cursor] + starts, q) <==> cursor <= q < cursor + FRAME_LENGTH || Claimed(starts, q)
  {
    var all := [cursor] + starts;
    if Claimed(starts, q) {
      var i: nat :| Claims(starts, i, q);
      assert Claims(all, i + 1, q);
    }
    if cursor <= q < cursor + FRAME_LENGTH {
      assert Claims(all, 0, q);
    }
    if Claimed(all, q) && !(cursor <= q < cursor + FRAME_LENGTH) {
      var i: nat :| Claims(all, i, q);
      assert Claims(starts, i - 1, q);
    }
  }

  lemma PrependFrom(windows: set<nat>, starts: seq<nat>, cursor: nat)
    requires From(windows, starts, cursor + FRAME_LENGTH) && cursor in windows
    ensures From(windows, [cursor] + starts, cursor)
  {
  }

  /** The scan's choice is greedy. */
  lemma {:induction false} ScanIsGreedy(windows: set<nat>, n: nat, cursor: nat)
    requires Fits(windows, n)
    ensures Greedy(windows, Scan(windows, n, cursor), cursor)
    decreases n - cursor
  {
    if cursor + FRAME_LENGTH <= n {
      if cursor in windows {
        var later := Scan(windows, n, cursor + FRAME_LENGTH);
        ScanIsGreedy(windows, n, cursor + FRAME_LENGTH);
        PrependFrom(windows, later, cursor);
        forall q | q in windows && cursor <= q ensures Claimed([cursor] + later, q) {
          PrependClaimed(later, cursor, q);
        }
      } else {
        ScanIsGreedy(windows, n, cursor + 1);
      }
    }
  }

  /** Two greedy choices agree: the first element is forced, and so on. */
  lemma {:induction false} GreedyIsScan(windows: set<nat>, n: nat, starts: seq<nat>, cursor: nat)
    requires Fits(windows, n) && Greedy(windows, starts, cursor)
    ensures starts == Scan(windows, n, cursor)
    decreases n - cursor
  {
    if cursor + FRAME_LENGTH > n {
      NoneLeft(windows, n, starts, cursor);
    } else if cursor in windows {
      FirstIsForced(windows, starts, cursor);
      RestIsGreedy(windows, starts, cursor);
      GreedyIsScan(windows, n, starts[1..], cursor + FRAME_LENGTH);
    } else {
      GreedyIsScan(windows, n, starts, cursor + 1);
    }
  }

  lemma NoneLeft(windows: set<nat>, n: nat, starts: seq<nat>, cursor: nat)
    requires Fits(windows, n) && From(windows, starts, cursor) && cursor + FRAME_LENGTH > n
    ensures starts == []
  {
    FirstIsFrom(windows, starts, cursor);
  }

  lemma FirstIsFrom(windows: set<nat>, starts: seq<nat>, cursor: nat)
    requires From(windows, starts, cursor)
    ensures starts == [] || (cursor <= starts[0] && starts[0] in windows)
    ensures forall i :: 0 < i < |starts| ==> starts[0] + FRAME_LENGTH <= starts[i]
  {
  }

  lemma FirstIsForced(windows: set<nat>, starts: seq<nat>, cursor: nat)
    requires Greedy(windows, starts, cursor) && cursor in windows
    ensures starts != [] && starts == [cursor] + starts[1..]
  {
    assert Claimed(starts, cursor);
    var i: nat :| Claims(starts, i, cursor);
    FirstIsFrom(windows, starts, cursor);
  }

  lemma RestIsGreedy(windows: set<nat>, starts: seq<nat>, cursor: nat)
    requires Greedy(windows, starts, cursor) && starts != [] && starts[0] == cursor
    ensures Greedy(windows, starts[1..], cursor + FRAME_LENGTH)
  {
    var later := starts[1..];
    assert starts == [cursor] + later;
    forall q | q in windows && cursor + FRAME_LENGTH <= q ensures Claimed(later, q) {
      PrependClaimed(later, cursor, q);
    }
  }

  /** How far the scan has consumed the buffer: to the end of the last window. */
  ghost function Consumed(starts: seq<nat>): nat {
    if starts == [] then 0 else starts[|starts| - 1] + FRAME_LENGTH
  }

  ghost function Starts(s: seq<byte>): seq<nat> {
    Scan(Windows(s), |s|, 0)
  }

  lemma ClaimedIsConsumed(starts: seq<nat>, q: nat)
    requires Apart(starts) && Claimed(starts, q)
    ensures q < Consumed(starts)
  {
    var i: nat :| Claims(starts, i, q);
  }

  /** What is retained after a scan holds no further window. */
  lemma TailHoldsNoFrame(s: seq<byte>)
    ensures Consumed(Starts(s)) <= |s| && Windows(s[Consumed(Starts(s))..]) == {}
  {
    var starts := Starts(s);
    ScanIsGreedy(Windows(s), |s|, 0);
    forall w | w in Windows(s) ensures w < Consumed(starts) {
      ClaimedIsConsumed(starts, w);
    }
    forall q: nat ensures q !in Windows(s[Consumed(starts)..]) {
      WindowsOfTail(s, Consumed(starts), q);
    }
  }

  function Block(s: seq<byte>, p: nat): seq<byte>
    requires p + FRAME_LENGTH <= |s|
  {
    s[p..p + FRAME_LENGTH]
  }

  ghost predicate InRange(s: seq<byte>, starts: seq<nat>) {
    Apart(starts) && forall i :: 0 <= i < |starts| ==> starts[i] + FRAME_LENGTH <= |s|
  }

  ghost function FramesAt(s: seq<byte>, starts: seq<nat>): seq<seq<byte>>
    requires InRange(s, starts)
  {
    if starts == [] then [] else FramesAt(s, starts[..|starts| - 1]) + [Block(s, starts[|starts| - 1])]
  }

  /** The scan over the buffer: emits the windows in order and reports what it consumed. */
  method TryEmitEmbedded(data: array<byte>, length: nat) returns (frames: seq<seq<byte>>, consumed: nat)
    requires length <= data.Length
    ensures var (s, starts) := (data[..length], Starts(data[..length]));
            && InRange(s, starts) && Greedy(Windows(s), starts, 0)
            && frames == FramesAt(s, starts) && consumed == Consumed(starts)
  {
    ghost var s := data[..length];
    ghost var windows := Windows(s);
    ghost var starts: seq<nat> := [];
    frames, consumed := [], 0;
    var cursor: nat := 0;
    while cursor < length
      invariant cursor <= length && consumed == Consumed(starts)
      invariant Scanned(s, windows, starts, cursor) && frames == FramesAt(s, starts)
    {
      if length - cursor < FRAME_LENGTH {
        break;
      }
      assert FrameAt(s, cursor) <==> cursor in windows;
      if StartsWithHeader(data[..length], cursor) && EndsWithFooter(data[..length], cursor + FRAME_LENGTH) {
        AddStart(s, windows, starts, cursor);
        frames := frames + [data[..length][cursor..cursor + FRAME_LENGTH]];
        starts := starts + [cursor];
        cursor := cursor + FRAME_LENGTH;
        consumed := cursor;
      } else {
        cursor := cursor + 1;
      }
    }
    assert starts + [] == starts;
    ScanIsGreedy(windows, length, 0);
  }

  /** The scan has reached the cursor and taken these windows. */
  ghost predicate Scanned(s: seq<byte>, windows: set<nat>, starts: seq<nat>, cursor: nat) {
    InRange(s, starts) && Consumed(starts) <= cursor && Starts(s) == starts + Scan(windows, |s|, cursor)
  }

  lemma AddStart(s: seq<byte>, windows: set<nat>, starts: seq<nat>, cursor: nat)
    requires Scanned(s, windows, starts, cursor) && cursor + FRAME_LENGTH <= |s| && cursor in windows
    ensures Scanned(s, windows, starts + [cursor], cursor + FRAME_LENGTH)
    ensures FramesAt(s, starts + [cursor]) == FramesAt(s, starts) + [Block(s, cursor)]
  {
    var later := Scan(windows, |s|, cursor + FRAME_LENGTH);
    assert starts + ([cursor] + later) == (starts + [cursor]) + later;
    AddInRange(s, starts, cursor);
    assert (starts + [cursor])[..|starts|] == starts;
  }

  lemma AddInRange(s: seq<byte>, starts: seq<nat>, cursor: nat)
    requires InRange(s, starts) && Consumed(starts) <= cursor && cursor + FRAME_LENGTH <= |s|
    ensures InRange(s, starts + [cursor])
  {
    forall i | 0 <= i < |starts| ensures starts[i] + FRAME_LENGTH <= cursor {
      if i < |starts| - 1 {
        assert starts[i] + FRAME_LENGTH <= starts[|starts| - 1];
      }
    }
  }

  // ---------------------------------------------------------------------------
  // Accounting for every byte
  // ---------------------------------------------------------------------------

  /** What became of received bytes: emitted as a frame, dropped between frames, or flushed
      as an unrecognised buffer. */
  datatype Item = Frame(bytes: seq<byte>) | Skipped(bytes: seq<byte>) | Raw(bytes: seq<byte>)

  ghost function Flat(items: seq<Item>): seq<byte> {
    if items == [] then [] else Flat(items[..|items| - 1]) + items[|items| - 1].bytes
  }

  ghost predicate AllFrames(items: seq<Item>) {
    forall i :: 0 <= i < |items| ==> items[i].Frame? && |items[i].bytes| == FRAME_LENGTH && FrameAt(items[i].bytes, 0)
  }

  /** The bytes up to the end of the last window, in pieces. */
  ghost function Pieces(s: seq<byte>, starts: seq<nat>): seq<Item>
    requires InRange(s, starts)
  {
    if starts == [] then []
    else
      var front, p := starts[..|starts| - 1], starts[|starts| - 1];
      Pieces(s, front)
      + (if Consumed(front) == p then [] else [Skipped(s[Consumed(front)..p])])
      + [Frame(Block(s, p))]
  }

  lemma {:induction false} FlatOne(items: seq<Item>, item: Item)
    ensures Flat(items + [item]) == Flat(items) + item.bytes
  {
    assert (items + [item])[..|items|] == items;
  }

  lemma {:induction false} FlatAppend(a: seq<Item>, b: seq<Item>)
    ensures Flat(a + b) == Flat(a) + Flat(b)
  {
    if b == [] {
      assert a + b == a;
    } else {
      var front, last := b[..|b| - 1], b[|b| - 1];
      FlatAppend(a, front);
      FlatOne(a + front, last);
      assert a + b == (a + front) + [last];
      assert Flat(b) == Flat(front) + last.bytes;
      Associative(Flat(a), Flat(front), last.bytes);
    }
  }

  lemma {:induction false} PiecesCover(s: seq<byte>, starts: seq<nat>)
    requires InRange(s, starts)
    ensures Consumed(starts) <= |s| && Flat(Pieces(s, starts)) == s[..Consumed(starts)]
  {
    if starts != [] {
      var front, p := starts[..|starts| - 1], starts[|starts| - 1];
      var c := Consumed(front);
      PiecesCover(s, front);
      var before := Pieces(s, front);
      if c == p {
        assert before + [] == before;
        FlatOne(before, Frame(Block(s, p)));
      } else {
        FlatOne(before, Skipped(s[c..p]));
        FlatOne(before + [Skipped(s[c..p])], Frame(Block(s, p)));
      }
      JoinBlocks(s, c, p);
    }
  }

  lemma JoinBlocks(s: seq<byte>, c: nat, p: nat)
    requires c <= p && p + FRAME_LENGTH <= |s|
    ensures s[..c] + s[c..p] == s[..p] && s[..p] + Block(s, p) == s[..p + FRAME_LENGTH]
  {
  }

  // ---------------------------------------------------------------------------
  // Frame-aligned streams
  // ---------------------------------------------------------------------------

  /** Every complete 45-byte block is a frame; a last, incomplete block may hold anything. */
  ghost predicate Aligned(s: seq<byte>) {
    forall i: nat :: i % FRAME_LENGTH == 0 && i + FRAME_LENGTH <= |s| ==> FrameAt(s, i)
  }

  ghost predicate OnTheGrid(starts: seq<nat>, from: nat) {
    forall i :: 0 <= i < |starts| ==> starts[i] == from + i * FRAME_LENGTH
  }

  /** On an aligned buffer the scan takes exactly the complete blocks and skips nothing. */
  lemma {:induction false} AlignedScan(s: seq<byte>, cursor: nat)
    requires Aligned(s) && cursor % FRAME_LENGTH == 0 && cursor <= |s|
    ensures var starts := Scan(Windows(s), |s|, cursor);
            OnTheGrid(starts, cursor) && |s| - FRAME_LENGTH < cursor + |starts| * FRAME_LENGTH <= |s|
    decreases |s| - cursor
  {
    if cursor + FRAME_LENGTH <= |s| {
      assert FrameAt(s, cursor);
      AlignedScan(s, cursor + FRAME_LENGTH);
      var later := Scan(Windows(s), |s|, cursor + FRAME_LENGTH);
      assert Scan(Windows(s), |s|, cursor) == [cursor] + later;
    }
  }

  lemma {:induction false} GridPieces(s: seq<byte>, starts: seq<nat>)
    requires Aligned(s) && InRange(s, starts) && OnTheGrid(starts, 0)
    ensures AllFrames(Pieces(s, starts)) && Consumed(starts) == |starts| * FRAME_LENGTH
  {
    if starts != [] {
      var front, p := starts[..|starts| - 1], starts[|starts| - 1];
      GridPieces(s, front);
      assert p % FRAME_LENGTH == 0 && FrameAt(s, p);
      assert FrameAt(Block(s, p), 0);
      assert Pieces(s, front) + [] + [Frame(Block(s, p))] == Pieces(s, front) + [Frame(Block(s, p))];
    }
  }

  /** What comes after whole blocks of an aligned stream is aligned. */
  lemma AlignedTail(s: seq<byte>, k: nat)
    requires Aligned(s) && k <= |s| && k % FRAME_LENGTH == 0
    ensures Aligned(s[k..])
  {
    forall i: nat | i % FRAME_LENGTH == 0 && i + FRAME_LENGTH <= |s[k..]| ensures FrameAt(s[k..], i) {
      assert (k + i) % FRAME_LENGTH == 0 && FrameAt(s, k + i);
    }
  }

  lemma {:induction false} FramesAreWhole(items: seq<Item>)
    requires AllFrames(items)
    ensures |Flat(items)| % FRAME_LENGTH == 0
  {
    if items != [] { FramesAreWhole(items[..|items| - 1]); }
  }

  /** What a flush does to the account, and what it leaves. */
  ghost function Taken(s: seq<byte>): seq<Item> {
    StartsInRange(s);
    if Starts(s) == [] then [Raw(s)] else Pieces(s, Starts(s))
  }

  ghost function Kept(s: seq<byte>): seq<byte> {
    TailHoldsNoFrame(s);
    if Starts(s) == [] then [] else s[Consumed(Starts(s))..]
  }

  lemma KeptHoldsNoFrame(s: seq<byte>)
    ensures Windows(Kept(s)) == {}
  {
    TailHoldsNoFrame(s);
  }

  lemma EmptyKept()
    ensures Kept([]) == []
  {
    assert Starts([]) == [];
  }

  lemma AlignedHoldsFrame(s: seq<byte>)
    requires Aligned(s) && FRAME_LENGTH <= |s|
    ensures 0 in Windows(s)
  {
    assert FrameAt(s, 0);
  }

  lemma StartsInRange(s: seq<byte>)
    ensures InRange(s, Starts(s))
  {
    ScanIsGreedy(Windows(s), |s|, 0);
  }

  /** The emitted frames in an account. */
  ghost function FramesOf(items: seq<Item>): seq<seq<byte>> {
    if items == [] then []
    else FramesOf(items[..|items| - 1]) + if items[|items| - 1].Frame? then [items[|items| - 1].bytes] else []
  }

  /** How many bytes were dropped. */
  ghost function Discarded(items: seq<Item>): nat {
    if items == [] then 0
    else Discarded(items[..|items| - 1]) + if items[|items| - 1].Frame? then 0 else |items[|items| - 1].bytes|
  }

  ghost function Joined(frames: seq<seq<byte>>): seq<byte> {
    if frames == [] then [] else Joined(frames[..|frames| - 1]) + frames[|frames| - 1]
  }

  lemma {:induction false} FramesAppend(a: seq<Item>, b: seq<Item>)
    ensures FramesOf(a + b) == FramesOf(a) + FramesOf(b)
    ensures Discarded(a + b) == Discarded(a) + Discarded(b)
  {
    if b == [] {
      assert a + b == a;
    } else {
      var front, last := b[..|b| - 1], b[|b| - 1];
      FramesAppend(a, front);
      assert (a + b)[..|a + b| - 1] == a + front;
      Associative(FramesOf(a), FramesOf(front), if last.Frame? then [last.bytes] else []);
    }
  }

  /** The frames the scan returns are the frames of the account. */
  lemma {:induction false} PiecesEmit(s: seq<byte>, starts: seq<nat>)
    requires InRange(s, starts)
    ensures FramesOf(Pieces(s, starts)) == FramesAt(s, starts)
  {
    if starts != [] {
      var front, p := starts[..|starts| - 1], starts[|starts| - 1];
      var gap := if Consumed(front) == p then [] else [Skipped(s[Consumed(front)..p])];
      PiecesEmit(s, front);
      EmitsOne(Pieces(s, front), gap, Block(s, p));
    }
  }

  lemma EmitsOne(items: seq<Item>, gap: seq<Item>, block: seq<byte>)
    requires gap == [] || (|gap| == 1 && gap[0].Skipped?)
    ensures FramesOf(items + gap + [Frame(block)]) == FramesOf(items) + [block]
  {
    var all := items + gap + [Frame(block)];
    assert all[..|all| - 1] == items + gap;
    if gap == [] {
      assert items + gap == items;
    } else {
      assert (items + gap)[..|items|] == items;
    }
  }

  lemma TakenEmits(account: seq<Item>, s: seq<byte>)
    ensures InRange(s, Starts(s))
    ensures FramesOf(account + Taken(s)) == FramesOf(account) + FramesAt(s, Starts(s))
  {
    StartsInRange(s);
    FramesAppend(account, Taken(s));
    PiecesEmit(s, Starts(s));
  }

  /** Frames and dropped bytes make up the account; without dropped bytes the frames are all. */
  lemma {:induction false} FramesAndRest(items: seq<Item>)
    ensures |Flat(items)| == |Joined(FramesOf(items))| + Discarded(items)
    ensures AllFrames(items) ==> Discarded(items) == 0 && Joined(FramesOf(items)) == Flat(items)
  {
    if items != [] {
      var front, last := items[..|items| - 1], items[|items| - 1];
      FramesAndRest(front);
      assert last.Frame? ==> FramesOf(items)[..|FramesOf(front)|] == FramesOf(front);
      assert FramesOf(front) + [] == FramesOf(front);
    }
  }

  /** Every byte is accounted for; an aligned stream is taken as frames and nothing else while
      flushes are patient, and bytes have been dropped once one was not. */
  ghost predicate Accounted(received: seq<byte>, account: seq<Item>, held: seq<byte>, patient: bool) {
    && received == Flat(account) + held
    && (patient && Aligned(received) ==> AllFrames(account))
    && (!patient ==> Discarded(account) > 0)
  }

  lemma FlushCovers(s: seq<byte>)
    ensures Flat(Taken(s)) + Kept(s) == s
  {
    StartsInRange(s);
    if Starts(s) == [] {
      assert [Raw(s)][..0] == [];
    } else {
      PiecesCover(s, Starts(s));
    }
  }

  lemma FlushTakesFrames(s: seq<byte>)
    requires Aligned(s) && |s| >= FRAME_LENGTH
    ensures AllFrames(Taken(s))
  {
    StartsInRange(s);
    AlignedScan(s, 0);
    GridPieces(s, Starts(s));
  }

  /** A buffer of less than one frame holds no frame: the flush gives all of it up. */
  lemma ImpatientFlushDrops(s: seq<byte>)
    requires 0 < |s| < FRAME_LENGTH
    ensures Taken(s) == [Raw(s)] && Kept(s) == [] && Discarded(Taken(s)) == |s|
  {
    assert [Raw(s)][..0] == [];
  }

  lemma FlushKeeps(received: seq<byte>, account: seq<Item>, s: seq<byte>, patient: bool)
    requires Accounted(received, account, s, patient) && s != []
    ensures Accounted(received, account + Taken(s), Kept(s), patient && |s| >= FRAME_LENGTH)
  {
    FlushCovers(s);
    FlatAppend(account, Taken(s));
    Associative(Flat(account), Flat(Taken(s)), Kept(s));
    FramesAppend(account, Taken(s));
    if |s| < FRAME_LENGTH {
      ImpatientFlushDrops(s);
    } else if patient && Aligned(received) {
      FramesAreWhole(account);
      AlignedTail(received, |Flat(account)|);
      assert received[|Flat(account)|..] == s;
      FlushTakesFrames(s);
    }
  }

  lemma {:induction false} FrameCount(s: seq<byte>, starts: seq<nat>)
    requires InRange(s, starts)
    ensures |FramesAt(s, starts)| == |starts|
  {
    if starts != [] { FrameCount(s, starts[..|starts| - 1]); }
  }

  /** What is kept: the bytes behind the last window, or nothing if there is none. */
  lemma KeptIsTail(s: seq<byte>)
    requires s != []
    ensures InRange(s, Starts(s)) && Consumed(Starts(s)) <= |s|
    ensures Kept(s) == s[if |FramesAt(s, Starts(s))| > 0 then Consumed(Starts(s)) else |s|..]
    ensures Starts(s) != [] ==> Consumed(Starts(s)) >= FRAME_LENGTH
  {
    StartsInRange(s);
    TailHoldsNoFrame(s);
    FrameCount(s, Starts(s));
  }

  /** One more byte: it joins what is held, and completes or extends an aligned stream. */
  lemma ReceiveKeeps(received: seq<byte>, account: seq<Item>, held: seq<byte>, patient: bool, b: byte)
    requires Accounted(received, account, held, patient)
    ensures Accounted(received + [b], account, held + [b], patient)
  {
    Associative(Flat(account), held, [b]);
    if Aligned(received + [b]) {
      forall i: nat | i % FRAME_LENGTH == 0 && i + FRAME_LENGTH <= |received| ensures FrameAt(received, i) {
        assert FrameAt(received + [b], i);
      }
    }
  }

  // ---------------------------------------------------------------------------
  // The UART buffer
  // ---------------------------------------------------------------------------

  class Uart {
    const buffer: array<byte>
    var length: nat
    ghost var received: seq<byte>   // every byte read from the port
    ghost var account: seq<Item>    // what became of those no longer in the buffer
    ghost var emitted: seq<seq<byte>>  // every frame handed on
    ghost var patient: bool         // no flush has yet found less than one frame's worth

    /** Every byte received is accounted for, in order; and as long as flushes are patient,
        an aligned stream has been emitted as frames and nothing else. */
    ghost predicate Valid()
      reads this, buffer
    {
      && buffer.Length == BUFFER_SIZE && length <= BUFFER_SIZE
      && Accounted(received, account, buffer[..length], patient)
      && emitted == FramesOf(account)
    }

    constructor ()
      ensures Valid() && fresh(buffer) && received == [] && account == [] && patient
    {
      buffer := new byte[BUFFER_SIZE];
      length, received, account, emitted, patient := 0, [], [], [], true;
    }

    /** flushRadarBufferIfNeeded, once it has decided to act: emits the frames and keeps the
        tail, or gives up on the whole buffer if it holds none. */
    method Flush() returns (frames: seq<seq<byte>>)
      requires Valid() && length > 0
      modifies this`length, this`account, this`emitted, this`patient, buffer
      ensures Valid() && length < BUFFER_SIZE
      ensures patient == (old(patient) && old(length) >= FRAME_LENGTH)
      ensures account == old(account) + Taken(old(buffer[..length])) && buffer[..length] == Kept(old(buffer[..length]))
      ensures InRange(old(buffer[..length]), Starts(old(buffer[..length])))
      ensures frames == FramesAt(old(buffer[..length]), Starts(old(buffer[..length])))
      ensures emitted == old(emitted) + frames
    {
      ghost var s := buffer[..length];
      frames := Cut();
      FlushKeeps(received, account, s, patient);
      TakenEmits(account, s);
      emitted := emitted + frames;
      account := account + Taken(s);
      patient := patient && |s| >= FRAME_LENGTH;
    }

    /** Cuts the frames out and moves the tail to the front. */
    method Cut() returns (frames: seq<seq<byte>>)
      requires buffer.Length == BUFFER_SIZE && 0 < length <= BUFFER_SIZE
      modifies this`length, buffer
      ensures length < BUFFER_SIZE && buffer[..length] == Kept(old(buffer[..length]))
      ensures InRange(old(buffer[..length]), Starts(old(buffer[..length])))
      ensures frames == FramesAt(old(buffer[..length]), Starts(old(buffer[..length])))
    {
      ghost var s := buffer[..length];
      var consumed;
      frames, consumed := TryEmitEmbedded(buffer, length);
      KeptIsTail(s);
      KeepTail(if |frames| > 0 then consumed else length);
    }

    /** Moves what follows the consumed bytes to the front. */
    method KeepTail(consumed: nat)
      requires buffer.Length == BUFFER_SIZE && consumed <= length <= BUFFER_SIZE
      modifies this`length, buffer
      ensures length == old(length) - consumed && buffer[..length] == old(buffer[consumed..length])
    {
      var retained := length - consumed;
      forall k | 0 <= k < retained {
        buffer[k] := buffer[consumed + k];
      }
      length := retained;
    }

    /** One byte from the port. The store is always inside the buffer. */
    method Receive(b: byte)
      requires Valid()
      modifies this, buffer
      ensures Valid() && received == old(received) + [b]
      ensures patient == old(patient)
      ensures buffer[..length] == (if old(length) < BUFFER_SIZE then old(buffer[..length]) else Kept(old(buffer[..length]))) + [b]
      ensures old(length) < BUFFER_SIZE ==> emitted == old(emitted) && account == old(account)
    {
      if length >= BUFFER_SIZE {
        var frames := Flush();
      }
      ReceiveKeeps(received, account, buffer[..length], patient, b);
      ghost var held := buffer[..length];
      buffer[length] := b;
      length := length + 1;
      received := received + [b];
      assert buffer[..length] == held + [b];
    }

    /** readRadarUart: takes what the port has, then flushes if the line has been idle for
        20 ms or the buffer is full, and not otherwise. After an idle line no frame is left in the
        buffer, and what came of whole frames has been handed on. */
    method ReadUart(available: seq<byte>, idle: bool)
      requires Valid()
      modifies this, buffer
      ensures Valid() && received == old(received) + available && length < BUFFER_SIZE
      ensures !idle ==> patient == old(patient)
      ensures old(length) + |available| < BUFFER_SIZE ==>
                var held := old(buffer[..length]) + available;
                if idle then buffer[..length] == Kept(held)
                else buffer[..length] == held && account == old(account) && emitted == old(emitted)
      ensures idle ==> Windows(buffer[..length]) == {}
      ensures idle && old(patient) && Aligned(received) ==> length < FRAME_LENGTH
      ensures idle && old(patient) && Aligned(received) && |received| % FRAME_LENGTH == 0 ==>
                Joined(emitted) == received && length == 0
    {
      TakeIn(available);
      ghost var held, before := buffer[..length], patient;
      if patient && Aligned(received) {
        NothingDropped();
      }
      FlushIfNeeded(idle);
      KeptHoldsNoFrame(held);
      if idle && before && Aligned(received) {
        LeavesPart();
      }
    }

    /** flushRadarBufferIfNeeded(false). */
    method FlushIfNeeded(idle: bool)
      requires Valid()
      modifies this`length, this`account, this`emitted, this`patient, buffer
      ensures Valid() && length < BUFFER_SIZE
      ensures if idle || old(length) >= BUFFER_SIZE then buffer[..length] == Kept(old(buffer[..length]))
              else buffer[..length] == old(buffer[..length]) && account == old(account) && emitted == old(emitted)
      ensures patient == (old(patient) && (!idle || old(length) == 0 || old(length) >= FRAME_LENGTH))
    {
      assert buffer[..0] == [];
      EmptyKept();
      if length > 0 && (idle || length >= BUFFER_SIZE) {
        var frames := Flush();
      }
    }

    method TakeIn(available: seq<byte>)
      requires Valid()
      modifies this, buffer
      ensures Valid() && received == old(received) + available && patient == old(patient)
      ensures old(length) + |available| <= BUFFER_SIZE ==>
                && buffer[..length] == old(buffer[..length]) + available
                && account == old(account) && emitted == old(emitted)
    {
      ghost var first, held := received, buffer[..length];
      for k := 0 to |available|
        invariant Valid() && received == first + available[..k] && patient == old(patient)
        invariant old(length) + k <= BUFFER_SIZE ==>
                    && buffer[..length] == held + available[..k]
                    && account == old(account) && emitted == old(emitted)
      {
        Receive(available[k]);
        assert available[..k + 1] == available[..k] + [available[k]];
        Associative(first, available[..k], [available[k]]);
        Associative(held, available[..k], [available[k]]);
      }
      assert available[..|available|] == available;
    }

    /** An aligned stream whose frames have all been taken leaves less than a frame. */
    lemma LeavesPart()
      requires Valid() && Aligned(received) && Windows(buffer[..length]) == {}
      requires patient || length == 0
      ensures length < FRAME_LENGTH
      ensures patient && |received| % FRAME_LENGTH == 0 ==> length == 0 && Joined(emitted) == received
    {
      if patient {
        NothingDropped();
        if FRAME_LENGTH <= length {
          AlignedHoldsFrame(buffer[..length]);
        }
      }
    }

    /** While flushes are patient, an aligned stream is emitted frame by frame: the emitted
        frames followed by the buffer are the bytes received, and nothing was dropped. */
    lemma NothingDropped()
      requires Valid() && patient && Aligned(received)
      ensures AllFrames(account) && received == Joined(emitted) + buffer[..length]
      ensures |Joined(emitted)| % FRAME_LENGTH == 0 && Aligned(buffer[..length])
    {
      FramesAndRest(account);
      FramesAreWhole(account);
      AlignedTail(received, |Flat(account)|);
      assert received[|Flat(account)|..] == buffer[..length];
    }

    /** On an aligned stream that is exact: bytes are dropped if and only if some flush found
        less than one frame's worth. */
    lemma DroppedExactly()
      requires Valid() && Aligned(received)
      ensures received == Joined(emitted) + buffer[..length] <==> patient
      ensures AllFrames(account) <==> patient
    {
      FramesAndRest(account);
      if patient {
        NothingDropped();
      }
    }
  }

  // ---------------------------------------------------------------------------
  // After an impatient flush
  // ---------------------------------------------------------------------------

  /** Two frames and most of a third; bytes in the middle of the first look like a header, and
      bytes in the middle of the second like a footer. */
  function CrossedByte(i: nat): byte {
    var k: nat := i % FRAME_LENGTH;
    if k < 4 then 0xF4 - k
    else if k >= 41 then 0xF8 - (k - 41)
    else if 30 <= i < 34 then 0xF4 - (i - 30)
    else if 71 <= i < 75 then 0xF8 - (i - 71)
    else 0
  }

  function Crossed(from: nat): seq<byte>
    requires from <= 134
  {
    seq<byte>(134 - from, i requires 0 <= i < 134 - from => CrossedByte(from + i))
  }

  lemma CrossedHeader(i: nat)
    ensures CrossedByte(i) == 0xF4 <==> i % FRAME_LENGTH == 0 || i == 30 || i % FRAME_LENGTH == 45
  {
  }

  lemma CrossedWindows()
    ensures Windows(Crossed(1)) == {29, 44}
  {
    var s := Crossed(1);
    forall i: nat ensures i < |s| && FrameAt(s, i) <==> i == 29 || i == 44 {
      if i < |s| {
        CrossedHeader(i + 1);
        assert s[i] == CrossedByte(i + 1);
      }
    }
  }

  lemma CrossedFrame(i: nat)
    requires i == 0 || i == 45
    ensures FrameAt(Crossed(0), i)
  {
    var s := Crossed(0);
    assert s[i] == CrossedByte(i) && s[i + 1] == CrossedByte(i + 1);
    assert s[i + 2] == CrossedByte(i + 2) && s[i + 3] == CrossedByte(i + 3);
    assert s[i + 41] == CrossedByte(i + 41) && s[i + 42] == CrossedByte(i + 42);
    assert s[i + 43] == CrossedByte(i + 43) && s[i + 44] == CrossedByte(i + 44);
  }

  lemma CrossedAligned()
    ensures Aligned(Crossed(0))
  {
    CrossedFrame(0);
    CrossedFrame(45);
    forall i: nat | i % FRAME_LENGTH == 0 && i + FRAME_LENGTH <= 134 ensures FrameAt(Crossed(0), i) {
      assert i == 0 || i == 45;
    }
  }

  lemma CrossedKept()
    ensures |Kept(Crossed(1))| == 59
  {
    var s, starts := Crossed(1), [29];
    CrossedWindows();
    forall q | q in Windows(s) ensures Claimed(starts, q) {
      assert Claims(starts, 0, q);
    }
    GreedyIsScan(Windows(s), |s|, starts, 0);
  }

  /** Once an impatient flush has eaten into a frame, an idle flush may leave more than a frame's
      worth: here the first byte of an aligned stream was given up, and 59 bytes are left. */
  lemma IdleMayLeaveMore()
    ensures Aligned(Crossed(0)) && Crossed(0)[1..] == Crossed(1)
    ensures Kept(Crossed(0)[..1]) == [] && |Kept(Crossed(1))| == 59
  {
    CrossedAligned();
    CrossedKept();
    ImpatientFlushDrops(Crossed(0)[..1]);
  }
}
