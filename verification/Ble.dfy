/** BLE beacon sightings and identity tags: a fixed array of slots that forgets the
    longest-unheard beacon when it is full. */
module Ble {
  import opened Wrappers
  import opened Recency

  const SIGHTING_FRESHNESS_MS: nat := 30_000
  const TAG_FRESHNESS_MS: nat := 45_000

  datatype Sighting = Sighting(
    occupied: bool, address: string, name: string, serviceUuid: string, rssi: int, lastSeenMs: nat)

  datatype Tag = Tag(
    occupied: bool, labelText: string, address: string, minRssi: int, lastRssi: int, lastSeenMs: nat)

  datatype Advertisement = Advertisement(address: string, name: string, serviceUuid: string, rssi: int)

  function Seen(adv: Advertisement, now: nat): Sighting {
    Sighting(true, adv.address, adv.name, adv.serviceUuid, adv.rssi, now)
  }

  // ---------------------------------------------------------------------------
  // Identity values
  // ---------------------------------------------------------------------------

  function NormalizedChar(ch: char): string {
    if 'A' <= ch <= 'F' then [(ch as int - 'A' as int + 'a' as int) as char]
    else if 'a' <= ch <= 'f' || '0' <= ch <= '9' then [ch]
    else ""
  }

  /** Hexadecimal digits stay, in small letters; separators and anything else go. */
  lemma NormalizedOne(ch: char)
    ensures var n := ch as int;
      NormalizedChar(ch) ==
        if 48 <= n < 58 || 97 <= n < 103 then [ch] else if 65 <= n < 71 then [(n + 32) as char] else ""
  {
  }

  function Normalized(value: string): string {
    if value == "" then "" else NormalizedChar(value[0]) + Normalized(value[1..])
  }

  method NormalizeIdentity(value: string) returns (normalized: string)
    ensures normalized == Normalized(value)
  {
    normalized := "";
    for i := 0 to |value|
      invariant normalized + Normalized(value[i..]) == Normalized(value)
    {
      assert Normalized(value[i..]) == NormalizedChar(value[i]) + Normalized(value[i + 1..]);
      normalized := normalized + NormalizedChar(value[i]);
    }
  }

  /** Normalizing is idempotent, so a tag configured from a normalized address still matches. */
  lemma {:induction false} NormalizedTwice(value: string)
    ensures Normalized(Normalized(value)) == Normalized(value)
  {
    if value != "" {
      NormalizedTwice(value[1..]);
      var head, tail := NormalizedChar(value[0]), Normalized(value[1..]);
      if head != "" {
        assert (head + tail)[0] == head[0] && (head + tail)[1..] == tail;
      } else {
        assert head + tail == tail;
      }
    }
  }

  // ---------------------------------------------------------------------------
  // Recording an advertisement
  // ---------------------------------------------------------------------------

  ghost predicate Matches(slots: seq<Sighting>, i: nat, address: string) {
    i < |slots| && slots[i].occupied && slots[i].address == address
  }

  ghost predicate Free(slots: seq<Sighting>, i: nat) {
    i < |slots| && !slots[i].occupied
  }

  /** The slot an address goes to: its own, else the first free one, else the first among
      those unheard for longest. */
  ghost predicate SlotFor(slots: seq<Sighting>, address: string, slot: nat) {
    && slot < |slots|
    && if exists i: nat :: Matches(slots, i, address) then
         Matches(slots, slot, address) && forall i: nat :: i < slot ==> !Matches(slots, i, address)
       else if exists i: nat :: Free(slots, i) then
         Free(slots, slot) && forall i: nat :: i < slot ==> !Free(slots, i)
       else
         && (forall i :: 0 <= i < |slots| ==> slots[slot].lastSeenMs <= slots[i].lastSeenMs)
         && (forall i :: 0 <= i < slot ==> slots[slot].lastSeenMs < slots[i].lastSeenMs)
  }

  method FindSlot(sightings: array<Sighting>, address: string) returns (slot: nat)
    requires sightings.Length > 0
    ensures SlotFor(sightings[..], address, slot)
  {
    ghost var slots := sightings[..];
    var found: Option<nat> := None;
    for index := 0 to sightings.Length
      invariant forall i: nat :: i < index ==> !Matches(slots, i, address)
      invariant found.None? ==> forall i: nat :: i < index ==> !Free(slots, i)
      invariant found.Some? ==> found.value < index && Free(slots, found.value)
      invariant found.Some? ==> forall i: nat :: i < found.value ==> !Free(slots, i)
    {
      if sightings[index].occupied && sightings[index].address == address {
        assert Matches(slots, index, address);
        return index;
      }
      if !sightings[index].occupied && found.None? {
        assert Free(slots, index);
        found := Some(index);
      }
    }
    if found.Some? {
      return found.value;
    }
    slot := 0;
    for index := 1 to sightings.Length
      invariant slot < index
      invariant forall i :: 0 <= i < index ==> slots[slot].lastSeenMs <= slots[i].lastSeenMs
      invariant forall i :: 0 <= i < slot ==> slots[slot].lastSeenMs < slots[i].lastSeenMs
    {
      if sightings[index].lastSeenMs < sightings[slot].lastSeenMs {
        slot := index;
      }
    }
  }

  const NO_TAG := Tag(false, "", "", -88, -127, 0)

  /** What an advertisement does to a tag: nothing, unless it is from the tag's address and
      at least as strong as the tag's limit. */
  function Heed(tag: Tag, adv: Advertisement, now: nat): Tag {
    if !tag.occupied || tag.address != Normalized(adv.address) || adv.rssi < tag.minRssi then tag
    else tag.(lastRssi := adv.rssi, lastSeenMs := now)
  }

  method RecordAdvertisement(sightings: array<Sighting>, tags: array<Tag>, adv: Advertisement, now: nat)
    returns (ghost slot: nat)
    modifies sightings, tags
    ensures adv.address == "" || sightings.Length == 0 ==> sightings[..] == old(sightings[..]) && tags[..] == old(tags[..])
    ensures adv.address != "" && sightings.Length > 0 ==>
              && SlotFor(old(sightings[..]), adv.address, slot)
              && sightings[..] == old(sightings[..])[slot := Seen(adv, now)]
              && (forall i :: 0 <= i < tags.Length ==> tags[i] == Heed(old(tags[i]), adv, now))
  {
    slot := 0;
    if adv.address == "" || sightings.Length == 0 {
      return;
    }
    var target := FindSlot(sightings, adv.address);
    slot := target;
    sightings[target] := Seen(adv, now);

    var normalized := NormalizeIdentity(adv.address);
    for k := 0 to tags.Length
      invariant forall i :: 0 <= i < k ==> tags[i] == Heed(old(tags[i]), adv, now)
      invariant forall i :: k <= i < tags.Length ==> tags[i] == old(tags[i])
      invariant sightings[..] == old(sightings[..])[slot := Seen(adv, now)]
    {
      var tag := tags[k];
      if !tag.occupied || tag.address != normalized || adv.rssi < tag.minRssi {
        continue;
      }
      tags[k] := tag.(lastRssi := adv.rssi, lastSeenMs := now);
    }
  }

  // ---------------------------------------------------------------------------
  // The sightings as a recency table
  // ---------------------------------------------------------------------------

  ghost function EntryOf(s: Sighting): Entry<string> {
    if s.occupied then Some(Heard(s.address, s.lastSeenMs)) else None
  }

  ghost function Entries(slots: seq<Sighting>): seq<Entry<string>> {
    seq(|slots|, i requires 0 <= i < |slots| => EntryOf(slots[i]))
  }

  /** The slots agree with everything heard so far: distinct addresses, each with the time
      it was last heard; an address that was heard and is not in a slot is no newer than
      any slot, and every slot is taken. */
  ghost predicate Faithful(slots: seq<Sighting>, log: seq<Heard<string>>) {
    Distinct(Entries(slots)) && Tracks(TableOf(Entries(slots)), log, |slots|, 0)
  }

  lemma FreshSlotsAreFaithful(slots: seq<Sighting>)
    requires forall i :: 0 <= i < |slots| ==> !slots[i].occupied
    ensures Faithful(slots, [])
  {
    if k :| k in TableOf(Entries(slots)) {
      var i := FindHolder(Entries(slots), k);
      assert false;
    }
    assert TableOf(Entries(slots)) == map[];
  }

  /** One advertisement keeps the slots faithful. */
  lemma RecordKeepsFaithful(slots: seq<Sighting>, log: seq<Heard<string>>, adv: Advertisement, now: nat, slot: nat)
    requires Faithful(slots, log) && InOrder(log, now) && SlotFor(slots, adv.address, slot)
    ensures Faithful(slots[slot := Seen(adv, now)], log + [Heard(adv.address, now)])
  {
    SlotMayBeTaken(slots, adv.address, slot);
    TakeKeeps(Entries(slots), log, 0, slot, adv.address, now);
    assert Entries(slots[slot := Seen(adv, now)]) == Entries(slots)[slot := Some(Heard(adv.address, now))];
  }

  lemma SlotMayBeTaken(slots: seq<Sighting>, key: string, slot: nat)
    requires Distinct(Entries(slots)) && SlotFor(slots, key, slot)
    ensures MayTake(Entries(slots), slot, key)
  {
    var entries := Entries(slots);
    TableMeaning(entries);
    if key in TableOf(entries) {
      var i := FindHolder(entries, key);
      assert Matches(slots, i, key);
    } else {
      forall i: nat | Matches(slots, i, key) ensures false {
        assert Holds(entries, i, key, slots[i].lastSeenMs);
      }
      forall i: nat | i < |slots| && entries[slot].Some? ensures entries[i].Some? {
        assert !Free(slots, i);
      }
    }
  }

  // ---------------------------------------------------------------------------
  // What sightings and tags say
  // ---------------------------------------------------------------------------

  /** An advertisement with an address, and when it was heard. */
  datatype Hearing = Hearing(adv: Advertisement, time: nat)

  ghost function LogOf(heard: seq<Hearing>): seq<Heard<string>> {
    seq(|heard|, i requires 0 <= i < |heard| => Heard(heard[i].adv.address, heard[i].time))
  }

  /** The last hearing of an address. */
  ghost function LastOf(heard: seq<Hearing>, address: string): Option<Hearing> {
    if heard == [] then None
    else if heard[|heard| - 1].adv.address == address then Some(heard[|heard| - 1])
    else LastOf(heard[..|heard| - 1], address)
  }

  /** A sighting repeats everything the last advertisement from its address said. */
  ghost predicate SightingTrue(s: Sighting, heard: seq<Hearing>) {
    s.occupied ==>
      match LastOf(heard, s.address)
      case None => false
      case Some(h) =>
        && s.name == h.adv.name && s.serviceUuid == h.adv.serviceUuid
        && s.rssi == h.adv.rssi && s.lastSeenMs == h.time
  }

  lemma LastOfNext(heard: seq<Hearing>, h: Hearing, address: string)
    ensures LastOf(heard + [h], address) == if h.adv.address == address then Some(h) else LastOf(heard, address)
  {
    assert (heard + [h])[..|heard|] == heard;
  }

  lemma SightingsKept(slots: seq<Sighting>, slot: nat, adv: Advertisement, now: nat, heard: seq<Hearing>)
    requires slot < |slots| && Distinct(Entries(slots[slot := Seen(adv, now)]))
    requires forall i :: 0 <= i < |slots| ==> SightingTrue(slots[i], heard)
    ensures var after := slots[slot := Seen(adv, now)];
      forall i :: 0 <= i < |after| ==> SightingTrue(after[i], heard + [Hearing(adv, now)])
  {
    var after := slots[slot := Seen(adv, now)];
    forall i | 0 <= i < |after| ensures SightingTrue(after[i], heard + [Hearing(adv, now)]) {
      LastOfNext(heard, Hearing(adv, now), after[i].address);
      assert Entries(after)[i] == EntryOf(after[i]) && Entries(after)[slot] == EntryOf(after[slot]);
    }
  }

  /** An advertisement that counts for a tag: from its address, and at least as strong as asked for. */
  ghost predicate CountsFor(h: Hearing, tag: Tag) {
    Normalized(h.adv.address) == tag.address && h.adv.rssi >= tag.minRssi
  }

  ghost function LastFor(heard: seq<Hearing>, tag: Tag): Option<Hearing> {
    if heard == [] then None
    else if CountsFor(heard[|heard| - 1], tag) then Some(heard[|heard| - 1])
    else LastFor(heard[..|heard| - 1], tag)
  }

  ghost predicate SameSettings(tag: Tag, other: Tag) {
    && tag.occupied == other.occupied && tag.labelText == other.labelText
    && tag.address == other.address && tag.minRssi == other.minRssi
  }

  /** A tag shows the last advertisement that counts for it, since it was configured. */
  ghost predicate TagTrue(tag: Tag, heard: seq<Hearing>) {
    tag.occupied ==>
      match LastFor(heard, tag)
      case None => tag.lastSeenMs == 0 && tag.lastRssi == -127
      case Some(h) => tag.lastSeenMs == h.time && tag.lastRssi == h.adv.rssi
  }

  lemma {:induction false} SameTag(heard: seq<Hearing>, tag: Tag, other: Tag)
    requires tag.address == other.address && tag.minRssi == other.minRssi
    ensures LastFor(heard, tag) == LastFor(heard, other)
  {
    if heard != [] {
      SameTag(heard[..|heard| - 1], tag, other);
    }
  }

  lemma HeedKeeps(tag: Tag, heard: seq<Hearing>, adv: Advertisement, now: nat)
    requires TagTrue(tag, heard)
    ensures TagTrue(Heed(tag, adv, now), heard + [Hearing(adv, now)])
    ensures SameSettings(Heed(tag, adv, now), tag)
  {
    assert (heard + [Hearing(adv, now)])[..|heard|] == heard;
    SameTag(heard, tag, Heed(tag, adv, now));
  }

  lemma TagsKept(tags: seq<Tag>, after: seq<Tag>, since: seq<nat>, heard: seq<Hearing>, adv: Advertisement, now: nat)
    requires |since| == |tags| == |after|
    requires forall i :: 0 <= i < |tags| ==> since[i] <= |heard| && TagTrue(tags[i], heard[since[i]..])
    requires forall i :: 0 <= i < |tags| ==> after[i] == Heed(tags[i], adv, now)
    ensures var longer := heard + [Hearing(adv, now)];
      forall i :: 0 <= i < |after| ==>
        since[i] <= |longer| && TagTrue(after[i], longer[since[i]..]) && SameSettings(after[i], tags[i])
  {
    var longer := heard + [Hearing(adv, now)];
    forall i | 0 <= i < |after| ensures TagTrue(after[i], longer[since[i]..]) && SameSettings(after[i], tags[i]) {
      HeedKeeps(tags[i], heard[since[i]..], adv, now);
      assert longer[since[i]..] == heard[since[i]..] + [Hearing(adv, now)];
    }
  }

  lemma {:induction false} LastForIsLatest(heard: seq<Hearing>, tag: Tag, clock: nat)
    requires InOrder(LogOf(heard), clock)
    ensures LastFor(heard, tag).None? ==> forall k :: 0 <= k < |heard| ==> !CountsFor(heard[k], tag)
    ensures LastFor(heard, tag).Some? ==>
      exists k :: 0 <= k < |heard| && heard[k] == LastFor(heard, tag).value && CountsFor(heard[k], tag)
                  && forall j :: 0 <= j < |heard| && CountsFor(heard[j], tag) ==> heard[j].time <= heard[k].time
  {
    if heard != [] {
      var n := |heard| - 1;
      var front := heard[..n];
      assert LogOf(front) == LogOf(heard)[..n];
      assert forall i :: 0 <= i < |heard| ==> LogOf(heard)[i] == Heard(heard[i].adv.address, heard[i].time);
      if CountsFor(heard[n], tag) {
        assert forall j :: 0 <= j < n ==> LogOf(heard)[j].time <= LogOf(heard)[n].time;
      } else {
        LastForIsLatest(front, tag, clock);
        assert forall j :: 0 <= j < n ==> heard[j] == front[j];
      }
    }
  }

  /** A tag counts as present exactly when an advertisement that counts for it was heard in the
      last 45 s, and not at time zero. */
  lemma PresentExactly(tag: Tag, heard: seq<Hearing>, uptime: nat)
    requires TagTrue(tag, heard) && InOrder(LogOf(heard), uptime)
    ensures TagPresent(tag, uptime) <==>
      tag.occupied && exists k :: 0 <= k < |heard| && CountsFor(heard[k], tag)
                                  && heard[k].time > 0 && uptime - heard[k].time <= 45_000
  {
    LastForIsLatest(heard, tag, uptime);
  }

  // ---------------------------------------------------------------------------
  // The node's state over a whole run
  // ---------------------------------------------------------------------------

  predicate SightingActive(s: Sighting, uptime: nat) {
    s.occupied && SaturatingSub(uptime, s.lastSeenMs) <= SIGHTING_FRESHNESS_MS
  }

  predicate TagPresent(tag: Tag, uptime: nat) {
    tag.occupied && tag.lastSeenMs > 0 && SaturatingSub(uptime, tag.lastSeenMs) <= TAG_FRESHNESS_MS
  }

  class BleState {
    const sightings: array<Sighting>
    const tags: array<Tag>
    ghost var log: seq<Heard<string>>  // every advertisement with an address, since boot
    ghost var heard: seq<Hearing>      // the same, with what it said
    ghost var since: seq<nat>          // how much of that came before each tag was configured

    ghost predicate Valid()
      reads this, sightings, tags
    {
      Faithful(sightings[..], log) && log == LogOf(heard) && SightingsTrue() && TagsTrue()
    }

    ghost predicate SightingsTrue()
      reads this, sightings
    {
      forall i :: 0 <= i < sightings.Length ==> SightingTrue(sightings[i], heard)
    }

    ghost predicate TagsTrue()
      reads this, tags
    {
      |since| == tags.Length
      && forall i :: 0 <= i < tags.Length ==> since[i] <= |heard| && TagTrue(tags[i], heard[since[i]..])
    }

    constructor (slotCount: nat, tagCount: nat)
      ensures Valid() && fresh(sightings) && fresh(tags) && log == []
      ensures sightings.Length == slotCount && tags.Length == tagCount
    {
      sightings := new Sighting[slotCount](_ => Sighting(false, "", "", "", 0, 0));
      tags := new Tag[tagCount](_ => NO_TAG);
      log, heard, since := [], [], seq(tagCount, _ => 0);
      new;
      FreshSlotsAreFaithful(sightings[..]);
    }

    method Record(adv: Advertisement, now: nat)
      requires Valid() && InOrder(log, now)
      modifies this`log, this`heard, sightings, tags
      ensures Valid() && InOrder(log, now)
      ensures forall i :: 0 <= i < tags.Length ==> SameSettings(tags[i], old(tags[i]))
      ensures heard == if adv.address == "" || sightings.Length == 0 then old(heard)
                       else old(heard) + [Hearing(adv, now)]
      ensures log == if adv.address == "" || sightings.Length == 0 then old(log)
                     else old(log) + [Heard(adv.address, now)]
    {
      ghost var before, earlier := sightings[..], tags[..];
      ghost var slot := RecordAdvertisement(sightings, tags, adv, now);
      if adv.address != "" && sightings.Length > 0 {
        RecordKeepsFaithful(before, log, adv, now, slot);
        SightingsKept(before, slot, adv, now, heard);
        TagsKept(earlier, tags[..], since, heard, adv, now);
        InOrderExtends(log, adv.address, now);
        log := log + [Heard(adv.address, now)];
        heard := heard + [Hearing(adv, now)];
        assert log == LogOf(heard);
      }
    }

    /** apply_ble_tag_config: a tag needs a label and an address, its limit lies between -120 and
        -20, and nothing heard before counts for it. */
    method ConfigureTag(slot: nat, labelText: string, address: string, minRssi: int) returns (ok: bool)
      requires Valid()
      modifies this`since, tags
      ensures Valid() && (ok <==> slot < tags.Length)
      ensures forall i :: 0 <= i < tags.Length && i != slot ==> tags[i] == old(tags[i]) && since[i] == old(since[i])
      ensures ok ==> since[slot] == |heard|
      ensures ok && labelText != "" && Normalized(address) != "" ==>
                && tags[slot].occupied && tags[slot].labelText == labelText && tags[slot].address == Normalized(address)
                && tags[slot].minRssi == (if minRssi < -120 then -120 else if minRssi > -20 then -20 else minRssi)
      ensures ok && (labelText == "" || Normalized(address) == "") ==> tags[slot] == NO_TAG
    {
      if slot >= tags.Length {
        return false;
      }
      var normalized := NormalizeIdentity(address);
      assert heard[|heard|..] == [];
      if labelText != "" && normalized != "" {
        tags[slot] := Tag(true, labelText, normalized, Max(-120, Min(minRssi, -20)), -127, 0);
      } else {
        tags[slot] := NO_TAG;
      }
      since := since[slot := |heard|];
      return true;
    }

    method ClearTag(slot: nat) returns (ok: bool)
      requires Valid()
      modifies this`since, tags
      ensures Valid() && (ok <==> slot < tags.Length)
      ensures forall i :: 0 <= i < tags.Length && i != slot ==> tags[i] == old(tags[i]) && since[i] == old(since[i])
      ensures ok ==> tags[slot] == NO_TAG
    {
      ok := slot < tags.Length;
      if ok {
        assert heard[|heard|..] == [];
        tags[slot] := NO_TAG;
        since := since[slot := |heard|];
      }
    }

    /** A tag is present exactly when an advertisement from its address, strong enough, was heard
        in the last 45 s and since the tag was configured. */
    lemma TagHeard(i: nat, uptime: nat)
      requires Valid() && i < tags.Length && InOrder(log, uptime)
      ensures TagPresent(tags[i], uptime) <==>
        tags[i].occupied && exists k :: since[i] <= k < |heard| && CountsFor(heard[k], tags[i])
                                        && heard[k].time > 0 && uptime - heard[k].time <= 45_000
    {
      var later := heard[since[i]..];
      assert LogOf(later) == log[since[i]..];
      PresentExactly(tags[i], later, uptime);
      assert forall k :: since[i] <= k < |heard| ==> heard[k] == later[k - since[i]];
      assert forall k :: 0 <= k < |later| ==> later[k] == heard[since[i] + k];
    }

    /** The node reports as many active beacons as were heard in the last 30 seconds, up to
        the number of its slots (and to the width of the counter). */
    method ActiveBeaconCount(uptime: nat) returns (count: nat)
      requires Valid() && InOrder(log, uptime)
      ensures count == Min(Min(sightings.Length, |FreshKeys(log, uptime, SIGHTING_FRESHNESS_MS)|), 0xFFFF)
    {
      count := 0;
      ghost var entries := Entries(sightings[..]);
      for i := 0 to sightings.Length
        invariant count == FreshCount(entries[..i], uptime, SIGHTING_FRESHNESS_MS)
      {
        assert entries[..i + 1][..i] == entries[..i];
        assert entries[i] == EntryOf(sightings[i]);
        if SightingActive(sightings[i], uptime) {
          count := count + 1;
        }
      }
      assert entries[..sightings.Length] == entries;
      FreshCountIsActive(entries, uptime, SIGHTING_FRESHNESS_MS);
      ActiveCount(TableOf(entries), log, sightings.Length, 0, uptime, SIGHTING_FRESHNESS_MS);
      count := Min(count, 0xFFFF);
    }
  }
}
