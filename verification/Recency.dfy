/** Bounded tables of what was heard most recently, against the unbounded log of everything
    that was heard. The BLE sightings and the UDP peers are both tables of this kind. */
module Recency {
  import opened Wrappers

  datatype Heard<K> = Heard(key: K, time: nat)

  ghost function Keys<K>(log: seq<Heard<K>>): set<K> {
    set e | e in log :: e.key
  }

  /** The time of the latest entry for a key. */
  ghost function LastHeard<K>(log: seq<Heard<K>>, key: K): nat
    requires key in Keys(log)
  {
    var e := log[|log| - 1];
    if e.key == key then e.time else LastHeard(log[..|log| - 1], key)
  }

  /** Times never decrease, and none is in the future. */
  ghost predicate InOrder<K>(log: seq<Heard<K>>, now: nat) {
    && (forall i, j :: 0 <= i < j < |log| ==> log[i].time <= log[j].time)
    && (log != [] ==> log[|log| - 1].time <= now)
  }

  lemma InOrderExtends<K>(log: seq<Heard<K>>, key: K, now: nat)
    requires InOrder(log, now)
    ensures InOrder(log + [Heard(key, now)], now)
  {
    if log != [] {
      assert forall i :: 0 <= i < |log| ==> log[i].time <= log[|log| - 1].time;
    }
  }

  ghost function FreshKeys<K>(log: seq<Heard<K>>, now: nat, window: nat): set<K> {
    set k | k in Keys(log) && now - LastHeard(log, k) <= window
  }

  /** Every entry of the table is the time its key was last heard. */
  ghost predicate Current<K>(table: map<K, nat>, log: seq<Heard<K>>) {
    forall k :: k in table ==> k in Keys(log) && table[k] == LastHeard(log, k)
  }

  /** A table of at most `capacity` keys that agrees with the log: it gives each of its keys
      the time that key was last heard, and a key it has lost was last heard before `floor`,
      or is no newer than any entry of a full table. */
  ghost predicate Tracks<K>(table: map<K, nat>, log: seq<Heard<K>>, capacity: nat, floor: int) {
    && |table| <= capacity
    && Current(table, log)
    && (forall k :: k in Keys(log) && k !in table ==> Lost(table, LastHeard(log, k), capacity, floor))
  }

  ghost predicate Lost<K>(table: map<K, nat>, time: nat, capacity: nat, floor: int) {
    time < floor || (|table| == capacity && forall j :: j in table ==> time <= table[j])
  }

  ghost function Active<K>(table: map<K, nat>, now: nat, window: nat): set<K> {
    set k | k in table && now - table[k] <= window
  }

  lemma LastHeardStep<K>(log: seq<Heard<K>>, e: Heard<K>, key: K)
    requires key in Keys(log + [e])
    ensures Keys(log + [e]) == Keys(log) + {e.key}
    ensures LastHeard(log + [e], key) == if key == e.key then e.time else LastHeard(log, key)
  {
    assert (log + [e])[..|log|] == log;
  }

  lemma {:induction false} LastHeardBounded<K>(log: seq<Heard<K>>, key: K, now: nat)
    requires InOrder(log, now) && key in Keys(log)
    ensures LastHeard(log, key) <= now
  {
    var front := log[..|log| - 1];
    if log[|log| - 1].key != key {
      LastHeardBounded(front, key, now);
    }
  }

  lemma EntriesStayCurrent<K>(table: map<K, nat>, after: map<K, nat>, log: seq<Heard<K>>, key: K, now: nat)
    requires Current(table, log) && key in after && after[key] == now
    requires forall k :: k in after && k != key ==> k in table && after[k] == table[k]
    ensures Current(after, log + [Heard(key, now)])
  {
    LastHeardStep(log, Heard(key, now), key);
    forall k | k in after
      ensures k in Keys(log + [Heard(key, now)]) && after[k] == LastHeard(log + [Heard(key, now)], k)
    {
      LastHeardStep(log, Heard(key, now), k);
    }
  }

  lemma UpdateSize<K>(table: map<K, nat>, key: K, now: nat)
    ensures |table[key := now]| == if key in table then |table| else |table| + 1
  {
    var after := table[key := now];
    assert after.Keys == table.Keys + {key};
    assert |after| == |after.Keys| && |table| == |table.Keys|;
  }

  /** Hearing a key that is in the table, or that still has room. */
  lemma HearKeeps<K>(table: map<K, nat>, log: seq<Heard<K>>, capacity: nat, floor: int, key: K, now: nat)
    requires Tracks(table, log, capacity, floor) && InOrder(log, now)
    requires key in table || |table| < capacity
    ensures Tracks(table[key := now], log + [Heard(key, now)], capacity, floor)
  {
    var after, log' := table[key := now], log + [Heard(key, now)];
    UpdateSize(table, key, now);
    LastHeardStep(log, Heard(key, now), key);
    EntriesStayCurrent(table, after, log, key, now);
    forall k | k in Keys(log') && k !in after
      ensures Lost(after, LastHeard(log', k), capacity, floor)
    {
      LastHeardStep(log, Heard(key, now), k);
      LastHeardBounded(log, k, now);
      assert Lost(table, LastHeard(log, k), capacity, floor);
    }
  }

  lemma RemovalSize<K>(table: map<K, nat>, victim: K)
    requires victim in table
    ensures |table - {victim}| == |table| - 1
  {
    var after := table - {victim};
    assert after.Keys == table.Keys - {victim};
    assert |after| == |after.Keys| && |table| == |table.Keys|;
  }

  /** What was lost before, and the victim itself, stay no newer than the entries. */
  lemma LostAfterEviction<K>(table: map<K, nat>, key: K, now: nat, victim: K, time: nat, floor: int)
    requires victim in table && key !in table && time <= now
    requires forall j :: j in table ==> table[victim] <= table[j]
    requires time == table[victim] || Lost(table, time, |table|, floor)
    ensures |(table - {victim})[key := now]| == |table|
    ensures Lost((table - {victim})[key := now], time, |table|, floor)
  {
    RemovalSize(table, victim);
    UpdateSize(table - {victim}, key, now);
  }

  /** Hearing a new key with a full table: an entry no newer than any other makes room. */
  lemma EvictKeeps<K>(table: map<K, nat>, log: seq<Heard<K>>, capacity: nat, floor: int, key: K, now: nat, victim: K)
    requires Tracks(table, log, capacity, floor) && InOrder(log, now)
    requires key !in table && |table| == capacity
    requires victim in table && forall j :: j in table ==> table[victim] <= table[j]
    ensures Tracks((table - {victim})[key := now], log + [Heard(key, now)], capacity, floor)
  {
    var after, log' := (table - {victim})[key := now], log + [Heard(key, now)];
    LastHeardStep(log, Heard(key, now), key);
    LastHeardBounded(log, victim, now);
    LostAfterEviction(table, key, now, victim, table[victim], floor);
    EntriesStayCurrent(table, after, log, key, now);
    forall k | k in Keys(log') && k !in after
      ensures Lost(after, LastHeard(log', k), capacity, floor)
    {
      LastHeardStep(log, Heard(key, now), k);
      LastHeardBounded(log, k, now);
      LostAfterEviction(table, key, now, victim, LastHeard(log, k), floor);
    }
  }

  ghost function Pruned<K>(table: map<K, nat>, floor: int): map<K, nat> {
    map k | k in table && table[k] >= floor :: table[k]
  }

  /** Dropping everything last heard before a later floor. */
  lemma PruneKeeps<K>(table: map<K, nat>, log: seq<Heard<K>>, capacity: nat, floor: int, floor': int)
    requires Tracks(table, log, capacity, floor) && floor <= floor'
    ensures Tracks(Pruned(table, floor'), log, capacity, floor')
  {
    var after := Pruned(table, floor');
    assert after.Keys <= table.Keys;
    SubsetSize(after.Keys, table.Keys);
    forall k | k in Keys(log) && k !in after
      ensures Lost(after, LastHeard(log, k), capacity, floor')
    {
      if k !in table && LastHeard(log, k) >= floor' {
        // the table was full, and nothing in it is older than this key
        assert forall j :: j in table ==> j in after;
        assert after == table;
      }
    }
  }

  lemma {:induction false} SubsetSize<T>(a: set<T>, b: set<T>)
    requires a <= b
    ensures |a| <= |b|
    ensures |a| == |b| ==> a == b
  {
    if a != {} {
      var x :| x in a;
      SubsetSize(a - {x}, b - {x});
    }
  }

  /** The main result: as long as everything below the floor is stale, the table knows of
      exactly as many fresh keys as the log does, up to its capacity. */
  lemma ActiveCount<K>(table: map<K, nat>, log: seq<Heard<K>>, capacity: nat, floor: int, now: nat, window: nat)
    requires Tracks(table, log, capacity, floor) && (floor <= now - window || floor <= 0)
    ensures |Active(table, now, window)| == Min(capacity, |FreshKeys(log, now, window)|)
  {
    var active, heard := Active(table, now, window), FreshKeys(log, now, window);
    assert active <= heard;
    SubsetSize(active, heard);
    assert active <= table.Keys;
    SubsetSize(active, table.Keys);
    if k :| k in heard && k !in active {
      // a fresh key is missing, so the table is full of keys at least as fresh
      assert Lost(table, LastHeard(log, k), capacity, floor);
      assert active == table.Keys;
      SubsetSize(active, heard);
    } else {
      assert active == heard;
    }
  }

  // ---------------------------------------------------------------------------
  // Tables stored as a sequence of slots, some of which may be free
  // ---------------------------------------------------------------------------

  type Entry<K> = Option<Heard<K>>

  ghost predicate Distinct<K>(entries: seq<Entry<K>>) {
    forall i, j :: 0 <= i < j < |entries| && entries[i].Some? && entries[j].Some?
      ==> entries[i].value.key != entries[j].value.key
  }

  ghost predicate Full<K>(entries: seq<Entry<K>>) {
    forall i :: 0 <= i < |entries| ==> entries[i].Some?
  }

  ghost function TableOf<K>(entries: seq<Entry<K>>): map<K, nat> {
    if entries == [] then map[]
    else
      var table, last := TableOf(entries[..|entries| - 1]), entries[|entries| - 1];
      if last.Some? then table[last.value.key := last.value.time] else table
  }

  ghost predicate Holds<K>(entries: seq<Entry<K>>, i: nat, key: K, time: nat) {
    i < |entries| && entries[i] == Some(Heard(key, time))
  }

  lemma {:induction false} TableMeaning<K>(entries: seq<Entry<K>>)
    requires Distinct(entries)
    ensures forall i, k, t :: Holds(entries, i, k, t) ==> k in TableOf(entries) && TableOf(entries)[k] == t
    ensures forall k :: k in TableOf(entries) ==> exists i :: Holds(entries, i, k, TableOf(entries)[k])
  {
    if entries != [] {
      var front, last := entries[..|entries| - 1], entries[|entries| - 1];
      TableMeaning(front);
      forall k | k in TableOf(entries)
        ensures exists i :: Holds(entries, i, k, TableOf(entries)[k])
      {
        if last.Some? && last.value.key == k {
          assert Holds(entries, |front|, k, last.value.time);
        } else {
          var i :| Holds(front, i, k, TableOf(front)[k]);
          assert Holds(entries, i, k, TableOf(entries)[k]);
        }
      }
      forall i: nat, k, t | Holds(entries, i, k, t)
        ensures k in TableOf(entries) && TableOf(entries)[k] == t
      {
        if i < |front| {
          assert Holds(front, i, k, t);
        }
      }
    }
  }

  lemma {:induction false} TableSize<K>(entries: seq<Entry<K>>)
    requires Distinct(entries)
    ensures |TableOf(entries)| <= |entries|
    ensures |TableOf(entries)| == |entries| <==> Full(entries)
  {
    if entries != [] {
      var front, last := entries[..|entries| - 1], entries[|entries| - 1];
      TableSize(front);
      TableMeaning(front);
      if last.Some? && last.value.key in TableOf(front) {
        var i :| Holds(front, i, last.value.key, TableOf(front)[last.value.key]);
      }
      assert Full(entries) <==> Full(front) && last.Some?;
    }
  }

  /** The slot that holds a key, if the table has it. */
  lemma FindHolder<K>(entries: seq<Entry<K>>, key: K) returns (i: nat)
    requires Distinct(entries) && key in TableOf(entries)
    ensures Holds(entries, i, key, TableOf(entries)[key])
  {
    TableMeaning(entries);
    i :| Holds(entries, i, key, TableOf(entries)[key]);
  }

  /** Two slot sequences with the same contents make the same table. */
  lemma SameTable<K>(entries: seq<Entry<K>>, table: map<K, nat>)
    requires Distinct(entries)
    requires forall i, k, t :: Holds(entries, i, k, t) ==> k in table && table[k] == t
    requires forall k :: k in table ==> exists i :: Holds(entries, i, k, table[k])
    ensures TableOf(entries) == table
  {
    TableMeaning(entries);
    var made := TableOf(entries);
    forall k | k in made ensures k in table && table[k] == made[k] {
      var i := FindHolder(entries, k);
    }
    forall k | k in table ensures k in made {
      var i :| Holds(entries, i, k, table[k]);
    }
  }

  /** The table after writing a key over a free slot or its own, or over another key's. */
  ghost function Overwritten<K>(table: map<K, nat>, previous: Entry<K>, key: K, now: nat): map<K, nat> {
    if previous.Some? && previous.value.key != key then (table - {previous.value.key})[key := now]
    else table[key := now]
  }

  lemma OverwriteTable<K>(entries: seq<Entry<K>>, slot: nat, key: K, now: nat)
    requires Distinct(entries) && slot < |entries|
    requires key in TableOf(entries) ==> entries[slot].Some? && entries[slot].value.key == key
    ensures Distinct(entries[slot := Some(Heard(key, now))])
    ensures TableOf(entries[slot := Some(Heard(key, now))])
         == Overwritten(TableOf(entries), entries[slot], key, now)
  {
    TableMeaning(entries);
    var after := entries[slot := Some(Heard(key, now))];
    forall i | 0 <= i < |entries| && i != slot && entries[i].Some?
      ensures entries[i].value.key != key
    {
      var e := entries[i].value;
      assert Holds(entries, i, e.key, e.time);
    }
    var table := Overwritten(TableOf(entries), entries[slot], key, now);
    forall i: nat, k, t | Holds(after, i, k, t) ensures k in table && table[k] == t {
      if i != slot {
        assert Holds(entries, i, k, t);
      }
    }
    forall k | k in table ensures exists i :: Holds(after, i, k, table[k]) {
      if k == key {
        assert Holds(after, slot, k, now);
      } else {
        var i := FindHolder(entries, k);
        assert Holds(after, i, k, table[k]);
      }
    }
    SameTable(after, table);
  }

  /** A slot may be given to a key if it is the key's own, or is free and the key has none,
      or, with no slot free, if its entry is no newer than any other. */
  ghost predicate MayTake<K>(entries: seq<Entry<K>>, slot: nat, key: K) {
    && slot < |entries|
    && if key in TableOf(entries) then entries[slot].Some? && entries[slot].value.key == key
       else entries[slot].Some? ==> Full(entries) && forall i :: 0 <= i < |entries| ==>
         entries[i].Some? && entries[slot].value.time <= entries[i].value.time
  }

  lemma EvictsOldest<K>(entries: seq<Entry<K>>, slot: nat, key: K)
    requires Distinct(entries) && MayTake(entries, slot, key)
    requires key !in TableOf(entries) && entries[slot].Some?
    ensures var table, victim := TableOf(entries), entries[slot].value.key;
            |table| == |entries| && victim in table && forall j :: j in table ==> table[victim] <= table[j]
  {
    TableSize(entries);
    TableMeaning(entries);
    var table, victim := TableOf(entries), entries[slot].value.key;
    assert Holds(entries, slot, victim, entries[slot].value.time);
    forall j | j in table ensures table[victim] <= table[j] {
      var i := FindHolder(entries, j);
    }
  }

  /** Writing what was just heard into such a slot keeps the table faithful to the log. */
  lemma TakeKeeps<K>(entries: seq<Entry<K>>, log: seq<Heard<K>>, floor: int, slot: nat, key: K, now: nat)
    requires Distinct(entries) && Tracks(TableOf(entries), log, |entries|, floor) && InOrder(log, now)
    requires MayTake(entries, slot, key)
    ensures var after := entries[slot := Some(Heard(key, now))];
            Distinct(after) && Tracks(TableOf(after), log + [Heard(key, now)], |entries|, floor)
  {
    var table := TableOf(entries);
    OverwriteTable(entries, slot, key, now);
    if key !in table && entries[slot].Some? {
      EvictsOldest(entries, slot, key);
      EvictKeeps(table, log, |entries|, floor, key, now, entries[slot].value.key);
    } else {
      TableSize(entries);
      HearKeeps(table, log, |entries|, floor, key, now);
    }
  }

  ghost predicate IsFresh<K>(entry: Entry<K>, now: nat, window: nat) {
    entry.Some? && now - entry.value.time <= window
  }

  ghost function FreshCount<K>(entries: seq<Entry<K>>, now: nat, window: nat): nat {
    if entries == [] then 0
    else
      FreshCount(entries[..|entries| - 1], now, window)
      + if IsFresh(entries[|entries| - 1], now, window) then 1 else 0
  }

  /** Counting fresh slots counts the active keys. */
  lemma {:induction false} FreshCountIsActive<K>(entries: seq<Entry<K>>, now: nat, window: nat)
    requires Distinct(entries)
    ensures FreshCount(entries, now, window) == |Active(TableOf(entries), now, window)|
  {
    if entries != [] {
      var front, last := entries[..|entries| - 1], entries[|entries| - 1];
      FreshCountIsActive(front, now, window);
      TableMeaning(front);
      var before, after := Active(TableOf(front), now, window), Active(TableOf(entries), now, window);
      if last.Some? {
        var key := last.value.key;
        if key in TableOf(front) {
          var i := FindHolder(front, key);
        }
        assert after == if IsFresh(last, now, window) then before + {key} else before;
      } else {
        assert after == before;
      }
    }
  }
}
