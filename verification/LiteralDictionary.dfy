/** The dictionary object: its methods keep the table invariant and act on the map it stands for. */
module LiteralDictionaries {
  import Ast
  import opened Literals
  import opened Dictionary

  // ---------- Growth of the table ----------

  function Grow(capacity: nat): nat {
    if capacity < 8 then 8 else 2 * capacity
  }

  /** 8, 16, 32, ... */
  predicate IsCapacity(capacity: nat) {
    capacity == 8 || (capacity > 8 && capacity % 2 == 0 && IsCapacity(capacity / 2))
  }

  function Power2(k: nat): nat {
    if k == 0 then 1 else 2 * Power2(k - 1)
  }

  lemma CapacityPower(capacity: nat) returns (k: nat)
    requires IsCapacity(capacity)
    ensures capacity == 8 * Power2(k)
  {
    if capacity == 8 {
      k := 0;
    } else {
      k := CapacityPower(capacity / 2);
      k := k + 1;
    }
  }

  lemma DoubledIsCapacity(capacity: nat)
    requires IsCapacity(capacity)
    ensures IsCapacity(2 * capacity)
  {
    assert 2 * capacity / 2 == capacity;
  }

  /** The early-stop probe for a refused key equals no key, and stops at the first empty slot. */
  lemma RefusedProbe(es: seq<Entry>, start: nat, key: Literal, found: Ast.Option<nat>)
    requires Table(es) && HasVacant(es) && start < |es| && Refused(key)
    requires FirstStop(es, start, key, false, found)
    ensures found.Some? && found.value < |es| && Vacant(es[found.value]) && PathIsFull(es, start, found.value)
  {
    hide Home, Before, Hash, Equal;
    forall i | 0 <= i < |es| && Live(es[i])
      ensures !Equal(key, es[i].key)
    {
      RefusedEqualsNothing(key, es[i].key);
    }
    var v :| 0 <= v < |es| && Vacant(es[v]);
    assert Stops(es[v], key, false);
  }

  lemma SmallerMap(a: map<Literal, Literal>, b: map<Literal, Literal>)
    requires a.Keys <= b.Keys
    ensures |a| <= |b|
    ensures (exists k :: k in b && k !in a) ==> |a| < |b|
  {
    assert |b.Keys| == |a.Keys| + |b.Keys - a.Keys|;
  }

  ghost predicate HoldsBelow(es: seq<Entry>, i: nat, key: Literal)
    requires i <= |es|
  {
    exists j :: 0 <= j < i && Live(es[j]) && es[j].key == key
  }

  /** The slots before i have been visited: done is their map. */
  ghost predicate Visited(old_: seq<Entry>, i: nat, m: map<Literal, Literal>, done: map<Literal, Literal>)
    requires i <= |old_|
  {
    && (forall k :: k in done ==> k in m && done[k] == m[k] && HoldsBelow(old_, i, k))
    && (forall j :: 0 <= j < i && Live(old_[j]) ==> old_[j].key in done)
  }

  lemma NotVisitedYet(old_: seq<Entry>, i: nat, m: map<Literal, Literal>, done: map<Literal, Literal>)
    requires i < |old_| && Table(old_) && Represents(old_, m) && Visited(old_, i, m, done) && Live(old_[i])
    ensures !Refused(old_[i].key) && old_[i].key !in done && |done| < |m|
    ensures done.Keys + {old_[i].key} <= m.Keys
  {
    hide Home, PathIsFull, Hash;
    var key := old_[i].key;
    assert key in done ==> HoldsBelow(old_, i, key);
    SmallerMap(done, m);
  }

  lemma VisitOne(old_: seq<Entry>, i: nat, m: map<Literal, Literal>, done: map<Literal, Literal>)
    requires i < |old_| && Represents(old_, m) && Visited(old_, i, m, done)
    ensures Visited(old_, i + 1, m, if Live(old_[i]) then done[old_[i].key := old_[i].value] else done)
  {
    hide Holds;
    forall k | k in done
      ensures HoldsBelow(old_, i + 1, k)
    {
      assert HoldsBelow(old_, i, k);
    }
  }

  lemma AllVisited(old_: seq<Entry>, m: map<Literal, Literal>, done: map<Literal, Literal>)
    requires Represents(old_, m) && Visited(old_, |old_|, m, done)
    ensures done == m
  {
    forall k | k in m
      ensures k in done
    {
      var j :| 0 <= j < |old_| && Live(old_[j]) && old_[j].key == k;
    }
  }

  lemma HomeIs(key: Literal, capacity: nat)
    requires capacity > 0
    ensures Home(key, capacity) == Hash(key) as nat % capacity
  {
    hide Hash;
  }

  /** A live entry goes to the first empty slot that the probe from its home finds. */
  lemma MoveOne(old_: seq<Entry>, i: nat, m: map<Literal, Literal>, es: seq<Entry>, done: map<Literal, Literal>,
                found: Ast.Option<nat>)
    requires i < |old_| && Table(old_) && Represents(old_, m) && Visited(old_, i, m, done) && Live(old_[i])
    requires Table(es) && Represents(es, done) && |Used(es)| == |done| && |m| < |es|
    requires FirstStop(es, Home(old_[i].key, |es|), Null, false, found)
    ensures found.Some? && found.value < |es| && old_[i].key !in done
    ensures var es1 := es[found.value := old_[i]];
            && Table(es1) && Represents(es1, done[old_[i].key := old_[i].value]) && |Used(es1)| == |done| + 1
  {
    hide Table, Represents, Visited, PathIsFull, Hash, Home, Used, FirstStop, HasVacant;
    NotVisitedYet(old_, i, m, done);
    SomeSlotIsVacant(es);
    RefusedProbe(es, Home(old_[i].key, |es|), Null, found);
    PutFresh(es, done, found.value, old_[i].key, old_[i].value);
  }

  /** Moves every live entry to a new, larger table and leaves the tombstones behind. */
  method AdjustEntryCapacity(old_: array<Entry>, capacity: nat, ghost m: map<Literal, Literal>)
    returns (entries: array<Entry>)
    requires |m| < capacity && (old_.Length > 0 ==> Table(old_[..])) && Represents(old_[..], m)
    ensures fresh(entries) && entries.Length == capacity
    ensures Table(entries[..]) && Represents(entries[..], m) && |Used(entries[..])| == |m|
  {
    hide Table, Represents, Visited, PathIsFull, Hash, Home, Used, FirstStop;
    entries := new Entry[capacity](_ => EMPTY);
    ghost var done: map<Literal, Literal> := map[];
    EmptyTable(entries[..]);
    NothingVisited(old_[..], m);
    for i := 0 to old_.Length
      invariant Table(entries[..]) && Represents(entries[..], done) && |Used(entries[..])| == |done|
      invariant Visited(old_[..], i, m, done)
    {
      VisitOne(old_[..], i, m, done);
      if !old_[i].key.Null? {
        HomeIs(old_[i].key, capacity);
        var entry := GetEntryArray(entries, Null, Hash(old_[i].key) as nat, false);
        MoveOne(old_[..], i, m, entries[..], done, entry);
        ghost var es := entries[..];
        entries[entry.value] := old_[i];
        assert entries[..] == es[entry.value := old_[i]];
        done := done[old_[i].key := old_[i].value];
      }
    }
    AllVisited(old_[..], m, done);
  }

  lemma EmptyTable(es: seq<Entry>)
    requires |es| > 0 && forall i :: 0 <= i < |es| ==> es[i] == EMPTY
    ensures Table(es) && Represents(es, map[]) && Used(es) == {}
  {
  }

  lemma NothingVisited(old_: seq<Entry>, m: map<Literal, Literal>)
    ensures Visited(old_, 0, m, map[])
  {
  }

  // ---------- The object ----------

  class LiteralDictionary {
    var entries: array<Entry>
    var capacity: nat
    var contains: nat  // how often a new key was set; removing does not lower it
    var count: nat
    ghost var contents: map<Literal, Literal>  // the map this table stands for
    ghost var moved: nat  // slots that all rehashes together have gone through
    ghost var sets: nat  // calls of Set

    ghost predicate Valid()
      reads this, entries
    {
      && entries.Length == capacity && IsCapacity(capacity)
      && Table(entries[..]) && Represents(entries[..], contents)
      && |Used(entries[..])| <= contains && 4 * contains <= 3 * capacity
      && count == |contents| && count <= contains <= sets && Unmixed(contents.Keys)
      && moved + 8 == capacity && (capacity == 8 || 3 * capacity < 8 * (contains + 1))
    }

    /** A key that is refused, or that equals itself and no other key of the table. The documented
        kinds among themselves always do. */
    ghost predicate Accepts(key: Literal)
      reads this
    {
      Refused(key) || Admitted(key, contents)
    }

    constructor ()
      ensures Valid() && fresh(entries) && contents == map[] && contains == sets == 0
    {
      var none := new Entry[0];
      var first := AdjustEntryCapacity(none, Grow(0), map[]);
      entries := first;
      capacity, contains, count := Grow(0), 0, 0;
      contents, moved, sets := map[], 0, 0;
    }

    /** Rehashing costs at most a fixed number of moved slots per Set, over every run. */
    lemma RehashingIsLinear()
      returns (k: nat)
      requires Valid()
      ensures capacity == 8 * Power2(k)
      ensures capacity == 8 || 3 * capacity < 8 * (contains + 1)
      ensures moved == capacity - 8 && 3 * moved <= 8 * sets
    {
      k := CapacityPower(capacity);
    }

    /** In every reachable table an early stop and a full scan come to the same slot, or find nothing. */
    lemma ProbesAgreeAlways(key: Literal, early: Ast.Option<nat>, full: Ast.Option<nat>)
      requires Valid() && Admitted(key, contents)
      requires FirstStop(entries[..], Home(key, capacity), key, false, early)
      requires FirstStop(entries[..], Home(key, capacity), key, true, full)
      ensures early.Some?
      ensures if Live(entries[early.value]) then full == early else full == Ast.None
    {
      hide Table, Represents, PathIsFull, Hash, Used, Unmixed, Stops, Before;
      SomeSlotIsVacant(entries[..]);
      ProbesAgree(entries[..], contents, key, early, full);
    }

    /** Doubles the table when one more key would overload it. */
    method MakeRoom()
      requires Valid()
      modifies this
      ensures Valid() && (entries == old(entries) || fresh(entries)) && 4 * (contains + 1) <= 3 * capacity
      ensures contents == old(contents) && contains == old(contains) && count == old(count) && sets == old(sets)
      ensures capacity == if 4 * (contains + 1) > 3 * old(capacity) then Grow(old(capacity)) else old(capacity)
    {
      hide Table, Represents, Hash, Used;
      if 4 * (contains + 1) > 3 * capacity {
        DoubledIsCapacity(capacity);
        moved := moved + capacity;
        capacity := Grow(capacity);
        entries := AdjustEntryCapacity(entries, capacity, contents);
      }
    }

    /** Writes the slot where the probe for the key stops, in a table with room for one more. */
    method Put(key: Literal, value: Literal)
      requires Valid() && Admitted(key, contents) && 4 * (contains + 1) <= 3 * capacity && contains < sets
      modifies this, entries
      ensures Valid() && entries == old(entries) && capacity == old(capacity) && sets == old(sets)
      ensures contents == old(contents)[key := value]
      ensures contains == old(contains) + if key in old(contents) then 0 else 1
    {
      hide Table, Represents, PathIsFull, Hash, IsCapacity, Used, FirstStop, HasVacant, Admitted, Unmixed;
      SomeSlotIsVacant(entries[..]);
      var entry := GetEntryArray(entries, key, Hash(key) as nat, false);
      EarlyStopFinds(entries[..], contents, key, entry);
      var i := entry.value;
      OneWritten(entries[..], contents, i, key, value);
      if entries[i].key.Null? {
        contains, count := contains + 1, count + 1;
      }
      entries[i] := Entry(key, value);
      contents := contents[key := value];
      assert entries[..] == old(entries[..])[i := Entry(key, value)];
    }

    /** Sets one key and leaves every other; refuses null, function and opaque keys. */
    method Set(key: Literal, value: Literal)
      requires Valid() && Accepts(key)
      modifies this, entries
      ensures Valid() && (entries == old(entries) || fresh(entries)) && sets == old(sets) + 1
      ensures key.Null? || key.Function? || key.Opaque? ==>
                contents == old(contents) && contains == old(contains) && capacity == old(capacity)
      ensures !Refused(key) ==> contents == old(contents)[key := value]
      ensures !Refused(key) ==> contains == old(contains) + if key in old(contents) then 0 else 1
      ensures !Refused(key) ==>
                capacity == if 4 * (old(contains) + 1) > 3 * old(capacity) then Grow(old(capacity)) else old(capacity)
    {
      hide Table, Represents, IsCapacity, Used, Unmixed;
      sets := sets + 1;
      if Refused(key) { return; }
      MakeRoom();
      Put(key, value);
    }

    /** The value of a key; null for an absent or refused one. */
    method Get(key: Literal) returns (value: Literal)
      requires Valid() && Accepts(key)
      ensures value == if key in contents then contents[key] else Null
    {
      hide Table, PathIsFull, Hash, IsCapacity, Used;
      if Refused(key) {
        RefusedIsAbsent(entries[..], contents, key);
        return Null;
      }
      var entry := GetEntryArray(entries, key, Hash(key) as nat, true);
      FullScanFinds(entries[..], contents, key, entry);
      return if entry.Some? then entries[entry.value].value else Null;
    }

    /** Deletes exactly one key, if it is there. */
    method Remove(key: Literal)
      requires Valid() && Accepts(key)
      modifies this, entries
      ensures Valid() && entries == old(entries) && capacity == old(capacity)
              && contains == old(contains) && sets == old(sets)
      ensures contents == old(contents) - {key}
    {
      hide Table, PathIsFull, Hash, IsCapacity, Represents, FirstStop, Equal, Unmixed, Used;
      if Refused(key) {
        RefusedIsAbsent(entries[..], contents, key);
        return;
      }
      var entry := GetEntryArray(entries, key, Hash(key) as nat, true);
      FullScanFinds(entries[..], contents, key, entry);
      if entry.Some? {
        Bury(entries[..], contents, entry.value);
        entries[entry.value] := TOMBSTONE;
        count := count - 1;
        FewerAreUnmixed(contents.Keys, contents.Keys - {key});
        contents := contents - {key};
      }
    }

    /** Whether the early-stop probe comes to the key. */
    method Exists(key: Literal) returns (found: bool)
      requires Valid() && Accepts(key)
      ensures found <==> key in contents
    {
      hide PathIsFull, Hash, IsCapacity, Used;
      SomeSlotIsVacant(entries[..]);
      var entry := GetEntryArray(entries, key, Hash(key) as nat, false);
      if Refused(key) {
        RefusedIsAbsent(entries[..], contents, key);
        RefusedProbe(entries[..], Home(key, capacity), key, entry);
      } else {
        EarlyStopFinds(entries[..], contents, key, entry);
      }
      return !Vacant(entries[entry.value]);
    }
  }

  /** What one written slot does to the table, to its map and to the two counts. */
  lemma OneWritten(es: seq<Entry>, m: map<Literal, Literal>, i: nat, key: Literal, value: Literal)
    requires Table(es) && Represents(es, m) && Admitted(key, m)
    requires i < |es| && PathIsFull(es, Home(key, |es|), i)
    requires if key in m then es[i] == Entry(key, m[key]) else Vacant(es[i])
    ensures var es1, m1 := es[i := Entry(key, value)], m[key := value];
            && Table(es1) && Represents(es1, m1) && Unmixed(m1.Keys)
            && |Used(es1)| == |Used(es)| + (if es[i].key.Null? then 1 else 0)
            && |m1| == |m| + if es[i].key.Null? then 1 else 0
    ensures es[i].key.Null? <==> key !in m
  {
    hide Table, PathIsFull, Home, Used, Equal, Unmixed, Represents;
    if key in m {
      PresentIsLive(es, m, key);
      Overwrite(es, m, i, key, value);
    } else {
      PutFresh(es, m, i, key, value);
    }
    assert m[key := value].Keys == m.Keys + {key};
  }

  lemma PresentIsLive(es: seq<Entry>, m: map<Literal, Literal>, key: Literal)
    requires Represents(es, m) && key in m
    ensures !key.Null?
  {
  }

  lemma FewerAreUnmixed(keys: set<Literal>, fewer: set<Literal>)
    requires Unmixed(keys) && fewer <= keys
    ensures Unmixed(fewer)
  {
    hide Equal;
  }

  lemma RefusedEqualsNothing(key: Literal, other: Literal)
    requires Refused(key) && !other.Null?
    ensures !Equal(key, other)
  {
  }

  lemma RefusedIsAbsent(es: seq<Entry>, m: map<Literal, Literal>, key: Literal)
    requires Table(es) && Represents(es, m) && Refused(key)
    ensures key !in m && m - {key} == m
  {
    hide Hash, PathIsFull;
    assert key in m ==> Holds(es, key);
  }
}
