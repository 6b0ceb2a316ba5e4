/** The literal dictionary: an open-addressing hash table with tombstones, and the map it keeps. */
module Dictionary {
  import Ast
  import opened Literals

  // ---------- Slots ----------

  /** An empty slot has a null key and a null value; a removed one a null key and the value true. */
  datatype Entry = Entry(key: Literal, value: Literal)

  const EMPTY := Entry(Null, Null)
  const TOMBSTONE := Entry(Null, Boolean(true))

  predicate Live(e: Entry) {
    !e.key.Null?
  }

  predicate Vacant(e: Entry) {
    e.key.Null? && e.value.Null?
  }

  /** Where the probe for a key starts. */
  function Home(key: Literal, capacity: nat): (home: nat)
    requires capacity > 0
    ensures home < capacity
  {
    Hash(key) as nat % capacity
  }

  function Next(i: nat, capacity: nat): (j: nat)
    requires i < capacity
    ensures j < capacity && j == (i + 1) % capacity
  {
    if i + 1 == capacity then 0 else i + 1
  }

  /** Probing from home comes past slot j before it comes to slot i. */
  predicate Before(home: nat, j: nat, i: nat) {
    if home <= i then home <= j < i else j >= home || j < i
  }

  /** Where a probe for the key stops. */
  predicate Stops(e: Entry, key: Literal, mustExist: bool) {
    if Live(e) then Equal(key, e.key) else Vacant(e) && !mustExist
  }

  /** The first slot from start on at which the probe stops; None if it stops at none. */
  ghost predicate FirstStop(es: seq<Entry>, start: nat, key: Literal, mustExist: bool, found: Ast.Option<nat>)
    requires start < |es|
  {
    match found
    case None => forall j :: 0 <= j < |es| ==> !Stops(es[j], key, mustExist)
    case Some(i) =>
      && i < |es| && Stops(es[i], key, mustExist)
      && forall j :: 0 <= j < |es| && Before(start, j, i) ==> !Stops(es[j], key, mustExist)
  }

  method GetEntryArray(a: array<Entry>, key: Literal, hash: nat, mustExist: bool) returns (found: Ast.Option<nat>)
    requires a.Length > 0
    ensures FirstStop(a[..], hash % a.Length, key, mustExist, found)
  {
    hide Hash, Equal;
    var start := hash % a.Length;
    var index := start;
    var again := true;
    ghost var steps := 0;
    while again
      invariant index < a.Length && steps <= a.Length
      invariant index == if start + steps < a.Length then start + steps else start + steps - a.Length
      invariant again == (steps == 0 || index != start)
      invariant forall j :: 0 <= j < a.Length && (if again then Before(start, j, index) else true) ==>
                !Stops(a[j], key, mustExist)
      decreases a.Length - steps
    {
      if Stops(a[index], key, mustExist) { return Ast.Some(index); }
      index := Next(index, a.Length);
      steps := steps + 1;
      again := index != start;
    }
    found := Ast.None;
  }

  // ---------- The table as a map ----------

  /** No key twice, and no empty slot between a key's home and the key. */
  ghost predicate Table(es: seq<Entry>) {
    && |es| > 0
    && (forall i :: 0 <= i < |es| && Live(es[i]) ==> !Refused(es[i].key))
    && (forall i, j :: 0 <= i < j < |es| && Live(es[i]) && Live(es[j]) ==> es[i].key != es[j].key)
    && (forall i :: 0 <= i < |es| && Live(es[i]) ==> PathIsFull(es, Home(es[i].key, |es|), i))
  }

  ghost predicate PathIsFull(es: seq<Entry>, home: nat, i: nat)
    requires home < |es| && i < |es|
  {
    forall j :: 0 <= j < |es| && Before(home, j, i) ==> !Vacant(es[j])
  }

  ghost predicate Holds(es: seq<Entry>, key: Literal) {
    exists i :: 0 <= i < |es| && Live(es[i]) && es[i].key == key
  }

  ghost predicate Represents(es: seq<Entry>, m: map<Literal, Literal>) {
    && (forall i :: 0 <= i < |es| && Live(es[i]) ==> es[i].key in m && m[es[i].key] == es[i].value)
    && (forall k :: k in m ==> Holds(es, k))
  }

  /** The slots that are not empty: live ones and tombstones. */
  ghost function Used(es: seq<Entry>): set<int> {
    set i | 0 <= i < |es| && !Vacant(es[i])
  }

  ghost predicate HasVacant(es: seq<Entry>) {
    exists i :: 0 <= i < |es| && Vacant(es[i])
  }

  lemma {:induction false} FullTableUsesAll(es: seq<Entry>)
    requires !HasVacant(es)
    ensures |Used(es)| == |es|
  {
    if es != [] {
      var n := |es| - 1;
      FullTableUsesAll(es[..n]);
      assert Used(es) == Used(es[..n]) + {n};
    }
  }

  /** A table that uses fewer slots than it has leaves one empty. */
  lemma SomeSlotIsVacant(es: seq<Entry>)
    requires |Used(es)| < |es|
    ensures HasVacant(es)
  {
    if !HasVacant(es) {
      FullTableUsesAll(es);
    }
  }

  // ---------- The two probes ----------

  /** The key to probe for equals no key of the table but itself. */
  ghost predicate Admitted(key: Literal, m: map<Literal, Literal>) {
    !Refused(key) && Unmixed(m.Keys + {key})
  }

  lemma AdmittedIsFound(es: seq<Entry>, m: map<Literal, Literal>, key: Literal, i: nat)
    requires Represents(es, m) && Admitted(key, m) && i < |es| && Live(es[i])
    ensures Equal(key, es[i].key) <==> key == es[i].key
  {
    hide Equal, Holds;
  }

  /** The full scan finds a key exactly if the map has it, in the slot that holds it. */
  lemma FullScanFinds(es: seq<Entry>, m: map<Literal, Literal>, key: Literal, found: Ast.Option<nat>)
    requires Table(es) && Represents(es, m) && Admitted(key, m)
    requires FirstStop(es, Home(key, |es|), key, true, found)
    ensures found.Some? <==> key in m
    ensures found.Some? ==> found.value < |es| && Live(es[found.value]) && es[found.value] == Entry(key, m[key])
  {
    hide Hash, Equal, Home, Before, Admitted, PathIsFull;
    forall i | 0 <= i < |es| && Live(es[i])
      ensures Equal(key, es[i].key) <==> key == es[i].key
    {
      AdmittedIsFound(es, m, key, i);
    }
  }

  /** The probe that gives up at an empty slot never runs round, and finds a key exactly if the map
      has it; otherwise it stops at an empty slot with no empty slot before it. */
  lemma EarlyStopFinds(es: seq<Entry>, m: map<Literal, Literal>, key: Literal, found: Ast.Option<nat>)
    requires Table(es) && Represents(es, m) && Admitted(key, m) && HasVacant(es)
    requires FirstStop(es, Home(key, |es|), key, false, found)
    ensures found.Some? && found.value < |es|
    ensures if key in m then es[found.value] == Entry(key, m[key]) else Vacant(es[found.value])
    ensures PathIsFull(es, Home(key, |es|), found.value)
  {
    hide Hash, Equal, Home, Admitted, Before, PathIsFull;
    forall i | 0 <= i < |es| && Live(es[i])
      ensures Equal(key, es[i].key) <==> key == es[i].key
    {
      AdmittedIsFound(es, m, key, i);
    }
    var v :| 0 <= v < |es| && Vacant(es[v]);
    assert Stops(es[v], key, false);
    StopsOnFullPath(es, Home(key, |es|), key, found.value);
    if key in m {
      var i :| 0 <= i < |es| && Live(es[i]) && es[i].key == key;
      PathLeadsToKey(es, Home(key, |es|), key, i, found.value);
    }
  }

  /** The early-stop probe has come by no empty slot. */
  lemma StopsOnFullPath(es: seq<Entry>, home: nat, key: Literal, s: nat)
    requires home < |es| && FirstStop(es, home, key, false, Ast.Some(s))
    ensures PathIsFull(es, home, s)
  {
    hide Equal, Before;
  }

  /** It does not stop short of the key, which lies on a full path. */
  lemma PathLeadsToKey(es: seq<Entry>, home: nat, key: Literal, i: nat, s: nat)
    requires home < |es| && i < |es| && FirstStop(es, home, key, false, Ast.Some(s))
    requires Live(es[i]) && Equal(key, es[i].key) && PathIsFull(es, home, i)
    ensures Live(es[s])
  {
    hide Equal;
    assert Stops(es[i], key, false);
  }

  /** In such a table the two probes agree: they find the same slot, or neither finds the key. */
  lemma ProbesAgree(es: seq<Entry>, m: map<Literal, Literal>, key: Literal,
                    early: Ast.Option<nat>, full: Ast.Option<nat>)
    requires Table(es) && Represents(es, m) && Admitted(key, m) && HasVacant(es)
    requires FirstStop(es, Home(key, |es|), key, false, early)
    requires FirstStop(es, Home(key, |es|), key, true, full)
    ensures early.Some?
    ensures if Live(es[early.value]) then full == early else full == Ast.None
  {
    hide Home, Represents, Stops, Before, Admitted;
    EarlyStopFinds(es, m, key, early);
    FullScanFinds(es, m, key, full);
  }

  /** Where an equal key is stored that hashes differently they need not: with the integer 1 as its
      only key, the full scan finds the float 1.0 and the early-stop probe does not. */
  lemma ProbesDisagreeOnMixedKeys(es: seq<Entry>, value: Literal)
    requires |es| == 8 && es[7] == Entry(Integer(1), value)
    requires forall i :: 0 <= i < 7 ==> es[i] == EMPTY
    ensures var one := Float(1.0, 0x3f80_0000);
            && Table(es) && Represents(es, map[Integer(1) := value])
            && FirstStop(es, Home(one, 8), one, true, Ast.Some(7))
            && FirstStop(es, Home(one, 8), one, false, Ast.Some(4))
  {
    hide Hash, Equal, Home;
    var one := Float(1.0, 0x3f80_0000);
    HomesOfOne();
    assert Live(es[7]);
  }

  lemma HomesOfOne()
    ensures Home(Integer(1), 8) == 7 && Home(Float(1.0, 0x3f80_0000), 8) == 4
    ensures Equal(Float(1.0, 0x3f80_0000), Integer(1))
  {
    assert HashUInt(1) == 824515495;
    assert HashUInt(0x3f80_0000) == 2429152780;
  }

  // ---------- Writing one slot ----------

  lemma PutFresh(es: seq<Entry>, m: map<Literal, Literal>, i: nat, key: Literal, value: Literal)
    requires Table(es) && Represents(es, m) && !Refused(key) && key !in m
    requires i < |es| && Vacant(es[i]) && PathIsFull(es, Home(key, |es|), i)
    ensures var es1 := es[i := Entry(key, value)];
            && Table(es1) && Represents(es1, m[key := value])
            && Used(es1) == Used(es) + {i} && i !in Used(es)
  {
    hide Hash, Home, Before;
    var es1 := es[i := Entry(key, value)];
    FreshKeepsTable(es, m, i, key, value);
    forall k | k in m[key := value]
      ensures Holds(es1, k)
    {
      if k == key {
        assert Live(es1[i]);
      } else {
        var j :| 0 <= j < |es| && Live(es[j]) && es[j].key == k;
        assert Live(es1[j]);
      }
    }
  }

  lemma FreshKeepsTable(es: seq<Entry>, m: map<Literal, Literal>, i: nat, key: Literal, value: Literal)
    requires Table(es) && Represents(es, m) && !Refused(key) && key !in m
    requires i < |es| && Vacant(es[i]) && PathIsFull(es, Home(key, |es|), i)
    ensures Table(es[i := Entry(key, value)])
  {
    hide Hash, Home, Before;
    var es1 := es[i := Entry(key, value)];
    forall j | 0 <= j < |es1| && Live(es1[j])
      ensures PathIsFull(es1, Home(es1[j].key, |es1|), j)
    {
      if j != i { assert PathIsFull(es, Home(es[j].key, |es|), j); }
    }
  }

  lemma PathStaysFull(es: seq<Entry>, i: nat, e: Entry, home: nat, j: nat)
    requires home < |es| && i < |es| && j < |es| && !Vacant(e) && PathIsFull(es, home, j)
    ensures PathIsFull(es[i := e], home, j)
  {
    hide Before;
  }

  lemma Overwrite(es: seq<Entry>, m: map<Literal, Literal>, i: nat, key: Literal, value: Literal)
    requires Table(es) && Represents(es, m) && i < |es| && Live(es[i]) && es[i].key == key
    ensures var es1 := es[i := Entry(key, value)];
            && Table(es1) && Represents(es1, m[key := value]) && Used(es1) == Used(es)
  {
    hide Hash, Home, Before, PathIsFull;
    var es1 := es[i := Entry(key, value)];
    forall j | 0 <= j < |es1| && Live(es1[j])
      ensures PathIsFull(es1, Home(es1[j].key, |es1|), j)
    {
      PathStaysFull(es, i, es1[i], Home(es[j].key, |es|), j);
    }
    forall k | k in m[key := value]
      ensures Holds(es1, k)
    {
      if k == key {
        assert Live(es1[i]);
      } else {
        var j :| 0 <= j < |es| && Live(es[j]) && es[j].key == k;
        assert Live(es1[j]);
      }
    }
  }

  /** A tombstone keeps every path full. */
  lemma Bury(es: seq<Entry>, m: map<Literal, Literal>, i: nat)
    requires Table(es) && Represents(es, m) && i < |es| && Live(es[i])
    ensures var es1 := es[i := TOMBSTONE];
            && Table(es1) && Represents(es1, m - {es[i].key}) && Used(es1) == Used(es)
  {
    hide Hash, Home, Before, PathIsFull;
    var es1 := es[i := TOMBSTONE];
    forall j | 0 <= j < |es1| && Live(es1[j])
      ensures PathIsFull(es1, Home(es1[j].key, |es1|), j)
    {
      PathStaysFull(es, i, es1[i], Home(es[j].key, |es|), j);
    }
    forall k | k in m && k != es[i].key
      ensures Holds(es1, k)
    {
      var j :| 0 <= j < |es| && Live(es[j]) && es[j].key == k;
      assert Live(es1[j]);
    }
  }
}
