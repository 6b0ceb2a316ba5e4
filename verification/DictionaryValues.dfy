/** Whole dictionaries: replayed runs, and a dictionary's hash, copy and equality. */
module DictionaryValues {
  import Ast
  import opened Literals
  import opened Dictionary
  import opened LiteralDictionaries

  // ---------- Runs ----------

  datatype Operation =
    | SetKey(key: Literal, value: Literal)
    | GetKey(key: Literal)
    | RemoveKey(key: Literal)
    | HasKey(key: Literal)

  datatype Answer = Nothing | Value(l: Literal) | Truth(b: bool)

  /** The keys of a run that are not refused outright. */
  ghost function KeysOf(ops: seq<Operation>): set<Literal> {
    set op | op in ops && !Refused(op.key) :: op.key
  }

  /** What each operation does to a plain map, and what it answers. */
  function StepMap(m: map<Literal, Literal>, op: Operation): (map<Literal, Literal>, Answer) {
    match op
    case SetKey(k, v) => (if k.Null? || k.Function? || k.Opaque? then m else m[k := v], Nothing)
    case GetKey(k) => (m, Value(if k in m then m[k] else Null))
    case RemoveKey(k) => (m - {k}, Nothing)
    case HasKey(k) => (m, Truth(k in m))
  }

  function RunMap(m: map<Literal, Literal>, ops: seq<Operation>): (map<Literal, Literal>, seq<Answer>) {
    if ops == [] then (m, [])
    else
      var n := |ops| - 1;
      var (m1, answers) := RunMap(m, ops[..n]);
      var (m2, answer) := StepMap(m1, ops[n]);
      (m2, answers + [answer])
  }

  method Perform(d: LiteralDictionary, op: Operation) returns (answer: Answer)
    requires d.Valid() && d.Accepts(op.key)
    modifies d, d.entries
    ensures d.Valid() && (d.entries == old(d.entries) || fresh(d.entries))
    ensures (d.contents, answer) == StepMap(old(d.contents), op)
  {
    hide Hash, Table, Represents, Used, IsCapacity;
    match op
    case SetKey(k, v) =>
      d.Set(k, v);
      answer := Nothing;
    case GetKey(k) =>
      var v := d.Get(k);
      answer := Value(v);
    case RemoveKey(k) =>
      d.Remove(k);
      answer := Nothing;
    case HasKey(k) =>
      var b := d.Exists(k);
      answer := Truth(b);
  }

  /** Every run of operations from a fresh table is answered as by a plain map, and leaves a table
      that counts as many keys as the map has. */
  method Replay(ops: seq<Operation>) returns (answers: seq<Answer>, count: nat)
    requires Unmixed(KeysOf(ops))
    ensures answers == RunMap(map[], ops).1 && count == |RunMap(map[], ops).0|
  {
    hide Hash, Table, Represents, Used, IsCapacity, StepMap, Unmixed, Equal;
    var d := new LiteralDictionary();
    answers := [];
    for i := 0 to |ops|
      invariant fresh(d) && fresh(d.entries) && d.Valid()
      invariant RunMap(map[], ops[..i]) == (d.contents, answers) && d.contents.Keys <= KeysOf(ops)
    {
      assert ops[..i + 1][..i] == ops[..i];
      KeysStay(d.contents, ops, ops[i]);
      var answer := Perform(d, ops[i]);
      answers := answers + [answer];
    }
    assert ops[..|ops|] == ops;
    count := d.count;
  }

  lemma KeysStay(m: map<Literal, Literal>, ops: seq<Operation>, op: Operation)
    requires m.Keys <= KeysOf(ops) && op in ops && Unmixed(KeysOf(ops))
    ensures StepMap(m, op).0.Keys <= KeysOf(ops)
    ensures Refused(op.key) || Admitted(op.key, m)
  {
    hide Unmixed;
    if !Refused(op.key) { FewerAreUnmixed(KeysOf(ops), m.Keys + {op.key}); }
  }

  /** Runs with keys of the documented kinds, and refused ones, always qualify. */
  lemma DocumentedRunsQualify(ops: seq<Operation>)
    requires forall op :: op in ops ==>
               || op.key.Boolean? || op.key.Integer? || op.key.String? || op.key.Identifier?
               || op.key.Null? || op.key.Function? || op.key.Opaque?
    ensures Unmixed(KeysOf(ops))
  {
    HashableKeysAreUnmixed(KeysOf(ops));
  }

  // ---------- Hash ----------

  type uint32 = n: int | 0 <= n < 0x1_0000_0000

  /** Addition of unsigned integers, which wraps around. */
  function Add(a: uint32, b: uint32): uint32 {
    if a + b < 0x1_0000_0000 then a + b else a + b - 0x1_0000_0000
  }

  function HashNumber(l: Literal): uint32 {
    Hash(l) as int
  }

  function PairHash(k: Literal, v: Literal): uint32 {
    Add(HashNumber(k), HashNumber(v))
  }

  /** The wrapping sum of the hashes of all keys and values, whatever the order. */
  ghost function SumOfHashes(m: map<Literal, Literal>): uint32 {
    if m == map[] then 0
    else
      var k :| k in m;
      Add(PairHash(k, m[k]), SumOfHashes(m - {k}))
  }

  lemma AddCommutes(a: uint32, b: uint32, c: uint32)
    ensures Add(a, Add(b, c)) == Add(b, Add(a, c))
    ensures Add(Add(c, a), b) == Add(Add(a, b), c)
  {
  }

  lemma {:induction false} SumTakesAnyKeyOut(m: map<Literal, Literal>, k: Literal)
    requires k in m
    ensures SumOfHashes(m) == Add(PairHash(k, m[k]), SumOfHashes(m - {k}))
    decreases |m|
  {
    hide PairHash, Add, HashNumber;
    var first :| first in m && SumOfHashes(m) == Add(PairHash(first, m[first]), SumOfHashes(m - {first}));
    if first != k {
      SumTakesAnyKeyOut(m - {first}, k);
      SumTakesAnyKeyOut(m - {k}, first);
      assert m - {first} - {k} == m - {k} - {first};
      AddCommutes(PairHash(first, m[first]), PairHash(k, m[k]), SumOfHashes(m - {k} - {first}));
    }
  }

  /** The sum of all hashes of keys and values, modulo 2^32; of an empty dictionary it is 0. */
  lemma SumIsOfKeysAndValues(m: map<Literal, Literal>, k: Literal)
    ensures SumOfHashes(map[]) == 0
    ensures k in m ==>
              SumOfHashes(m) == (HashNumber(k) + HashNumber(m[k]) + SumOfHashes(m - {k})) % 0x1_0000_0000
  {
    hide SumOfHashes, HashNumber, Add;
    SumOfNothing();
    if k in m {
      SumTakesAnyKeyOut(m, k);
      SumsModulo(HashNumber(k), HashNumber(m[k]), SumOfHashes(m - {k}));
    }
  }

  lemma SumsModulo(a: uint32, b: uint32, c: uint32)
    ensures Add(Add(a, b), c) == (a + b + c) % 0x1_0000_0000
  {
  }

  lemma SumOfExtended(m: map<Literal, Literal>, k: Literal, v: Literal)
    requires k !in m
    ensures SumOfHashes(m[k := v]) == Add(PairHash(k, v), SumOfHashes(m))
  {
    hide SumOfHashes, PairHash, Add, HashNumber;
    SumTakesAnyKeyOut(m[k := v], k);
    assert m[k := v] - {k} == m;
  }

  /** The hash of a dictionary depends on the map alone: not on its capacity, the order of
      insertions or the tombstones. */
  method HashDictionary(d: LiteralDictionary) returns (hash: bv32)
    requires d.Valid()
    ensures hash == HashUInt(SumOfHashes(d.contents) as bv32)
  {
    hide HashNumber, HashUInt, Add, SumOfHashes, Table, Represents, Visited, Used, IsCapacity;
    ghost var done: map<Literal, Literal> := map[];
    NothingVisited(d.entries[..], d.contents);
    var res: uint32 := 0;
    SumOfNothing();
    for i := 0 to d.capacity
      invariant Visited(d.entries[..], i, d.contents, done)
      invariant res == SumOfHashes(done)
    {
      VisitOne(d.entries[..], i, d.contents, done);
      if !d.entries[i].key.Null? {
        NotVisitedYet(d.entries[..], i, d.contents, done);
        SumOfExtended(done, d.entries[i].key, d.entries[i].value);
        AddCommutes(HashNumber(d.entries[i].key), HashNumber(d.entries[i].value), res);
        res := Add(res, HashNumber(d.entries[i].key));
        res := Add(res, HashNumber(d.entries[i].value));
        done := done[d.entries[i].key := d.entries[i].value];
      }
    }
    AllVisited(d.entries[..], d.contents, done);
    return HashUInt(res as bv32);
  }

  lemma SumOfNothing()
    ensures SumOfHashes(map[]) == 0
  {
    hide Add, PairHash;
  }

  // ---------- Copy ----------

  /** A copy stands for the same map; it has no tombstones. */
  method CopyDictionary(d: LiteralDictionary) returns (copy: LiteralDictionary)
    requires d.Valid()
    ensures fresh(copy) && fresh(copy.entries) && copy.Valid()
    ensures copy.contents == d.contents && copy.contains == copy.count == d.count
  {
    hide Hash, Table, Represents, Visited, Used, IsCapacity, Unmixed, Equal;
    copy := new LiteralDictionary();
    NothingVisited(d.entries[..], d.contents);
    for i := 0 to d.capacity
      invariant fresh(copy) && fresh(copy.entries) && copy.Valid()
      invariant Visited(d.entries[..], i, d.contents, copy.contents)
      invariant copy.contains == copy.count
    {
      VisitOne(d.entries[..], i, d.contents, copy.contents);
      if !d.entries[i].key.Null? {
        NotVisitedYet(d.entries[..], i, d.contents, copy.contents);
        FewerAreUnmixed(d.contents.Keys, copy.contents.Keys + {d.entries[i].key});
        CopyEntry(copy, d.entries[i]);
      }
    }
    AllVisited(d.entries[..], d.contents, copy.contents);
  }

  method CopyEntry(copy: LiteralDictionary, e: Entry)
    requires copy.Valid() && copy.Accepts(e.key) && !Refused(e.key)
    requires e.key !in copy.contents && copy.contains == copy.count
    modifies copy, copy.entries
    ensures copy.Valid() && (copy.entries == old(copy.entries) || fresh(copy.entries))
    ensures copy.contents == old(copy.contents)[e.key := e.value] && copy.contains == copy.count
  {
    hide Hash, Table, Represents, Used, IsCapacity, Unmixed, Equal;
    copy.Set(e.key, e.value);
  }

  // ---------- Equality ----------

  ghost predicate Included(a: map<Literal, Literal>, b: map<Literal, Literal>) {
    forall k :: k in a ==> k in b && Equal(a[k], b[k])
  }

  method HasEqual(d: LiteralDictionary, key: Literal, value: Literal) returns (same: bool)
    requires d.Valid() && d.Accepts(key)
    ensures same <==> key in d.contents && Equal(value, d.contents[key])
  {
    hide Hash, Table, Represents, Used, IsCapacity, Equal, Unmixed;
    var found := d.Exists(key);
    if !found { return false; }
    var there := d.Get(key);
    return Equal(value, there);
  }

  /** Two dictionaries compare equal if every entry of the left one is in the right one. */
  method DictionariesAreEqual(lhs: LiteralDictionary, rhs: LiteralDictionary) returns (equal: bool)
    requires lhs.Valid() && rhs.Valid() && Unmixed(lhs.contents.Keys + rhs.contents.Keys)
    ensures equal <==> Included(lhs.contents, rhs.contents)
  {
    hide Hash, Table, Represents, Visited, Used, IsCapacity, Equal, Unmixed, Included;
    ghost var done: map<Literal, Literal> := map[];
    NothingVisited(lhs.entries[..], lhs.contents);
    NothingIsIncluded(rhs.contents);
    for i := 0 to lhs.capacity
      invariant Visited(lhs.entries[..], i, lhs.contents, done) && Included(done, rhs.contents)
    {
      VisitOne(lhs.entries[..], i, lhs.contents, done);
      var e := lhs.entries[i];
      if !e.key.Null? {
        EntryIsContent(lhs.entries[..], lhs.contents, i);
        FewerAreUnmixed(lhs.contents.Keys + rhs.contents.Keys, rhs.contents.Keys + {e.key});
        var same := HasEqual(rhs, e.key, e.value);
        OneMoreIncluded(lhs.contents, done, rhs.contents, e.key);
        if !same { return false; }
        done := done[e.key := e.value];
      }
    }
    AllVisited(lhs.entries[..], lhs.contents, done);
    return true;
  }

  lemma NothingIsIncluded(b: map<Literal, Literal>)
    ensures Included(map[], b)
  {
  }

  lemma OneMoreIncluded(a: map<Literal, Literal>, done: map<Literal, Literal>, b: map<Literal, Literal>, k: Literal)
    requires k in a && Included(done, b)
    ensures if k in b && Equal(a[k], b[k]) then Included(done[k := a[k]], b) else !Included(a, b)
  {
    hide Equal;
  }

  lemma EntryIsContent(es: seq<Entry>, m: map<Literal, Literal>, i: nat)
    requires Represents(es, m) && i < |es| && Live(es[i])
    ensures es[i].key in m && m[es[i].key] == es[i].value
  {
  }

  /** Values of the kinds among which equality is identity. */
  predicate Plain(m: map<Literal, Literal>) {
    forall k :: k in m ==> m[k].Null? || Hashable(m[k])
  }

  lemma PlainValuesAreOne(a: Literal, b: Literal)
    requires (a.Null? || Hashable(a)) && (b.Null? || Hashable(b))
    ensures Equal(a, b) <==> a == b
  {
    if Hashable(a) && Hashable(b) { EqualKeysAreOne(a, b); }
  }

  lemma SameKeys(a: set<Literal>, b: set<Literal>)
    requires a <= b && |a| == |b|
    ensures a == b
  {
    assert |b| == |a| + |b - a|;
  }

  /** With equal counts equality is equality of the key sets and of the values key by key. Where all
      values are of the kinds among which equality is identity, it is equality of the maps. */
  lemma EqualCountsMakeEqualityExact(a: map<Literal, Literal>, b: map<Literal, Literal>)
    requires |a| == |b|
    ensures Included(a, b) <==> a.Keys == b.Keys && forall k :: k in a ==> Equal(a[k], b[k])
    ensures Plain(a) && Plain(b) ==> (Included(a, b) <==> a == b)
  {
    hide Hash, Equal, Plain;
    if Included(a, b) { SameKeys(a.Keys, b.Keys); }
    if Plain(a) && Plain(b) { PlainMapsAreOne(a, b); }
  }

  lemma PlainMapsAreOne(a: map<Literal, Literal>, b: map<Literal, Literal>)
    requires Plain(a) && Plain(b)
    ensures a.Keys == b.Keys && (forall k :: k in a ==> Equal(a[k], b[k])) <==> a == b
  {
    hide Hash, Equal;
    forall k | k in a && k in b
      ensures Equal(a[k], b[k]) <==> a[k] == b[k]
    {
      PlainValuesAreOne(a[k], b[k]);
    }
  }

  /** Of two dictionaries of which the left equals the right, the right equals the left exactly if
      they have as many keys and the values equal each other the other way round as well; values of
      the kinds among which equality is identity always do. */
  lemma EqualityIsSymmetricUpToCount(a: map<Literal, Literal>, b: map<Literal, Literal>)
    requires Included(a, b)
    ensures Included(b, a) <==> |a| == |b| && forall k :: k in a ==> Equal(b[k], a[k])
    ensures Plain(a) && Plain(b) ==> (Included(b, a) <==> |a| == |b|)
  {
    hide Equal, Plain;
    if |a| == |b| { SameKeys(a.Keys, b.Keys); }
    if Included(b, a) {
      assert a.Keys == b.Keys;
      assert |a| == |a.Keys| == |b.Keys| == |b|;
    }
    if Plain(a) && Plain(b) { PlainValuesTurn(a, b); }
  }

  lemma PlainValuesTurn(a: map<Literal, Literal>, b: map<Literal, Literal>)
    requires Plain(a) && Plain(b) && Included(a, b)
    ensures forall k :: k in a ==> Equal(b[k], a[k])
  {
    hide Equal;
    forall k | k in a
      ensures Equal(b[k], a[k])
    {
      PlainValuesAreOne(a[k], b[k]);
      PlainValuesAreOne(b[k], a[k]);
    }
  }

  /** A dictionary equals itself, and its copy, exactly if no value holds a function or an opaque
      value, at any depth. */
  lemma DictionaryEqualsItself(m: map<Literal, Literal>)
    ensures Included(m, m) <==> forall k :: k in m ==> Comparable(m[k])
  {
    hide Equal, Comparable;
    forall k | k in m
      ensures Equal(m[k], m[k]) <==> Comparable(m[k])
    {
      EqualToItself(m[k]);
    }
  }
}
