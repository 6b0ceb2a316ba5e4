/** Literals as keys and values of dictionaries: their equality and their hash. */
module Literals {
  import Ast
  import opened Floats

  type i32 = Ast.i32

  /** A char is a signed byte. A float is its real value and its bits, which differ for the two
      zeros. The entries of a dictionary have different keys. Compound stands for types and
      fixed-width numbers, of which only identity and hash are seen. */
  datatype Literal =
    | Null
    | Boolean(b: bool)
    | Integer(n: i32)
    | Float(value: real, bits: bv32)
    | String(chars: seq<bv8>)
    | Identifier(chars: seq<bv8>)
    | Array(items: seq<Literal>)
    | Dictionary(entries: seq<Pair>)
    | Function
    | Opaque(tag: nat)
    | Compound(id: nat, mixed: bv32)

  datatype Pair = Pair(key: Literal, value: Literal)

  /** The documented hashable kinds. */
  predicate Hashable(l: Literal) {
    l.Boolean? || l.Integer? || l.String? || l.Identifier?
  }

  predicate Refused(l: Literal) {
    l.Null? || l.Function? || l.Opaque?
  }

  // ---------- Hashing ----------

  function Fold16(x: bv32): bv32 {
    (x >> 16) ^ x
  }

  function Spread(x: bv32): bv32 {
    x * 0x45d9f3b
  }

  function HashUInt(x: bv32): bv32 {
    Fold16(Spread(Fold16(Spread(Fold16(x)))))
  }

  function SignExtend(c: bv8): bv32 {
    if c < 0x80 then c as bv32 else (c as bv32) | 0xffff_ff00
  }

  const HASH_BASIS: bv32 := 2166136261
  const HASH_MIX: bv32 := 16777619

  function HashChar(hash: bv32, c: bv8): bv32 {
    (hash * SignExtend(c)) ^ HASH_MIX
  }

  function HashString(s: seq<bv8>): bv32 {
    if s == [] then HASH_BASIS else HashChar(HashString(s[..|s| - 1]), s[|s| - 1])
  }

  method HashStringInPlace(s: seq<bv8>) returns (hash: bv32)
    ensures hash == HashString(s)
  {
    hide HashChar;
    hash := HASH_BASIS;
    for i := 0 to |s|
      invariant hash == HashString(s[..i])
    {
      assert s[..i + 1][..i] == s[..i];
      hash := HashChar(hash, s[i]);
    }
    assert s[..|s|] == s;
  }

  function Unsigned(n: i32): bv32 {
    (if n < 0 then n + 0x1_0000_0000 else n) as bv32
  }

  function Hash(l: Literal): bv32
    decreases l
  {
    match l
    case Null => 0
    case Boolean(b) => if b then 1 else 0
    case Integer(n) => HashUInt(Unsigned(n))
    case Float(_, bits) => HashUInt(bits)
    case String(s) => HashString(s)
    case Identifier(s) => HashString(s)
    case Array(items) => HashUInt(HashItems(items))
    case Dictionary(entries) => HashUInt(HashEntries(entries))
    case Function => 0
    case Opaque(_) => 0xffff_ffff
    case Compound(_, h) => h
  }

  function HashItems(items: seq<Literal>): bv32
    decreases items
  {
    if items == [] then 0 else HashItems(items[..|items| - 1]) + Hash(items[|items| - 1])
  }

  function HashEntries(entries: seq<Pair>): bv32
    decreases entries
  {
    if entries == [] then 0
    else
      HashEntries(entries[..|entries| - 1]) + HashPair(entries[|entries| - 1])
  }

  function HashPair(p: Pair): bv32
    decreases p
  {
    Hash(p.key) + Hash(p.value)
  }

  // ---------- Equality ----------

  /** Functions and opaque values equal nothing, not even themselves. An integer equals a float of
      its value. Arrays compare item by item; of two dictionaries the left one's entries have to be
      in the right one. Identifiers compare their stored hashes first. */
  predicate Equal(a: Literal, b: Literal)
    decreases a
  {
    match (a, b)
    case (Null, Null) => true
    case (Boolean(x), Boolean(y)) => x == y
    case (Integer(x), Integer(y)) => x == y
    case (Float(x, _), Float(y, _)) => x == y
    case (Integer(x), Float(y, _)) => IntAsFloat(x) == y
    case (Float(x, _), Integer(y)) => x == IntAsFloat(y)
    case (String(x), String(y)) => x == y
    case (Identifier(x), Identifier(y)) => HashString(x) == HashString(y) && x == y
    case (Array(x), Array(y)) => |x| == |y| && forall i :: 0 <= i < |x| ==> Equal(x[i], y[i])
    case (Dictionary(x), Dictionary(y)) => forall i :: 0 <= i < |x| ==> Within(x[i], y)
    case (Compound(x, _), Compound(y, _)) => x == y
    case _ => false
  }

  /** Some entry has an equal key and an equal value. */
  predicate Within(p: Pair, entries: seq<Pair>)
    decreases p
  {
    exists j :: 0 <= j < |entries| && Equal(p.key, entries[j].key) && Equal(p.value, entries[j].value)
  }

  /** Among the documented hashable kinds equality is identity, so equal keys hash alike. */
  lemma EqualKeysAreOne(a: Literal, b: Literal)
    requires Hashable(a) && Hashable(b)
    ensures Equal(a, b) <==> a == b
    ensures Equal(a, b) ==> Hash(a) == Hash(b)
  {
    hide HashString, HashUInt;
  }

  /** Nothing in it is a function or an opaque value. */
  predicate Comparable(l: Literal) {
    match l
    case Function => false
    case Opaque(_) => false
    case Array(items) => forall i :: 0 <= i < |items| ==> Comparable(items[i])
    case Dictionary(entries) =>
      forall i :: 0 <= i < |entries| ==> Comparable(entries[i].key) && Comparable(entries[i].value)
    case _ => true
  }

  /** What equals anything is comparable. */
  lemma {:induction false} EqualIsComparable(a: Literal, b: Literal)
    requires Equal(a, b)
    ensures Comparable(a)
    decreases a
  {
    hide HashString, IntAsFloat;
    match a
    case Array(x) =>
      forall i | 0 <= i < |x|
        ensures Comparable(x[i])
      {
        EqualIsComparable(x[i], b.items[i]);
      }
    case Dictionary(x) =>
      forall i | 0 <= i < |x|
        ensures Comparable(x[i].key) && Comparable(x[i].value)
      {
        assert Within(x[i], b.entries);
        var j :| 0 <= j < |b.entries| && Equal(x[i].key, b.entries[j].key) && Equal(x[i].value, b.entries[j].value);
        EqualIsComparable(x[i].key, b.entries[j].key);
        EqualIsComparable(x[i].value, b.entries[j].value);
      }
    case _ =>
  }

  /** A literal equals itself if and only if nothing in it is a function or an opaque value. */
  lemma {:induction false} EqualToItself(l: Literal)
    ensures Equal(l, l) <==> Comparable(l)
    decreases l
  {
    hide HashString, IntAsFloat;
    if Equal(l, l) { EqualIsComparable(l, l); }
    if Comparable(l) {
      match l
      case Array(x) =>
        forall i | 0 <= i < |x|
          ensures Equal(x[i], x[i])
        {
          EqualToItself(x[i]);
        }
      case Dictionary(x) =>
        forall i | 0 <= i < |x|
          ensures Within(x[i], x)
        {
          EqualToItself(x[i].key);
          EqualToItself(x[i].value);
        }
      case _ =>
    }
  }

  // ---------- Keys that a table tells apart ----------

  /** Each key equals itself and none of the others. */
  ghost predicate Unmixed(keys: set<Literal>) {
    && (forall a :: a in keys ==> Equal(a, a))
    && (forall a, b :: a in keys && b in keys && Equal(a, b) ==> a == b)
  }

  /** Keys of the documented kinds always are. */
  lemma HashableKeysAreUnmixed(keys: set<Literal>)
    requires forall k :: k in keys ==> Hashable(k)
    ensures Unmixed(keys)
  {
    hide Equal, Hash;
    forall a, b | a in keys && b in keys
      ensures Equal(a, b) <==> a == b
    {
      EqualKeysAreOne(a, b);
    }
  }

  /** The integer 1 and the float 1.0 are equal, and hash differently. */
  lemma EqualNumbersHashDifferently()
    ensures Equal(Integer(1), Float(1.0, 0x3f80_0000))
    ensures Hash(Integer(1)) != Hash(Float(1.0, 0x3f80_0000))
  {
    assert HashUInt(1) == 824515495;
    assert HashUInt(0x3f80_0000) == 2429152780;
  }

  /** Equal literals are of one kind, or both numbers; arrays are as long and equal item by item. */
  lemma EqualLiteralsAreAlike(a: Literal, b: Literal)
    requires Equal(a, b)
    ensures a.Null? || b.Null? || a.Boolean? || b.Boolean? || a.String? || b.String? || a.Identifier? || b.Identifier?
            ==> a == b
    ensures a.Integer? || a.Float? <==> b.Integer? || b.Float?
    ensures a.Integer? && b.Integer? ==> a == b
    ensures a.Float? && b.Float? ==> a.value == b.value
    ensures a.Array? <==> b.Array?
    ensures a.Array? ==> |a.items| == |b.items| && forall i :: 0 <= i < |a.items| ==> Equal(a.items[i], b.items[i])
    ensures a.Dictionary? <==> b.Dictionary?
    ensures a.Dictionary? ==> forall p :: p in a.entries ==> exists q :: q in b.entries && EqualPairs(p, q)
    ensures !a.Function? && !b.Function? && !a.Opaque? && !b.Opaque?
  {
    hide HashString, IntAsFloat;
    if a.Dictionary? {
      forall p | p in a.entries
        ensures exists q :: q in b.entries && EqualPairs(p, q)
      {
        assert Within(p, b.entries);
        var j :| 0 <= j < |b.entries| && Equal(p.key, b.entries[j].key) && Equal(p.value, b.entries[j].value);
        assert EqualPairs(p, b.entries[j]);
      }
    }
  }

  predicate EqualPairs(p: Pair, q: Pair) {
    Equal(p.key, q.key) && Equal(p.value, q.value)
  }

  /** Hashes of short texts, with plain and with negative characters, and of the other documented kinds. */
  lemma SomeHashes()
    ensures Hash(String([])) == 2166136261
    ensures Hash(String([0x61])) == 3940009526 && Hash(Identifier([0x61])) == 3940009526
    ensures Hash(String([0xff])) == 2145608616
    ensures Hash(Boolean(false)) == 0 && Hash(Boolean(true)) == 1
    ensures Hash(Integer(-1)) == HashUInt(0xffff_ffff)
  {
    HashOfOne(0x61);
    HashOfOne(0xff);
  }

  lemma HashOfOne(c: bv8)
    ensures HashString([c]) == HashChar(HASH_BASIS, c)
  {
    hide HashChar;
    assert [c][..0] == [];
  }
}
