/** What a check against the old value keeps of a constant: at one assignment, and over many. */
module ScopeConstants {
  import opened Floats
  import opened ScopeValues

  // ---------- One assignment ----------

  /** Nothing in it is a function or an opaque value. */
  predicate Comparable(v: Value) {
    match v
    case Function(_) => false
    case Opaque(_) => false
    case Array(items) => forall i :: 0 <= i < |items| ==> Comparable(items[i])
    case Dictionary(entries) => forall k :: k in entries ==> Comparable(entries[k])
    case _ => true
  }

  /** Some 32-bit integer converts to this float. */
  ghost predicate IsConverted(r: real) {
    exists n: i32 :: IntAsFloat(n) == r
  }

  /** It holds no integer, no float that an integer converts to and no dictionary. */
  ghost predicate Rigid(v: Value) {
    match v
    case Integer(_) => false
    case Float(r) => !IsConverted(r)
    case Dictionary(_) => false
    case Array(items) => forall i :: 0 <= i < |items| ==> Rigid(items[i])
    case _ => true
  }

  lemma {:induction false} EqualIsComparable(v: Value, w: Value)
    requires Equal(v, w)
    ensures Comparable(v)
    decreases v
  {
    hide IntAsFloat;
    match v
    case Array(x) =>
      forall i | 0 <= i < |x|
        ensures Comparable(x[i])
      {
        EqualIsComparable(x[i], w.items[i]);
      }
    case Dictionary(x) =>
      forall k | k in x
        ensures Comparable(x[k])
      {
        EqualIsComparable(x[k], w.entries[k]);
      }
    case _ =>
  }

  lemma {:induction false} ComparableEqualsItself(v: Value)
    requires Comparable(v)
    ensures Equal(v, v)
    decreases v
  {
    hide IntAsFloat;
    match v
    case Array(x) =>
      forall i | 0 <= i < |x|
        ensures Equal(x[i], x[i])
      {
        ComparableEqualsItself(x[i]);
      }
    case Dictionary(x) =>
      forall k | k in x
        ensures Equal(x[k], x[k])
      {
        ComparableEqualsItself(x[k]);
      }
    case _ =>
  }

  // ---------- A key that a dictionary does not have ----------

  function Xs(n: nat): (s: string)
    ensures |s| == n
  {
    seq(n, i => 'x')
  }

  lemma {:induction false} LongerThanAll(keys: set<Key>) returns (n: nat)
    ensures forall k :: k in keys && k.StringKey? ==> |k.s| < n
    decreases keys
  {
    n := 0;
    if keys != {} {
      var k :| k in keys;
      n := LongerThanAll(keys - {k});
      if k.StringKey? && |k.s| >= n { n := |k.s| + 1; }
    }
  }

  lemma FreshKey(entries: map<Key, Value>) returns (k: Key)
    ensures k !in entries
  {
    var n := LongerThanAll(entries.Keys);
    k := StringKey(Xs(n));
  }

  // ---------- What a constant of a type may become ----------

  /** What may take the place of the constant v of type t. */
  predicate Replaces(t: TypeLiteral, v: Value, w: Value) {
    Equal(v, w) && CheckType(t, v, w, false)
  }

  lemma ConstantsAreReplaced(t: TypeLiteral, v: Value, w: Value)
    requires t.constant
    ensures CheckType(t, v, w, true) <==> Replaces(t, v, w)
  {
    hide Equal, KindPasses;
    if Equal(v, w) { ConstantsCheckOnce(t, v, w); }
  }

  /** The tag accepts a number equal to v, or to one of its kind. */
  ghost predicate PlainAccepts(tag: Tag, v: Value) {
    match tag
    case AnyTag => true
    case NullTag => false
    case SizedTag(_) => !v.Array? && !v.Dictionary?
    case IntegerTag => v.Null? || v.Integer? || (v.Float? && IsConverted(v.r))
    case FloatTag => v.Null? || v.Float? || v.Integer?
    case _ => v.Null? || (IsOfTag(tag, v) && !v.Array? && !v.Dictionary?)
  }

  /** Some value may take the place of v. */
  ghost predicate Passable(t: TypeLiteral, v: Value)
    decreases t
  {
    Comparable(v) &&
    match t
    case Plain(tag, _) => PlainAccepts(tag, v)
    case ArrayOf(item, _) => v.Null? || (v.Array? && forall i :: 0 <= i < |v.items| ==> Passable(item, v.items[i]))
    case DictionaryOf(key, value, _) =>
      v.Null? ||
      (v.Dictionary? && forall k :: k in v.entries ==> Fits(key, KeyValue(k)) && Passable(value, v.entries[k]))
  }

  /** Nothing but v itself may take the place of v. */
  ghost predicate Stays(t: TypeLiteral, v: Value)
    decreases t
  {
    !Passable(t, v) ||
    match t
    case Plain(AnyTag, _) => Rigid(v)
    case Plain(SizedTag(_), _) => Rigid(v)
    case Plain(IntegerTag, _) => !v.Float?
    case Plain(FloatTag, _) => !v.Integer?
    case Plain(_, _) => true
    case ArrayOf(item, _) => v.Array? ==> forall i :: 0 <= i < |v.items| ==> Stays(item, v.items[i])
    case DictionaryOf(_, _, _) => v.Null?
  }

  lemma PlainReplaces(t: TypeLiteral, v: Value, w: Value)
    requires t.Plain? || v.Null?
    ensures Replaces(t, v, w) <==> Equal(v, w) && AllowsNull(t) && Fits(t, w)
  {
    hide ItemsPass, EntriesPass, IntAsFloat;
    assert Replaces(t, v, w) == (Equal(v, w) && CheckType(t, v, w, false));
  }

  lemma ArrayReplaces(t: TypeLiteral, v: Value, w: Value)
    requires t.ArrayOf? && !v.Null?
    ensures Replaces(t, v, w) <==>
              && v.Array? && w.Array? && |v.items| == |w.items|
              && forall i :: 0 <= i < |v.items| ==> Replaces(t.item, v.items[i], w.items[i])
  {
    hide CheckType;
    if Equal(v, w) || (v.Array? && w.Array? && |v.items| == |w.items|) { ArrayPasses(t, v, w); }
  }

  lemma ArrayPasses(t: TypeLiteral, v: Value, w: Value)
    requires t.ArrayOf? && !v.Null?
    requires Equal(v, w) || (v.Array? && w.Array? && |v.items| == |w.items|)
    ensures CheckType(t, v, w, false) <==>
              && v.Array? && w.Array?
              && forall i :: 0 <= i < |v.items| ==> CheckType(t.item, v.items[i], w.items[i], false)
  {
    assert CheckType(t, v, w, false) == KindPasses(t, v, w, false);
    if v.Array? {
      assert KindPasses(t, v, w, false) == ItemsPass(t, v, w, false);
      forall i | 0 <= i < |v.items|
        ensures ItemAt(v, i) == v.items[i]
      {
      }
    }
  }

  lemma DictionaryReplaces(t: TypeLiteral, v: Value, w: Value)
    requires t.DictionaryOf? && !v.Null?
    ensures Replaces(t, v, w) <==>
              && v.Dictionary? && w.Dictionary?
              && forall k :: k in v.entries ==>
                   k in w.entries && Fits(t.key, KeyValue(k)) && Replaces(t.value, v.entries[k], w.entries[k])
  {
    hide CheckType, Fits;
    if Equal(v, w) || (v.Dictionary? && w.Dictionary?) { DictionaryPasses(t, v, w); }
  }

  lemma DictionaryPasses(t: TypeLiteral, v: Value, w: Value)
    requires t.DictionaryOf? && !v.Null?
    requires Equal(v, w) || (v.Dictionary? && w.Dictionary?)
    ensures CheckType(t, v, w, false) <==>
              && v.Dictionary? && w.Dictionary?
              && forall k :: k in v.entries && k in w.entries ==>
                   Fits(t.key, KeyValue(k)) && CheckType(t.value, v.entries[k], w.entries[k], false)
  {
    hide Fits;
    assert CheckType(t, v, w, false) == KindPasses(t, v, w, false);
    if v.Dictionary? {
      assert KindPasses(t, v, w, false) == EntriesPass(t, v, w, false);
      forall k | k in w.entries
        ensures EntryPasses(t, v, k, w.entries[k], false) <==>
                  k in v.entries ==>
                    Fits(t.key, KeyValue(k)) && CheckType(t.value, v.entries[k], w.entries[k], false)
      {
        KeysAreExact(t.key, KeyValue(k), k);
      }
    }
  }

  /** Some value that may take the place of v, if there is one. */
  ghost function Replacement(t: TypeLiteral, v: Value): Value {
    if w :| Replaces(t, v, w) then w else v
  }

  // ---------- The untyped case ----------

  lemma {:induction false} RigidStays(v: Value, w: Value)
    requires Rigid(v) && Equal(v, w)
    ensures w == v
    decreases v
  {
    hide IntAsFloat;
    if v.Array? {
      forall i | 0 <= i < |v.items|
        ensures w.items[i] == v.items[i]
      {
        RigidStays(v.items[i], w.items[i]);
      }
    }
  }

  /** What else equals a value that is not rigid. */
  lemma {:induction false} AnotherEqual(v: Value) returns (w: Value)
    requires Comparable(v) && !Rigid(v)
    ensures Equal(v, w) && w != v
    decreases v
  {
    hide IntAsFloat;
    match v
    case Integer(n) => w := Float(IntAsFloat(n));
    case Float(r) =>
      var n: i32 :| IntAsFloat(n) == r;
      w := Integer(n);
    case Array(x) =>
      var i :| 0 <= i < |x| && !Rigid(x[i]);
      var other := AnotherEqual(x[i]);
      ComparableEqualsItself(v);
      w := Array(x[i := other]);
      assert w.items[i] != x[i];
    case Dictionary(x) =>
      var k := FreshKey(x);
      ComparableEqualsItself(v);
      w := Dictionary(x[k := Null]);
      assert k in w.entries;
  }

  // ---------- The exact conditions ----------

  lemma {:induction false} ReplacedIsPassable(t: TypeLiteral, v: Value, w: Value)
    requires Replaces(t, v, w)
    ensures Passable(t, v)
    decreases t
  {
    hide IntAsFloat, KindPasses, CheckType;
    EqualIsComparable(v, w);
    if t.Plain? || v.Null? {
      PlainReplaces(t, v, w);
    } else if t.ArrayOf? {
      ArrayReplaces(t, v, w);
      forall i | 0 <= i < |v.items|
        ensures Passable(t.item, v.items[i])
      {
        ReplacedIsPassable(t.item, v.items[i], w.items[i]);
      }
    } else {
      DictionaryReplaces(t, v, w);
      forall k | k in v.entries
        ensures Passable(t.value, v.entries[k])
      {
        ReplacedIsPassable(t.value, v.entries[k], w.entries[k]);
      }
    }
  }

  lemma {:induction false} PassableIsReplaced(t: TypeLiteral, v: Value) returns (w: Value)
    requires Passable(t, v)
    ensures Replaces(t, v, w)
    decreases t
  {
    hide IntAsFloat, KindPasses, CheckType, Replaces;
    if t.Plain? || v.Null? {
      w := PlainReplacement(t, v);
    } else if t.ArrayOf? {
      var x := v.items;
      forall i | 0 <= i < |x|
        ensures Replaces(t.item, x[i], Replacement(t.item, x[i]))
      {
        var other := PassableIsReplaced(t.item, x[i]);
      }
      w := Array(seq(|x|, i requires 0 <= i < |x| => Replacement(t.item, x[i])));
      ArrayReplaces(t, v, w);
    } else {
      var x := v.entries;
      forall k | k in x
        ensures Replaces(t.value, x[k], Replacement(t.value, x[k]))
      {
        var other := PassableIsReplaced(t.value, x[k]);
      }
      w := Dictionary(map k | k in x :: Replacement(t.value, x[k]));
      DictionaryReplaces(t, v, w);
    }
  }

  lemma PlainReplacement(t: TypeLiteral, v: Value) returns (w: Value)
    requires Passable(t, v) && (t.Plain? || v.Null?)
    ensures Replaces(t, v, w)
  {
    hide IntAsFloat, CheckType, Replaces;
    ComparableEqualsItself(v);
    w := v;
    if t.Plain? && t.tag.IntegerTag? && v.Float? {
      var n: i32 :| IntAsFloat(n) == v.r;
      w := Integer(n);
    } else if t.Plain? && t.tag.FloatTag? && v.Integer? {
      w := Float(IntAsFloat(v.n));
    }
    PlainReplaces(t, v, w);
  }

  lemma {:induction false} WhatStays(t: TypeLiteral, v: Value, w: Value)
    requires Stays(t, v) && Replaces(t, v, w)
    ensures w == v
    decreases t
  {
    hide IntAsFloat, CheckType, Replaces, Passable, Equal;
    ReplacedIsPassable(t, v, w);
    if t.Plain? || v.Null? {
      PlainStays(t, v, w);
    } else if t.ArrayOf? {
      ArrayReplaces(t, v, w);
      forall i | 0 <= i < |v.items|
        ensures w.items[i] == v.items[i]
      {
        WhatStays(t.item, v.items[i], w.items[i]);
      }
    }
  }

  lemma PlainStays(t: TypeLiteral, v: Value, w: Value)
    requires Stays(t, v) && Passable(t, v) && Replaces(t, v, w) && (t.Plain? || v.Null?)
    ensures w == v
  {
    hide IntAsFloat, CheckType, Replaces, Passable;
    PlainReplaces(t, v, w);
    if t.Plain? && (t.tag.AnyTag? || t.tag.SizedTag?) { RigidStays(v, w); }
  }

  lemma {:induction false} WhatChanges(t: TypeLiteral, v: Value) returns (w: Value)
    requires !Stays(t, v)
    ensures Replaces(t, v, w) && w != v
    decreases t
  {
    hide IntAsFloat, CheckType, Replaces;
    if t.Plain? || v.Null? {
      w := PlainChange(t, v);
    } else if t.ArrayOf? {
      var j :| 0 <= j < |v.items| && !Stays(t.item, v.items[j]);
      var other := WhatChanges(t.item, v.items[j]);
      w := PassableIsReplaced(t, v);
      ArrayReplaces(t, v, w);
      w := Array(w.items[j := other]);
      ArrayReplaces(t, v, w);
      assert w.items[j] != v.items[j];
    } else {
      w := PassableIsReplaced(t, v);
      DictionaryReplaces(t, v, w);
      if w == v {
        var k := FreshKey(v.entries);
        w := Dictionary(v.entries[k := Null]);
        DictionaryReplaces(t, v, w);
        assert k in w.entries;
      }
    }
  }

  lemma PlainChange(t: TypeLiteral, v: Value) returns (w: Value)
    requires !Stays(t, v) && (t.Plain? || v.Null?)
    ensures Replaces(t, v, w) && w != v
  {
    hide IntAsFloat, CheckType, Replaces;
    if t.tag.IntegerTag? || t.tag.FloatTag? {
      w := PlainReplacement(t, v);
      PlainReplaces(t, v, w);
    } else {
      w := AnotherEqual(v);
      PlainReplaces(t, v, w);
    }
  }

  /** Exactly when a constant keeps its value, whatever passes the check for it. */
  lemma ConstantStaysExactly(t: TypeLiteral, v: Value)
    requires t.constant
    ensures (forall w :: CheckType(t, v, w, true) ==> w == v) <==> Stays(t, v)
    ensures (exists w :: CheckType(t, v, w, true)) <==> Passable(t, v)
  {
    hide CheckType, Stays, Passable, Replaces;
    forall w | CheckType(t, v, w, true)
      ensures Passable(t, v) && (Stays(t, v) ==> w == v)
    {
      ConstantsAreReplaced(t, v, w);
      ReplacedIsPassable(t, v, w);
      if Stays(t, v) { WhatStays(t, v, w); }
    }
    if !Stays(t, v) {
      var w := WhatChanges(t, v);
      ConstantsAreReplaced(t, v, w);
    }
    if Passable(t, v) {
      var w := PassableIsReplaced(t, v);
      ConstantsAreReplaced(t, v, w);
      assert CheckType(t, v, w, true);
    }
  }

  /** A constant of type any keeps its value, whatever passes, if and only if nothing equals it at
      all, or it holds no integer, no float that an integer converts to and no dictionary. */
  lemma ConstantOfAnyTypeKeeps(v: Value)
    ensures (forall w :: CheckType(Plain(AnyTag, true), v, w, true) ==> w == v) <==> !Comparable(v) || Rigid(v)
  {
    hide CheckType, Rigid, Comparable;
    ConstantStaysExactly(Plain(AnyTag, true), v);
  }

  /** A plain type that is neither any nor of a fixed width, or arrays of such, at any depth. */
  predicate IsSettled(t: TypeLiteral) {
    match t
    case Plain(tag, _) => !tag.AnyTag? && !tag.SizedTag?
    case ArrayOf(item, _) => IsSettled(item)
    case DictionaryOf(_, _, _) => false
  }

  lemma {:induction false} SettledStays(t: TypeLiteral, v: Value)
    requires IsSettled(t) && (t.Plain? || Conforms(t, v)) && Fits(t, v)
    ensures Stays(t, v)
    decreases t
  {
    hide Passable;
    if t.ArrayOf? && v.Array? {
      forall i | 0 <= i < |v.items|
        ensures Stays(t.item, v.items[i])
      {
        assert Conforms(t.item, v.items[i]);
        SettledStays(t.item, v.items[i]);
      }
    }
  }

  /** So a constant of a scalar type keeps its value, and so does a conforming array of scalars. */
  lemma ConstantsKeepTheirValue(t: TypeLiteral, original: Value, value: Value)
    requires t.constant && IsSettled(t) && (t.Plain? || Conforms(t, original)) && Fits(t, original)
    requires CheckType(t, original, value, true)
    ensures value == original
  {
    hide CheckType, Stays, Equal, IntAsFloat;
    SettledStays(t, original);
    ConstantStaysExactly(t, original);
  }

  /** An array of any: [1] may become [1.0]. */
  lemma ArrayConstantChanges()
    ensures CheckType(ArrayOf(Plain(AnyTag, false), true), Array([Integer(1)]), Array([Float(1.0)]), true)
  {
  }

  /** A dictionary of strings: {"a": "v"} may become {"a": "v", "b": 1}. */
  lemma DictionaryConstantChanges()
    ensures var t := DictionaryOf(Plain(StringTag, false), Plain(StringTag, false), true);
            var v := map[StringKey("a") := String("v")];
            CheckType(t, Dictionary(v), Dictionary(v[StringKey("b") := Integer(1)]), true)
  {
  }

  /** A constant of type any: 16777217 may become the float 16777216.0. */
  lemma ConstantOfAnyTypeChanges()
    ensures CheckType(Plain(AnyTag, true), Integer(16777217), Float(16777216.0), true)
  {
    assert Quantum(16777217) == 2 * Quantum(8388608) == 2;
  }

  /** A dictionary constant keeps its entries, up to equality. */
  lemma DictionaryKeepsItsEntries(t: TypeLiteral, entries: map<Key, Value>, value: Value)
    requires t.constant && CheckType(t, Dictionary(entries), value, true)
    ensures value.Dictionary?
    ensures forall k :: k in entries ==> k in value.entries && Equal(entries[k], value.entries[k])
  {
    WhatPassesFits(t, Dictionary(entries), value, true);
  }

  // ---------- Many assignments ----------

  predicate IsNumber(v: Value) {
    v.Integer? || v.Float?
  }

  function Number(v: Value): real
    requires IsNumber(v)
  {
    if v.Integer? then IntAsFloat(v.n) else v.r
  }

  /** Numbers that convert to the same float, arrays of such items, dictionaries of which the right
      one has all entries of the left one in this sense; anything else is the same. */
  predicate Similar(v: Value, w: Value)
    decreases v
  {
    match (v, w)
    case (Array(x), Array(y)) => |x| == |y| && forall i :: 0 <= i < |x| ==> Similar(x[i], y[i])
    case (Dictionary(x), Dictionary(y)) => forall k :: k in x ==> k in y && Similar(x[k], y[k])
    case (Function(_), _) => false
    case (Opaque(_), _) => false
    case _ => if IsNumber(v) then IsNumber(w) && Number(v) == Number(w) else v == w
  }

  lemma {:induction false} EqualIsSimilar(v: Value, w: Value)
    requires Equal(v, w)
    ensures Similar(v, w)
    decreases v
  {
    hide IntAsFloat;
    match v
    case Array(x) =>
      forall i | 0 <= i < |x|
        ensures Similar(x[i], w.items[i])
      {
        EqualIsSimilar(x[i], w.items[i]);
      }
    case Dictionary(x) =>
      forall k | k in x
        ensures k in w.entries && Similar(x[k], w.entries[k])
      {
        EqualIsSimilar(x[k], w.entries[k]);
      }
    case _ =>
  }

  lemma {:induction false} SimilarInTurn(u: Value, v: Value, w: Value)
    requires Similar(u, v) && Similar(v, w)
    ensures Similar(u, w)
    decreases u
  {
    hide IntAsFloat;
    match u
    case Array(x) =>
      forall i | 0 <= i < |x|
        ensures Similar(x[i], w.items[i])
      {
        SimilarInTurn(x[i], v.items[i], w.items[i]);
      }
    case Dictionary(x) =>
      forall k | k in x
        ensures k in w.entries && Similar(x[k], w.entries[k])
      {
        SimilarInTurn(x[k], v.entries[k], w.entries[k]);
      }
    case _ =>
  }

  /** The value with all integers converted to floats. */
  function Converted(v: Value): Value {
    match v
    case Integer(n) => Float(IntAsFloat(n))
    case Array(items) => Array(seq(|items|, i requires 0 <= i < |items| => Converted(items[i])))
    case Dictionary(entries) => Dictionary(map k | k in entries :: Converted(entries[k]))
    case _ => v
  }

  lemma {:induction false} EqualsItsConversion(v: Value, w: Value)
    requires Similar(v, w)
    ensures Equal(v, Converted(v))
    decreases v
  {
    hide IntAsFloat;
    match v
    case Array(x) =>
      forall i | 0 <= i < |x|
        ensures Equal(x[i], Converted(x[i]))
      {
        EqualsItsConversion(x[i], w.items[i]);
      }
    case Dictionary(x) =>
      forall k | k in x
        ensures k in w.entries && Equal(x[k], Converted(x[k]))
      {
        EqualsItsConversion(x[k], w.entries[k]);
      }
    case _ =>
  }

  lemma {:induction false} ConversionEquals(v: Value, w: Value)
    requires Similar(v, w)
    ensures Equal(Converted(v), w)
    decreases v
  {
    hide IntAsFloat;
    match v
    case Array(x) =>
      forall i | 0 <= i < |x|
        ensures Equal(Converted(x[i]), w.items[i])
      {
        ConversionEquals(x[i], w.items[i]);
      }
    case Dictionary(x) =>
      forall k | k in x
        ensures k in w.entries && Equal(Converted(x[k]), w.entries[k])
      {
        ConversionEquals(x[k], w.entries[k]);
      }
    case _ =>
  }

  /** What a constant of type t goes through when it is assigned to again and again. */
  predicate PassInTurn(t: TypeLiteral, vs: seq<Value>) {
    forall i :: 0 < i < |vs| ==> CheckType(t, vs[i - 1], vs[i], true)
  }

  /** Whatever its type, over many assignments a constant becomes only what is similar to it. */
  lemma {:induction false} InTurnIsSimilar(t: TypeLiteral, vs: seq<Value>)
    requires t.constant && PassInTurn(t, vs) && |vs| > 1
    ensures Similar(vs[0], vs[|vs| - 1])
    decreases |vs|
  {
    hide Equal, Similar, CheckType;
    var n := |vs| - 1;
    WhatPassesFits(t, vs[n - 1], vs[n], true);
    EqualIsSimilar(vs[n - 1], vs[n]);
    if n > 1 {
      InTurnIsSimilar(t, vs[..n]);
      SimilarInTurn(vs[0], vs[n - 1], vs[n]);
    }
  }

  /** What a constant of type any may become over many assignments, each of a value that passes the
      check, is exactly what is similar to it; two assignments are enough. */
  lemma ReachedExactly(v: Value, w: Value)
    ensures var t := Plain(AnyTag, true);
            && ((exists vs :: |vs| > 1 && vs[0] == v && vs[|vs| - 1] == w && PassInTurn(t, vs)) <==> Similar(v, w))
            && ((exists u :: CheckType(t, v, u, true) && CheckType(t, u, w, true)) <==> Similar(v, w))
  {
    hide Equal, Similar, Converted, CheckType;
    var t := Plain(AnyTag, true);
    forall vs | |vs| > 1 && vs[0] == v && vs[|vs| - 1] == w && PassInTurn(t, vs)
      ensures Similar(v, w)
    {
      InTurnIsSimilar(t, vs);
    }
    forall u | CheckType(t, v, u, true) && CheckType(t, u, w, true)
      ensures Similar(v, w)
    {
      assert PassInTurn(t, [v, u, w]);
      InTurnIsSimilar(t, [v, u, w]);
    }
    if Similar(v, w) {
      var u := Converted(v);
      EqualsItsConversion(v, w);
      ConversionEquals(v, w);
      EqualPassesAsAny(v, u);
      EqualPassesAsAny(u, w);
      var vs := [v, u, w];
      assert |vs| > 1 && vs[0] == v && vs[|vs| - 1] == w && PassInTurn(t, vs);
    }
  }

  lemma EqualPassesAsAny(v: Value, w: Value)
    requires Equal(v, w)
    ensures CheckType(Plain(AnyTag, true), v, w, true)
  {
    hide Equal;
  }
}
