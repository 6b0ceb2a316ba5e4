/** The values and types that scopes store, and the check every assignment passes. */
module ScopeValues {
  import Ast
  import opened Floats

  type i32 = Ast.i32

  /** The numbers of a fixed width. */
  datatype Width = Int8 | Int16 | Int32 | Int64 | Uint8 | Uint16 | Uint32 | Uint64 | Float16 | Float32 | Float64

  datatype Tag =
    | NullTag | BooleanTag | IntegerTag | FloatTag | StringTag | FunctionTag | TypeTag | OpaqueTag
    | SizedTag(width: Width) | AnyTag

  datatype TypeLiteral =
    | Plain(tag: Tag, constant: bool)
    | ArrayOf(item: TypeLiteral, constant: bool)
    | DictionaryOf(key: TypeLiteral, value: TypeLiteral, constant: bool)

  datatype Key = BooleanKey(b: bool) | IntegerKey(n: i32) | StringKey(s: string)

  /** A float is its real value, and so is a number of a fixed width. */
  datatype Value =
    | Null
    | Boolean(b: bool)
    | Integer(n: i32)
    | Float(r: real)
    | Sized(width: Width, r: real)
    | String(s: string)
    | Array(items: seq<Value>)
    | Dictionary(entries: map<Key, Value>)
    | Function(id: nat)
    | Type(t: TypeLiteral)
    | Opaque(id: nat)

  function KeyValue(k: Key): Value {
    match k
    case BooleanKey(b) => Boolean(b)
    case IntegerKey(n) => Integer(n)
    case StringKey(s) => String(s)
  }

  // ---------- Equality ----------

  /** Functions and opaque values equal nothing. An integer equals the float it converts to. Arrays
      compare item by item; of two dictionaries the left one's entries have to be in the right one. */
  predicate Equal(a: Value, b: Value)
    decreases a
  {
    match (a, b)
    case (Null, Null) => true
    case (Boolean(x), Boolean(y)) => x == y
    case (Integer(x), Integer(y)) => x == y
    case (Float(x), Float(y)) => x == y
    case (Integer(x), Float(y)) => IntAsFloat(x) == y
    case (Float(x), Integer(y)) => x == IntAsFloat(y)
    case (Sized(w, x), Sized(u, y)) => w == u && x == y
    case (String(x), String(y)) => x == y
    case (Array(x), Array(y)) => |x| == |y| && forall i :: 0 <= i < |x| ==> Equal(x[i], y[i])
    case (Dictionary(x), Dictionary(y)) => forall k :: k in x ==> k in y && Equal(x[k], y[k])
    case (Type(x), Type(y)) => x == y
    case _ => false
  }

  // ---------- The check ----------

  /** The kind a plain tag asks for; numbers of a fixed width ask for none. */
  predicate IsOfTag(tag: Tag, v: Value) {
    match tag
    case BooleanTag => v.Boolean?
    case IntegerTag => v.Integer?
    case FloatTag => v.Float?
    case StringTag => v.String?
    case FunctionTag => v.Function?
    case TypeTag => v.Type?
    case OpaqueTag => v.Opaque?
    case _ => true
  }

  /** How many items of a new array, beside the old value, are checked: those with a counterpart, or
      all on a first assignment. */
  function CheckedItems(original: Value, count: nat): nat {
    if original.Array? && |original.items| < count then |original.items| else count
  }

  function ItemAt(original: Value, i: nat): Value {
    if original.Array? && i < |original.items| then original.items[i] else Null
  }

  predicate IsCheckedKey(original: Value, k: Key) {
    original.Dictionary? ==> k in original.entries
  }

  /** What the key of an entry is checked against, and its value. */
  function OldKey(original: Value, k: Key): Value {
    if original.Dictionary? then KeyValue(k) else Null
  }

  function OldEntry(original: Value, k: Key): Value {
    if original.Dictionary? && k in original.entries then original.entries[k] else Null
  }

  /** The slots of a table that are empty are checked as well on a first assignment. */
  predicate EmptySlotsPass(t: TypeLiteral, original: Value)
    requires t.DictionaryOf?
  {
    original.Dictionary? || (AllowsNull(t.key) && AllowsNull(t.value))
  }

  predicate AllowsNull(t: TypeLiteral) {
    !(t.Plain? && t.tag.NullTag?)
  }

  predicate CheckType(t: TypeLiteral, original: Value, value: Value, constCheck: bool)
    decreases t, 3
  {
    if constCheck && t.constant && !Equal(original, value) then false
    else if t.Plain? && t.tag.AnyTag? then true
    else if t.Plain? && t.tag.NullTag? then false
    else if value.Null? then true
    else KindPasses(t, original, value, constCheck)
  }

  predicate KindPasses(t: TypeLiteral, original: Value, value: Value, constCheck: bool)
    decreases t, 2
  {
    if t.Plain? && !IsOfTag(t.tag, value) then false
    else if t.ArrayOf? && !value.Array? then false
    else if value.Array? then t.ArrayOf? && ItemsPass(t, original, value, constCheck)
    else if t.DictionaryOf? && !value.Dictionary? then false
    else if value.Dictionary? then t.DictionaryOf? && EntriesPass(t, original, value, constCheck)
    else true
  }

  predicate ItemsPass(t: TypeLiteral, original: Value, value: Value, constCheck: bool)
    requires t.ArrayOf? && value.Array?
    decreases t, 0
  {
    forall i :: 0 <= i < CheckedItems(original, |value.items|) ==>
      CheckType(t.item, ItemAt(original, i), value.items[i], constCheck)
  }

  predicate EntriesPass(t: TypeLiteral, original: Value, value: Value, constCheck: bool)
    requires t.DictionaryOf? && value.Dictionary?
    decreases t, 1
  {
    EmptySlotsPass(t, original) &&
    forall k :: k in value.entries ==> EntryPasses(t, original, k, value.entries[k], constCheck)
  }

  /** An entry whose key the old dictionary does not have is not checked. */
  predicate EntryPasses(t: TypeLiteral, original: Value, k: Key, value: Value, constCheck: bool)
    requires t.DictionaryOf?
    decreases t, 0
  {
    IsCheckedKey(original, k) ==>
      && CheckType(t.key, OldKey(original, k), KeyValue(k), constCheck)
      && CheckType(t.value, OldEntry(original, k), value, constCheck)
  }

  /** The same check, item by item and entry by entry. */
  method Check(t: TypeLiteral, original: Value, value: Value, constCheck: bool) returns (pass: bool)
    ensures pass == CheckType(t, original, value, constCheck)
    decreases t, 3
  {
    hide CheckType, Equal, KindPasses;
    CheckUnfolds(t, original, value, constCheck);
    if constCheck && t.constant && !Equal(original, value) { return false; }
    if t.Plain? && t.tag.AnyTag? { return true; }
    if t.Plain? && t.tag.NullTag? { return false; }
    if value.Null? { return true; }
    pass := CheckKind(t, original, value, constCheck);
  }

  lemma CheckUnfolds(t: TypeLiteral, original: Value, value: Value, constCheck: bool)
    ensures CheckType(t, original, value, constCheck) ==
              if constCheck && t.constant && !Equal(original, value) then false
              else if t.Plain? && t.tag.AnyTag? then true
              else if t.Plain? && t.tag.NullTag? then false
              else value.Null? || KindPasses(t, original, value, constCheck)
  {
    hide Equal, KindPasses;
  }

  method CheckKind(t: TypeLiteral, original: Value, value: Value, constCheck: bool) returns (pass: bool)
    ensures pass == KindPasses(t, original, value, constCheck)
    decreases t, 2
  {
    hide CheckType, IsOfTag, ItemsPass, EntriesPass;
    if t.Plain? && !IsOfTag(t.tag, value) { return false; }
    if t.ArrayOf? && !value.Array? { return false; }
    if value.Array? {
      if !t.ArrayOf? { return false; }
      pass := CheckItems(t, original, value, constCheck);
      return;
    }
    if t.DictionaryOf? && !value.Dictionary? { return false; }
    if value.Dictionary? {
      if !t.DictionaryOf? { return false; }
      pass := CheckEntries(t, original, value, constCheck);
      return;
    }
    return true;
  }

  method CheckItems(t: TypeLiteral, original: Value, value: Value, constCheck: bool) returns (pass: bool)
    requires t.ArrayOf? && value.Array?
    ensures pass == ItemsPass(t, original, value, constCheck)
    decreases t, 0
  {
    hide CheckType;
    for i := 0 to |value.items|
      invariant i <= CheckedItems(original, |value.items|)
      invariant forall j :: 0 <= j < i ==> CheckType(t.item, ItemAt(original, j), value.items[j], constCheck)
    {
      if original.Array? && |original.items| <= i { return true; }
      var passes := Check(t.item, ItemAt(original, i), value.items[i], constCheck);
      if !passes { return false; }
    }
    return true;
  }

  method CheckEntries(t: TypeLiteral, original: Value, value: Value, constCheck: bool) returns (pass: bool)
    requires t.DictionaryOf? && value.Dictionary?
    ensures pass == EntriesPass(t, original, value, constCheck)
    decreases t, 1
  {
    hide CheckType, EntryPasses;
    if !EmptySlotsPass(t, original) { return false; }
    var keys := value.entries.Keys;
    while keys != {}
      invariant keys <= value.entries.Keys
      invariant forall k :: k in value.entries && k !in keys ==>
                  EntryPasses(t, original, k, value.entries[k], constCheck)
      decreases |keys|
    {
      var k :| k in keys;
      var passes := CheckEntry(t, original, k, value.entries[k], constCheck);
      if !passes { return false; }
      keys := keys - {k};
    }
    return true;
  }

  method CheckEntry(t: TypeLiteral, original: Value, k: Key, value: Value, constCheck: bool) returns (pass: bool)
    requires t.DictionaryOf?
    ensures pass == EntryPasses(t, original, k, value, constCheck)
    decreases t, 0
  {
    hide CheckType;
    if !IsCheckedKey(original, k) { return true; }
    pass := Check(t.key, OldKey(original, k), KeyValue(k), constCheck);
    if !pass { return; }
    pass := Check(t.value, OldEntry(original, k), value, constCheck);
  }

  // ---------- What passes ----------

  /** Null, or of the declared kind; anything for the tag any, and all but arrays and dictionaries
      for a number of a fixed width. */
  predicate Fits(t: TypeLiteral, v: Value) {
    v.Null? ||
    match t
    case Plain(AnyTag, _) => true
    case Plain(NullTag, _) => false
    case Plain(tag, _) => IsOfTag(tag, v) && !v.Array? && !v.Dictionary?
    case ArrayOf(_, _) => v.Array?
    case DictionaryOf(_, _, _) => v.Dictionary?
  }

  lemma WhatPassesFits(t: TypeLiteral, original: Value, value: Value, constCheck: bool)
    requires CheckType(t, original, value, constCheck)
    ensures Fits(t, value) && AllowsNull(t) && (constCheck && t.constant ==> Equal(original, value))
  {
    hide Equal, ItemsPass, EntriesPass;
  }

  /** Fits, and so do all items and entries, at every depth. */
  predicate Conforms(t: TypeLiteral, v: Value)
    decreases t, 1
  {
    && AllowsNull(t) && Fits(t, v)
    && (t.ArrayOf? && v.Array? ==> ItemsConform(t.item, v.items))
    && (t.DictionaryOf? && v.Dictionary? ==> EntriesConform(t.key, t.value, v.entries))
  }

  predicate ItemsConform(item: TypeLiteral, items: seq<Value>)
    decreases item, 2
  {
    forall i :: 0 <= i < |items| ==> Conforms(item, items[i])
  }

  predicate EntriesConform(key: TypeLiteral, value: TypeLiteral, entries: map<Key, Value>)
    decreases value, 2
  {
    forall k :: k in entries ==> Fits(key, KeyValue(k)) && Conforms(value, entries[k])
  }

  /** What is left of a new value without the items and entries that the old one has no counterpart
      of, at every depth. */
  function Shared(original: Value, value: Value): Value
    decreases value
  {
    match value
    case Array(items) =>
      Array(seq(CheckedItems(original, |items|),
                i requires 0 <= i < CheckedItems(original, |items|) => Shared(ItemAt(original, i), items[i])))
    case Dictionary(entries) =>
      Dictionary(map k | k in entries && IsCheckedKey(original, k) :: Shared(OldEntry(original, k), entries[k]))
    case _ => value
  }

  /** A dictionary without a counterpart has empty slots, which nothing of type null fits. */
  predicate EmptySlotsAllPass(t: TypeLiteral, original: Value, value: Value)
    decreases t
  {
    && (t.ArrayOf? && value.Array? ==>
          forall i :: 0 <= i < CheckedItems(original, |value.items|) ==>
            EmptySlotsAllPass(t.item, ItemAt(original, i), value.items[i]))
    && (t.DictionaryOf? && value.Dictionary? ==>
          && EmptySlotsPass(t, original)
          && forall k :: k in value.entries && IsCheckedKey(original, k) ==>
               EmptySlotsAllPass(t.value, OldEntry(original, k), value.entries[k]))
  }

  /** What passes is exactly what conforms as far as the old value has counterparts. */
  lemma {:induction false} CheckTypeIsExact(t: TypeLiteral, original: Value, value: Value)
    ensures CheckType(t, original, value, false) <==>
              Conforms(t, Shared(original, value)) && EmptySlotsAllPass(t, original, value)
    decreases t, 2
  {
    hide CheckType, Conforms, Shared, EmptySlotsAllPass;
    if t.ArrayOf? && value.Array? {
      ArraysAreExact(t, original, value);
    } else if t.DictionaryOf? && value.Dictionary? {
      DictionariesAreExact(t, original, value);
    } else {
      PlainIsExact(t, original, value);
    }
  }

  lemma PlainIsExact(t: TypeLiteral, original: Value, value: Value)
    requires !(t.ArrayOf? && value.Array?) && !(t.DictionaryOf? && value.Dictionary?)
    ensures CheckType(t, original, value, false) <==>
              Conforms(t, Shared(original, value)) && EmptySlotsAllPass(t, original, value)
  {
    hide Equal, ItemsPass, EntriesPass, ItemsConform, EntriesConform;
  }

  lemma {:induction false} ArraysAreExact(t: TypeLiteral, original: Value, value: Value)
    requires t.ArrayOf? && value.Array?
    ensures CheckType(t, original, value, false) <==>
              Conforms(t, Shared(original, value)) && EmptySlotsAllPass(t, original, value)
    decreases t, 1
  {
    hide Equal, ItemsPass, EntriesPass, ItemsConform, EntriesConform, EmptySlotsAllPass;
    ItemsAreExact(t, original, value);
  }

  lemma {:induction false} DictionariesAreExact(t: TypeLiteral, original: Value, value: Value)
    requires t.DictionaryOf? && value.Dictionary?
    ensures CheckType(t, original, value, false) <==>
              Conforms(t, Shared(original, value)) && EmptySlotsAllPass(t, original, value)
    decreases t, 1
  {
    hide Equal, ItemsPass, EntriesPass, ItemsConform, EntriesConform, EmptySlotsAllPass;
    EntriesAreExact(t, original, value);
  }

  lemma {:induction false} ItemsAreExact(t: TypeLiteral, original: Value, value: Value)
    requires t.ArrayOf? && value.Array?
    ensures ItemsPass(t, original, value, false) <==>
              ItemsConform(t.item, Shared(original, value).items) && EmptySlotsAllPass(t, original, value)
    decreases t, 0
  {
    hide CheckType, Conforms;
    forall i | 0 <= i < CheckedItems(original, |value.items|)
      ensures CheckType(t.item, ItemAt(original, i), value.items[i], false) <==>
                && Conforms(t.item, Shared(ItemAt(original, i), value.items[i]))
                && EmptySlotsAllPass(t.item, ItemAt(original, i), value.items[i])
      ensures Shared(original, value).items[i] == Shared(ItemAt(original, i), value.items[i])
    {
      CheckTypeIsExact(t.item, ItemAt(original, i), value.items[i]);
    }
  }

  lemma {:induction false} EntriesAreExact(t: TypeLiteral, original: Value, value: Value)
    requires t.DictionaryOf? && value.Dictionary?
    ensures EntriesPass(t, original, value, false) <==>
              && EntriesConform(t.key, t.value, Shared(original, value).entries)
              && EmptySlotsAllPass(t, original, value)
    decreases t, 0
  {
    hide CheckType, Conforms, Fits;
    forall k | k in value.entries && IsCheckedKey(original, k)
      ensures CheckType(t.value, OldEntry(original, k), value.entries[k], false) <==>
                && Conforms(t.value, Shared(OldEntry(original, k), value.entries[k]))
                && EmptySlotsAllPass(t.value, OldEntry(original, k), value.entries[k])
      ensures CheckType(t.key, OldKey(original, k), KeyValue(k), false) <==> Fits(t.key, KeyValue(k))
    {
      CheckTypeIsExact(t.value, OldEntry(original, k), value.entries[k]);
      KeysAreExact(t.key, OldKey(original, k), k);
    }
  }

  lemma KeysAreExact(t: TypeLiteral, original: Value, k: Key)
    ensures CheckType(t, original, KeyValue(k), false) <==> Fits(t, KeyValue(k))
  {
    hide Equal, ItemsPass, EntriesPass;
  }

  /** A first assignment passes exactly what conforms, but for empty slots. */
  lemma {:induction false} FirstIsShared(value: Value)
    ensures Shared(Null, value) == value
    decreases value
  {
    match value
    case Array(items) =>
      forall i | 0 <= i < |items|
        ensures Shared(Null, items[i]) == items[i]
      {
        FirstIsShared(items[i]);
      }
      assert Shared(Null, value).items == items;
    case Dictionary(entries) =>
      forall k | k in entries
        ensures Shared(Null, entries[k]) == entries[k]
      {
        FirstIsShared(entries[k]);
      }
      assert Shared(Null, value).entries == entries;
    case _ =>
  }

  /** An item that is new is not checked: [] of integers may become ["s"]. */
  lemma NewItemsAreNotChecked()
    ensures var t := ArrayOf(Plain(IntegerTag, false), false);
            CheckType(t, Array([]), Array([String("s")]), true) && !Conforms(t, Array([String("s")]))
  {
    var t := ArrayOf(Plain(IntegerTag, false), false);
    assert !Conforms(t.item, [String("s")][0]);
  }

  /** A constant needs equality at the top only: it takes no second look inside. */
  lemma {:induction false} ConstantsCheckOnce(t: TypeLiteral, original: Value, value: Value)
    requires Equal(original, value)
    ensures CheckType(t, original, value, true) <==> CheckType(t, original, value, false)
    decreases t, 1
  {
    hide ItemsPass, EntriesPass, IsOfTag;
    if t.ArrayOf? && value.Array? {
      ItemsCheckOnce(t, original, value);
    } else if t.DictionaryOf? && value.Dictionary? {
      EntriesCheckOnce(t, original, value);
    }
  }

  lemma {:induction false} ItemsCheckOnce(t: TypeLiteral, original: Value, value: Value)
    requires Equal(original, value) && t.ArrayOf? && value.Array?
    ensures ItemsPass(t, original, value, true) <==> ItemsPass(t, original, value, false)
    decreases t, 0
  {
    hide CheckType;
    forall i | 0 <= i < |value.items|
      ensures CheckType(t.item, ItemAt(original, i), value.items[i], true) <==>
                CheckType(t.item, ItemAt(original, i), value.items[i], false)
    {
      ConstantsCheckOnce(t.item, ItemAt(original, i), value.items[i]);
    }
  }

  lemma {:induction false} EntriesCheckOnce(t: TypeLiteral, original: Value, value: Value)
    requires Equal(original, value) && t.DictionaryOf? && value.Dictionary?
    ensures EntriesPass(t, original, value, true) <==> EntriesPass(t, original, value, false)
    decreases t, 0
  {
    hide CheckType;
    forall k | k in value.entries && IsCheckedKey(original, k)
      ensures CheckType(t.key, OldKey(original, k), KeyValue(k), true) <==>
                CheckType(t.key, OldKey(original, k), KeyValue(k), false)
      ensures CheckType(t.value, OldEntry(original, k), value.entries[k], true) <==>
                CheckType(t.value, OldEntry(original, k), value.entries[k], false)
    {
      ConstantsCheckOnce(t.key, KeyValue(k), KeyValue(k));
      ConstantsCheckOnce(t.value, OldEntry(original, k), value.entries[k]);
    }
  }

  // ---------- Which values a type admits ----------

  /** The kinds of values, one for each of the plain types that ask for one. */
  lemma PlainTypesAdmit(v: Value, w: Value, constCheck: bool)
    ensures CheckType(Plain(BooleanTag, false), v, w, constCheck) <==> w.Null? || w.Boolean?
    ensures CheckType(Plain(IntegerTag, false), v, w, constCheck) <==> w.Null? || w.Integer?
    ensures CheckType(Plain(FloatTag, false), v, w, constCheck) <==> w.Null? || w.Float?
    ensures CheckType(Plain(StringTag, false), v, w, constCheck) <==> w.Null? || w.String?
    ensures CheckType(Plain(FunctionTag, false), v, w, constCheck) <==> w.Null? || w.Function?
    ensures CheckType(Plain(TypeTag, false), v, w, constCheck) <==> w.Null? || w.Type?
    ensures CheckType(Plain(OpaqueTag, false), v, w, constCheck) <==> w.Null? || w.Opaque?
  {
    hide CheckType;
    PlainAdmits(BooleanTag, v, w, constCheck);
    PlainAdmits(IntegerTag, v, w, constCheck);
    PlainAdmits(FloatTag, v, w, constCheck);
    PlainAdmits(StringTag, v, w, constCheck);
    PlainAdmits(FunctionTag, v, w, constCheck);
    PlainAdmits(TypeTag, v, w, constCheck);
    PlainAdmits(OpaqueTag, v, w, constCheck);
  }

  lemma PlainAdmits(tag: Tag, v: Value, w: Value, constCheck: bool)
    requires !tag.AnyTag? && !tag.NullTag?
    ensures CheckType(Plain(tag, false), v, w, constCheck) <==>
              w.Null? || (IsOfTag(tag, w) && !w.Array? && !w.Dictionary?)
  {
    hide ItemsPass, EntriesPass, Equal, IsOfTag;
  }

  /** The types that ask for no kind, or for none of these. */
  lemma OtherTypesAdmit(width: Width, item: TypeLiteral, entry: TypeLiteral, v: Value, w: Value, constCheck: bool)
    ensures CheckType(Plain(AnyTag, false), v, w, constCheck)
    ensures !CheckType(Plain(NullTag, false), v, w, constCheck)
    ensures CheckType(Plain(SizedTag(width), false), v, w, constCheck) <==> !w.Array? && !w.Dictionary?
    ensures CheckType(ArrayOf(item, false), v, w, constCheck) ==> w.Null? || w.Array?
    ensures CheckType(DictionaryOf(item, entry, false), v, w, constCheck) ==> w.Null? || w.Dictionary?
    ensures w.Null? ==> CheckType(ArrayOf(item, false), v, w, constCheck)
    ensures w.Null? ==> CheckType(DictionaryOf(item, entry, false), v, w, constCheck)
  {
    hide CheckType, KindPasses, Equal;
    CheckUnfolds(Plain(AnyTag, false), v, w, constCheck);
    CheckUnfolds(Plain(NullTag, false), v, w, constCheck);
    PlainAdmits(SizedTag(width), v, w, constCheck);
    CompoundsAdmit(ArrayOf(item, false), v, w, constCheck);
    CompoundsAdmit(DictionaryOf(item, entry, false), v, w, constCheck);
  }

  lemma CompoundsAdmit(t: TypeLiteral, v: Value, w: Value, constCheck: bool)
    requires !t.Plain? && !t.constant
    ensures w.Null? ==> CheckType(t, v, w, constCheck)
    ensures CheckType(t, v, w, constCheck) ==> w.Null? || (if t.ArrayOf? then w.Array? else w.Dictionary?)
  {
    hide ItemsPass, EntriesPass, Equal;
    if CheckType(t, v, w, constCheck) { WhatPassesFits(t, v, w, constCheck); }
  }

  /** The items of an array that have a counterpart are those below both lengths; the entries of a
      dictionary, those whose keys both have. */
  lemma SharedIsCommon(x: seq<Value>, y: seq<Value>, a: map<Key, Value>, b: map<Key, Value>)
    ensures
      var items := Shared(Array(x), Array(y)).items;
      |items| == (if |x| <= |y| then |x| else |y|) && forall i :: 0 <= i < |items| ==> items[i] == Shared(x[i], y[i])
    ensures
      var entries := Shared(Dictionary(a), Dictionary(b)).entries;
      entries.Keys == a.Keys * b.Keys && forall k :: k in entries ==> entries[k] == Shared(a[k], b[k])
  {
  }

  /** Equal values are of one kind, or both numbers; arrays are as long and equal item by item. */
  lemma EqualValuesAreAlike(a: Value, b: Value)
    requires Equal(a, b)
    ensures a.Null? <==> b.Null?
    ensures a.Boolean? || b.Boolean? || a.String? || b.String? || a.Sized? || b.Sized? || a.Type? || b.Type? ==> a == b
    ensures a.Integer? || a.Float? <==> b.Integer? || b.Float?
    ensures (a.Integer? && b.Integer?) || (a.Float? && b.Float?) ==> a == b
    ensures a.Array? <==> b.Array?
    ensures a.Array? ==> |a.items| == |b.items| && forall i :: 0 <= i < |a.items| ==> Equal(a.items[i], b.items[i])
    ensures a.Dictionary? <==> b.Dictionary?
    ensures a.Dictionary? ==> forall k :: k in a.entries ==> k in b.entries && Equal(a.entries[k], b.entries[k])
    ensures !a.Function? && !b.Function? && !a.Opaque? && !b.Opaque?
  {
  }

  /** Of which kinds the keys of a dictionary may be, on a first assignment. */
  lemma KeyTypesAdmit(entries: map<Key, Value>)
    ensures var any := Plain(AnyTag, false);
            && (CheckType(DictionaryOf(Plain(BooleanTag, false), any, false), Null, Dictionary(entries), false)
                <==> forall k :: k in entries ==> k.BooleanKey?)
            && (CheckType(DictionaryOf(Plain(IntegerTag, false), any, false), Null, Dictionary(entries), false)
                <==> forall k :: k in entries ==> k.IntegerKey?)
            && (CheckType(DictionaryOf(Plain(StringTag, false), any, false), Null, Dictionary(entries), false)
                <==> forall k :: k in entries ==> k.StringKey?)
  {
    hide CheckType;
    KeysOfTag(BooleanTag, entries);
    KeysOfTag(IntegerTag, entries);
    KeysOfTag(StringTag, entries);
  }

  lemma KeysOfTag(tag: Tag, entries: map<Key, Value>)
    requires tag.BooleanTag? || tag.IntegerTag? || tag.StringTag?
    ensures CheckType(DictionaryOf(Plain(tag, false), Plain(AnyTag, false), false), Null, Dictionary(entries), false)
            <==> forall k :: k in entries ==> IsOfTag(tag, KeyValue(k))
  {
    hide Equal, IsOfTag, KeyValue;
    var t := DictionaryOf(Plain(tag, false), Plain(AnyTag, false), false);
    assert CheckType(t, Null, Dictionary(entries), false) == EntriesPass(t, Null, Dictionary(entries), false);
    forall k | k in entries
      ensures EntryPasses(t, Null, k, entries[k], false) <==> IsOfTag(tag, KeyValue(k))
    {
      hide CheckType;
      PlainAdmits(tag, Null, KeyValue(k), false);
      OtherTypesAdmit(Int8, t, t, Null, entries[k], false);
      KeysAreSimple(k);
    }
  }

  lemma KeysAreSimple(k: Key)
    ensures !KeyValue(k).Null? && !KeyValue(k).Array? && !KeyValue(k).Dictionary?
  {
  }

  /** Not even an empty dictionary fits one with keys or values of type null at first; over an old
      dictionary it does. */
  lemma NullPartsRefuse(t: TypeLiteral, old_: map<Key, Value>)
    ensures var none := Dictionary(map[]);
            && !CheckType(DictionaryOf(Plain(NullTag, false), t, false), Null, none, false)
            && !CheckType(DictionaryOf(t, Plain(NullTag, false), false), Null, none, false)
            && CheckType(DictionaryOf(t, Plain(NullTag, false), false), Dictionary(old_), none, false)
  {
    EntriesDecide(DictionaryOf(Plain(NullTag, false), t, false), Null, map[]);
    EntriesDecide(DictionaryOf(t, Plain(NullTag, false), false), Null, map[]);
    EntriesDecide(DictionaryOf(t, Plain(NullTag, false), false), Dictionary(old_), map[]);
    hide CheckType;
  }

  lemma EntriesDecide(t: TypeLiteral, original: Value, entries: map<Key, Value>)
    requires t.DictionaryOf? && !t.constant
    ensures CheckType(t, original, Dictionary(entries), false) == EntriesPass(t, original, Dictionary(entries), false)
  {
    hide EntriesPass, Equal;
  }
}
