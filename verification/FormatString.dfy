/** The translation of format strings: `{}` placeholders to printf conversions, and those to the
    conversions of the arguments' types. */
module FormatString {
  import Ast

  const MAX_PLACEHOLDERS := 64
  const MAX_FORMAT := 4096

  datatype ArgType = IntArg | FloatArg | DoubleArg | StringArg | PointerArg | BoolArg | ArrayArg

  function TypeToPrintf(t: ArgType): (spec: string)
    ensures |spec| <= 3
  {
    match t
    case IntArg => "%d"
    case FloatArg => "%lf"
    case DoubleArg => "%lf"
    case StringArg => "%s"
    case PointerArg => "%p"
    case BoolArg => "%s"
    case ArrayArg => ""
  }

  // ---------- Placeholders ----------

  /** The first place from i on where c stands; the length if there is none. */
  function IndexOf(s: string, i: nat, c: char): (k: nat)
    requires i <= |s|
    ensures i <= k <= |s| && (k < |s| ==> s[k] == c) && forall j :: i <= j < k ==> s[j] != c
    decreases |s| - i
  {
    if i == |s| || s[i] == c then i else IndexOf(s, i + 1, c)
  }

  /** No doubled brace and no type specifier, whose treatment leaves the text of the format. */
  predicate Supported(f: string) {
    |f| < MAX_FORMAT && Braces(f, 0) <= MAX_PLACEHOLDERS && SupportedFrom(f, 0)
  }

  predicate SupportedFrom(f: string, i: nat) {
    forall k :: i <= k < |f| - 1 ==>
      !(f[k] == '{' && (f[k + 1] == '{' || f[k + 1] == ':')) && !(f[k] == '}' && f[k + 1] == '}')
  }

  function Braces(f: string, i: nat): nat
    requires i <= |f|
    decreases |f| - i
  {
    if i == |f| then 0 else (if f[i] == '{' then 1 else 0) + Braces(f, i + 1)
  }

  /** How many placeholders follow; None if a brace is opened and not closed. */
  function Count(f: string, i: nat): Ast.Option<nat>
    requires i <= |f|
    decreases |f| - i
  {
    if i == |f| then Ast.Some(0)
    else if f[i] != '{' then Count(f, i + 1)
    else
      var end := IndexOf(f, i + 1, '}');
      if end == |f| then Ast.None
      else
        match Count(f, end + 1)
        case None => Ast.None
        case Some(n) => Ast.Some(n + 1)
  }

  /** What the text at i becomes while every placeholder takes an int, and where it ends. */
  function Translated(f: string, i: nat): (step: (string, nat))
    requires i < |f|
    ensures i < step.1 <= |f| && |step.0| <= step.1 - i
  {
    var end := if f[i] == '{' then IndexOf(f, i + 1, '}') else |f|;
    if end < |f| then ("%d", end + 1) else ([f[i]], i + 1)
  }

  /** The printf format before the types are known. */
  function Translate(f: string, i: nat): (t: string)
    requires i <= |f|
    ensures |t| <= |f| - i
    decreases |f| - i
  {
    if i == |f| then ""
    else
      var (text, next) := Translated(f, i);
      text + Translate(f, next)
  }

  // ---------- Conversions ----------

  predicate IsConversion(c: char) {
    || c == 'd' || c == 'i' || c == 'u' || c == 'o' || c == 'x' || c == 'X' || c == 'f' || c == 'F'
    || c == 'e' || c == 'E' || c == 'g' || c == 'G' || c == 'c' || c == 's' || c == 'p' || c == 'n'
  }

  function ConversionFrom(s: string, i: nat): (k: nat)
    requires i <= |s|
    ensures i <= k <= |s| && (k < |s| ==> IsConversion(s[k]))
    decreases |s| - i
  {
    if i == |s| || IsConversion(s[i]) then i else ConversionFrom(s, i + 1)
  }

  /** What the text at i becomes if argument n is next: the text, where it ends, the next argument. */
  function Built(s: string, types: seq<ArgType>, i: nat, n: nat): (step: (string, nat, nat))
    requires i < |s|
    ensures i < step.1 <= |s| && |step.0| <= 2 * (step.1 - i)
  {
    if s[i] != '%' || i + 1 == |s| then ([s[i]], i + 1, n)
    else if s[i + 1] == '%' then ("%%", i + 2, n)
    else
      var k := ConversionFrom(s, i);
      if k == |s| then ("%", k, n + 1)
      else if n < |types| && types[n] != IntArg then (TypeToPrintf(types[n]), k + 1, n + 1)
      else (s[i..k + 1], k + 1, n + 1)
  }

  /** The printf format for the given types, from character i and argument n on. */
  function Build(s: string, types: seq<ArgType>, i: nat, n: nat): (t: string)
    requires i <= |s|
    ensures |t| <= 2 * (|s| - i)
    decreases |s| - i
  {
    if i == |s| then ""
    else
      var (text, next, m) := Built(s, types, i, n);
      text + Build(s, types, next, m)
  }

  // ---------- The two passes ----------

  /** printfFormat is None where the program leaves it null. */
  datatype Parsed = Parsed(printfFormat: Ast.Option<string>, placeholderCount: nat, argCount: nat, isValid: bool)

  predicate CountIs(f: string, i: nat, done: nat)
    requires i <= |f|
  {
    Count(f, 0) == match Count(f, i) case None => Ast.None case Some(n) => Ast.Some(done + n)
  }

  /** The first pass: counts the placeholders and gives each a type; stops at an unclosed brace. */
  method CountPlaceholders(f: string, placeholders: array<ArgType>) returns (count: nat, malformed: bool)
    requires Supported(f) && placeholders.Length == MAX_PLACEHOLDERS
    modifies placeholders
    ensures malformed <==> Count(f, 0) == Ast.None
    ensures !malformed ==> Count(f, 0) == Ast.Some(count) && count <= MAX_PLACEHOLDERS
    ensures !malformed ==> forall k :: 0 <= k < count ==> placeholders[k] == IntArg
  {
    count := 0;
    var p := 0;
    while p < |f|
      invariant 0 <= p <= |f| && CountIs(f, p, count) && count + Braces(f, p) <= MAX_PLACEHOLDERS
      invariant forall k :: 0 <= k < count ==> placeholders[k] == IntArg
      decreases |f| - p
    {
      if f[p] == '{' {
        var end := IndexOf(f, p + 1, '}');
        if end == |f| { return count, true; }
        FewerBraces(f, p + 1, end + 1);
        placeholders[count] := IntArg;
        count := count + 1;
        p := end + 1;
      } else {
        p := p + 1;
      }
    }
    return count, false;
  }

  lemma {:induction false} FewerBraces(f: string, i: nat, j: nat)
    requires i <= j <= |f|
    ensures Braces(f, j) <= Braces(f, i)
    decreases j - i
  {
    if i < j { FewerBraces(f, i + 1, j); }
  }

  /** The format is valid exactly if its braces close and it has one placeholder per argument. */
  method Parse(f: string, argCount: nat) returns (fmt: Parsed)
    requires Supported(f)
    ensures fmt.isValid <==> Count(f, 0) == Ast.Some(argCount)
    ensures fmt.printfFormat == if fmt.isValid then Ast.Some(Translate(f, 0)) else Ast.None
    ensures fmt.isValid ==> fmt.placeholderCount == fmt.argCount == argCount
  {
    var placeholders := new ArgType[MAX_PLACEHOLDERS](_ => IntArg);
    var count, malformed := CountPlaceholders(f, placeholders);
    if malformed { return Parsed(Ast.None, 0, 0, false); }
    if argCount != count { return Parsed(Ast.None, count, argCount, false); }
    var printf := WriteFormat(f, placeholders, count);
    return Parsed(Ast.Some(printf), count, argCount, true);
  }

  /** Writes a text where it fits, and reports whether it did. */
  method Put(result: array<char>, pos: nat, text: string) returns (next: nat)
    requires pos <= result.Length
    modifies result
    ensures next == if pos + |text| < result.Length then pos + |text| else pos
    ensures next <= result.Length && result[..pos] == old(result[..pos]) && result[pos..next] == text[..next - pos]
  {
    if pos + |text| >= result.Length { return pos; }
    for k := 0 to |text|
      invariant result[..pos] == old(result[..pos]) && result[pos..pos + k] == text[..k]
    {
      result[pos + k] := text[k];
    }
    return pos + |text|;
  }

  method PutAll(result: array<char>, pos: nat, text: string, ghost before: string) returns (next: nat)
    requires pos + |text| < result.Length && result[..pos] == before
    modifies result
    ensures next == pos + |text| && result[..next] == before + text
  {
    next := Put(result, pos, text);
  }

  lemma CountStep(f: string, p: nat, done: nat, count: nat)
    requires p < |f| && CountIs(f, p, done) && Count(f, p).Some? && Count(f, 0) == Ast.Some(count)
    ensures var (text, next) := Translated(f, p);
            var placeholder := f[p] == '{' && IndexOf(f, p + 1, '}') < |f|;
            && CountIs(f, next, if placeholder then done + 1 else done) && Count(f, next).Some?
            && (placeholder ==> done < count)
  {
  }

  /** The second pass: nothing of the text is dropped for lack of room. */
  method WriteFormat(f: string, placeholders: array<ArgType>, count: nat) returns (text: string)
    requires Count(f, 0) == Ast.Some(count) && count <= placeholders.Length
    requires forall k :: 0 <= k < count ==> placeholders[k] == IntArg
    ensures text == Translate(f, 0)
  {
    hide Count, CountIs, IndexOf, Translate;
    var result := new char[2 * |f| + 1];
    var resultPos, idx, p := 0, 0, 0;
    CountStarts(f);
    while p < |f|
      invariant 0 <= resultPos <= p <= |f|
      invariant CountIs(f, p, idx) && Count(f, p).Some?
      invariant result[..resultPos] + Translate(f, p) == Translate(f, 0)
      decreases |f| - p
    {
      ghost var before := result[..resultPos];
      CountStep(f, p, idx, count);
      TranslateUnfolds(f, p);
      var (piece, next) := Translated(f, p);
      Regroup(before, piece, Translate(f, next));
      var end := if f[p] == '{' then IndexOf(f, p + 1, '}') else |f|;
      if end < |f| {
        resultPos := PutAll(result, resultPos, TypeToPrintf(placeholders[idx]), before);
        idx := idx + 1;
        p := end + 1;
      } else {
        resultPos := PutAll(result, resultPos, [f[p]], before);
        p := p + 1;
      }
    }
    TextEnds(f, [], p, 0);
    text := result[..resultPos];
  }

  lemma Regroup(before: string, piece: string, rest: string)
    ensures before + piece + rest == before + (piece + rest)
  {
  }

  lemma TranslateUnfolds(f: string, i: nat)
    requires i < |f|
    ensures var (text, next) := Translated(f, i);
            Translate(f, i) == text + Translate(f, next)
  {
  }

  lemma CountStarts(f: string)
    ensures CountIs(f, 0, 0)
  {
  }

  /** Copies one character, keeps a doubled percent, or replaces one conversion. */
  method BuildOne(src: string, types: seq<ArgType>, at: nat, n: nat) returns (piece: string, i: nat, idx: nat)
    requires at < |src|
    ensures (piece, i, idx) == Built(src, types, at, n)
  {
    i, idx := at, n;
    if src[i] == '%' && i + 1 < |src| {
      if src[i + 1] == '%' {
        piece := "%%";
        i := i + 1;
      } else {
        while i < |src| && !IsConversion(src[i])
          invariant at <= i <= |src| && ConversionFrom(src, at) == ConversionFrom(src, i)
        {
          i := i + 1;
        }
        if i >= |src| {
          return "%", i, idx + 1;
        } else if idx < |types| && types[idx] != IntArg {
          piece := TypeToPrintf(types[idx]);
        } else {
          piece := src[at..i + 1];
        }
        idx := idx + 1;
      }
    } else {
      piece := [src[i]];
    }
    i := i + 1;
  }

  /** The part of a text that the program looks at. */
  function Seen(text: string): string {
    if |text| > MAX_FORMAT then text[..MAX_FORMAT] else text
  }

  /** Fits the conversions to the types of the arguments; nothing that is looked at is dropped for
      lack of room. */
  method BuildPrintfFormat(format: string, types: seq<ArgType>) returns (text: string)
    ensures text == Build(Seen(format), types, 0, 0)
  {
    hide Built;
    var src := Seen(format);
    var result := new char[2 * |src| + 1];
    var pos, idx, i := 0, 0, 0;
    while i < |src|
      invariant 0 <= i <= |src| && 0 <= pos <= 2 * i && idx >= 0
      invariant result[..pos] + Build(src, types, i, idx) == Build(src, types, 0, 0)
      decreases |src| - i
    {
      ghost var before := result[..pos];
      var piece;
      piece, i, idx := BuildOne(src, types, i, idx);
      pos := PutAll(result, pos, piece, before);
    }
    text := result[..pos];
  }

  // ---------- What the two passes make of a well-made format ----------

  predicate Plain(part: string) {
    forall i :: 0 <= i < |part| ==> part[i] != '{' && part[i] != '}' && part[i] != '%'
  }

  /** The parts with one of the specifiers between each two. */
  function Interleaved(parts: seq<string>, specs: seq<string>): string
    requires |parts| == |specs| + 1
  {
    if specs == [] then parts[0] else parts[0] + specs[0] + Interleaved(parts[1..], specs[1..])
  }

  function Copies(spec: string, n: nat): (specs: seq<string>)
    ensures |specs| == n
  {
    seq(n, _ => spec)
  }

  function Specs(types: seq<ArgType>): (specs: seq<string>)
    ensures |specs| == |types|
  {
    seq(|types|, i requires 0 <= i < |types| => TypeToPrintf(types[i]))
  }

  predicate AllPlain(parts: seq<string>) {
    forall k :: 0 <= k < |parts| ==> Plain(parts[k])
  }

  /** The text f reads w at i. */
  predicate At(f: string, i: nat, w: string) {
    i + |w| <= |f| && f[i..i + |w|] == w
  }

  /** From i on, f is the interleaving. */
  predicate Laid(f: string, i: nat, parts: seq<string>, specs: seq<string>)
    requires |parts| == |specs| + 1
  {
    i <= |f| && f[i..] == Interleaved(parts, specs)
  }

  /** How an interleaving that starts at i is laid out. */
  lemma Layout(f: string, i: nat, parts: seq<string>, specs: seq<string>)
    requires |parts| == |specs| + 1 && Laid(f, i, parts, specs)
    ensures At(f, i, parts[0])
    ensures specs == [] ==> i + |parts[0]| == |f|
    ensures specs != [] ==>
              var j := i + |parts[0]|;
              At(f, j, specs[0]) && Laid(f, j + |specs[0]|, parts[1..], specs[1..])
  {
    hide Interleaved;
    var j := i + |parts[0]|;
    InterleavedIs(parts, specs);
    assert f[i..][..|parts[0]|] == parts[0];
    if specs != [] {
      assert f[j..] == f[i..][|parts[0]|..] == specs[0] + Interleaved(parts[1..], specs[1..]);
      assert f[j..j + |specs[0]|] == f[j..][..|specs[0]|] == specs[0];
      assert f[j + |specs[0]|..] == f[j..][|specs[0]|..];
    }
  }

  lemma InterleavedIs(parts: seq<string>, specs: seq<string>)
    requires |parts| == |specs| + 1
    ensures Interleaved(parts, specs) ==
              if specs == [] then parts[0] else parts[0] + (specs[0] + Interleaved(parts[1..], specs[1..]))
  {
  }

  lemma CopiesTail(spec: string, n: nat)
    requires n > 0
    ensures Copies(spec, n)[0] == spec && Copies(spec, n)[1..] == Copies(spec, n - 1)
  {
  }

  lemma SpecsTail(types: seq<ArgType>)
    requires types != []
    ensures Specs(types)[0] == TypeToPrintf(types[0]) && Specs(types)[1..] == Specs(types[1..])
  {
  }

  lemma OnePlain(s: string, types: seq<ArgType>, i: nat, n: nat)
    requires i < |s| && s[i] != '{' && s[i] != '%'
    ensures Translate(s, i) == [s[i]] + Translate(s, i + 1) && Count(s, i) == Count(s, i + 1)
    ensures Build(s, types, i, n) == [s[i]] + Build(s, types, i + 1, n)
  {
  }

  lemma {:induction false} PlainIsKept(s: string, types: seq<ArgType>, i: nat, n: nat, part: string)
    requires Plain(part) && At(s, i, part)
    ensures Translate(s, i) == part + Translate(s, i + |part|) && Count(s, i) == Count(s, i + |part|)
    ensures Build(s, types, i, n) == part + Build(s, types, i + |part|, n)
    decreases |part|
  {
    hide Translate, Count, Build;
    if part != "" {
      assert s[i] == s[i..i + |part|][0] == part[0];
      assert s[i + 1..i + |part|] == s[i..i + |part|][1..] == part[1..];
      OnePlain(s, types, i, n);
      PlainIsKept(s, types, i + 1, n, part[1..]);
      assert part == [part[0]] + part[1..];
    }
  }

  lemma TextEnds(s: string, types: seq<ArgType>, i: nat, n: nat)
    requires i == |s|
    ensures Translate(s, i) == "" && Count(s, i) == Ast.Some(0) && Build(s, types, i, n) == "" && Braces(s, i) == 0
  {
  }

  lemma OnePlaceholder(f: string, j: nat)
    requires At(f, j, "{}") && Count(f, j + 2).Some?
    ensures Translate(f, j) == "%d" + Translate(f, j + 2)
    ensures Count(f, j) == Ast.Some(Count(f, j + 2).value + 1)
  {
    assert f[j] == f[j..j + 2][0] == '{' && f[j + 1] == f[j..j + 2][1] == '}';
    assert IndexOf(f, j + 1, '}') == j + 1;
  }

  lemma {:induction false} PlaceholdersAreTranslated(f: string, i: nat, parts: seq<string>, n: nat)
    requires |parts| == n + 1 && AllPlain(parts) && Laid(f, i, parts, Copies("{}", n))
    ensures i <= |f| && Count(f, i) == Ast.Some(n) && Translate(f, i) == Interleaved(parts, Copies("%d", n))
    decreases n
  {
    hide Plain, Translate, Count, Interleaved, Build, Copies, Laid, At;
    Layout(f, i, parts, Copies("{}", n));
    PlainIsKept(f, [], i, 0, parts[0]);
    InterleavedIs(parts, Copies("%d", n));
    if n == 0 {
      TextEnds(f, [], |f|, 0);
    } else {
      CopiesTail("{}", n);
      CopiesTail("%d", n);
      PlaceholdersAreTranslated(f, i + |parts[0]| + 2, parts[1..], n - 1);
      OnePlaceholder(f, i + |parts[0]|);
    }
  }

  lemma OneConversion(s: string, types: seq<ArgType>, j: nat, k: nat)
    requires At(s, j, "%d") && k < |types|
    ensures Build(s, types, j, k) == TypeToPrintf(types[k]) + Build(s, types, j + 2, k + 1)
  {
    hide Build;
    assert s[j] == s[j..j + 2][0] == '%' && s[j + 1] == s[j..j + 2][1] == 'd';
    assert ConversionFrom(s, j) == j + 1;
    assert Built(s, types, j, k) == (TypeToPrintf(types[k]), j + 2, k + 1);
    BuildUnfolds(s, types, j, k);
  }

  lemma BuildUnfolds(s: string, types: seq<ArgType>, i: nat, n: nat)
    requires i < |s|
    ensures var (text, next, m) := Built(s, types, i, n);
            Build(s, types, i, n) == text + Build(s, types, next, m)
  {
  }

  lemma {:induction false} ConversionsAreBuilt(s: string, types: seq<ArgType>, i: nat, k: nat, parts: seq<string>)
    requires k <= |types| && |parts| == |types| - k + 1 && AllPlain(parts)
    requires Laid(s, i, parts, Copies("%d", |types| - k))
    ensures i <= |s| && Build(s, types, i, k) == Interleaved(parts, Specs(types[k..]))
    decreases |types| - k
  {
    hide Plain, Translate, Count, Interleaved, Build, Copies, Specs, Laid, At, TypeToPrintf;
    var n := |types| - k;
    Layout(s, i, parts, Copies("%d", n));
    PlainIsKept(s, types, i, k, parts[0]);
    InterleavedIs(parts, Specs(types[k..]));
    if n == 0 {
      TextEnds(s, types, |s|, k);
    } else {
      CopiesTail("%d", n);
      SpecsTail(types[k..]);
      assert types[k..][1..] == types[k + 1..];
      ConversionsAreBuilt(s, types, i + |parts[0]| + 2, k + 1, parts[1..]);
      OneConversion(s, types, i + |parts[0]|, k);
    }
  }

  lemma {:induction false} BracesAfterPlain(f: string, i: nat, part: string)
    requires Plain(part) && At(f, i, part)
    ensures Braces(f, i) == Braces(f, i + |part|) && (part != "" ==> f[i] != '}')
    ensures SupportedFrom(f, i + |part|) ==> SupportedFrom(f, i)
    decreases |part|
  {
    if part != "" {
      assert f[i] == f[i..i + |part|][0] == part[0];
      assert f[i + 1..i + |part|] == f[i..i + |part|][1..] == part[1..];
      BracesAfterPlain(f, i + 1, part[1..]);
    }
  }

  lemma SupportedPlaceholder(f: string, j: nat)
    requires At(f, j, "{}") && SupportedFrom(f, j + 2) && (j + 2 < |f| ==> f[j + 2] != '}')
    ensures Braces(f, j) == 1 + Braces(f, j + 2) && SupportedFrom(f, j) && f[j] != '}'
  {
    assert f[j] == f[j..j + 2][0] == '{' && f[j + 1] == f[j..j + 2][1] == '}';
  }

  lemma {:induction false} PlaceholdersAreSupported(f: string, i: nat, parts: seq<string>, n: nat)
    requires |parts| == n + 1 && AllPlain(parts) && Laid(f, i, parts, Copies("{}", n))
    ensures i <= |f| && Braces(f, i) == n && SupportedFrom(f, i) && (i < |f| ==> f[i] != '}')
    decreases n
  {
    hide Plain, Interleaved, Braces, Copies, Laid, At, SupportedFrom;
    Layout(f, i, parts, Copies("{}", n));
    BracesAfterPlain(f, i, parts[0]);
    if n == 0 {
      TextEnds(f, [], |f|, 0);
      SupportedAtEnd(f);
    } else {
      CopiesTail("{}", n);
      PlaceholdersAreSupported(f, i + |parts[0]| + 2, parts[1..], n - 1);
      SupportedPlaceholder(f, i + |parts[0]|);
    }
  }

  lemma SupportedAtEnd(f: string)
    ensures SupportedFrom(f, |f|)
  {
  }

  /** Plain text parts with an empty placeholder between each two are a valid format for exactly as
      many arguments as placeholders, and both passes together put the specifier of each argument's
      type, in order, in the place of its placeholder. */
  lemma FormatsAreInterleaved(parts: seq<string>, types: seq<ArgType>, argCount: nat)
    requires |parts| == |types| + 1 && AllPlain(parts)
    ensures var f := Interleaved(parts, Copies("{}", |types|));
            && (|f| < 4096 && |types| <= 64 ==> Supported(f))
            && (|f| < 4096 ==> Seen(Translate(f, 0)) == Translate(f, 0))
            && (Count(f, 0) == Ast.Some(argCount) <==> argCount == |types|)
            && Build(Translate(f, 0), types, 0, 0) == Interleaved(parts, Specs(types))
  {
    hide Plain, Translate, Count, Interleaved, Build, Copies, Specs;
    var n := |types|;
    var f := Interleaved(parts, Copies("{}", n));
    assert f[0..] == f;
    PlaceholdersAreSupported(f, 0, parts, n);
    PlaceholdersAreTranslated(f, 0, parts, n);
    var s := Translate(f, 0);
    assert s[0..] == s && types[0..] == types;
    ConversionsAreBuilt(s, types, 0, 0, parts);
  }

  // ---------- One conversion ----------

  /** What becomes of a percent sign and one character, for an argument of each type: a conversion for
      an integer stays, any other is replaced, `%%` stays, and of the rest only the sign is left. */
  lemma ConversionsFit(c: char)
    ensures var s := ['%', c];
            if c in "diuoxXfFeEgGcspn" then
              && Build(s, [IntArg], 0, 0) == s && Build(s, [], 0, 0) == s
              && Build(s, [FloatArg], 0, 0) == "%lf" && Build(s, [DoubleArg], 0, 0) == "%lf"
              && Build(s, [StringArg], 0, 0) == "%s" && Build(s, [BoolArg], 0, 0) == "%s"
              && Build(s, [PointerArg], 0, 0) == "%p" && Build(s, [ArrayArg], 0, 0) == ""
            else forall types :: Build(s, types, 0, 0) == if c == '%' then "%%" else "%"
  {
    hide Build, Built, IsConversion;
    ConversionsAre(c);
    ConversionsAre('%');
    forall types
      ensures Build(['%', c], types, 0, 0) ==
                if c == '%' then "%%" else if !IsConversion(c) then "%"
                else if types != [] && types[0] != IntArg then TypeToPrintf(types[0]) else ['%', c]
    {
      OneStep(['%', c], types);
    }
  }

  lemma ConversionsAre(c: char)
    ensures IsConversion(c) <==> c in "diuoxXfFeEgGcspn"
  {
  }

  lemma OneStep(s: string, types: seq<ArgType>)
    requires |s| == 2 && s[0] == '%'
    ensures Built(s, types, 0, 0).1 == 2 && Build(s, types, 0, 0) == Built(s, types, 0, 0).0
    ensures s[1] == '%' ==> Built(s, types, 0, 0).0 == "%%"
    ensures s[1] != '%' && !IsConversion(s[1]) ==> Built(s, types, 0, 0).0 == "%"
    ensures s[1] != '%' && IsConversion(s[1]) ==>
              Built(s, types, 0, 0).0 == if types != [] && types[0] != IntArg then TypeToPrintf(types[0]) else s
  {
    assert s[0..2] == s;
    assert !IsConversion('%');
    assert ConversionFrom(s, 0) == ConversionFrom(s, 1);
    assert Build(s, types, 2, Built(s, types, 0, 0).2) == "";
  }
}
