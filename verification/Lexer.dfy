/** The lexer: what lies between tokens, and an object that advances over the source. */
module Lexer {
  import opened StringLiterals

  // ---------- Characters and blanks ----------

  predicate IsDigit(c: char) {
    '0' <= c <= '9'
  }

  predicate IsAlpha(c: char) {
    'A' <= c <= 'Z' || 'a' <= c <= 'z' || c == '_'
  }

  predicate IsSpace(c: char) {
    c == ' ' || c == '\r' || c == '\n' || c == '\t'
  }

  function Newlines(s: string): nat {
    if s == "" then 0 else Newlines(s[..|s| - 1]) + if s[|s| - 1] == '\n' then 1 else 0
  }

  /** From i to j there is a line that runs to its newline or to the end of the source. */
  predicate RunsToLineEnd(source: string, i: nat, j: nat) {
    && i + 2 <= j <= |source| && (source[j - 1] == '\n' || j == |source|)
    && forall k :: i <= k < j - 1 ==> source[k] != '\n'
  }

  predicate LineComment(source: string, i: nat, j: nat) {
    RunsToLineEnd(source, i, j) && source[i] == '/' && source[i + 1] == '/'
  }

  predicate Shebang(source: string, i: nat, j: nat) {
    RunsToLineEnd(source, i, j) && source[i] == '#' && source[i + 1] == '!'
  }

  predicate ClosesAt(source: string, k: nat) {
    k + 2 <= |source| && source[k] == '*' && source[k + 1] == '/'
  }

  predicate OpensAt(source: string, k: nat) {
    k + 2 <= |source| && source[k] == '/' && source[k + 1] == '*'
  }

  predicate BlockComment(source: string, i: nat, j: nat) {
    && i + 4 <= j <= |source| && OpensAt(source, i) && ClosesAt(source, j - 2)
    && forall k :: i + 2 <= k < j - 2 ==> !ClosesAt(source, k)
  }

  /** One blank: a space, a comment or, where one is allowed, a shebang line. */
  predicate Blank(source: string, i: nat, j: nat, shebang: bool) {
    || (j == i + 1 <= |source| && IsSpace(source[i]))
    || LineComment(source, i, j) || BlockComment(source, i, j) || (shebang && Shebang(source, i, j))
  }

  ghost predicate Blanks(source: string, i: nat, j: nat, shebang: bool)
    decreases j - i
  {
    i == j <= |source| || exists k :: i < k <= j && Blank(source, i, k, shebang) && Blanks(source, k, j, shebang)
  }

  /** A comment is opened and never closed: the scan does not come back from it. */
  predicate Unclosed(source: string, i: nat) {
    OpensAt(source, i) && forall k :: i + 2 <= k < |source| ==> !ClosesAt(source, k)
  }

  /** A blank starts here, closed or not. */
  predicate StartsBlank(source: string, i: nat, shebang: bool) {
    var c, d := CharAt(source, i), CharAt(source, i + 1);
    IsSpace(c) || (c == '/' && (d == '/' || d == '*')) || (shebang && c == '#' && d == '!')
  }

  lemma OneBlank(source: string, i: nat, k: nat, j: nat, shebang: bool)
    requires i < k <= j && Blank(source, i, k, shebang) && Blanks(source, k, j, shebang)
    ensures Blanks(source, i, j, shebang)
  {
  }

  // ---------- Tokens ----------

  /** The two-character symbols. */
  predicate IsPair(a: char, b: char) {
    || (b == '=' && (a == '+' || a == '-' || TakesOnlyEquals(a)))
    || (a == b && (a == '+' || a == '-' || a == '&' || a == '|' || a == ':'))
  }

  predicate TakesOnlyEquals(a: char) {
    a == '*' || a == '/' || a == '%' || a == '!' || a == '=' || a == '<' || a == '>'
  }

  predicate StandsAlone(a: char) {
    a == '(' || a == ')' || a == '{' || a == '}' || a == '[' || a == ']' || a == '?' || a == ';' || a == ','
  }

  predicate IsSymbol(w: string) {
    || (|w| == 1 && (StandsAlone(w[0]) || TakesOnlyEquals(w[0])
                     || w[0] == '+' || w[0] == '-' || w[0] == '|' || w[0] == ':' || w[0] == '.'))
    || (|w| == 2 && IsPair(w[0], w[1]))
    || w == "..."
  }

  /** Word is a keyword or an identifier; Stuck is no token but the scan that never ends. */
  datatype Kind =
    Eof | Error | Stuck | Word | Integer | Float | Sized(letter: char, width: nat) | Text | Symbol(text: string)

  /** Where the lexeme is; the lexeme of a string is what its quotes enclose. */
  datatype Token = Token(kind: Kind, first: nat, length: nat, line: nat)

  predicate IsWordChar(c: char) {
    IsDigit(c) || IsAlpha(c)
  }

  predicate IsNumberChar(c: char) {
    IsDigit(c) || c == '_'
  }

  /** All characters from i to j, and not the one after them, are of the given sort. */
  predicate LongestRun(source: string, i: nat, j: nat, p: char -> bool) {
    i < j <= |source| && (forall k :: i <= k < j ==> p(source[k])) && !p(CharAt(source, j))
  }

  /** No symbol is longer than the one from i to j. */
  predicate LongestSymbol(source: string, i: nat, j: nat) {
    && i < j <= |source| && IsSymbol(source[i..j])
    && forall k :: j < k <= |source| ==> !IsSymbol(source[i..k])
  }

  /** A digit, then digits and underscores. */
  predicate WholeText(source: string, i: nat, j: nat) {
    i < j <= |source| && IsDigit(source[i]) && forall k :: i <= k < j ==> IsNumberChar(source[k])
  }

  /** A whole number, a point, a digit, then digits and underscores. */
  predicate PointText(source: string, i: nat, p: nat, j: nat) {
    && p + 1 < j <= |source| && WholeText(source, i, p) && source[p] == '.' && IsDigit(source[p + 1])
    && forall k :: p < k < j ==> IsNumberChar(source[k])
  }

  ghost predicate FloatText(source: string, i: nat, j: nat) {
    exists p :: i < p < j && PointText(source, i, p, j)
  }

  predicate Digits(source: string, i: nat, j: nat) {
    i <= j <= |source| && forall k :: i <= k < j ==> IsDigit(source[k])
  }

  function Decimal(source: string, i: nat, j: nat): nat
    requires Digits(source, i, j)
    decreases j - i
  {
    if i == j then 0 else Decimal(source, i, j - 1) * 10 + (source[j - 1] as int - '0' as int)
  }

  /** The suffix letter at d and the width after it; f only behind a point, and not with 8. */
  ghost predicate Suffixed(source: string, start: nat, d: nat, current: nat, letter: char, width: nat) {
    && start < d < current <= |source| && source[d] == letter
    && (FloatText(source, start, d) || (letter != 'f' && WholeText(source, start, d)))
    && Digits(source, d + 1, current) && !IsDigit(CharAt(source, current))
    && Decimal(source, d + 1, current) == width
    && if letter == 'f' then width in {16, 32, 64} else letter in {'i', 'u'} && width in {8, 16, 32, 64}
  }

  /** The width behind the suffix letter at d is none that goes with the letter. */
  ghost predicate BadWidth(source: string, d: nat, end: nat) {
    && d < end <= |source| && Digits(source, d + 1, end) && !IsDigit(CharAt(source, end))
    && (var width := Decimal(source, d + 1, end);
        !(width in {8, 16, 32, 64}) || (source[d] == 'f' && width == 8))
  }

  /** A number whose suffix is an f without a point, or has a bad width. */
  ghost predicate BadSuffix(source: string, start: nat, d: nat) {
    && start < d < |source| && IsSuffixLetter(source[d])
    && (FloatText(source, start, d) || WholeText(source, start, d))
    && ((source[d] == 'f' && WholeText(source, start, d)) || exists end :: d < end && BadWidth(source, d, end))
  }

  /** The texts that start no token. */
  ghost predicate Rejected(source: string, start: nat) {
    start < |source| &&
    if source[start] == '\"' then StringEnd(source, start + 1) == |source|
    else if IsDigit(source[start]) then exists d :: start < d && BadSuffix(source, start, d)
    else
      && !IsAlpha(source[start]) && !IsSymbol([source[start]])
      && !(source[start] == '&' && CharAt(source, start + 1) == '&')
  }

  predicate IsSuffixLetter(c: char) {
    c == 'i' || c == 'u' || c == 'f'
  }

  /** What a token says of the text from start to current. */
  ghost predicate Reads(source: string, t: Token, start: nat, current: nat)
    requires start <= current <= |source|
  {
    && !t.kind.Stuck? && (t.kind.Eof? <==> start == |source|)
    && (t.kind.Eof? || start < current)
    && match t.kind
       case Word =>
         IsAlpha(source[start]) && LongestRun(source, start, current, IsWordChar)
         && t.first == start && t.length == current - start
       case Integer =>
         && WholeText(source, start, current)
         && !IsNumberChar(CharAt(source, current)) && !IsSuffixLetter(CharAt(source, current))
         && t.first == start && t.length == current - start
       case Float =>
         && FloatText(source, start, current)
         && !IsNumberChar(CharAt(source, current)) && !IsSuffixLetter(CharAt(source, current))
         && t.first == start && t.length == current - start
       case Sized(letter, width) =>
         && (exists d :: start < d < current && Suffixed(source, start, d, current, letter, width))
         && t.first == start && t.length == current - start
       case Symbol(w) =>
         && LongestSymbol(source, start, current) && w == source[start..current]
         && t.first == start && t.length == |w|
       case Text =>
         && source[start] == '\"' && current == StringEnd(source, start + 1) < |source|
         && t.first == start + 1 && t.first + t.length + 1 == current && source[current - 1] == '\"'
       case Error => Rejected(source, start)
       case _ => true
  }

  lemma StringEndStep(source: string, i: nat)
    requires i < |source|
    ensures StringEnd(source, i) ==
              if source[i] == '\"' then i + 1
              else if source[i] == '\\' && IsEscapable(CharAt(source, i + 1)) then StringEnd(source, i + 2)
              else StringEnd(source, i + 1)
  {
  }

  lemma StringEndAtEnd(source: string, i: nat)
    requires i == |source|
    ensures StringEnd(source, i) == i
  {
  }

  lemma UnterminatedIsRejected(source: string, start: nat)
    requires start < |source| && source[start] == '\"' && StringEnd(source, start + 1) == |source|
    ensures Rejected(source, start)
  {
  }

  lemma {:induction false} StringEndIsQuote(source: string, i: nat)
    requires i <= |source| && StringEnd(source, i) < |source|
    ensures i < StringEnd(source, i) && source[StringEnd(source, i) - 1] == '\"'
    decreases |source| - i
  {
    if source[i] == '\"' {
    } else if source[i] == '\\' && IsEscapable(CharAt(source, i + 1)) {
      StringEndIsQuote(source, i + 2);
    } else {
      StringEndIsQuote(source, i + 1);
    }
  }

  lemma SymbolOfOne(source: string, i: nat)
    requires i < |source| && IsSymbol([source[i]]) && !IsPair(source[i], CharAt(source, i + 1))
    requires source[i] == '.' ==> !(CharAt(source, i + 1) == '.' && CharAt(source, i + 2) == '.')
    ensures LongestSymbol(source, i, i + 1)
  {
    assert source[i..i + 1] == [source[i]];
    forall k | i + 1 < k <= |source|
      ensures !IsSymbol(source[i..k])
    {
      var w := source[i..k];
      assert w[0] == source[i] && w[1] == source[i + 1];
      if k == i + 3 { assert w[2] == source[i + 2]; }
    }
  }

  lemma SymbolOfTwo(source: string, i: nat)
    requires i + 2 <= |source| && IsPair(source[i], source[i + 1])
    ensures LongestSymbol(source, i, i + 2)
  {
    assert source[i..i + 2] == [source[i], source[i + 1]];
    forall k | i + 2 < k <= |source|
      ensures !IsSymbol(source[i..k])
    {
      assert source[i..k][0] == source[i];
    }
  }

  lemma LongestDots(source: string, i: nat)
    requires i + 3 <= |source| && source[i] == source[i + 1] == source[i + 2] == '.'
    ensures source[i..i + 3] == "..." && LongestSymbol(source, i, i + 3)
  {
    assert source[i..i + 3] == "...";
  }

  lemma MatchesOne(source: string, i: nat, c: char)
    requires i <= |source|
    ensures [c] <= source[i..] <==> i < |source| && source[i] == c
  {
  }

  lemma AmpersandIsNoSymbol()
    ensures !IsSymbol(['&']) && IsPair('&', '&')
  {
  }

  class Lexer {
    const source: string
    var start: nat
    var current: nat
    var line: nat

    ghost predicate Valid()
      reads this
    {
      start <= current <= |source| && line == 1 + Newlines(source[..current])
    }

    constructor (source: string)
      ensures Valid() && this.source == source && start == current == 0
    {
      this.source := source;
      start, current, line := 0, 0, 1;
    }

    function Peek(): char
      reads this
    {
      CharAt(source, current)
    }

    function PeekNext(): char
      reads this
    {
      if current >= |source| then NUL else CharAt(source, current + 1)
    }

    method Advance() returns (c: char)
      requires Valid()
      modifies `current, `line
      ensures Valid() && c == CharAt(source, old(current))
      ensures current == if old(current) < |source| then old(current) + 1 else old(current)
    {
      if current >= |source| { return NUL; }
      assert source[..current + 1][..current] == source[..current];
      if source[current] == '\n' {
        line := line + 1;
      }
      current := current + 1;
      return source[current - 1];
    }

    method EatLine()
      requires Valid() && current + 2 <= |source|
      requires Peek() != '\n' && PeekNext() != '\n'
      modifies `current, `line
      ensures Valid() && RunsToLineEnd(source, old(current), current)
    {
      var c := Advance();
      while c != '\n' && current < |source|
        invariant Valid() && old(current) < current
        invariant c == source[current - 1]
        invariant forall k :: old(current) <= k < current - 1 ==> source[k] != '\n'
        invariant c == '\n' ==> old(current) + 2 < current
        decreases |source| - current
      {
        c := Advance();
      }
    }

    /** Eats the block comment that opens here; stuck if it never closes. */
    method EatBlock() returns (stuck: bool)
      requires Valid() && OpensAt(source, current)
      modifies `current, `line
      ensures Valid() && old(current) <= current
              && (if stuck then Unclosed(source, old(current)) else BlockComment(source, old(current), current))
    {
      var c := Advance();
      c := Advance();
      while !(Peek() == '*' && PeekNext() == '/') && current < |source|
        invariant Valid() && old(current) + 2 <= current
        invariant forall k :: old(current) + 2 <= k < current ==> !ClosesAt(source, k)
        decreases |source| - current
      {
        c := Advance();
      }
      if current == |source| { return true; }
      c := Advance();
      c := Advance();
      return false;
    }

    /** Eats blanks until something else comes; a shebang line counts while the last token started
        at the very first character. */
    method EatWhitespace() returns (stuck: bool)
      requires Valid()
      modifies `current, `line
      ensures Valid() && old(current) <= current
      ensures !stuck ==> Blanks(source, old(current), current, start == 0)
      ensures !stuck ==> !StartsBlank(source, current, start == 0)
      ensures stuck ==> exists k ::
                            old(current) <= k && Blanks(source, old(current), k, start == 0) && Unclosed(source, k)
      decreases |source| - current
    {
      ghost var from := current;
      if IsSpace(Peek()) {
        var c := Advance();
      } else if Peek() == '#' {
        if !(start == 0 && PeekNext() == '!') { return false; }
        EatLine();
      } else if Peek() == '/' && PeekNext() == '/' {
        EatLine();
      } else if Peek() == '/' && PeekNext() == '*' {
        stuck := EatBlock();
        if stuck { return; }
      } else {
        return false;
      }
      ghost var mid := current;
      assert Blank(source, from, mid, start == 0);
      stuck := EatWhitespace();
      if stuck {
        ghost var k :| mid <= k && Blanks(source, mid, k, start == 0) && Unclosed(source, k);
        OneBlank(source, from, mid, k, start == 0);
      } else {
        OneBlank(source, from, mid, current, start == 0);
      }
    }

    method Match(expected: string) returns (matched: bool)
      requires Valid() && expected != ""
      modifies `current, `line
      ensures Valid() && (matched <==> expected <= source[old(current)..])
      ensures current == old(current) + if matched then |expected| else 0
    {
      if current >= |source| { return false; }
      if !(expected <= source[current..]) { return false; }
      assert |source[current..]| == |source| - current;
      for i := 0 to |expected|
        invariant Valid() && current == old(current) + i
      {
        var c := Advance();
      }
      return true;
    }

    function MakeToken(kind: Kind): Token
      requires start <= current
      reads this
    {
      Token(kind, start, current - start, line)
    }

    function MakeErrorToken(): Token
      reads this
    {
      Token(Error, start, 0, line)
    }

    method SkipDigits()
      requires Valid()
      modifies `current, `line
      ensures Valid() && old(current) <= current && !IsNumberChar(Peek())
      ensures forall k :: old(current) <= k < current ==> IsNumberChar(source[k])
    {
      while IsNumberChar(Peek()) && current < |source|
        invariant Valid() && old(current) <= current
        invariant forall k :: old(current) <= k < current ==> IsNumberChar(source[k])
        decreases |source| - current
      {
        var c := Advance();
      }
    }

    method MakeIntegerOrFloat() returns (t: Token)
      requires Valid() && start == current && IsDigit(Peek())
      modifies `current, `line
      ensures Valid() && start < current && t.line == line && Reads(source, t, start, current)
    {
      hide Newlines, Decimal;
      SkipDigits();
      ghost var p := current;
      var isFloat := false;
      if Peek() == '.' && IsDigit(PeekNext()) {
        isFloat := true;
        var c := Advance();
        SkipDigits();
        assert PointText(source, start, p, current);
      }
      if IsSuffixLetter(Peek()) {
        t := MakeSized(isFloat);
      } else {
        t := MakeToken(if isFloat then Float else Integer);
      }
    }

    /** The number has a suffix: a letter and a width, which have to go with each other. */
    method MakeSized(isFloat: bool) returns (t: Token)
      requires Valid() && start < current && IsSuffixLetter(Peek()) && IsDigit(source[start])
      requires if isFloat then FloatText(source, start, current) else WholeText(source, start, current)
      modifies `current, `line
      ensures Valid() && start < current && t.line == line && Reads(source, t, start, current)
    {
      hide Newlines, WholeText, FloatText;
      var letter := Peek();
      ghost var d := current;
      if letter == 'f' && !isFloat {
        assert BadSuffix(source, start, d);
        return MakeErrorToken();
      }
      var c := Advance();
      var width := 0;
      while IsDigit(Peek()) && current < |source|
        invariant Valid() && d < current
        invariant Digits(source, d + 1, current) && width == Decimal(source, d + 1, current)
        decreases |source| - current
      {
        width := width * 10 + (Peek() as int - '0' as int);
        c := Advance();
      }
      if !(width in {8, 16, 32, 64}) || (letter == 'f' && width == 8) {
        assert BadWidth(source, d, current);
        assert BadSuffix(source, start, d);
        return MakeErrorToken();
      }
      assert Suffixed(source, start, d, current, letter, width);
      return MakeToken(Sized(letter, width));
    }

    method MakeString(terminator: char) returns (t: Token)
      requires Valid() && terminator == '\"' && current == start + 1 && source[start] == terminator
      modifies `current, `line
      ensures Valid() && start < current && t.line == line && Reads(source, t, start, current)
    {
      hide LongestRun, LongestSymbol, StringEnd, Newlines, Rejected, WholeText, FloatText, Suffixed;
      var closed := false;
      while current < |source| && !closed
        invariant Valid() && start < current
        invariant StringEnd(source, start + 1) == if closed then current else StringEnd(source, current)
        decreases |source| - current, !closed
      {
        StringEndStep(source, current);
        if Peek() == terminator {
          var c := Advance();
          closed := true;
        } else {
          if Peek() == '\\' && IsEscapable(PeekNext()) {
            var c := Advance();
          }
          var c := Advance();
        }
      }
      if !closed { StringEndAtEnd(source, current); }
      if current == |source| {
        UnterminatedIsRejected(source, start);
        return MakeErrorToken();
      }
      StringEndIsQuote(source, start + 1);
      return Token(Text, start + 1, current - start - 2, line);
    }

    method MakeKeywordOrIdentifier() returns (t: Token)
      requires Valid() && start == current && IsAlpha(Peek())
      modifies `current, `line
      ensures Valid() && start < current && t.line == line && Reads(source, t, start, current)
    {
      var c := Advance();
      while IsWordChar(Peek()) && current < |source|
        invariant Valid() && start < current
        invariant forall k :: start <= k < current ==> IsWordChar(source[k])
        decreases |source| - current
      {
        c := Advance();
      }
      return MakeToken(Word);
    }

    method MatchChar(c: char) returns (matched: bool)
      requires Valid() && c != NUL
      modifies `current, `line
      ensures Valid() && (matched <==> CharAt(source, old(current)) == c)
      ensures current == old(current) + if matched then 1 else 0
    {
      MatchesOne(source, current, c);
      matched := Match([c]);
    }

    /** Takes the second character of a two-character symbol, if there is one. */
    method TakeSecond(c: char) returns (two: bool)
      requires Valid() && current == start + 1 && c == source[start] && c != '&'
      modifies `current, `line
      ensures Valid() && (two <==> IsPair(c, CharAt(source, start + 1))) && current == start + if two then 2 else 1
    {
      if TakesOnlyEquals(c) {
        two := MatchChar('=');
      } else if c == '+' || c == '-' {
        two := MatchChar('=');
        if !two { two := MatchChar(c); }
      } else if c == '|' || c == ':' {
        two := MatchChar(c);
      } else {
        two := false;
      }
    }

    /** Tokens of punctuation, the first character of which has just been taken: the longest symbol
        that starts with it. A lone & is an error, and takes the character after it along. */
    method MakeSymbol(c: char) returns (t: Token)
      requires Valid() && current == start + 1 && c == source[start] && c != '\"' && !IsDigit(c) && !IsAlpha(c)
      modifies `current, `line
      ensures Valid() && start < current && t.line == line && Reads(source, t, start, current)
      ensures t.kind.Error? <==> !IsSymbol([c]) && !(c == '&' && CharAt(source, start + 1) == '&')
    {
      hide LongestSymbol, LongestRun, IsPair, Newlines;
      if c == '&' {
        AmpersandIsNoSymbol();
        var d := Advance();
        if d != '&' { return MakeErrorToken(); }
        SymbolOfTwo(source, start);
        return MakeToken(Symbol(source[start..current]));
      }
      if !IsSymbol([c]) { return MakeErrorToken(); }
      if c == '.' && Peek() == '.' && PeekNext() == '.' {
        var d := Advance();
        d := Advance();
        LongestDots(source, start);
        return MakeToken(Symbol("..."));
      }
      var two := TakeSecond(c);
      if two {
        SymbolOfTwo(source, start);
      } else {
        SymbolOfOne(source, start);
      }
      return MakeToken(Symbol(source[start..current]));
    }

    /** One token and the blanks before it. */
    method ScanLexer() returns (t: Token)
      requires Valid()
      modifies `start, `current, `line
      ensures Valid() && t.line == line
      ensures t.kind.Stuck? ==>
                exists k :: old(current) <= k && Blanks(source, old(current), k, old(start) == 0) && Unclosed(source, k)
      ensures !t.kind.Stuck? ==>
                && old(current) <= start && Blanks(source, old(current), start, old(start) == 0)
                && !StartsBlank(source, start, old(start) == 0) && Reads(source, t, start, current)
    {
      hide Blanks, LongestRun, LongestSymbol;
      var stuck := EatWhitespace();
      if stuck { return Token(Stuck, current, 0, line); }
      start := current;
      if current >= |source| { return MakeToken(Eof); }
      if IsDigit(Peek()) {
        t := MakeIntegerOrFloat();
      } else if IsAlpha(Peek()) {
        t := MakeKeywordOrIdentifier();
      } else {
        var c := Advance();
        if c == '\"' {
          t := MakeString(c);
        } else {
          t := MakeSymbol(c);
        }
      }
    }
  }

  // ---------- The whole source ----------

  datatype Span = Span(start: nat, end: nat)

  function EndBefore(spans: seq<Span>, k: nat): nat
    requires k <= |spans|
  {
    if k == 0 then 0 else spans[k - 1].end
  }

  /** No token has been scanned yet, or one that starts at the very first character. */
  predicate AtHead(spans: seq<Span>, k: nat)
    requires k <= |spans|
  {
    k == 0 || spans[k - 1].start == 0
  }

  /** The spans come in order and do not touch one another's text; between them are only blanks,
      each is what its token says, and each token bears the line on which it ends. */
  ghost predicate Partition(source: string, spans: seq<Span>, tokens: seq<Token>) {
    && |spans| == |tokens|
    && forall k :: 0 <= k < |spans| ==> Piece(source, spans, tokens, k)
  }

  ghost predicate Piece(source: string, spans: seq<Span>, tokens: seq<Token>, k: nat)
    requires k < |spans| == |tokens|
  {
    && EndBefore(spans, k) <= spans[k].start < spans[k].end <= |source|
    && Blanks(source, EndBefore(spans, k), spans[k].start, AtHead(spans, k))
    && !StartsBlank(source, spans[k].start, AtHead(spans, k))
    && Reads(source, tokens[k], spans[k].start, spans[k].end)
    && tokens[k].line == 1 + Newlines(source[..spans[k].end])
  }

  /** Scanning over and over comes to the end of every source, unless a block comment is opened
      between two tokens and never closed; the tokens and the blanks between them are the source. */
  method ScanAll(source: string) returns (spans: seq<Span>, tokens: seq<Token>, stuck: bool)
    ensures Partition(source, spans, tokens)
    ensures
      var end := EndBefore(spans, |spans|);
      if stuck then exists k :: end <= k && Blanks(source, end, k, AtHead(spans, |spans|)) && Unclosed(source, k)
      else Blanks(source, end, |source|, AtHead(spans, |spans|))
  {
    hide Blanks, Reads, Newlines;
    var lexer := new Lexer(source);
    spans, tokens, stuck := [], [], false;
    while true
      invariant fresh(lexer) && lexer.Valid() && lexer.source == source && lexer.current == EndBefore(spans, |spans|)
      invariant lexer.start == if spans == [] then 0 else spans[|spans| - 1].start
      invariant Partition(source, spans, tokens)
      decreases |source| - lexer.current
    {
      var t := lexer.ScanLexer();
      if t.kind.Stuck? { return spans, tokens, true; }
      EofIsTheEnd(source, t, lexer.start, lexer.current);
      if t.kind.Eof? { return spans, tokens, false; }
      PartitionGrows(source, spans, tokens, Span(lexer.start, lexer.current), t);
      spans, tokens := spans + [Span(lexer.start, lexer.current)], tokens + [t];
    }
  }

  lemma EofIsTheEnd(source: string, t: Token, start: nat, current: nat)
    requires start <= current <= |source| && Reads(source, t, start, current)
    ensures if t.kind.Eof? then start == |source| else start < current
  {
  }

  lemma PartitionGrows(source: string, spans: seq<Span>, tokens: seq<Token>, span: Span, t: Token)
    requires Partition(source, spans, tokens)
    requires EndBefore(spans, |spans|) <= span.start < span.end <= |source|
    requires Blanks(source, EndBefore(spans, |spans|), span.start, AtHead(spans, |spans|))
    requires !StartsBlank(source, span.start, AtHead(spans, |spans|))
    requires Reads(source, t, span.start, span.end) && t.line == 1 + Newlines(source[..span.end])
    ensures Partition(source, spans + [span], tokens + [t])
  {
    hide Blanks, Reads, Newlines;
    forall k | 0 <= k < |spans| + 1
      ensures Piece(source, spans + [span], tokens + [t], k)
    {
      if k < |spans| { assert Piece(source, spans, tokens, k); }
    }
  }

  // ---------- Shebang lines in the middle of a source ----------

  lemma NothingToSkip(source: string, i: nat, j: nat, shebang: bool)
    requires Blanks(source, i, j, shebang) && !StartsBlank(source, i, shebang)
    ensures i == j
  {
  }

  /** A token that starts with the letter x, with # behind it, is the word x. */
  lemma LoneLetter(source: string, t: Token, i: nat, end: nat)
    requires i + 1 < |source| && source[i] == 'x' && source[i + 1] == '#'
    requires i <= end <= |source| && Reads(source, t, i, end)
    ensures t.kind == Word && end == i + 1
  {
    assert i < end ==> source[i..end][0] == 'x';
  }

  lemma LoneHash(source: string, t: Token, i: nat, end: nat)
    requires i < |source| && source[i] == '#'
    requires i <= end <= |source| && Reads(source, t, i, end)
    ensures t.kind == Error
  {
    assert i < end ==> source[i..end][0] == '#';
  }

  lemma WholeLineIsSkipped(source: string, i: nat, j: nat)
    requires i + 2 < |source| && source[i] == '#' && source[i + 1] == '!'
    requires forall k :: i <= k < |source| ==> source[k] != '\n'
    requires Blanks(source, i, j, true) && !StartsBlank(source, j, true)
    ensures j == |source|
  {
    var k :| i < k <= j && Blank(source, i, k, true) && Blanks(source, k, j, true);
  }

  lemma NeverStuckWithoutSlash(source: string)
    requires '/' !in source
    ensures forall k: nat :: !Unclosed(source, k)
  {
  }

  /** The line `#!y` behind the token x is skipped when x starts the source. */
  method ShebangBehindFirstToken() returns (first: Token, second: Token)
    ensures first.kind == Word && second.kind == Eof
  {
    hide Blanks, Reads, Newlines, Unclosed;
    var source := "x#!y";
    NeverStuckWithoutSlash(source);
    var lexer := new Lexer(source);
    first := lexer.ScanLexer();
    NothingToSkip(source, 0, lexer.start, true);
    LoneLetter(source, first, 0, lexer.current);
    second := lexer.ScanLexer();
    WholeLineIsSkipped(source, 1, lexer.start);
    EofIsTheEnd(source, second, lexer.start, lexer.current);
  }

  /** With a blank in front of x the same line is no blank, and its # an error. */
  method ShebangBehindLaterToken() returns (first: Token, second: Token)
    ensures first.kind == Word && second.kind == Error
  {
    hide Blanks, Reads, Newlines, Unclosed;
    var source := " x#!y";
    NeverStuckWithoutSlash(source);
    var lexer := new Lexer(source);
    first := lexer.ScanLexer();
    OneSpaceIsSkipped(source, lexer.start, true);
    LoneLetter(source, first, 1, lexer.current);
    second := lexer.ScanLexer();
    NothingToSkip(source, 2, lexer.start, false);
    LoneHash(source, second, 2, lexer.current);
  }

  lemma OneSpaceIsSkipped(source: string, j: nat, shebang: bool)
    requires |source| > 1 && source[0] == ' ' && !StartsBlank(source, 1, shebang)
    requires Blanks(source, 0, j, shebang) && !StartsBlank(source, j, shebang)
    ensures j == 1
  {
    assert StartsBlank(source, 0, shebang);
    var k :| 0 < k <= j && Blank(source, 0, k, shebang) && Blanks(source, k, j, shebang);
    NothingToSkip(source, k, j, shebang);
  }

  // ---------- The characters and symbols ----------

  /** By their codes: digits, letters and the underscore, and blanks. */
  lemma CharactersAre(c: char)
    ensures IsDigit(c) <==> 48 <= c as int <= 57
    ensures IsAlpha(c) <==> 65 <= c as int <= 90 || 97 <= c as int <= 122 || c as int == 95
    ensures IsWordChar(c) <==>
              48 <= c as int <= 57 || 65 <= c as int <= 90 || 97 <= c as int <= 122 || c as int == 95
    ensures IsNumberChar(c) <==> 48 <= c as int <= 57 || c as int == 95
    ensures IsSuffixLetter(c) <==> c as int in {102, 105, 117}
    ensures IsSpace(c) <==> c as int in {9, 10, 13, 32}
  {
  }

  /** All symbols there are. */
  lemma SymbolsAre(w: string)
    ensures IsSymbol(w) <==>
              w in {"(", ")", "{", "}", "[", "]", "?", ";", ",", "+", "-", "*", "/", "%", "!", "=", "<", ">", "|", ":",
                    ".", "+=", "++", "-=", "--", "*=", "/=", "%=", "!=", "==", "<=", ">=", "&&", "||", "::", "..."}
  {
    if |w| == 1 {
      assert w == [w[0]];
    } else if |w| == 2 {
      assert w == [w[0], w[1]];
    }
  }
}
