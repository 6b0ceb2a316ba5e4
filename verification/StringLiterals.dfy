/** String literals between the lexer, which finds where one ends, and the parser, which resolves
    its escapes; and the escaping that both undo. */
module StringLiterals {

  const MAX_STRING_LENGTH := 4096
  const NUL := 0 as char

  predicate IsEscapable(c: char) {
    c == 'n' || c == 't' || c == '\\' || c == '\"'
  }

  function CharAt(source: string, i: nat): char {
    if i < |source| then source[i] else NUL
  }

  /** Where the scan for the closing quote comes to a halt: behind it, or at the end. */
  function StringEnd(source: string, i: nat): (end: nat)
    requires i <= |source|
    ensures i <= end <= |source|
    decreases |source| - i
  {
    if i == |source| then i
    else if source[i] == '\"' then i + 1
    else if source[i] == '\\' && IsEscapable(CharAt(source, i + 1)) then StringEnd(source, i + 2)
    else StringEnd(source, i + 1)
  }

  // ---------- Resolving escapes ----------

  datatype Unescaped = Unescaped(text: string, ok: bool)

  function Resolved(c: char): char {
    if c == 'n' then '\n' else if c == 't' then '\t' else c
  }

  /** A backslash at the very end would be followed by the closing quote. */
  function Unescape(lexeme: string, i: nat): (u: Unescaped)
    ensures |u.text| <= if i <= |lexeme| then |lexeme| - i else 0
    decreases |lexeme| - i
  {
    if i >= |lexeme| then Unescaped("", true)
    else if lexeme[i] != '\\' then
      var u := Unescape(lexeme, i + 1);
      u.(text := [lexeme[i]] + u.text)
    else
      var c := if i + 1 < |lexeme| then lexeme[i + 1] else '\"';
      var u := Unescape(lexeme, i + 2);
      if IsEscapable(c) then u.(text := [Resolved(c)] + u.text) else u.(ok := false)
  }

  lemma UnescapeStep(lexeme: string, i: nat)
    requires i < |lexeme|
    ensures
      var c := if i + 1 < |lexeme| then lexeme[i + 1] else '\"';
      Unescape(lexeme, i) ==
      if lexeme[i] != '\\' then
        var u := Unescape(lexeme, i + 1);
        Unescaped([lexeme[i]] + u.text, u.ok)
      else
        var u := Unescape(lexeme, i + 2);
        if IsEscapable(c) then Unescaped([Resolved(c)] + u.text, u.ok) else Unescaped(u.text, false)
  {
  }

  lemma UnescapeEnds(lexeme: string, i: nat)
    requires i >= |lexeme|
    ensures Unescape(lexeme, i) == Unescaped("", true)
  {
  }

  /** What the parser makes of a string token: too long a text is cut and reported. */
  function Literal(lexeme: string): Unescaped {
    var u := Unescape(lexeme, 0);
    if |u.text| > MAX_STRING_LENGTH then Unescaped(u.text[..MAX_STRING_LENGTH], false) else u
  }

  method Append(buffer: array<char>, length: nat, c: char) returns (longer: nat)
    requires length < buffer.Length
    modifies buffer
    ensures longer == length + 1 && buffer[..longer] == old(buffer[..length]) + [c]
  {
    buffer[length] := c;
    return length + 1;
  }

  /** The lexeme up to i has been resolved to the text so far. */
  ghost predicate ResolvedTo(lexeme: string, i: nat, text: string, ok: bool) {
    var rest := Unescape(lexeme, i);
    && text + rest.text == Unescape(lexeme, 0).text && |text| + |rest.text| <= |lexeme|
    && (ok && rest.ok) == Unescape(lexeme, 0).ok
  }

  lemma ResolvedStarts(lexeme: string)
    ensures ResolvedTo(lexeme, 0, [], true)
  {
    assert [] + Unescape(lexeme, 0).text == Unescape(lexeme, 0).text;
  }

  /** One step of the loop; it stays within the lexeme's length. */
  lemma ResolvesOneMore(lexeme: string, i: nat, text: string, ok: bool)
    requires i < |lexeme| && ResolvedTo(lexeme, i, text, ok)
    ensures
      var c := if i + 1 < |lexeme| then lexeme[i + 1] else '\"';
      if lexeme[i] != '\\' then |text| < |lexeme| && ResolvedTo(lexeme, i + 1, text + [lexeme[i]], ok)
      else if IsEscapable(c) then |text| < |lexeme| && ResolvedTo(lexeme, i + 2, text + [Resolved(c)], ok)
      else ResolvedTo(lexeme, i + 2, text, false)
  {
    hide Unescape, IsEscapable, Resolved;
    UnescapeStep(lexeme, i);
    var c := if i + 1 < |lexeme| then lexeme[i + 1] else '\"';
    if lexeme[i] != '\\' {
      OneMore(text, lexeme[i], Unescape(lexeme, i + 1).text);
    } else if IsEscapable(c) {
      OneMore(text, Resolved(c), Unescape(lexeme, i + 2).text);
    }
  }

  lemma ResolvedEnds(lexeme: string, i: nat, text: string, ok: bool)
    requires i >= |lexeme| && ResolvedTo(lexeme, i, text, ok)
    ensures Unescape(lexeme, 0) == Unescaped(text, ok)
  {
    UnescapeEnds(lexeme, i);
    assert text + [] == text;
  }

  lemma OneMore(before: string, c: char, rest: string)
    ensures before + [c] + rest == before + ([c] + rest)
  {
  }

  method StringRule(lexeme: string) returns (text: string, ok: bool)
    ensures Unescaped(text, ok) == Literal(lexeme)
  {
    hide Unescape, IsEscapable, Resolved, ResolvedTo;
    var buffer := new char[|lexeme|];
    var strLength := 0;
    ok := true;
    var i := 0;
    ResolvedStarts(lexeme);
    assert buffer[..0] == [];
    while i < |lexeme|
      invariant strLength <= |lexeme|
      invariant ResolvedTo(lexeme, i, buffer[..strLength], ok)
      decreases |lexeme| - i
    {
      ResolvesOneMore(lexeme, i, buffer[..strLength], ok);
      if lexeme[i] != '\\' {
        strLength := Append(buffer, strLength, lexeme[i]);
        i := i + 1;
      } else {
        i := i + 1;
        var c := if i < |lexeme| then lexeme[i] else '\"';
        if IsEscapable(c) {
          strLength := Append(buffer, strLength, Resolved(c));
        } else {
          ok := false;
        }
        i := i + 1;
      }
    }
    ResolvedEnds(lexeme, i, buffer[..strLength], ok);
    ghost var all := buffer[..strLength];
    if strLength > MAX_STRING_LENGTH {
      strLength := MAX_STRING_LENGTH;
      ok := false;
      assert buffer[..strLength] == all[..strLength];
    }
    text := buffer[..strLength];
  }

  // ---------- Escaping and back ----------

  function EscapeChar(c: char): string {
    if c == '\n' then "\\n" else if c == '\t' then "\\t"
    else if c == '\\' then "\\\\" else if c == '\"' then "\\\"" else [c]
  }

  function Escape(s: string): string {
    if s == "" then "" else EscapeChar(s[0]) + Escape(s[1..])
  }

  lemma EscapedCharIsSkipped(source: string, i: nat, c: char)
    requires i + |EscapeChar(c)| <= |source| && source[i..i + |EscapeChar(c)|] == EscapeChar(c)
    ensures StringEnd(source, i) == StringEnd(source, i + |EscapeChar(c)|)
  {
    var e := EscapeChar(c);
    assert source[i] == e[0];
    if |e| == 2 { assert source[i + 1] == e[1]; }
  }

  lemma QuoteStops(source: string, i: nat)
    requires i < |source| && source[i] == '\"'
    ensures StringEnd(source, i) == i + 1
  {
  }

  /** The scan runs over an escaped text and stops behind the quote that follows. */
  lemma {:induction false} ScanStopsAtTheQuote(source: string, i: nat, s: string, rest: string)
    requires i <= |source| && source[i..] == Escape(s) + "\"" + rest
    ensures StringEnd(source, i) == i + |Escape(s)| + 1
    decreases |s|
  {
    hide StringEnd, EscapeChar;
    if s == "" {
      assert source[i] == source[i..][0] == '\"';
      QuoteStops(source, i);
    } else {
      var e := EscapeChar(s[0]);
      assert Escape(s) + "\"" + rest == e + (Escape(s[1..]) + "\"" + rest);
      assert source[i..i + |e|] == source[i..][..|e|] == e;
      assert source[i + |e|..] == source[i..][|e|..] == Escape(s[1..]) + "\"" + rest;
      EscapedCharIsSkipped(source, i, s[0]);
      ScanStopsAtTheQuote(source, i + |e|, s[1..], rest);
    }
  }

  lemma EscapedCharResolves(lexeme: string, i: nat, c: char)
    requires i + |EscapeChar(c)| <= |lexeme| && lexeme[i..i + |EscapeChar(c)|] == EscapeChar(c)
    ensures var u := Unescape(lexeme, i + |EscapeChar(c)|);
            Unescape(lexeme, i) == Unescaped([c] + u.text, u.ok)
  {
    hide Unescape;
    var e := EscapeChar(c);
    UnescapeStep(lexeme, i);
    assert lexeme[i] == e[0];
    if |e| == 2 { assert lexeme[i + 1] == e[1]; }
  }

  lemma {:induction false} UnescapeUndoesEscape(lexeme: string, i: nat, s: string)
    requires i <= |lexeme| && lexeme[i..] == Escape(s)
    ensures Unescape(lexeme, i) == Unescaped(s, true)
    decreases |s|
  {
    hide Unescape, EscapeChar;
    if s == "" {
      UnescapeEnds(lexeme, i);
    } else {
      var e := EscapeChar(s[0]);
      assert lexeme[i..i + |e|] == lexeme[i..][..|e|] == e;
      assert lexeme[i + |e|..] == lexeme[i..][|e|..] == Escape(s[1..]);
      EscapedCharResolves(lexeme, i, s[0]);
      UnescapeUndoesEscape(lexeme, i + |e|, s[1..]);
      assert s == [s[0]] + s[1..];
    }
  }

  /** Any text, escaped and quoted and followed by at least one more character, is one string token,
      and the literal of that token is the text; from more than 4096 characters the rest is cut. */
  lemma StringsRoundTrip(before: string, s: string, rest: string)
    requires rest != ""
    ensures var source := before + "\"" + Escape(s) + "\"" + rest;
            var end := StringEnd(source, |before| + 1);
            && end < |source|
            && source[|before| + 1..end - 1] == Escape(s)
            && Literal(source[|before| + 1..end - 1]) ==
                 if |s| <= 4096 then Unescaped(s, true) else Unescaped(s[..4096], false)
  {
    hide StringEnd, Escape, Unescape;
    var source := before + "\"" + Escape(s) + "\"" + rest;
    var start := |before| + 1;
    Quoted(before, Escape(s), rest);
    ScanStopsAtTheQuote(source, start, s, rest);
    assert Escape(s)[0..] == Escape(s);
    UnescapeUndoesEscape(Escape(s), 0, s);
  }

  lemma Quoted(before: string, e: string, rest: string)
    ensures var source := before + "\"" + e + "\"" + rest;
            var start := |before| + 1;
            && start + |e| + 1 + |rest| == |source|
            && source[start..] == e + "\"" + rest && source[start..start + |e|] == e
  {
  }

  /** A literal at the very end of the source is taken for unterminated, whatever its text. */
  lemma LastLiteralIsNotSeen(before: string, s: string)
    ensures var source := before + "\"" + Escape(s) + "\"";
            StringEnd(source, |before| + 1) == |source|
  {
    var source := before + "\"" + Escape(s) + "\"";
    assert source[|before| + 1..] == Escape(s) + "\"" + "";
    ScanStopsAtTheQuote(source, |before| + 1, s, "");
  }
}
