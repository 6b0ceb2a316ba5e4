/** The precedence-climbing expression parser as a function from tokens to a tree, and its
    inverse, the printer. */
module Parsing {
  import opened Ast
  import opened Folding

  // ---------- Tokens and the rule table ----------

  /** The digits of an integer token: source text has no negative ones. */
  type Digits = n: int | 0 <= n < 0x8000_0000

  /** EOF is the end of the token sequence; Other is a token without any rule. */
  datatype Token =
    | IntToken(n: Digits) | BoolToken(b: bool) | NameToken(name: string)
    | OpToken(op: Opcode) | NotToken
    | ParenLeft | ParenRight | Question | Colon | Other

  const PREC_NONE := 0
  const PREC_ASSIGNMENT := 1
  const PREC_TERNARY := 2
  const PREC_OR := 3
  const PREC_AND := 4
  const PREC_COMPARISON := 5
  const PREC_TERM := 6
  const PREC_FACTOR := 7
  const PREC_CALL := 9
  const PREC_PRIMARY := 10

  function PrecOf(op: Opcode): nat {
    match op
    case Addition | Subtraction => PREC_TERM
    case Multiplication | Division | Modulo => PREC_FACTOR
    case CompareEqual | CompareNotEqual | CompareLess | CompareLessEqual | CompareGreater | CompareGreaterEqual =>
      PREC_COMPARISON
    case And => PREC_AND
    case Or => PREC_OR
    case _ => PREC_ASSIGNMENT
  }

  function PrecOfToken(t: Token): nat {
    match t
    case OpToken(op) => PrecOf(op)
    case NotToken => PREC_CALL
    case ParenLeft => PREC_CALL
    case Question => PREC_TERNARY
    case IntToken(_) | BoolToken(_) | NameToken(_) => PREC_PRIMARY
    case ParenRight | Colon | Other => PREC_NONE
  }

  function NextPrec(ts: seq<Token>): nat {
    if ts == [] then PREC_NONE else PrecOfToken(ts[0])
  }

  // ---------- The parser ----------

  /** Failed: an error was reported. Foreign: the parse has come to a call, a cast, a negation or
      an overflowing fold, which this model does not follow. */
  datatype Status = Clean | Failed | Foreign

  function Join(a: Status, b: Status): Status {
    if a == Foreign || b == Foreign then Foreign else if a == Clean then b else a
  }

  datatype Parsed = Parsed(tree: Expr, rest: seq<Token>, status: Status)

  /** Expects the given token; an unexpected one is reported but stays. */
  function Consume(p: Parsed, t: Token): Parsed {
    if p.rest != [] && p.rest[0] == t then p.(rest := p.rest[1..])
    else p.(status := Join(p.status, Failed))
  }

  function Negated(operand: Expr): Expr {
    if operand.Atomic? && operand.literal.Boolean? then Atomic(Boolean(!operand.literal.b))
    else Unary(Invert, operand)
  }

  const MAX_NAME := 256

  /** A name that is too long is reported, and cut. */
  function CutName(x: string): string {
    if |x| > MAX_NAME then x[..MAX_NAME] else x
  }

  function NameStatus(x: string, status: Status): Status {
    if |x| > MAX_NAME then Join(status, Failed) else status
  }

  /** A prefix rule, then infix rules for as long as they bind at least as tightly as rule. With
      fold the parser folds constants after each infix operator, as the program does. */
  function Parse(fold: bool, ts: seq<Token>, rule: nat, status: Status): (p: Parsed)
    ensures |p.rest| <= |ts| && (ts != [] ==> |p.rest| < |ts|)
    decreases |ts|, 1, 0
  {
    if ts == [] then Parsed(Missing, [], Join(status, Failed))
    else
      match ts[0]
      case IntToken(n) => Climb(fold, Atomic(Integer(n)), ts[1..], rule, status)
      case BoolToken(b) => Climb(fold, Atomic(Boolean(b)), ts[1..], rule, status)
      case NameToken(x) => Climb(fold, Atomic(Identifier(CutName(x))), ts[1..], rule, NameStatus(x, status))
      case ParenLeft =>
        var inner := Consume(Parse(fold, ts[1..], PREC_TERNARY, status), ParenRight);
        if inner.status == Foreign then inner
        else Climb(fold, Grouping(inner.tree), inner.rest, rule, inner.status)
      case NotToken =>
        var inner := Parse(fold, ts[1..], PREC_CALL, status);
        if inner.status == Foreign then inner
        else Climb(fold, Negated(inner.tree), inner.rest, rule, inner.status)
      case OpToken(Subtraction) => Parsed(Missing, ts[1..], Foreign)
      case _ => Parsed(Missing, ts[1..], Join(status, Failed))
  }

  function Climb(fold: bool, left: Expr, ts: seq<Token>, rule: nat, status: Status): (p: Parsed)
    ensures |p.rest| <= |ts|
    decreases |ts|, 0, 0
  {
    if ts == [] || PrecOfToken(ts[0]) < rule then Parsed(left, ts, status)
    else
      match ts[0]
      case OpToken(op) => (
        var r := Parse(fold, ts[1..], PrecOf(op), status);
        if r.status == Foreign then r
        else
          var node := Binary(op, left, r.tree);
          if !fold || r.status != Clean then Climb(fold, node, r.rest, rule, r.status)
          else
            var f := Fold(node);
            if f.fault == Overflow then r.(tree := f.tree, status := Foreign)
            else if !f.ok then Parsed(f.tree, r.rest, Failed)
            else Climb(fold, f.tree, r.rest, rule, if f.fault == NoFault then Clean else Failed))
      case Question => (
        var t := Consume(Parse(fold, ts[1..], PREC_TERNARY, status), Colon);
        if t.status == Foreign then t
        else
          var e := Parse(fold, t.rest, PREC_TERNARY, t.status);
          if e.status == Foreign then e
          else Climb(fold, Ternary(left, t.tree, e.tree), e.rest, rule, e.status))
      case NotToken => Parsed(Missing, ts, Join(status, Failed))
      case IntToken(_) | BoolToken(_) | NameToken(_) | ParenLeft => Parsed(left, ts, Foreign)
      case _ => Parsed(Missing, ts, Join(status, Failed))
  }

  // ---------- The printer ----------

  function LiteralToken(l: Literal): Token {
    match l
    case Integer(n) => if n >= 0 then IntToken(n) else Other
    case Boolean(b) => BoolToken(b)
    case Identifier(x) => NameToken(x)
  }

  function Print(e: Expr): seq<Token> {
    match e
    case Atomic(l) => [LiteralToken(l)]
    case Unary(_, c) => [NotToken] + Print(c)
    case Grouping(c) => [ParenLeft] + Print(c) + [ParenRight]
    case Binary(op, l, r) => Print(l) + [OpToken(op)] + Print(r)
    case Ternary(c, t, f) => Print(c) + [Question] + Print(t) + [Colon] + Print(f)
    case _ => []
  }

  /** The literals that one token can stand for. */
  predicate Readable(l: Literal) {
    (l.Integer? ==> l.n >= 0) && (l.Identifier? ==> |l.name| <= MAX_NAME)
  }

  /** How tightly the outermost operator of a tree binds. */
  function Level(e: Expr): nat {
    match e
    case Binary(op, _, _) => PrecOf(op)
    case Ternary(_, _, _) => PREC_TERNARY
    case Unary(_, _) => PREC_CALL
    case _ => PREC_PRIMARY
  }

  /** The trees the parser builds: a left operand binds strictly tighter than its operator, a right
      operand at least as tightly, so that operators of one level group to the right. */
  predicate Printable(e: Expr) {
    match e
    case Atomic(l) => Readable(l)
    case Unary(op, c) =>
      op == Invert && Printable(c) && Level(c) >= PREC_CALL && !(c.Atomic? && c.literal.Boolean?)
    case Grouping(c) => Printable(c) && Level(c) >= PREC_TERNARY
    case Binary(op, l, r) =>
      Printable(l) && Printable(r) && Level(l) > PrecOf(op) && Level(r) >= PrecOf(op)
    case Ternary(c, t, f) =>
      && Printable(c) && Printable(t) && Printable(f)
      && Level(c) > PREC_TERNARY && Level(t) >= PREC_TERNARY && Level(f) >= PREC_TERNARY
    case _ => false
  }

  // ---------- Printing and then parsing ----------

  /** The parser reads the print of a tree up to the point where it holds that very tree as the
      left operand of what follows. */
  lemma {:induction false} ParsePrinted(e: Expr, rest: seq<Token>, rule: nat)
    requires Printable(e) && rule <= Level(e) && NextPrec(rest) < Level(e)
    ensures Parse(false, Print(e) + rest, rule, Clean) == Climb(false, e, rest, rule, Clean)
    decreases e, 1
  {
    hide Climb, Parse;
    match e
    case Atomic(_) => ParseAtom(e, rest, rule);
    case Unary(_, c) =>
      ParsePrinted(c, rest, PREC_CALL);
      ClimbStops(c, rest, PREC_CALL);
      ParseNegation(c, Print(c) + rest, rest, rule);
      assert Print(e) + rest == [NotToken] + (Print(c) + rest);
    case Grouping(c) =>
      var close := [ParenRight] + rest;
      ParsePrinted(c, close, PREC_TERNARY);
      ClimbStops(c, close, PREC_TERNARY);
      ParseParentheses(c, Print(c) + close, rest, rule);
      assert Print(e) + rest == [ParenLeft] + (Print(c) + close);
    case Binary(_, _, _) => ParsePrintedBinary(e, rest, rule);
    case Ternary(_, _, _) => ParsePrintedTernary(e, rest, rule);
  }

  lemma ParseAtom(e: Expr, rest: seq<Token>, rule: nat)
    requires e.Atomic? && Readable(e.literal)
    ensures Parse(false, Print(e) + rest, rule, Clean) == Climb(false, e, rest, rule, Clean)
  {
    hide Climb;
    assert (Print(e) + rest)[1..] == rest;
  }

  lemma ParseNegation(c: Expr, ts: seq<Token>, rest: seq<Token>, rule: nat)
    requires Parse(false, ts, PREC_CALL, Clean) == Parsed(c, rest, Clean)
    ensures Parse(false, [NotToken] + ts, rule, Clean) == Climb(false, Negated(c), rest, rule, Clean)
  {
    hide Climb;
    assert ([NotToken] + ts)[1..] == ts;
  }

  lemma ParseParentheses(c: Expr, ts: seq<Token>, rest: seq<Token>, rule: nat)
    requires Parse(false, ts, PREC_TERNARY, Clean) == Parsed(c, [ParenRight] + rest, Clean)
    ensures Parse(false, [ParenLeft] + ts, rule, Clean) == Climb(false, Grouping(c), rest, rule, Clean)
  {
    hide Climb;
    assert ([ParenLeft] + ts)[1..] == ts && ([ParenRight] + rest)[1..] == rest;
  }

  lemma ClimbStops(e: Expr, rest: seq<Token>, rule: nat)
    requires NextPrec(rest) < rule
    ensures Climb(false, e, rest, rule, Clean) == Parsed(e, rest, Clean)
  {
  }

  lemma {:induction false} ParsePrintedBinary(e: Expr, rest: seq<Token>, rule: nat)
    requires Printable(e) && rule <= Level(e) && NextPrec(rest) < Level(e) && e.Binary?
    ensures Parse(false, Print(e) + rest, rule, Clean) == Climb(false, e, rest, rule, Clean)
    decreases e, 0
  {
    hide Parse;
    var right := Print(e.right) + rest;
    var after := [OpToken(e.opcode)] + right;
    assert Print(e) + rest == Print(e.left) + after;
    ParsePrinted(e.left, after, rule);
    assert after[1..] == right;
    ParsePrinted(e.right, rest, PrecOf(e.opcode));
    ClimbStops(e.right, rest, PrecOf(e.opcode));
  }

  lemma {:induction false} ParsePrintedTernary(e: Expr, rest: seq<Token>, rule: nat)
    requires Printable(e) && rule <= Level(e) && NextPrec(rest) < Level(e) && e.Ternary?
    ensures Parse(false, Print(e) + rest, rule, Clean) == Climb(false, e, rest, rule, Clean)
    decreases e, 0
  {
    hide Parse, Climb, Print, Printable, Level;
    TernaryParts(e);
    var last := Print(e.elsePath) + rest;
    var mid := Print(e.thenPath) + ([Colon] + last);
    TernaryPrint(e, rest);
    ParsePrinted(e.condition, [Question] + mid, rule);
    ParsePrinted(e.thenPath, [Colon] + last, PREC_TERNARY);
    ClimbStops(e.thenPath, [Colon] + last, PREC_TERNARY);
    ParsePrinted(e.elsePath, rest, PREC_TERNARY);
    ClimbStops(e.elsePath, rest, PREC_TERNARY);
    QuestionClimbs(e, mid, last, rest, rule);
  }

  lemma TernaryParts(e: Expr)
    requires Printable(e) && e.Ternary?
    ensures Level(e) == PREC_TERNARY && Printable(e.condition) && Printable(e.thenPath) && Printable(e.elsePath)
    ensures Level(e.condition) > PREC_TERNARY && Level(e.thenPath) >= PREC_TERNARY && Level(e.elsePath) >= PREC_TERNARY
  {
  }

  lemma TernaryPrint(e: Expr, rest: seq<Token>)
    requires e.Ternary?
    ensures Print(e) + rest ==
              Print(e.condition) + ([Question] + (Print(e.thenPath) + ([Colon] + (Print(e.elsePath) + rest))))
  {
    Rejoin(Print(e.condition), Question, Print(e.thenPath), Colon, Print(e.elsePath), rest);
  }

  lemma Rejoin(a: seq<Token>, q: Token, b: seq<Token>, c: Token, d: seq<Token>, rest: seq<Token>)
    ensures a + [q] + b + [c] + d + rest == a + ([q] + (b + ([c] + (d + rest))))
  {
  }

  lemma QuestionClimbs(e: Expr, mid: seq<Token>, last: seq<Token>, rest: seq<Token>, rule: nat)
    requires e.Ternary? && rule <= PREC_TERNARY
    requires Parse(false, mid, PREC_TERNARY, Clean) == Parsed(e.thenPath, [Colon] + last, Clean)
    requires Parse(false, last, PREC_TERNARY, Clean) == Parsed(e.elsePath, rest, Clean)
    ensures Climb(false, e.condition, [Question] + mid, rule, Clean) == Climb(false, e, rest, rule, Clean)
  {
    hide Parse;
    assert ([Question] + mid)[1..] == mid && ([Colon] + last)[1..] == last;
  }

  /** Parsing undoes printing, whatever weaker token follows. */
  lemma ParseOfPrint(e: Expr, rest: seq<Token>, rule: nat)
    requires Printable(e) && rule <= Level(e) && NextPrec(rest) < rule
    ensures Parse(false, Print(e) + rest, rule, Clean) == Parsed(e, rest, Clean)
  {
    ParsePrinted(e, rest, rule);
    ClimbStops(e, rest, rule);
  }
}
