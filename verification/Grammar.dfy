/** The grammar of expressions, written out class by class without the parser's table, and the proof
    that the parser reads exactly what it derives. */
module Grammar {
  import opened Ast
  import opened Folding
  import opened Parsing
  import opened ParsingTheorems

  // ---------- The grammar ----------

  /** From the loosest to the tightest. */
  datatype Class = Assigning | Choosing | Disjunction | Conjunction | Comparing | Summing | Multiplying | Prefixed

  function Tighter(c: Class): Class
    requires !c.Prefixed?
  {
    match c
    case Assigning => Choosing
    case Choosing => Disjunction
    case Disjunction => Conjunction
    case Conjunction => Comparing
    case Comparing => Summing
    case Summing => Multiplying
    case Multiplying => Prefixed
  }

  function Rank(c: Class): nat {
    match c
    case Assigning => 8
    case Choosing => 7
    case Disjunction => 6
    case Conjunction => 5
    case Comparing => 4
    case Summing => 3
    case Multiplying => 2
    case Prefixed => 1
  }

  predicate IsOperatorOf(c: Class, op: Opcode) {
    match c
    case Assigning =>
      op in {VarAssign, VarAdditionAssign, VarSubtractionAssign, VarMultiplicationAssign, VarDivisionAssign,
             VarModuloAssign}
    case Disjunction => op == Or
    case Conjunction => op == And
    case Comparing =>
      op in {CompareEqual, CompareNotEqual, CompareLess, CompareLessEqual, CompareGreater, CompareGreaterEqual}
    case Summing => op in {Addition, Subtraction}
    case Multiplying => op in {Multiplication, Division, Modulo}
    case _ => false
  }

  /** The tokens are an expression of the class, with this tree. An infix operator stands between a
      tighter expression and one of its own class, so that equals group to the right. */
  ghost predicate Derives(c: Class, ts: seq<Token>, e: Expr)
    decreases |ts|, Rank(c), 1
  {
    if c.Prefixed? then DerivesPrefixed(ts, e)
    else Derives(Tighter(c), ts, e) || DerivesInfix(c, ts, e) || (c.Choosing? && DerivesChoice(ts, e))
  }

  ghost predicate DerivesInfix(c: Class, ts: seq<Token>, e: Expr)
    requires !c.Prefixed?
    decreases |ts|, Rank(c), 0
  {
    && e.Binary? && IsOperatorOf(c, e.opcode)
    && exists k :: 0 <= k < |ts| && ts[k] == OpToken(e.opcode)
                   && Derives(Tighter(c), ts[..k], e.left) && Derives(c, ts[k + 1..], e.right)
  }

  ghost predicate DerivesChoice(ts: seq<Token>, e: Expr)
    decreases |ts|, 7, 0
  {
    && e.Ternary?
    && exists k, l :: 0 <= k < l < |ts| && ts[k] == Question && ts[l] == Colon
                      && Derives(Disjunction, ts[..k], e.condition)
                      && Derives(Choosing, ts[k + 1..l], e.thenPath) && Derives(Choosing, ts[l + 1..], e.elsePath)
  }

  /** `!` in front of a boolean literal makes the other literal. */
  ghost predicate DerivesPrefixed(ts: seq<Token>, e: Expr)
    decreases |ts|, 0, 0
  {
    && ts != []
    && match ts[0]
       case IntToken(n) => |ts| == 1 && e == Atomic(Integer(n))
       case BoolToken(b) => |ts| == 1 && e == Atomic(Boolean(b))
       case NameToken(x) => |ts| == 1 && |x| <= 256 && e == Atomic(Identifier(x))
       case NotToken =>
         if e.Unary? then
           e.unaryOp == Invert && !(e.child.Atomic? && e.child.literal.Boolean?) && Derives(Prefixed, ts[1..], e.child)
         else e.Atomic? && e.literal.Boolean? && Derives(Prefixed, ts[1..], Atomic(Boolean(!e.literal.b)))
       case ParenLeft =>
         && e.Grouping? && |ts| >= 2 && ts[|ts| - 1] == ParenRight
         && Derives(Choosing, ts[1..|ts| - 1], e.inner)
       case _ => false
  }

  // ---------- The grammar and the table ----------

  /** The precedence level at which the parser reads a class. */
  function RuleOf(c: Class): (rule: nat)
    ensures PREC_ASSIGNMENT <= rule <= PREC_CALL
    ensures c.Prefixed? <==> rule == PREC_CALL
  {
    match c
    case Assigning => PREC_ASSIGNMENT
    case Choosing => PREC_TERNARY
    case Disjunction => PREC_OR
    case Conjunction => PREC_AND
    case Comparing => PREC_COMPARISON
    case Summing => PREC_TERM
    case Multiplying => PREC_FACTOR
    case Prefixed => PREC_CALL
  }

  lemma TableIsGrammar(c: Class, op: Opcode)
    ensures IsOperatorOf(c, op) <==> RuleOf(c) == PrecOf(op)
  {
  }

  function ClassOf(op: Opcode): (c: Class)
    ensures !c.Prefixed? && !c.Choosing? && IsOperatorOf(c, op)
  {
    match op
    case Addition | Subtraction => Summing
    case Multiplication | Division | Modulo => Multiplying
    case CompareEqual | CompareNotEqual | CompareLess | CompareLessEqual | CompareGreater | CompareGreaterEqual =>
      Comparing
    case And => Conjunction
    case Or => Disjunction
    case _ => Assigning
  }

  lemma TighterRule(c: Class)
    requires !c.Prefixed?
    ensures RuleOf(c) < RuleOf(Tighter(c)) && Rank(Tighter(c)) == Rank(c) - 1
  {
  }

  /** What is of a tighter class is of the looser one. */
  lemma {:induction false} DerivesLooser(c: Class, d: Class, ts: seq<Token>, e: Expr)
    requires Derives(d, ts, e) && RuleOf(c) <= RuleOf(d)
    ensures Derives(c, ts, e)
    decreases Rank(c)
  {
    if c != d {
      TighterRule(c);
      DerivesLooser(Tighter(c), d, ts, e);
    }
  }

  // ---------- What is derived is parsed ----------

  lemma {:induction false} DerivedIsParsed(c: Class, ts: seq<Token>, e: Expr, rest: seq<Token>, rule: nat)
    requires Derives(c, ts, e) && rule <= RuleOf(c) && NextPrec(rest) < RuleOf(c)
    ensures Parse(false, ts + rest, rule, Clean) == Climb(false, e, rest, rule, Clean)
    decreases |ts|, Rank(c)
  {
    hide Parse, Climb;
    if c.Prefixed? {
      PrefixedIsParsed(ts, e, rest, rule);
    } else if Derives(Tighter(c), ts, e) {
      TighterRule(c);
      DerivedIsParsed(Tighter(c), ts, e, rest, rule);
    } else if DerivesInfix(c, ts, e) {
      InfixIsParsed(c, ts, e, rest, rule);
    } else {
      ChoiceIsParsed(ts, e, rest, rule);
    }
  }

  lemma {:induction false} InfixIsParsed(c: Class, ts: seq<Token>, e: Expr, rest: seq<Token>, rule: nat)
    requires !c.Prefixed? && DerivesInfix(c, ts, e) && rule <= RuleOf(c) && NextPrec(rest) < RuleOf(c)
    ensures Parse(false, ts + rest, rule, Clean) == Climb(false, e, rest, rule, Clean)
    decreases |ts|, 0
  {
    hide Parse, Climb, Derives;
    var k :| 0 <= k < |ts| && ts[k] == OpToken(e.opcode)
             && Derives(Tighter(c), ts[..k], e.left) && Derives(c, ts[k + 1..], e.right);
    var right := ts[k + 1..] + rest;
    var after := [OpToken(e.opcode)] + right;
    assert ts + rest == ts[..k] + after;
    TighterRule(c);
    TableIsGrammar(c, e.opcode);
    DerivedIsParsed(Tighter(c), ts[..k], e.left, after, rule);
    DerivedIsParsed(c, ts[k + 1..], e.right, rest, RuleOf(c));
    ClimbStops(e.right, rest, RuleOf(c));
    OperatorClimbs(e, right, rest, rule);
  }

  lemma OperatorClimbs(e: Expr, right: seq<Token>, rest: seq<Token>, rule: nat)
    requires e.Binary? && rule <= PrecOf(e.opcode)
    requires Parse(false, right, PrecOf(e.opcode), Clean) == Parsed(e.right, rest, Clean)
    ensures Climb(false, e.left, [OpToken(e.opcode)] + right, rule, Clean) == Climb(false, e, rest, rule, Clean)
  {
    hide Parse;
    assert ([OpToken(e.opcode)] + right)[1..] == right;
  }

  lemma {:induction false} ChoiceIsParsed(ts: seq<Token>, e: Expr, rest: seq<Token>, rule: nat)
    requires DerivesChoice(ts, e) && rule <= PREC_TERNARY && NextPrec(rest) < PREC_TERNARY
    ensures Parse(false, ts + rest, rule, Clean) == Climb(false, e, rest, rule, Clean)
    decreases |ts|, 0
  {
    hide Parse, Climb, Derives;
    var k, l :| 0 <= k < l < |ts| && ts[k] == Question && ts[l] == Colon
                && Derives(Disjunction, ts[..k], e.condition)
                && Derives(Choosing, ts[k + 1..l], e.thenPath) && Derives(Choosing, ts[l + 1..], e.elsePath);
    var last := ts[l + 1..] + rest;
    var mid := ts[k + 1..l] + ([Colon] + last);
    SplitAtTwo(ts, k, l, rest);
    DerivedIsParsed(Disjunction, ts[..k], e.condition, [Question] + mid, rule);
    DerivedIsParsed(Choosing, ts[k + 1..l], e.thenPath, [Colon] + last, PREC_TERNARY);
    ClimbStops(e.thenPath, [Colon] + last, PREC_TERNARY);
    DerivedIsParsed(Choosing, ts[l + 1..], e.elsePath, rest, PREC_TERNARY);
    ClimbStops(e.elsePath, rest, PREC_TERNARY);
    QuestionClimbs(e, mid, last, rest, rule);
  }

  lemma SplitAtTwo(ts: seq<Token>, k: nat, l: nat, rest: seq<Token>)
    requires k < l < |ts|
    ensures ts + rest == ts[..k] + ([ts[k]] + (ts[k + 1..l] + ([ts[l]] + (ts[l + 1..] + rest))))
  {
    assert ts == ts[..k] + [ts[k]] + ts[k + 1..l] + [ts[l]] + ts[l + 1..];
    Rejoin(ts[..k], ts[k], ts[k + 1..l], ts[l], ts[l + 1..], rest);
  }

  lemma SplitInside(ts: seq<Token>, rest: seq<Token>)
    requires |ts| >= 2
    ensures ts + rest == [ts[0]] + (ts[1..|ts| - 1] + ([ts[|ts| - 1]] + rest))
  {
    var inside, last := ts[1..|ts| - 1], [ts[|ts| - 1]];
    assert ts == [ts[0]] + inside + last;
    assert [ts[0]] + inside + last + rest == [ts[0]] + (inside + (last + rest));
  }

  lemma {:induction false} PrefixedIsParsed(ts: seq<Token>, e: Expr, rest: seq<Token>, rule: nat)
    requires DerivesPrefixed(ts, e) && rule <= PREC_CALL && NextPrec(rest) < PREC_CALL
    ensures Parse(false, ts + rest, rule, Clean) == Climb(false, e, rest, rule, Clean)
    decreases |ts|, 0
  {
    hide Climb, Derives, Parse;
    match ts[0]
    case IntToken(_) => AtomIsParsed(ts, e, rest, rule);
    case BoolToken(_) => AtomIsParsed(ts, e, rest, rule);
    case NameToken(_) => AtomIsParsed(ts, e, rest, rule);
    case NotToken =>
      var child := if e.Unary? then e.child else Atomic(Boolean(!e.literal.b));
      DerivedIsParsed(Prefixed, ts[1..], child, rest, PREC_CALL);
      ClimbStops(child, rest, PREC_CALL);
      assert ts + rest == [NotToken] + (ts[1..] + rest);
      ParseNegation(child, ts[1..] + rest, rest, rule);
    case ParenLeft =>
      var inside, close := ts[1..|ts| - 1], [ParenRight] + rest;
      DerivedIsParsed(Choosing, inside, e.inner, close, PREC_TERNARY);
      ClimbStops(e.inner, close, PREC_TERNARY);
      SplitInside(ts, rest);
      ParseParentheses(e.inner, inside + close, rest, rule);
  }

  lemma AtomIsParsed(ts: seq<Token>, e: Expr, rest: seq<Token>, rule: nat)
    requires DerivesPrefixed(ts, e) && (ts[0].IntToken? || ts[0].BoolToken? || ts[0].NameToken?)
    ensures Parse(false, ts + rest, rule, Clean) == Climb(false, e, rest, rule, Clean)
  {
    hide Climb;
    assert (ts + rest)[1..] == rest;
  }

  // ---------- What is parsed is derived ----------

  /** The result of a clean parse behind tokens already read. */
  ghost predicate Read(c: Class, before: seq<Token>, ts: seq<Token>, p: Parsed) {
    && |p.rest| <= |ts| && ts == Taken(ts, p.rest) + p.rest
    && Derives(c, before + Taken(ts, p.rest), p.tree) && NextPrec(p.rest) < RuleOf(c)
  }

  lemma ReadsOn(c: Class, before: seq<Token>, step: seq<Token>, ts: seq<Token>, rest: seq<Token>, p: Parsed)
    requires Read(c, before + step, rest, p) && ts == step + rest
    ensures Read(c, before, ts, p)
  {
    hide Derives, Taken;
    TakenJoins(step, rest, p.rest);
    assert before + Taken(ts, p.rest) == (before + step) + Taken(rest, p.rest);
  }

  lemma {:induction false} ParsedIsDerived(c: Class, ts: seq<Token>)
    requires Parse(false, ts, RuleOf(c), Clean).status == Clean
    ensures Read(c, [], ts, Parse(false, ts, RuleOf(c), Clean))
    decreases |ts|, 2
  {
    hide Climb, Derives, Read;
    var rule := RuleOf(c);
    match ts[0]
    case IntToken(n) => AtomIsDerived(c, ts, Atomic(Integer(n)));
    case BoolToken(b) => AtomIsDerived(c, ts, Atomic(Boolean(b)));
    case NameToken(x) =>
      LongNamesFail(false, x, ts[1..], rule);
      AtomIsDerived(c, ts, Atomic(Identifier(x)));
    case ParenLeft => GroupIsDerived(c, ts);
    case NotToken => NegationIsDerived(c, ts);
  }

  lemma {:induction false} AtomIsDerived(c: Class, ts: seq<Token>, e: Expr)
    requires ts != [] && DerivesPrefixed([ts[0]], e) && Climb(false, e, ts[1..], RuleOf(c), Clean).status == Clean
    ensures Read(c, [], ts, Climb(false, e, ts[1..], RuleOf(c), Clean))
    decreases |ts|, 1
  {
    hide Climb, Read, DerivesPrefixed;
    assert Derives(Prefixed, [ts[0]], e);
    ClimbIsDerived(c, Prefixed, e, [ts[0]], ts[1..]);
    assert [] + [ts[0]] == [ts[0]];
    ReadsOn(c, [], [ts[0]], ts, ts[1..], Climb(false, e, ts[1..], RuleOf(c), Clean));
  }

  lemma {:induction false} GroupIsDerived(c: Class, ts: seq<Token>)
    requires ts != [] && ts[0] == ParenLeft && Parse(false, ts, RuleOf(c), Clean).status == Clean
    ensures Read(c, [], ts, Parse(false, ts, RuleOf(c), Clean))
    decreases |ts|, 1
  {
    hide Climb, Derives, Taken;
    var p := Parse(false, ts[1..], PREC_TERNARY, Clean);
    var inner := Consume(p, ParenRight);
    if inner.status != Clean {
      ClimbStatusSticks(false, Grouping(inner.tree), inner.rest, RuleOf(c), inner.status);
    }
    ParsedIsDerived(Choosing, ts[1..]);
    var q := Taken(ts[1..], p.rest);
    assert [] + q == q;
    var before := [ParenLeft] + q + [ParenRight];
    GroupDerives(q, p.tree);
    assert ts == before + inner.rest;
    ClimbIsDerived(c, Prefixed, Grouping(p.tree), before, inner.rest);
    assert [] + before == before;
    ReadsOn(c, [], before, ts, inner.rest, Climb(false, Grouping(p.tree), inner.rest, RuleOf(c), Clean));
  }

  lemma GroupDerives(q: seq<Token>, e: Expr)
    requires Derives(Choosing, q, e)
    ensures Derives(Prefixed, [ParenLeft] + q + [ParenRight], Grouping(e))
  {
    var ts := [ParenLeft] + q + [ParenRight];
    assert ts[1..|ts| - 1] == q;
    assert DerivesPrefixed(ts, Grouping(e)) by { hide DerivesInfix; }
  }

  lemma {:induction false} NegationIsDerived(c: Class, ts: seq<Token>)
    requires ts != [] && ts[0] == NotToken && Parse(false, ts, RuleOf(c), Clean).status == Clean
    ensures Read(c, [], ts, Parse(false, ts, RuleOf(c), Clean))
    decreases |ts|, 1
  {
    hide Climb, Derives, Taken;
    var inner := Parse(false, ts[1..], PREC_CALL, Clean);
    if inner.status != Clean {
      ClimbStatusSticks(false, Negated(inner.tree), inner.rest, RuleOf(c), inner.status);
    }
    ParsedIsDerived(Prefixed, ts[1..]);
    var q := Taken(ts[1..], inner.rest);
    assert [] + q == q;
    var before := [NotToken] + q;
    NegationDerives(q, inner.tree);
    assert ts == before + inner.rest;
    ClimbIsDerived(c, Prefixed, Negated(inner.tree), before, inner.rest);
    assert [] + before == before;
    ReadsOn(c, [], before, ts, inner.rest, Climb(false, Negated(inner.tree), inner.rest, RuleOf(c), Clean));
  }

  lemma NegationDerives(q: seq<Token>, e: Expr)
    requires Derives(Prefixed, q, e)
    ensures Derives(Prefixed, [NotToken] + q, Negated(e))
  {
    var ts := [NotToken] + q;
    assert ts[1..] == q;
    assert DerivesPrefixed(ts, Negated(e));
  }

  /** The loop: what has been read is of class d, and what follows binds less tightly than d. */
  lemma {:induction false} ClimbIsDerived(c: Class, d: Class, left: Expr, before: seq<Token>, ts: seq<Token>)
    requires Derives(d, before, left) && RuleOf(c) <= RuleOf(d)
    requires d.Prefixed? || NextPrec(ts) < RuleOf(d)
    requires Climb(false, left, ts, RuleOf(c), Clean).status == Clean
    ensures Read(c, before, ts, Climb(false, left, ts, RuleOf(c), Clean))
    decreases |ts|, 1
  {
    hide Parse, Derives;
    if NextPrec(ts) < RuleOf(c) {
      assert before + Taken(ts, ts) == before;
      DerivesLooser(c, d, before, left);
    } else {
      match ts[0]
      case OpToken(_) => OperatorIsDerived(c, d, left, before, ts);
      case Question => QuestionIsDerived(c, d, left, before, ts);
      case _ =>
    }
  }

  lemma {:induction false} OperatorIsDerived(c: Class, d: Class, left: Expr, before: seq<Token>, ts: seq<Token>)
    requires Derives(d, before, left) && (d.Prefixed? || NextPrec(ts) < RuleOf(d))
    requires ts != [] && ts[0].OpToken? && RuleOf(c) <= PrecOf(ts[0].op)
    requires Climb(false, left, ts, RuleOf(c), Clean).status == Clean
    ensures Read(c, before, ts, Climb(false, left, ts, RuleOf(c), Clean))
    decreases |ts|, 0
  {
    hide Parse, Climb, Derives, Taken;
    var op := ts[0].op;
    var o := ClassOf(op);
    TableIsGrammar(o, op);
    OperatorUnfolds(left, ts, RuleOf(c));
    var r := Parse(false, ts[1..], PrecOf(op), Clean);
    ParsedIsDerived(o, ts[1..]);
    var q := Taken(ts[1..], r.rest);
    assert [] + q == q;
    TightEnough(o, d);
    DerivesLooser(Tighter(o), d, before, left);
    var step := [OpToken(op)] + q;
    InfixDerives(o, op, before, left, q, r.tree);
    assert before + [OpToken(op)] + q == before + step;
    OperatorTaken(ts, op, r.rest);
    ClimbIsDerived(c, o, Binary(op, left, r.tree), before + step, r.rest);
    ReadsOn(c, before, step, ts, r.rest, Climb(false, Binary(op, left, r.tree), r.rest, RuleOf(c), Clean));
  }

  lemma TightEnough(o: Class, d: Class)
    requires !o.Prefixed? && (d.Prefixed? || RuleOf(o) < RuleOf(d))
    ensures RuleOf(Tighter(o)) <= RuleOf(d)
  {
  }

  lemma InfixDerives(c: Class, op: Opcode, l: seq<Token>, left: Expr, r: seq<Token>, right: Expr)
    requires IsOperatorOf(c, op) && !c.Prefixed? && Derives(Tighter(c), l, left) && Derives(c, r, right)
    ensures Derives(c, l + [OpToken(op)] + r, Binary(op, left, right))
  {
    var ts := l + [OpToken(op)] + r;
    assert DerivesInfix(c, ts, Binary(op, left, right)) by {
      hide Derives;
      var k := |l|;
      assert ts[k] == OpToken(op) && ts[..k] == l && ts[k + 1..] == r;
    }
  }

  lemma {:induction false} QuestionIsDerived(c: Class, d: Class, left: Expr, before: seq<Token>, ts: seq<Token>)
    requires Derives(d, before, left) && (d.Prefixed? || NextPrec(ts) < RuleOf(d))
    requires ts != [] && ts[0] == Question && RuleOf(c) <= PREC_TERNARY
    requires Climb(false, left, ts, RuleOf(c), Clean).status == Clean
    ensures Read(c, before, ts, Climb(false, left, ts, RuleOf(c), Clean))
    decreases |ts|, 0
  {
    hide Parse, Climb, Derives, Taken;
    QuestionUnfolds(left, ts, RuleOf(c));
    var p1 := Parse(false, ts[1..], PREC_TERNARY, Clean);
    var e := Parse(false, p1.rest[1..], PREC_TERNARY, Clean);
    ParsedIsDerived(Choosing, ts[1..]);
    ParsedIsDerived(Choosing, p1.rest[1..]);
    var qt, qf := Taken(ts[1..], p1.rest), Taken(p1.rest[1..], e.rest);
    assert [] + qt == qt && [] + qf == qf;
    TightEnough(Choosing, d);
    DerivesLooser(Disjunction, d, before, left);
    ChoiceDerives(before, left, qt, p1.tree, qf, e.tree);
    var step := [Question] + qt + [Colon] + qf;
    QuestionTaken(ts, p1.rest, e.rest);
    ClimbIsDerived(c, Choosing, Ternary(left, p1.tree, e.tree), before + step, e.rest);
    ReadsOn(c, before, step, ts, e.rest, Climb(false, Ternary(left, p1.tree, e.tree), e.rest, RuleOf(c), Clean));
  }

  lemma ChoiceDerives(qc: seq<Token>, c: Expr, qt: seq<Token>, t: Expr, qf: seq<Token>, f: Expr)
    requires Derives(Disjunction, qc, c) && Derives(Choosing, qt, t) && Derives(Choosing, qf, f)
    ensures Derives(Choosing, qc + ([Question] + qt + [Colon] + qf), Ternary(c, t, f))
  {
    var ts := qc + ([Question] + qt + [Colon] + qf);
    assert DerivesChoice(ts, Ternary(c, t, f)) by {
      hide Derives;
      var k := |qc|;
      var l := k + 1 + |qt|;
      assert ts[k] == Question && ts[l] == Colon;
      assert ts[..k] == qc && ts[k + 1..l] == qt && ts[l + 1..] == qf;
    }
  }

  // ---------- The parser reads exactly the grammar ----------

  /** At the level of any class, the parser takes all the tokens without an error and returns a tree if
      and only if the grammar derives that tree from them. */
  lemma ParserReadsTheGrammar(c: Class, ts: seq<Token>, e: Expr)
    ensures Parse(false, ts, RuleOf(c), Clean) == Parsed(e, [], Clean) <==> Derives(c, ts, e)
  {
    hide Parse, Climb, Derives;
    if Derives(c, ts, e) {
      DerivedIsParsed(c, ts, e, [], RuleOf(c));
      ClimbStops(e, [], RuleOf(c));
      assert ts + [] == ts;
    }
    if Parse(false, ts, RuleOf(c), Clean) == Parsed(e, [], Clean) {
      ParsedIsDerived(c, ts);
      assert [] + Taken(ts, []) == ts;
    }
  }

  /** So no tokens have two trees. */
  lemma GrammarIsUnambiguous(c: Class, ts: seq<Token>, e: Expr, f: Expr)
    requires Derives(c, ts, e) && Derives(c, ts, f)
    ensures e == f
  {
    hide Parse, Derives;
    ParserReadsTheGrammar(c, ts, e);
    ParserReadsTheGrammar(c, ts, f);
  }

  // ---------- Two operators ----------

  /** A literal or a name, as one token. */
  predicate IsAtom(t: Token, e: Expr) {
    match t
    case IntToken(n) => e == Atomic(Integer(n))
    case BoolToken(b) => e == Atomic(Boolean(b))
    case NameToken(x) => |x| <= 256 && e == Atomic(Identifier(x))
    case _ => false
  }

  lemma AtomDerives(c: Class, t: Token, e: Expr)
    requires IsAtom(t, e)
    ensures Derives(c, [t], e)
  {
    assert Derives(Prefixed, [t], e);
    DerivesLooser(c, Prefixed, [t], e);
  }

  lemma OneOperatorDerives(c: Class, d: Class, op: Opcode, x: Token, y: Token, left: Expr, right: Expr)
    requires IsOperatorOf(d, op) && !d.Prefixed? && RuleOf(c) <= RuleOf(d) && IsAtom(x, left) && IsAtom(y, right)
    ensures Derives(c, [x, OpToken(op), y], Binary(op, left, right))
  {
    hide Derives;
    AtomDerives(Tighter(d), x, left);
    AtomDerives(d, y, right);
    InfixDerives(d, op, [x], left, [y], right);
    assert [x] + [OpToken(op)] + [y] == [x, OpToken(op), y];
    DerivesLooser(c, d, [x, OpToken(op), y], Binary(op, left, right));
  }

  /** Of two operators the tighter one groups first; of two of one class the right one does. */
  lemma TwoOperatorsGroup(c: Class, d: Class, p: Opcode, q: Opcode, x: Token, y: Token, z: Token,
                          a: Expr, b: Expr, e: Expr)
    requires IsOperatorOf(c, p) && IsOperatorOf(d, q) && IsAtom(x, a) && IsAtom(y, b) && IsAtom(z, e)
    ensures Parse(false, [x, OpToken(p), y, OpToken(q), z], PREC_ASSIGNMENT, Clean) ==
              Parsed(if Rank(c) < Rank(d) then Binary(q, Binary(p, a, b), e) else Binary(p, a, Binary(q, b, e)),
                     [], Clean)
  {
    hide Parse, Derives;
    var ts := [x, OpToken(p), y, OpToken(q), z];
    if Rank(c) < Rank(d) {
      RanksAreRules(Tighter(d), c);
      OneOperatorDerives(Tighter(d), c, p, x, y, a, b);
      AtomDerives(d, z, e);
      InfixDerives(d, q, [x, OpToken(p), y], Binary(p, a, b), [z], e);
      assert [x, OpToken(p), y] + [OpToken(q)] + [z] == ts;
      DerivesLooser(Assigning, d, ts, Binary(q, Binary(p, a, b), e));
    } else {
      RanksAreRules(c, d);
      AtomDerives(Tighter(c), x, a);
      OneOperatorDerives(c, d, q, y, z, b, e);
      InfixDerives(c, p, [x], a, [y, OpToken(q), z], Binary(q, b, e));
      assert [x] + [OpToken(p)] + [y, OpToken(q), z] == ts;
      DerivesLooser(Assigning, c, ts, Binary(p, a, Binary(q, b, e)));
    }
    ParserReadsTheGrammar(Assigning, ts, if Rank(c) < Rank(d) then Binary(q, Binary(p, a, b), e)
                                         else Binary(p, a, Binary(q, b, e)));
  }

  lemma RanksAreRules(c: Class, d: Class)
    ensures Rank(d) <= Rank(c) <==> RuleOf(c) <= RuleOf(d)
  {
  }

  lemma ChoiceOfAtoms(x: Token, y: Token, z: Token, a: Expr, b: Expr, e: Expr)
    requires IsAtom(x, a) && IsAtom(y, b) && IsAtom(z, e)
    ensures Derives(Choosing, [x, Question, y, Colon, z], Ternary(a, b, e))
  {
    hide Derives;
    AtomDerives(Disjunction, x, a);
    AtomDerives(Choosing, y, b);
    AtomDerives(Choosing, z, e);
    ChoiceDerives([x], a, [y], b, [z], e);
    assert [x] + ([Question] + [y] + [Colon] + [z]) == [x, Question, y, Colon, z];
  }

  /** A ternary takes what stands before its question mark and behind its colon as condition and arm,
      but not across an assignment. */
  lemma OperatorBesideQuestion(c: Class, p: Opcode, w: Token, x: Token, y: Token, z: Token,
                               a: Expr, b: Expr, e: Expr, f: Expr)
    requires IsOperatorOf(c, p) && IsAtom(w, a) && IsAtom(x, b) && IsAtom(y, e) && IsAtom(z, f)
    ensures Parse(false, [w, OpToken(p), x, Question, y, Colon, z], PREC_ASSIGNMENT, Clean) ==
              Parsed(if c.Assigning? then Binary(p, a, Ternary(b, e, f)) else Ternary(Binary(p, a, b), e, f), [], Clean)
    ensures Parse(false, [w, Question, x, Colon, y, OpToken(p), z], PREC_ASSIGNMENT, Clean) ==
              Parsed(if c.Assigning? then Binary(p, Ternary(a, b, e), f) else Ternary(a, b, Binary(p, e, f)), [], Clean)
  {
    hide Parse, Derives;
    var before := [w, OpToken(p), x, Question, y, Colon, z];
    var behind := [w, Question, x, Colon, y, OpToken(p), z];
    if c.Assigning? {
      AtomDerives(Choosing, w, a);
      ChoiceOfAtoms(x, y, z, b, e, f);
      DerivesLooser(Assigning, Choosing, [x, Question, y, Colon, z], Ternary(b, e, f));
      InfixDerives(Assigning, p, [w], a, [x, Question, y, Colon, z], Ternary(b, e, f));
      assert [w] + [OpToken(p)] + [x, Question, y, Colon, z] == before;
      ChoiceOfAtoms(w, x, y, a, b, e);
      AtomDerives(Assigning, z, f);
      InfixDerives(Assigning, p, [w, Question, x, Colon, y], Ternary(a, b, e), [z], f);
      assert [w, Question, x, Colon, y] + [OpToken(p)] + [z] == behind;
    } else {
      QuestionTakesOperators(c, p, w, x, y, z, a, b, e, f);
    }
    ParserReadsTheGrammar(Assigning, before, if c.Assigning? then Binary(p, a, Ternary(b, e, f))
                                             else Ternary(Binary(p, a, b), e, f));
    ParserReadsTheGrammar(Assigning, behind, if c.Assigning? then Binary(p, Ternary(a, b, e), f)
                                             else Ternary(a, b, Binary(p, e, f)));
  }

  lemma QuestionTakesOperators(c: Class, p: Opcode, w: Token, x: Token, y: Token, z: Token,
                               a: Expr, b: Expr, e: Expr, f: Expr)
    requires IsOperatorOf(c, p) && IsAtom(w, a) && IsAtom(x, b) && IsAtom(y, e) && IsAtom(z, f) && !c.Assigning?
    ensures Derives(Assigning, [w, OpToken(p), x, Question, y, Colon, z], Ternary(Binary(p, a, b), e, f))
    ensures Derives(Assigning, [w, Question, x, Colon, y, OpToken(p), z], Ternary(a, b, Binary(p, e, f)))
  {
    hide Derives;
    var before := [w, OpToken(p), x, Question, y, Colon, z];
    var behind := [w, Question, x, Colon, y, OpToken(p), z];
    OneOperatorDerives(Disjunction, c, p, w, x, a, b);
    AtomDerives(Choosing, y, e);
    AtomDerives(Choosing, z, f);
    ChoiceDerives([w, OpToken(p), x], Binary(p, a, b), [y], e, [z], f);
    assert [w, OpToken(p), x] + ([Question] + [y] + [Colon] + [z]) == before;
    DerivesLooser(Assigning, Choosing, before, Ternary(Binary(p, a, b), e, f));
    AtomDerives(Disjunction, w, a);
    AtomDerives(Choosing, x, b);
    OneOperatorDerives(Choosing, c, p, y, z, e, f);
    ChoiceDerives([w], a, [x], b, [y, OpToken(p), z], Binary(p, e, f));
    assert [w] + ([Question] + [x] + [Colon] + [y, OpToken(p), z]) == behind;
    DerivesLooser(Assigning, Choosing, behind, Ternary(a, b, Binary(p, e, f)));
  }
}
