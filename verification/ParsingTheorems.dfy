/** What the parser accepts is exactly what the printer prints, and folding while parsing is
    folding after parsing. */
module ParsingTheorems {
  import opened Ast
  import opened Folding
  import opened Parsing

  // ---------- Errors are never taken back ----------

  lemma {:induction false} StatusSticks(fold: bool, ts: seq<Token>, rule: nat, status: Status)
    requires status != Clean
    ensures Parse(fold, ts, rule, status).status != Clean
    decreases |ts|, 2
  {
    hide Climb;
    if ts != [] {
      match ts[0]
      case IntToken(n) => ClimbStatusSticks(fold, Atomic(Integer(n)), ts[1..], rule, status);
      case BoolToken(b) => ClimbStatusSticks(fold, Atomic(Boolean(b)), ts[1..], rule, status);
      case NameToken(x) =>
        ClimbStatusSticks(fold, Atomic(Identifier(CutName(x))), ts[1..], rule, NameStatus(x, status));
      case ParenLeft =>
        StatusSticks(fold, ts[1..], PREC_TERNARY, status);
        var inner := Consume(Parse(fold, ts[1..], PREC_TERNARY, status), ParenRight);
        ClimbStatusSticks(fold, Grouping(inner.tree), inner.rest, rule, inner.status);
      case NotToken =>
        StatusSticks(fold, ts[1..], PREC_CALL, status);
        var inner := Parse(fold, ts[1..], PREC_CALL, status);
        ClimbStatusSticks(fold, Negated(inner.tree), inner.rest, rule, inner.status);
      case _ =>
    }
  }

  lemma {:induction false} ClimbStatusSticks(fold: bool, left: Expr, ts: seq<Token>, rule: nat, status: Status)
    requires status != Clean
    ensures Climb(fold, left, ts, rule, status).status != Clean
    decreases |ts|, 1
  {
    hide Parse, Fold;
    if ts != [] && PrecOfToken(ts[0]) >= rule {
      match ts[0]
      case OpToken(op) =>
        StatusSticks(fold, ts[1..], PrecOf(op), status);
        var r := Parse(fold, ts[1..], PrecOf(op), status);
        ClimbStatusSticks(fold, Binary(op, left, r.tree), r.rest, rule, r.status);
      case Question => QuestionStatusSticks(fold, left, ts, rule, status);
      case _ =>
    }
  }

  lemma LongNamesFail(fold: bool, x: string, ts: seq<Token>, rule: nat)
    ensures |x| > MAX_NAME ==>
              Climb(fold, Atomic(Identifier(CutName(x))), ts, rule, NameStatus(x, Clean)).status != Clean
  {
    hide Climb;
    if |x| > MAX_NAME {
      ClimbStatusSticks(fold, Atomic(Identifier(CutName(x))), ts, rule, Failed);
    }
  }

  lemma {:induction false} QuestionStatusSticks(fold: bool, left: Expr, ts: seq<Token>, rule: nat, status: Status)
    requires status != Clean && ts != [] && ts[0] == Question && rule <= PREC_TERNARY
    ensures Climb(fold, left, ts, rule, status).status != Clean
    decreases |ts|, 0
  {
    hide Parse, Fold;
    StatusSticks(fold, ts[1..], PREC_TERNARY, status);
    var t := Consume(Parse(fold, ts[1..], PREC_TERNARY, status), Colon);
    StatusSticks(fold, t.rest, PREC_TERNARY, t.status);
    var e := Parse(fold, t.rest, PREC_TERNARY, t.status);
    ClimbStatusSticks(fold, Ternary(left, t.tree, e.tree), e.rest, rule, e.status);
  }

  // ---------- What has been read ----------

  /** No `!` stands directly in front of a boolean literal. The parser replaces such a pair by the
      opposite literal, so it is not read back. */
  predicate NoNegatedBool(p: seq<Token>) {
    forall i :: 0 <= i < |p| - 1 ==> !(p[i] == NotToken && p[i + 1].BoolToken?)
  }

  predicate Closed(p: seq<Token>) {
    p != [] && p[|p| - 1] != NotToken
  }

  /** p is the print of e, unless a negated literal makes the print shorter. */
  predicate Reads(p: seq<Token>, e: Expr) {
    && Closed(p)
    && (NoNegatedBool(p) ==> Print(e) == p)
    && (!NoNegatedBool(p) ==> |Print(e)| < |p|)
  }

  lemma NegatedInConcat(a: seq<Token>, b: seq<Token>)
    requires Closed(a) || (b != [] && !b[0].BoolToken?)
    ensures NoNegatedBool(a + b) <==> NoNegatedBool(a) && NoNegatedBool(b)
  {
    var p := a + b;
    if NoNegatedBool(p) {
      forall i | 0 <= i < |a| - 1
        ensures !(a[i] == NotToken && a[i + 1].BoolToken?)
      {
        assert p[i] == a[i] && p[i + 1] == a[i + 1];
      }
      forall i | 0 <= i < |b| - 1
        ensures !(b[i] == NotToken && b[i + 1].BoolToken?)
      {
        assert p[|a| + i] == b[i] && p[|a| + i + 1] == b[i + 1];
      }
    }
    if NoNegatedBool(a) && NoNegatedBool(b) {
      forall i | 0 <= i < |p| - 1
        ensures !(p[i] == NotToken && p[i + 1].BoolToken?)
      {
        if i + 1 < |a| {
          assert p[i] == a[i] && p[i + 1] == a[i + 1];
        } else if i >= |a| {
          assert p[i] == b[i - |a|] && p[i + 1] == b[i + 1 - |a|];
        }
      }
    }
  }

  lemma ReadsBinary(pl: seq<Token>, l: Expr, op: Opcode, pr: seq<Token>, r: Expr)
    requires Reads(pl, l) && Reads(pr, r)
    ensures Reads(pl + ([OpToken(op)] + pr), Binary(op, l, r))
  {
    hide NoNegatedBool;
    var mid := [OpToken(op)] + pr;
    NegatedInConcat(pl, mid);
    NegatedInConcat([OpToken(op)], pr);
    NothingNegated(OpToken(op));
    assert Print(l) + [OpToken(op)] + Print(r) == Print(l) + ([OpToken(op)] + Print(r));
  }

  lemma NothingNegated(t: Token)
    ensures NoNegatedBool([t])
  {
  }

  lemma ReadsTernary(pc: seq<Token>, c: Expr, pt: seq<Token>, t: Expr, pf: seq<Token>, f: Expr)
    requires Reads(pc, c) && Reads(pt, t) && Reads(pf, f)
    ensures Reads(pc + ([Question] + pt + [Colon] + pf), Ternary(c, t, f))
  {
    hide NoNegatedBool;
    NoneNegatedInTernary(pc, pt, pf);
    var step := [Question] + pt + [Colon] + pf;
    assert Closed(pc + step) by { assert (pc + step)[|pc + step| - 1] == pf[|pf| - 1]; }
    TernaryPrint(c, t, f);
    hide Print, Closed;
  }

  lemma TernaryPrint(c: Expr, t: Expr, f: Expr)
    ensures Print(Ternary(c, t, f)) == Print(c) + ([Question] + Print(t) + [Colon] + Print(f))
  {
    Regrouped(Print(c), [Question], Print(t), [Colon], Print(f));
  }

  lemma Regrouped(a: seq<Token>, b: seq<Token>, c: seq<Token>, d: seq<Token>, e: seq<Token>)
    ensures a + b + c + d + e == a + (b + c + d + e)
  {
  }

  lemma NoneNegatedInTernary(pc: seq<Token>, pt: seq<Token>, pf: seq<Token>)
    ensures NoNegatedBool(pc + ([Question] + pt + [Colon] + pf)) <==>
              NoNegatedBool(pc) && NoNegatedBool(pt) && NoNegatedBool(pf)
  {
    hide NoNegatedBool;
    NegatedInConcat(pc, [Question] + pt + [Colon] + pf);
    NegatedInConcat([Question] + pt + [Colon], pf);
    NegatedInConcat([Question] + pt, [Colon]);
    NegatedInConcat([Question], pt);
    NothingNegated(Question);
    NothingNegated(Colon);
  }

  lemma ReadsGrouping(p: seq<Token>, e: Expr)
    requires Reads(p, e)
    ensures Reads([ParenLeft] + p + [ParenRight], Grouping(e))
  {
    hide NoNegatedBool;
    NegatedInConcat([ParenLeft] + p, [ParenRight]);
    NegatedInConcat([ParenLeft], p);
    NothingNegated(ParenLeft);
    NothingNegated(ParenRight);
  }

  /** An operand of `!` is a literal only if it was read from one token, or from a pair that has
      itself been replaced. */
  lemma ReadsNegated(p: seq<Token>, e: Expr)
    requires Reads(p, e) && Printable(e) && Level(e) >= PREC_CALL
    ensures Reads([NotToken] + p, Negated(e))
  {
    hide NoNegatedBool, Print, Printable, Level;
    var q := [NotToken] + p;
    assert q[|q| - 1] == p[|p| - 1];
    if !NoNegatedBool(p) {
      NegatedShrinks(p);
      NegatedIsNoLonger(e);
    } else if e.Atomic? && e.literal.Boolean? {
      NegatedBoolIsRead(p, e);
    } else {
      FirstIsNotBool(e);
      NegatedInConcat([NotToken], p);
      NothingNegated(NotToken);
    }
  }

  lemma NegatedIsNoLonger(e: Expr)
    requires Printable(e) && Level(e) >= PREC_CALL
    ensures |Print(Negated(e))| <= |Print(e)| + 1
  {
  }

  lemma NegatedBoolIsRead(p: seq<Token>, e: Expr)
    requires e.Atomic? && e.literal.Boolean? && p == Print(e)
    ensures !NoNegatedBool([NotToken] + p) && |Print(Negated(e))| < |p| + 1
  {
    var q := [NotToken] + p;
    assert q[0] == NotToken && q[1] == p[0] == BoolToken(e.literal.b);
  }

  lemma NegatedShrinks(p: seq<Token>)
    requires !NoNegatedBool(p)
    ensures !NoNegatedBool([NotToken] + p)
  {
    var i :| 0 <= i < |p| - 1 && p[i] == NotToken && p[i + 1].BoolToken?;
    var q := [NotToken] + p;
    assert q[i + 1] == p[i] && q[i + 2] == p[i + 1];
  }

  lemma FirstIsNotBool(e: Expr)
    requires Printable(e) && Level(e) >= PREC_CALL && !(e.Atomic? && e.literal.Boolean?)
    ensures Print(e) != [] && !Print(e)[0].BoolToken? && Print(Negated(e)) == [NotToken] + Print(e)
  {
  }

  // ---------- Parsing and then printing ----------

  function Taken(ts: seq<Token>, rest: seq<Token>): seq<Token>
    requires |rest| <= |ts|
  {
    ts[..|ts| - |rest|]
  }

  /** The result of a clean parse: a printable tree, read from the tokens taken. */
  ghost predicate GoodParse(before: seq<Token>, ts: seq<Token>, p: Parsed, rule: nat) {
    && |p.rest| <= |ts| && ts == Taken(ts, p.rest) + p.rest
    && Reads(before + Taken(ts, p.rest), p.tree)
    && Printable(p.tree) && Level(p.tree) >= rule && NextPrec(p.rest) < rule
  }

  lemma {:induction false} ParseReads(ts: seq<Token>, rule: nat)
    requires PREC_ASSIGNMENT <= rule <= PREC_CALL
    ensures var p := Parse(false, ts, rule, Clean); p.status == Clean ==> GoodParse([], ts, p, rule)
    decreases |ts|, 1
  {
    hide Climb, Reads, Print;
    var p := Parse(false, ts, rule, Clean);
    if p.status == Clean {
      match ts[0]
      case IntToken(n) => AtomReads(ts, Integer(n), rule);
      case BoolToken(b) => AtomReads(ts, Boolean(b), rule);
      case NameToken(x) =>
        LongNamesFail(false, x, ts[1..], rule);
        if |x| <= MAX_NAME { AtomReads(ts, Identifier(x), rule); }
      case ParenLeft => GroupReads(ts, rule);
      case NotToken => NotReads(ts, rule);
      case _ =>
    }
  }

  /** A literal or name, and what follows it. */
  lemma {:induction false} AtomReads(ts: seq<Token>, l: Literal, rule: nat)
    requires PREC_ASSIGNMENT <= rule <= PREC_CALL && ts != [] && ts[0] == LiteralToken(l) && Readable(l)
    requires Climb(false, Atomic(l), ts[1..], rule, Clean).status == Clean
    ensures GoodParse([], ts, Climb(false, Atomic(l), ts[1..], rule, Clean), rule)
    decreases |ts|, 0
  {
    NothingNegated(ts[0]);
    hide Climb, Print, Parse;
    assert Reads([ts[0]], Atomic(l)) by { PrintOfAtom(l); }
    ClimbReads(Atomic(l), [ts[0]], ts[1..], rule);
    PrefixJoins([ts[0]], ts[1..], Climb(false, Atomic(l), ts[1..], rule, Clean), rule, ts);
  }

  lemma PrintOfAtom(l: Literal)
    ensures Print(Atomic(l)) == [LiteralToken(l)]
  {
  }

  lemma PrefixJoins(before: seq<Token>, ts: seq<Token>, p: Parsed, rule: nat, all: seq<Token>)
    requires GoodParse(before, ts, p, rule) && all == before + ts
    ensures GoodParse([], all, p, rule)
  {
    hide Reads, Printable, Level, Taken;
    TakenJoins(before, ts, p.rest);
    assert [] + Taken(all, p.rest) == Taken(all, p.rest);
  }

  lemma TakenJoins(before: seq<Token>, ts: seq<Token>, rest: seq<Token>)
    requires |rest| <= |ts| && ts == Taken(ts, rest) + rest
    ensures var all := before + ts;
            Taken(all, rest) == before + Taken(ts, rest) && all == Taken(all, rest) + rest
  {
  }

  lemma {:induction false} GroupReads(ts: seq<Token>, rule: nat)
    requires PREC_ASSIGNMENT <= rule <= PREC_CALL && ts != [] && ts[0] == ParenLeft
    requires Parse(false, ts, rule, Clean).status == Clean
    ensures GoodParse([], ts, Parse(false, ts, rule, Clean), rule)
    decreases |ts|, 0
  {
    hide Climb, Reads, Print;
    var p := Parse(false, ts[1..], PREC_TERNARY, Clean);
    var inner := Consume(p, ParenRight);
    ParseReads(ts[1..], PREC_TERNARY);
    if inner.status != Clean {
      ClimbStatusSticks(false, Grouping(inner.tree), inner.rest, rule, inner.status);
    }
    var q := [] + Taken(ts[1..], p.rest);
    ReadsGrouping(q, p.tree);
    var before := [ParenLeft] + q + [ParenRight];
    assert ts == before + inner.rest;
    ClimbReads(Grouping(p.tree), before, inner.rest, rule);
    PrefixJoins(before, inner.rest, Climb(false, Grouping(p.tree), inner.rest, rule, Clean), rule, ts);
  }

  lemma {:induction false} NotReads(ts: seq<Token>, rule: nat)
    requires PREC_ASSIGNMENT <= rule <= PREC_CALL && ts != [] && ts[0] == NotToken
    requires Parse(false, ts, rule, Clean).status == Clean
    ensures GoodParse([], ts, Parse(false, ts, rule, Clean), rule)
    decreases |ts|, 0
  {
    hide Climb, Reads, Print;
    var inner := Parse(false, ts[1..], PREC_CALL, Clean);
    ParseReads(ts[1..], PREC_CALL);
    if inner.status != Clean {
      ClimbStatusSticks(false, Negated(inner.tree), inner.rest, rule, inner.status);
    }
    var q := [] + Taken(ts[1..], inner.rest);
    ReadsNegated(q, inner.tree);
    var before := [NotToken] + q;
    assert ts == before + inner.rest;
    ClimbReads(Negated(inner.tree), before, inner.rest, rule);
    PrefixJoins(before, inner.rest, Climb(false, Negated(inner.tree), inner.rest, rule, Clean), rule, ts);
  }

  lemma {:induction false} ClimbReads(left: Expr, before: seq<Token>, ts: seq<Token>, rule: nat)
    requires PREC_ASSIGNMENT <= rule <= PREC_CALL
    requires Reads(before, left) && Printable(left) && Level(left) >= rule
    requires NextPrec(ts) < PREC_CALL ==> NextPrec(ts) < Level(left)
    requires Climb(false, left, ts, rule, Clean).status == Clean
    ensures GoodParse(before, ts, Climb(false, left, ts, rule, Clean), rule)
    decreases |ts|, 1
  {
    hide Parse, Reads, Print;
    if NextPrec(ts) < rule {
      assert before + Taken(ts, ts) == before;
    } else {
      match ts[0]
      case OpToken(_) => OperatorReads(left, before, ts, rule);
      case Question => QuestionReads(left, before, ts, rule);
      case _ =>
    }
  }

  lemma OperatorUnfolds(left: Expr, ts: seq<Token>, rule: nat)
    requires ts != [] && ts[0].OpToken? && rule <= PrecOf(ts[0].op)
    requires Climb(false, left, ts, rule, Clean).status == Clean
    ensures var op := ts[0].op;
            var r := Parse(false, ts[1..], PrecOf(op), Clean);
            && r.status == Clean
            && Climb(false, left, ts, rule, Clean) == Climb(false, Binary(op, left, r.tree), r.rest, rule, Clean)
  {
    hide Parse;
    var op := ts[0].op;
    var r := Parse(false, ts[1..], PrecOf(op), Clean);
    if r.status != Clean {
      ClimbStatusSticks(false, Binary(op, left, r.tree), r.rest, rule, r.status);
    }
  }

  lemma {:induction false} OperatorReads(left: Expr, before: seq<Token>, ts: seq<Token>, rule: nat)
    requires PREC_ASSIGNMENT <= rule <= PREC_CALL
    requires Reads(before, left) && Printable(left)
    requires ts != [] && ts[0].OpToken? && rule <= PrecOf(ts[0].op) < Level(left)
    requires Climb(false, left, ts, rule, Clean).status == Clean
    ensures GoodParse(before, ts, Climb(false, left, ts, rule, Clean), rule)
    decreases |ts|, 0
  {
    hide Parse, Climb, Reads, Print, GoodParse, Taken, Printable;
    OperatorUnfolds(left, ts, rule);
    var op := ts[0].op;
    var r := Parse(false, ts[1..], PrecOf(op), Clean);
    ParseTaken(ts[1..], PrecOf(op));
    var q := Taken(ts[1..], r.rest);
    ReadsBinary(before, left, op, q, r.tree);
    var step := [OpToken(op)] + q;
    OperatorTaken(ts, op, r.rest);
    BinaryPrintable(op, left, r.tree);
    ClimbReads(Binary(op, left, r.tree), before + step, r.rest, rule);
    StepJoins(before, step, ts, r.rest, Climb(false, Binary(op, left, r.tree), r.rest, rule, Clean), rule);
  }

  lemma BinaryPrintable(op: Opcode, l: Expr, r: Expr)
    requires Printable(l) && Printable(r) && Level(l) > PrecOf(op) && Level(r) >= PrecOf(op)
    ensures Printable(Binary(op, l, r)) && Level(Binary(op, l, r)) == PrecOf(op)
  {
  }

  lemma OperatorTaken(ts: seq<Token>, op: Opcode, rest: seq<Token>)
    requires ts != [] && ts[0] == OpToken(op)
    requires |rest| < |ts| && ts[1..] == Taken(ts[1..], rest) + rest
    ensures ts == [OpToken(op)] + Taken(ts[1..], rest) + rest
  {
    assert ts == [OpToken(op)] + ts[1..];
  }

  lemma StepJoins(before: seq<Token>, step: seq<Token>, ts: seq<Token>, rest: seq<Token>, p: Parsed, rule: nat)
    requires GoodParse(before + step, rest, p, rule) && ts == step + rest
    ensures GoodParse(before, ts, p, rule)
  {
    hide Reads, Printable, Level, Taken;
    TakenJoins(step, rest, p.rest);
    assert before + Taken(ts, p.rest) == (before + step) + Taken(rest, p.rest);
  }

  lemma {:induction false} QuestionReads(left: Expr, before: seq<Token>, ts: seq<Token>, rule: nat)
    requires PREC_ASSIGNMENT <= rule <= PREC_TERNARY
    requires Reads(before, left) && Printable(left) && Level(left) > PREC_TERNARY
    requires ts != [] && ts[0] == Question
    requires Climb(false, left, ts, rule, Clean).status == Clean
    ensures GoodParse(before, ts, Climb(false, left, ts, rule, Clean), rule)
    decreases |ts|, 0
  {
    hide Parse, Climb, Reads, Print, GoodParse, Taken, Printable;
    QuestionUnfolds(left, ts, rule);
    var p1 := Parse(false, ts[1..], PREC_TERNARY, Clean);
    var e := Parse(false, p1.rest[1..], PREC_TERNARY, Clean);
    ParseTaken(ts[1..], PREC_TERNARY);
    ParseTaken(p1.rest[1..], PREC_TERNARY);
    var qt, qf := Taken(ts[1..], p1.rest), Taken(p1.rest[1..], e.rest);
    ReadsTernary(before, left, qt, p1.tree, qf, e.tree);
    var step := [Question] + qt + [Colon] + qf;
    QuestionTaken(ts, p1.rest, e.rest);
    TernaryPrintable(left, p1.tree, e.tree);
    ClimbReads(Ternary(left, p1.tree, e.tree), before + step, e.rest, rule);
    StepJoins(before, step, ts, e.rest, Climb(false, Ternary(left, p1.tree, e.tree), e.rest, rule, Clean), rule);
  }

  lemma TernaryPrintable(c: Expr, t: Expr, f: Expr)
    requires Printable(c) && Printable(t) && Printable(f)
    requires Level(c) > PREC_TERNARY && Level(t) >= PREC_TERNARY && Level(f) >= PREC_TERNARY
    ensures Printable(Ternary(c, t, f))
  {
  }

  lemma {:induction false} ParseTaken(ts: seq<Token>, rule: nat)
    requires PREC_ASSIGNMENT <= rule <= PREC_CALL && Parse(false, ts, rule, Clean).status == Clean
    ensures var p := Parse(false, ts, rule, Clean);
            && |p.rest| <= |ts| && (ts != [] ==> |p.rest| < |ts|)
            && ts == Taken(ts, p.rest) + p.rest && Reads(Taken(ts, p.rest), p.tree)
            && Printable(p.tree) && Level(p.tree) >= rule && NextPrec(p.rest) < rule
    decreases |ts|, 3
  {
    hide Parse, Reads, Print;
    ParseReads(ts, rule);
    var p := Parse(false, ts, rule, Clean);
    assert [] + Taken(ts, p.rest) == Taken(ts, p.rest);
  }

  lemma QuestionTaken(ts: seq<Token>, afterThen: seq<Token>, afterElse: seq<Token>)
    requires ts != [] && ts[0] == Question && afterThen != [] && afterThen[0] == Colon
    requires |afterThen| < |ts| && ts[1..] == Taken(ts[1..], afterThen) + afterThen
    requires |afterElse| < |afterThen| && afterThen[1..] == Taken(afterThen[1..], afterElse) + afterElse
    ensures ts == [Question] + Taken(ts[1..], afterThen) + [Colon] + Taken(afterThen[1..], afterElse) + afterElse
  {
    hide Taken;
    assert ts == [Question] + ts[1..] && afterThen == [Colon] + afterThen[1..];
  }

  /** A ternary parsed cleanly: both arms were, with a colon between them. */
  lemma QuestionUnfolds(left: Expr, ts: seq<Token>, rule: nat)
    requires rule <= PREC_TERNARY && ts != [] && ts[0] == Question
    requires Climb(false, left, ts, rule, Clean).status == Clean
    ensures var p1 := Parse(false, ts[1..], PREC_TERNARY, Clean);
            && p1.status == Clean && p1.rest != [] && p1.rest[0] == Colon
            && var e := Parse(false, p1.rest[1..], PREC_TERNARY, Clean);
            && e.status == Clean
            && Climb(false, left, ts, rule, Clean) == Climb(false, Ternary(left, p1.tree, e.tree), e.rest, rule, Clean)
  {
    hide Parse;
    var t := Consume(Parse(false, ts[1..], PREC_TERNARY, Clean), Colon);
    if t.status != Clean {
      StatusSticks(false, t.rest, PREC_TERNARY, t.status);
    }
    var e := Parse(false, t.rest, PREC_TERNARY, t.status);
    if e.status != Clean {
      ClimbStatusSticks(false, Ternary(left, t.tree, e.tree), e.rest, rule, e.status);
    }
  }

  /** A clean parse without folding takes exactly the print of the tree it returns, if and only if
      no `!` stands directly in front of a boolean literal among the tokens taken. */
  lemma PrintOfParse(ts: seq<Token>, rule: nat)
    requires PREC_ASSIGNMENT <= rule <= PREC_CALL
    requires Parse(false, ts, rule, Clean).status == Clean
    ensures var p := Parse(false, ts, rule, Clean);
            && Printable(p.tree) && Level(p.tree) >= rule && NextPrec(p.rest) < rule
            && ts == Taken(ts, p.rest) + p.rest
            && (ts == Print(p.tree) + p.rest <==> NoNegatedBool(Taken(ts, p.rest)))
  {
    hide Parse, Print, NoNegatedBool;
    ParseReads(ts, rule);
    var p := Parse(false, ts, rule, Clean);
    assert [] + Taken(ts, p.rest) == Taken(ts, p.rest);
    if ts == Print(p.tree) + p.rest {
      assert |Print(p.tree)| == |Taken(ts, p.rest)|;
    }
  }

  /** No two printable trees have the same print. */
  lemma PrintIsInjective(a: Expr, b: Expr)
    requires Printable(a) && Printable(b) && Print(a) == Print(b)
    ensures a == b
  {
    hide Parse, Print;
    assert Print(a) + [] == Print(b) + [];
    ParseOfPrint(a, [], PREC_ASSIGNMENT);
    ParseOfPrint(b, [], PREC_ASSIGNMENT);
  }
}
