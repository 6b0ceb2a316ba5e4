/** Folding after every infix step of the parse, as the program does, gives the tree one gets by
    parsing first and folding the whole tree afterwards. */
module FoldingWhileParsing {
  import opened Ast
  import opened Folding
  import opened Parsing
  import opened ParsingTheorems

  predicate FoldsTo(e: Expr, f: Expr) {
    FoldTree(e).fault == NoFault && FoldTree(e).tree == f
  }

  predicate FoldsCleanly(e: Expr) {
    FoldTree(e).fault == NoFault
  }

  lemma FoldIsOk(e: Expr)
    requires e.Binary? && Fold(e).fault == NoFault
    ensures Fold(e).ok
  {
  }

  lemma BinaryFolds(op: Opcode, l: Expr, r: Expr)
    ensures FoldsCleanly(Binary(op, l, r)) <==>
              && FoldsCleanly(l) && FoldsCleanly(r)
              && Fold(Binary(op, FoldTree(l).tree, FoldTree(r).tree)).fault == NoFault
    ensures FoldTree(Binary(op, l, r)).tree == Fold(Binary(op, FoldTree(l).tree, FoldTree(r).tree)).tree
  {
  }

  /** Collapsing `!` in front of a literal and folding do not interfere. */
  lemma NegatedFolds(e: Expr)
    requires Printable(e) && Level(e) >= PREC_CALL
    ensures FoldsCleanly(Negated(e)) <==> FoldsCleanly(e)
    ensures FoldTree(Negated(e)).tree == Negated(FoldTree(e).tree)
  {
    hide Fold, Printable;
  }

  /** What a clean parse started from is still in the tree. */
  lemma {:induction false} LeftIsKept(left: Expr, ts: seq<Token>, rule: nat)
    requires Climb(false, left, ts, rule, Clean).status == Clean
    requires FoldsCleanly(Climb(false, left, ts, rule, Clean).tree)
    ensures FoldsCleanly(left)
    decreases |ts|
  {
    hide Parse, FoldsCleanly, FoldTree;
    if ts != [] && PrecOfToken(ts[0]) >= rule {
      match ts[0]
      case OpToken(op) =>
        var r := Parse(false, ts[1..], PrecOf(op), Clean);
        if r.status != Clean {
          ClimbStatusSticks(false, Binary(op, left, r.tree), r.rest, rule, r.status);
        }
        LeftIsKept(Binary(op, left, r.tree), r.rest, rule);
        BinaryFolds(op, left, r.tree);
      case Question =>
        QuestionUnfolds(left, ts, rule);
        var p1 := Parse(false, ts[1..], PREC_TERNARY, Clean);
        var e := Parse(false, p1.rest[1..], PREC_TERNARY, Clean);
        LeftIsKept(Ternary(left, p1.tree, e.tree), e.rest, rule);
        TernaryFolds(left, p1.tree, e.tree);
      case _ =>
    }
  }

  lemma TernaryFolds(c: Expr, t: Expr, f: Expr)
    ensures FoldsCleanly(Ternary(c, t, f)) <==> FoldsCleanly(c) && FoldsCleanly(t) && FoldsCleanly(f)
    ensures FoldTree(Ternary(c, t, f)).tree == Ternary(FoldTree(c).tree, FoldTree(t).tree, FoldTree(f).tree)
  {
  }

  /** u is what the plain parse returns, f what the folding parse returns. */
  ghost predicate Commutes(u: Parsed, f: Parsed) {
    && (f.status == Clean ==> u.status == Clean && u.rest == f.rest && FoldsTo(u.tree, f.tree))
    && (u.status == Clean && FoldsCleanly(u.tree) ==> f.status == Clean)
  }

  lemma {:induction false} ParseCommutes(ts: seq<Token>, rule: nat)
    requires PREC_ASSIGNMENT <= rule <= PREC_CALL
    ensures Commutes(Parse(false, ts, rule, Clean), Parse(true, ts, rule, Clean))
    decreases |ts|, 3
  {
    hide Climb, Fold, Commutes;
    if ts == [] {
      NoClean(Parse(false, ts, rule, Clean), Parse(true, ts, rule, Clean));
    } else {
      match ts[0]
      case IntToken(n) => ClimbCommutes(Atomic(Integer(n)), ts[1..], rule);
      case BoolToken(b) => ClimbCommutes(Atomic(Boolean(b)), ts[1..], rule);
      case NameToken(x) => NameCommutes(x, ts, rule);
      case ParenLeft => GroupCommutes(ts, rule);
      case NotToken => NotCommutes(ts, rule);
      case _ => NoClean(Parse(false, ts, rule, Clean), Parse(true, ts, rule, Clean));
    }
  }

  lemma {:induction false} NameCommutes(x: string, ts: seq<Token>, rule: nat)
    requires PREC_ASSIGNMENT <= rule <= PREC_CALL && ts != [] && ts[0] == NameToken(x)
    ensures Commutes(Parse(false, ts, rule, Clean), Parse(true, ts, rule, Clean))
    decreases |ts|, 2
  {
    hide Climb, Fold, Commutes;
    LongNamesFail(false, x, ts[1..], rule);
    LongNamesFail(true, x, ts[1..], rule);
    if |x| <= MAX_NAME {
      ClimbCommutes(Atomic(Identifier(x)), ts[1..], rule);
    } else {
      NoClean(Parse(false, ts, rule, Clean), Parse(true, ts, rule, Clean));
    }
  }

  lemma NoClean(u: Parsed, f: Parsed)
    requires u.status != Clean && f.status != Clean
    ensures Commutes(u, f)
  {
  }

  lemma {:induction false} GroupCommutes(ts: seq<Token>, rule: nat)
    requires PREC_ASSIGNMENT <= rule <= PREC_CALL && ts != [] && ts[0] == ParenLeft
    ensures Commutes(Parse(false, ts, rule, Clean), Parse(true, ts, rule, Clean))
    decreases |ts|, 2
  {
    hide Climb, Fold;
    ParseCommutes(ts[1..], PREC_TERNARY);
    var u := Consume(Parse(false, ts[1..], PREC_TERNARY, Clean), ParenRight);
    var f := Consume(Parse(true, ts[1..], PREC_TERNARY, Clean), ParenRight);
    if u.status != Clean { ClimbStatusSticks(false, Grouping(u.tree), u.rest, rule, u.status); }
    if f.status != Clean { ClimbStatusSticks(true, Grouping(f.tree), f.rest, rule, f.status); }
    if u.status == Clean {
      if FoldsCleanly(u.tree) {
        ClimbCommutes(Grouping(u.tree), u.rest, rule);
      } else if Climb(false, Grouping(u.tree), u.rest, rule, Clean).status == Clean
             && FoldsCleanly(Climb(false, Grouping(u.tree), u.rest, rule, Clean).tree) {
        LeftIsKept(Grouping(u.tree), u.rest, rule);
      }
    }
  }

  lemma {:induction false} NotCommutes(ts: seq<Token>, rule: nat)
    requires PREC_ASSIGNMENT <= rule <= PREC_CALL && ts != [] && ts[0] == NotToken
    ensures Commutes(Parse(false, ts, rule, Clean), Parse(true, ts, rule, Clean))
    decreases |ts|, 2
  {
    hide Climb, Fold, Printable, Negated, FoldTree;
    ParseCommutes(ts[1..], PREC_CALL);
    var u := Parse(false, ts[1..], PREC_CALL, Clean);
    var f := Parse(true, ts[1..], PREC_CALL, Clean);
    if u.status != Clean { ClimbStatusSticks(false, Negated(u.tree), u.rest, rule, u.status); }
    if f.status != Clean { ClimbStatusSticks(true, Negated(f.tree), f.rest, rule, f.status); }
    if u.status == Clean {
      ParseTaken(ts[1..], PREC_CALL);
      NegatedFolds(u.tree);
      if FoldsCleanly(u.tree) {
        ClimbCommutes(Negated(u.tree), u.rest, rule);
      } else if Climb(false, Negated(u.tree), u.rest, rule, Clean).status == Clean
             && FoldsCleanly(Climb(false, Negated(u.tree), u.rest, rule, Clean).tree) {
        LeftIsKept(Negated(u.tree), u.rest, rule);
      }
    }
  }

  lemma {:induction false} ClimbCommutes(left: Expr, ts: seq<Token>, rule: nat)
    requires PREC_ASSIGNMENT <= rule <= PREC_CALL && FoldsCleanly(left)
    ensures Commutes(Climb(false, left, ts, rule, Clean), Climb(true, FoldTree(left).tree, ts, rule, Clean))
    decreases |ts|, 1
  {
    hide Parse, Fold;
    if ts != [] && PrecOfToken(ts[0]) >= rule {
      match ts[0]
      case OpToken(_) => OperatorCommutes(left, ts, rule);
      case Question => QuestionCommutes(left, ts, rule);
      case _ =>
    }
  }

  lemma {:induction false} OperatorCommutes(left: Expr, ts: seq<Token>, rule: nat)
    requires PREC_ASSIGNMENT <= rule <= PREC_CALL && FoldsCleanly(left)
    requires ts != [] && ts[0].OpToken? && PrecOf(ts[0].op) >= rule
    ensures Commutes(Climb(false, left, ts, rule, Clean), Climb(true, FoldTree(left).tree, ts, rule, Clean))
    decreases |ts|, 0
  {
    hide Parse, Fold, FoldTree;
    var op := ts[0].op;
    ParseCommutes(ts[1..], PrecOf(op));
    var u := Parse(false, ts[1..], PrecOf(op), Clean);
    var f := Parse(true, ts[1..], PrecOf(op), Clean);
    var node := Binary(op, left, u.tree);
    if u.status != Clean { ClimbStatusSticks(false, node, u.rest, rule, u.status); }
    if f.status != Clean { ClimbStatusSticks(true, Binary(op, FoldTree(left).tree, f.tree), f.rest, rule, f.status); }
    BinaryFolds(op, left, u.tree);
    if u.status == Clean {
      if FoldsCleanly(node) {
        FoldIsOk(Binary(op, FoldTree(left).tree, FoldTree(u.tree).tree));
        ClimbCommutes(node, u.rest, rule);
      } else {
        if Climb(false, node, u.rest, rule, Clean).status == Clean
           && FoldsCleanly(Climb(false, node, u.rest, rule, Clean).tree) {
          LeftIsKept(node, u.rest, rule);
        }
        if f.status == Clean {
          var g := Fold(Binary(op, FoldTree(left).tree, f.tree));
          ClimbStatusSticks(true, g.tree, f.rest, rule, Failed);
        }
      }
    }
  }

  lemma {:induction false} QuestionCommutes(left: Expr, ts: seq<Token>, rule: nat)
    requires PREC_ASSIGNMENT <= rule <= PREC_TERNARY && FoldsCleanly(left)
    requires ts != [] && ts[0] == Question
    ensures Commutes(Climb(false, left, ts, rule, Clean), Climb(true, FoldTree(left).tree, ts, rule, Clean))
    decreases |ts|, 0
  {
    hide Parse, Fold, FoldTree, Climb;
    var u := Climb(false, left, ts, rule, Clean);
    var f := Climb(true, FoldTree(left).tree, ts, rule, Clean);
    ParseCommutes(ts[1..], PREC_TERNARY);
    if f.status == Clean {
      FoldingQuestionUnfolds(FoldTree(left).tree, ts, rule);
      var f1 := Parse(true, ts[1..], PREC_TERNARY, Clean);
      var u1 := Parse(false, ts[1..], PREC_TERNARY, Clean);
      ParseCommutes(u1.rest[1..], PREC_TERNARY);
      var u2 := Parse(false, u1.rest[1..], PREC_TERNARY, Clean);
      TernaryFolds(left, u1.tree, u2.tree);
      ClimbCommutes(Ternary(left, u1.tree, u2.tree), u2.rest, rule);
      PlainQuestion(left, ts, rule);
    }
    if u.status == Clean && FoldsCleanly(u.tree) {
      QuestionUnfolds(left, ts, rule);
      var u1 := Parse(false, ts[1..], PREC_TERNARY, Clean);
      var u2 := Parse(false, u1.rest[1..], PREC_TERNARY, Clean);
      LeftIsKept(Ternary(left, u1.tree, u2.tree), u2.rest, rule);
      TernaryFolds(left, u1.tree, u2.tree);
      ParseCommutes(u1.rest[1..], PREC_TERNARY);
      ClimbCommutes(Ternary(left, u1.tree, u2.tree), u2.rest, rule);
      FoldingQuestion(FoldTree(left).tree, ts, rule);
    }
  }

  lemma FoldingQuestionUnfolds(left: Expr, ts: seq<Token>, rule: nat)
    requires rule <= PREC_TERNARY && ts != [] && ts[0] == Question
    requires Climb(true, left, ts, rule, Clean).status == Clean
    ensures var p1 := Parse(true, ts[1..], PREC_TERNARY, Clean);
            && p1.status == Clean && p1.rest != [] && p1.rest[0] == Colon
            && var e := Parse(true, p1.rest[1..], PREC_TERNARY, Clean);
            && e.status == Clean
            && Climb(true, left, ts, rule, Clean) == Climb(true, Ternary(left, p1.tree, e.tree), e.rest, rule, Clean)
  {
    hide Parse, Fold;
    var t := Consume(Parse(true, ts[1..], PREC_TERNARY, Clean), Colon);
    if t.status != Clean {
      StatusSticks(true, t.rest, PREC_TERNARY, t.status);
    }
    var e := Parse(true, t.rest, PREC_TERNARY, t.status);
    if e.status != Clean {
      ClimbStatusSticks(true, Ternary(left, t.tree, e.tree), e.rest, rule, e.status);
    }
  }

  lemma PlainQuestion(left: Expr, ts: seq<Token>, rule: nat)
    requires rule <= PREC_TERNARY && ts != [] && ts[0] == Question
    requires var p1 := Parse(false, ts[1..], PREC_TERNARY, Clean);
             p1.status == Clean && p1.rest != [] && p1.rest[0] == Colon
    requires Parse(false, Parse(false, ts[1..], PREC_TERNARY, Clean).rest[1..], PREC_TERNARY, Clean).status == Clean
    ensures var p1 := Parse(false, ts[1..], PREC_TERNARY, Clean);
            var e := Parse(false, p1.rest[1..], PREC_TERNARY, Clean);
            Climb(false, left, ts, rule, Clean) == Climb(false, Ternary(left, p1.tree, e.tree), e.rest, rule, Clean)
  {
    hide Parse;
  }

  lemma FoldingQuestion(left: Expr, ts: seq<Token>, rule: nat)
    requires rule <= PREC_TERNARY && ts != [] && ts[0] == Question
    requires var p1 := Parse(true, ts[1..], PREC_TERNARY, Clean);
             p1.status == Clean && p1.rest != [] && p1.rest[0] == Colon
    requires Parse(true, Parse(true, ts[1..], PREC_TERNARY, Clean).rest[1..], PREC_TERNARY, Clean).status == Clean
    ensures var p1 := Parse(true, ts[1..], PREC_TERNARY, Clean);
            var e := Parse(true, p1.rest[1..], PREC_TERNARY, Clean);
            Climb(true, left, ts, rule, Clean) == Climb(true, Ternary(left, p1.tree, e.tree), e.rest, rule, Clean)
  {
    hide Parse;
  }

  /** The program's parse succeeds exactly when the plain parse does and its tree folds without a
      fault; it returns the folded tree, which has no redex left and means the same. */
  lemma FoldingCommutesWithParsing(ts: seq<Token>, rule: nat)
    requires PREC_ASSIGNMENT <= rule <= PREC_CALL
    ensures var u := Parse(false, ts, rule, Clean);
            var f := Parse(true, ts, rule, Clean);
            && (f.status == Clean <==> u.status == Clean && FoldTree(u.tree).fault == NoFault)
            && (f.status == Clean ==>
                  && f.rest == u.rest && f.tree == FoldTree(u.tree).tree
                  && NoRedex(f.tree) && Same(f.tree, u.tree))
  {
    hide Parse, FoldTree, NoRedex, Same;
    ParseCommutes(ts, rule);
    var u := Parse(false, ts, rule, Clean);
    FoldTreeIsComplete(u.tree);
    FoldTreeMeans(u.tree);
  }
}
