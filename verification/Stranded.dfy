/** The other half of the graph's shape: a loop whose condition fails leaves blocks that nothing
    ends, so that all blocks are ended exactly if no loop fails. */
module Stranded {
  import opened Ast
  import opened Graph
  import opened Lowering
  import opened Growth
  import opened ExprSimulation
  import opened StmtSimulation
  import opened GraphShape

  /** A block created since c, and not the one generation goes on in, lacks a terminator. */
  ghost predicate Strands(c: Code, d: Code) {
    exists b :: IsStranded(c, d, b)
  }

  ghost predicate IsStranded(c: Code, d: Code, b: nat) {
    |c.blocks| <= b < |d.blocks| && b != d.insert && !HasTerminator(d.blocks[b])
  }

  lemma StrandedStays(c: Code, m: Code, d: Code)
    requires Strands(c, m) && Grew(m, d)
    ensures Strands(c, d)
  {
    var b :| IsStranded(c, m, b);
    assert IsStranded(c, d, b);
  }

  lemma StrandedSince(c: Code, m: Code, d: Code)
    requires |c.blocks| <= |m.blocks| && Strands(m, d)
    ensures Strands(c, d)
  {
    var b :| IsStranded(m, d, b);
    assert IsStranded(c, d, b);
  }

  /** The jump behind a piece goes on in an older block. */
  lemma StrandedInPiece(c: Code, e: Code, i: Instr, b: nat)
    requires Strands(c, e) && e.insert < |e.blocks| && b < |c.blocks|
    ensures Strands(c, e.Close(i, b))
  {
    var k :| IsStranded(c, e, k);
    assert IsStranded(c, e.Close(i, b), k);
  }

  lemma StrandedAlike(c: Code, d: Code, c1: Code, d1: Code)
    requires Strands(c, d) && |c1.blocks| == |c.blocks| && d1.blocks == d.blocks && d1.insert == d.insert
    ensures Strands(c1, d1)
  {
    var b :| IsStranded(c, d, b);
    assert IsStranded(c1, d1, b);
  }

  lemma StrandedIsOpen(c: Code, d: Code)
    requires Strands(c, d)
    ensures !OnlyOpen(c, d, {d.insert})
  {
    var b :| IsStranded(c, d, b);
  }

  lemma {:induction false} StmtStrands(env: Env, c: Code, s: Stmt)
    requires c.Valid() && !NoLoopFails(env, s, |c.loops|)
    ensures Strands(c, LowerStmt(env, c, s))
    decreases s, 3
  {
    hide Strands, LowerIf, LowerWhile, LowerFor, LowerSeq;
    match s
    case If(_, _, _) => IfStrands(env, c, s);
    case While(_, _) => WhileStrands(env, c, s);
    case For(_, _, _, _) => ForStrands(env, c, s);
    case Block(ss) => SeqStrands(env, c, ss);
  }

  lemma {:induction false} SeqStrands(env: Env, c: Code, ss: seq<Stmt>)
    requires c.Valid() && !(forall t :: t in ss ==> NoLoopFails(env, t, |c.loops|))
    ensures Strands(c, LowerSeq(env, c, ss))
    decreases ss, 0
  {
    hide Strands, Grew, LowerStmt, NoLoopFails;
    var m := LowerStmt(env, c, ss[0]);
    if !NoLoopFails(env, ss[0], |c.loops|) {
      StmtStrands(env, c, ss[0]);
      SeqGrows(env, m, ss[1..]);
      StrandedStays(c, m, LowerSeq(env, m, ss[1..]));
    } else {
      SeqStrands(env, m, ss[1..]);
      StrandedSince(c, m, LowerSeq(env, m, ss[1..]));
    }
  }

  lemma {:induction false} IfStrands(env: Env, c: Code, s: Stmt)
    requires c.Valid() && s.If? && !NoLoopFails(env, s, |c.loops|)
    ensures Strands(c, LowerIf(env, c, s))
    decreases s, 2
  {
    hide Strands, Grew, OpenIf, FinishIf, LowerIf, LowerExpr, EmittedType, Code.Valid, RoomForArms;
    IfGoes(env, c, s);
    var r := LowerExpr(env, c.ClearError(), s.cond);
    var c1 := OpenIf(r.code, r.value.value.operand);
    ArmStrands(env, c1, s);
    StrandedSince(c, c1, FinishIf(env, c1, s));
  }

  lemma {:induction false} ArmStrands(env: Env, c: Code, s: Stmt)
    requires RoomForArms(c) && s.If? && c.insert + 2 < |c.blocks|
    requires EmittedType(env, s.cond) == Some(Bool) && !NoLoopFails(env, s, |c.loops|)
    ensures Strands(c, FinishIf(env, c, s))
    decreases s, 1
  {
    hide Strands, Grew, LowerStmt, LowerElse, EmittedType, Code.Close, Code.Valid;
    var e1 := LowerStmt(env, c, s.thenBranch);
    var c2 := FinishThen(env, c, s);
    var e2 := LowerElse(env, c2, s.elseBranch);
    if !NoLoopFails(env, s.thenBranch, |c.loops|) {
      StmtStrands(env, c, s.thenBranch);
      ValidInsert(e1);
      StrandedInPiece(c, e1, Br(c.insert + 2), c.insert + 1);
      ElseGrows(env, c2, s.elseBranch);
      StrandedStays(c, c2, e2);
    } else {
      StmtStrands(env, c2, s.elseBranch.value);
      ElseIs(env, c2, s.elseBranch);
      StrandedSince(c, c2, e2);
    }
    ValidInsert(e2);
    StrandedInPiece(c, e2, Br(c.insert + 2), c.insert + 2);
  }

  lemma ElseIs(env: Env, c: Code, s: Option<Stmt>)
    requires c.Valid() && s.Some?
    ensures LowerElse(env, c, s) == LowerStmt(env, c, s.value)
  {
  }

  lemma OpenWhileLeavesBody(c: Code)
    requires c.insert < |c.blocks|
    ensures IsStranded(c, OpenWhile(c), |c.blocks| + 1)
  {
  }

  lemma {:induction false} WhileStrands(env: Env, c: Code, s: Stmt)
    requires c.Valid() && s.While? && !NoLoopFails(env, s, |c.loops|)
    ensures Strands(c, LowerWhile(env, c, s))
    decreases s, 2
  {
    hide Strands, Grew, OpenWhile, LowerWhile, LowerExpr, LowerStmt, EmittedType, Code.Close;
    WhileGoes(env, c, s);
    var n := |c.blocks|;
    if EmittedType(env, s.cond) == Some(Bool) {
      var c2 := WhileBody(env, c, s);
      var e := LowerStmt(env, c2, s.body);
      StmtStrands(env, c2, s.body);
      ValidInsert(e);
      StrandedInPiece(c2, e, Br(n), n + 2);
      var d := FinishWhile(env, c2, s, n);
      StrandedSince(c, c2, d);
      StrandedAlike(c, d, c, d.PopLoop());
    } else {
      var r := WhileTest(env, c, s);
      OpenWhileLeavesBody(c);
      ItStrands(c, OpenWhile(c), n + 1);
      ExprGrows(env, OpenWhile(c), s.cond);
      StrandedStays(c, OpenWhile(c), r.code);
      StrandedAlike(c, r.code, c, r.code.Failed().PopLoop());
    }
  }

  lemma ItStrands(c: Code, d: Code, b: nat)
    requires IsStranded(c, d, b)
    ensures Strands(c, d)
  {
  }

  lemma OpenForLeavesBody(env: Env, c: Code, s: Stmt)
    requires c.insert < |c.blocks| && s.For?
    ensures Strands(c, OpenFor(env, c, s))
  {
    hide Strands, Grew, LowerOptional, Code.Close, ForPre, OpenFor;
    var n := |c.blocks|;
    OpenForIs(env, c, s);
    ForPreLeavesBody(c);
    var e := LowerOptional(env, ForPre(c), s.pre).code;
    OptionalGrows(env, ForPre(c), s.pre);
    BodyIsLeft(c, ForPre(c), e);
  }

  lemma ForPreLeavesBody(c: Code)
    requires c.insert < |c.blocks|
    ensures IsStranded(c, ForPre(c), |c.blocks| + 1)
  {
  }

  lemma BodyIsLeft(c: Code, m: Code, e: Code)
    requires IsStranded(c, m, |c.blocks| + 1) && Grew(m, e) && e.insert < |e.blocks|
    ensures Strands(c, e.Close(Br(|c.blocks|), |c.blocks|))
  {
    assert IsStranded(c, e.Close(Br(|c.blocks|), |c.blocks|), |c.blocks| + 1);
  }

  lemma {:induction false} ForStrands(env: Env, c: Code, s: Stmt)
    requires c.Valid() && s.For? && !NoLoopFails(env, s, |c.loops|)
    ensures Strands(c, LowerFor(env, c, s))
    decreases s, 2
  {
    hide Strands, Grew, OpenFor, LowerFor, FinishFor, LowerOptional, LowerStmt, EmittedType, Code.Close;
    ForGoes(env, c, s);
    var n := |c.blocks|;
    if TestIsTaken(env, s.test) {
      FinishForIs(env, s, c);
      var c2, c3 := ForBody(env, c, s), ForPost(env, c, s);
      var e := LowerStmt(env, c2, s.body);
      StmtStrands(env, c2, s.body);
      ValidInsert(e);
      StrandedInPiece(c2, e, Br(n + 2), n + 2);
      var e3 := LowerOptional(env, c3, s.post).code;
      OptionalGrows(env, c3, s.post);
      StrandedStays(c2, c3, e3);
      StrandedInPiece(c2, e3, Br(n), n + 3);
      var d := FinishFor(env, c2, s, n);
      StrandedSince(c, c2, d);
      StrandedAlike(c, d, c, d.PopLoop());
    } else {
      var r := ForTest(env, c, s);
      OpenForLeavesBody(env, c, s);
      OptionalGrows(env, OpenFor(env, c, s), s.test);
      StrandedStays(c, OpenFor(env, c, s), r.code);
      StrandedAlike(c, r.code, c, r.code.Failed().PopLoop());
    }
  }

  /** Behind any statement, failing or not, the block generation goes on in is the only one, among the
      old insert block and the blocks created, without a terminator if and only if no loop fails. */
  lemma StmtSealsExactly(env: Env, c: Code, s: Stmt)
    requires c.Valid()
    ensures var d := LowerStmt(env, c, s); OnlyOpen(c, d, {d.insert}) <==> NoLoopFails(env, s, |c.loops|)
  {
    hide LowerStmt, OnlyOpen, Strands, NoLoopFails, Code.Valid;
    if NoLoopFails(env, s, |c.loops|) {
      StmtSeals(env, c, s);
    } else {
      StmtStrands(env, c, s);
      StrandedIsOpen(c, LowerStmt(env, c, s));
    }
  }

  // ---------- Well-formed statements ----------

  lemma TypedIsEmitted(env: Env, e: Expr)
    requires TypeOf(env, e).Some?
    ensures EmittedType(env, e) == TypeOf(env, e)
  {
    hide TypeOf, LowerExpr, EmittedType;
    var c := Code([[]], 0, 0, [], false);
    TypedLowers(env, c, e);
    EmittedTypeIs(env, c, e);
  }

  /** In a well-formed statement no loop fails. */
  lemma {:induction false} WellFormedLoopsHold(env: Env, s: Stmt, depth: nat)
    requires WellFormed(env, s, depth)
    ensures NoLoopFails(env, s, depth)
    decreases s
  {
    hide TypeOf, EmittedType;
    match s
    case If(_, t, f) =>
      WellFormedLoopsHold(env, t, depth);
      if f.Some? { WellFormedLoopsHold(env, f.value, depth); }
    case While(cond, body) =>
      TypedIsEmitted(env, cond);
      WellFormedLoopsHold(env, body, depth + 1);
    case For(_, test, _, body) =>
      if test.Some? { TypedIsEmitted(env, test.value); }
      WellFormedLoopsHold(env, body, depth + 1);
    case Block(ss) =>
      forall t | t in ss
        ensures NoLoopFails(env, t, depth)
      {
        WellFormedLoopsHold(env, t, depth);
      }
    case _ =>
  }

  /** `while (5) {}` leaves its body block without a terminator. */
  lemma FailedLoopStrands(env: Env, c: Code)
    requires c.Valid() && |c.loops| < MAX_LOOP_NESTING
    ensures var d := LowerStmt(env, c, While(Atomic(Integer(5)), Block([])));
            IsStranded(c, d, |c.blocks| + 1) && d.hasError
  {
    ValidInsert(c);
    OpenWhileLeavesBody(c);
  }
}
