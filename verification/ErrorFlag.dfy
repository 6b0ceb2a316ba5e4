/** Exactly when a statement leaves the emitter's error flag set, read off the text. */
module ErrorFlag {
  import opened Ast
  import opened Lowering
  import opened Growth
  import opened StmtSimulation
  import opened GraphShape
  import opened LoweringTheorems
  import opened Stranded

  /** Whether there is an error after the statement, inside depth loops, if before says whether there
      was one. A jump needs a loop; a loop may stand in 63 others; the condition of an if or a while
      must be emitted as a boolean, that of a for must not be emitted as anything else. Control flow
      that gets beyond this starts without an error; expressions look at none. */
  function LeavesError(env: Env, s: Stmt, depth: nat, before: bool): bool
    decreases s, 0
  {
    match s
    case Expression(_) => before
    case Break => depth == 0
    case Continue => depth == 0
    case If(c, t, f) =>
      EmittedType(env, c) != Some(Bool) ||
      var arm := LeavesError(env, t, depth, false);
      if f.None? then arm else LeavesError(env, f.value, depth, arm)
    case While(c, body) =>
      depth >= 64 || EmittedType(env, c) != Some(Bool) || LeavesError(env, body, depth + 1, false)
    case For(_, test, _, body) =>
      || depth >= 64 || (test.Some? && EmittedType(env, test.value) == Some(Int))
      || LeavesError(env, body, depth + 1, false)
    case Block(ss) => SequenceLeavesError(env, ss, depth, before)
  }

  function SequenceLeavesError(env: Env, ss: seq<Stmt>, depth: nat, before: bool): bool
    decreases ss, 0
  {
    if ss == [] then before
    else SequenceLeavesError(env, ss[1..], depth, LeavesError(env, ss[0], depth, before))
  }

  /** For every statement, in every state of the emitter. */
  lemma {:induction false} ErrorIsReported(env: Env, c: Code, s: Stmt)
    requires c.Valid()
    ensures LowerStmt(env, c, s).hasError == LeavesError(env, s, |c.loops|, c.hasError)
    decreases s, 2
  {
    match s
    case Expression(_) =>
    case Break =>
    case Continue =>
    case If(_, _, _) => IfReports(env, c, s);
    case While(_, _) => WhileReports(env, c, s);
    case For(_, _, _, _) => ForReports(env, c, s);
    case Block(ss) => SequenceReports(env, c, ss);
  }

  lemma {:induction false} SequenceReports(env: Env, c: Code, ss: seq<Stmt>)
    requires c.Valid()
    ensures LowerSeq(env, c, ss).hasError == SequenceLeavesError(env, ss, |c.loops|, c.hasError)
    decreases ss, 0
  {
    hide LowerStmt, LeavesError;
    if ss != [] {
      ErrorIsReported(env, c, ss[0]);
      SequenceReports(env, LowerStmt(env, c, ss[0]), ss[1..]);
    }
  }

  lemma {:induction false} IfReports(env: Env, c: Code, s: Stmt)
    requires c.Valid() && s.If?
    ensures LowerIf(env, c, s).hasError == LeavesError(env, s, |c.loops|, c.hasError)
    decreases s, 1
  {
    hide LowerIf, LowerExpr, OpenIf, FinishIf, EmittedType, Code.Valid, RoomForArms;
    IfGoes(env, c, s);
    if EmittedType(env, s.cond) == Some(Bool) {
      var r := LowerExpr(env, c.ClearError(), s.cond);
      ArmsReport(env, OpenIf(r.code, r.value.value.operand), s);
    }
  }

  lemma {:induction false} ArmsReport(env: Env, c: Code, s: Stmt)
    requires RoomForArms(c) && s.If? && !c.hasError && EmittedType(env, s.cond) == Some(Bool)
    ensures FinishIf(env, c, s).hasError == LeavesError(env, s, |c.loops|, false)
    decreases s, 0
  {
    hide LowerStmt, EmittedType, Code.Valid;
    ErrorIsReported(env, c, s.thenBranch);
    var c2 := FinishThen(env, c, s);
    if s.elseBranch.Some? { ErrorIsReported(env, c2, s.elseBranch.value); }
  }

  lemma {:induction false} WhileReports(env: Env, c: Code, s: Stmt)
    requires c.Valid() && s.While?
    ensures LowerWhile(env, c, s).hasError == LeavesError(env, s, |c.loops|, c.hasError)
    decreases s, 1
  {
    hide LowerWhile, LowerExpr, LowerStmt, EmittedType, Code.Valid;
    WhileGoes(env, c, s);
    if |c.loops| < MAX_LOOP_NESTING && EmittedType(env, s.cond) == Some(Bool) {
      ErrorIsReported(env, WhileBody(env, c, s), s.body);
    }
  }

  lemma {:induction false} ForReports(env: Env, c: Code, s: Stmt)
    requires c.Valid() && s.For?
    ensures LowerFor(env, c, s).hasError == LeavesError(env, s, |c.loops|, c.hasError)
    decreases s, 1
  {
    hide LowerFor, LowerOptional, LowerStmt, EmittedType, Code.Valid;
    ForGoes(env, c, s);
    assert !OpenFor(env, c, s).hasError && !ForTest(env, c, s).code.hasError;
    TakenUnlessInteger(env, s.test);
    if |c.loops| < MAX_LOOP_NESTING && TestIsTaken(env, s.test) {
      FinishForIs(env, s, c);
      ErrorIsReported(env, ForBody(env, c, s), s.body);
    }
  }

  lemma TakenUnlessInteger(env: Env, test: Option<Expr>)
    ensures TestIsTaken(env, test) <==> !(test.Some? && EmittedType(env, test.value) == Some(Int))
  {
    if test.Some? {
      match EmittedType(env, test.value)
      case None =>
      case Some(Int) =>
      case Some(Bool) =>
    }
  }

  /** A jump outside every loop is an error, whatever was emitted before. */
  lemma JumpsOutsideLoopsFail(env: Env, c: Code)
    requires c.Valid() && c.loops == []
    ensures LowerStmt(env, c, Break).hasError && LowerStmt(env, c, Continue).hasError
  {
    hide LowerStmt;
    ErrorIsReported(env, c, Break);
    ErrorIsReported(env, c, Continue);
  }

  // ---------- Well-formed statements ----------

  /** All expressions in the statement have a type. */
  predicate ExpressionsTyped(env: Env, s: Stmt) {
    match s
    case Expression(e) => TypeOf(env, e).Some?
    case If(c, t, f) =>
      TypeOf(env, c).Some? && ExpressionsTyped(env, t) && (f.Some? ==> ExpressionsTyped(env, f.value))
    case While(c, body) => TypeOf(env, c).Some? && ExpressionsTyped(env, body)
    case For(pre, test, post, body) =>
      && OptionalTyped(env, pre) && OptionalTyped(env, test) && OptionalTyped(env, post) && ExpressionsTyped(env, body)
    case Block(ss) => forall t :: t in ss ==> ExpressionsTyped(env, t)
    case _ => true
  }

  /** Neither the statement nor any in it reports an error. */
  predicate NothingFails(env: Env, s: Stmt, depth: nat)
    decreases s
  {
    !LeavesError(env, s, depth, false) &&
    match s
    case If(_, t, f) => NothingFails(env, t, depth) && (f.Some? ==> NothingFails(env, f.value, depth))
    case While(_, body) => NothingFails(env, body, depth + 1)
    case For(_, _, _, body) => NothingFails(env, body, depth + 1)
    case Block(ss) => forall t :: t in ss ==> NothingFails(env, t, depth)
    case _ => true
  }

  /** The well-formed statements are exactly those of typed expressions in which nothing fails. */
  lemma {:induction false} WellFormedIsExact(env: Env, s: Stmt, depth: nat)
    ensures WellFormed(env, s, depth) <==> ExpressionsTyped(env, s) && NothingFails(env, s, depth)
    decreases s
  {
    hide TypeOf, EmittedType;
    match s
    case Expression(_) =>
    case If(c, t, f) =>
      if TypeOf(env, c).Some? { TypedIsEmitted(env, c); }
      WellFormedIsExact(env, t, depth);
      if f.Some? { WellFormedIsExact(env, f.value, depth); }
    case While(c, body) =>
      if TypeOf(env, c).Some? { TypedIsEmitted(env, c); }
      WellFormedIsExact(env, body, depth + 1);
    case For(_, test, _, body) =>
      if test.Some? && TypeOf(env, test.value).Some? { TypedIsEmitted(env, test.value); }
      TakenUnlessInteger(env, test);
      WellFormedIsExact(env, body, depth + 1);
    case Break =>
    case Continue =>
    case Block(ss) =>
      forall t | t in ss
        ensures WellFormed(env, t, depth) <==> ExpressionsTyped(env, t) && NothingFails(env, t, depth)
      {
        WellFormedIsExact(env, t, depth);
      }
      CleanSequence(env, ss, depth);
  }

  lemma {:induction false} CleanSequence(env: Env, ss: seq<Stmt>, depth: nat)
    ensures (forall t :: t in ss ==> NothingFails(env, t, depth)) ==> !SequenceLeavesError(env, ss, depth, false)
  {
    hide LeavesError;
    if ss != [] && forall t :: t in ss ==> NothingFails(env, t, depth) {
      assert NothingFails(env, ss[0], depth);
      CleanSequence(env, ss[1..], depth);
    }
  }
}
