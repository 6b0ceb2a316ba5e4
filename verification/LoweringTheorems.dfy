/** The main results about lowering: the generated graph and the statement agree, in both
    directions, on how the statement ends, on faults and on divergence. */
module LoweringTheorems {
  import opened Ast
  import opened Graph
  import opened Lowering
  import opened Growth
  import opened ExprSimulation
  import opened StmtSimulation

  /** The statement, with enough fuel, ends in this way. */
  ghost predicate Ends(mode: Mode, s: Stmt, m: Memory, out: Outcome) {
    exists fuel: nat :: Exec(mode, fuel, s, m) == out
  }

  ghost predicate Diverges(mode: Mode, s: Stmt, m: Memory) {
    forall fuel: nat :: Exec(mode, fuel, s, m) == Timeout
  }

  /** Where control may leave the code of a statement lowered from c to d. */
  function Exits(c: Code, d: Code): set<Position>
    requires d.insert < |d.blocks| && d.loops == c.loops
  {
    if c.loops == [] then {ExitAt(d, Normal)}
    else {ExitAt(d, Normal), ExitAt(d, Broke), ExitAt(d, Continued)}
  }

  /** The machine comes, for the first time, to an exit, with this memory. */
  ghost predicate Arrives(g: Blocks, exits: set<Position>, start: Config, p: Position, m: Memory) {
    exists n: nat :: Run(g, exits, start, n).Some? && RunsTo(g, exits, start, n, p, m)
  }

  ghost predicate RunsTo(g: Blocks, exits: set<Position>, start: Config, n: nat, p: Position, m: Memory)
    requires Run(g, exits, start, n).Some?
  {
    Run(g, exits, start, n).value.at == p && p in exits && Run(g, exits, start, n).value.mem == m
  }

  ghost predicate GetsStuck(g: Blocks, exits: set<Position>, start: Config) {
    exists n: nat :: Run(g, exits, start, n).Some? && Stuck(g, exits, Run(g, exits, start, n).value)
  }

  ghost predicate RunsForever(g: Blocks, exits: set<Position>, start: Config) {
    forall n: nat :: Run(g, exits, start, n).Some?
  }

  /** s has been lowered at c into the finished function g, and the machine stands in front of it. */
  ghost predicate Compiled(env: Env, s: Stmt, c: Code, g: Blocks, start: Config) {
    && c.Valid() && WellFormed(env, s, |c.loops|) && MemoryTyped(env, start.mem)
    && Contains(g, LowerStmt(env, c, s)) && start.at == c.Out()
  }

  lemma ExitsAreClear(env: Env, s: Stmt, c: Code)
    requires c.Valid()
    ensures Clear(Exits(c, LowerStmt(env, c, s)), c, LowerStmt(env, c, s))
  {
    hide LowerStmt;
  }

  /** The exits are told apart by their positions. */
  lemma ExitsDiffer(env: Env, s: Stmt, c: Code, x: Exit, y: Exit)
    requires c.Valid() && (c.loops == [] ==> x == y == Normal)
    ensures var d := LowerStmt(env, c, s);
            d.insert < |d.blocks| && d.loops == c.loops && (ExitAt(d, x) == ExitAt(d, y) ==> x == y)
  {
    hide LowerStmt;
  }

  /** Whatever the statement does under the given fuel, the machine does. */
  lemma Forward(env: Env, s: Stmt, c: Code, g: Blocks, start: Config, fuel: nat)
    returns (n: nat, end: Config)
    requires Compiled(env, s, c, g, start)
    ensures var d := LowerStmt(env, c, s);
            && d.insert < |d.blocks| && d.loops == c.loops
            && var exits := Exits(c, d);
            && Run(g, exits, start, n) == Some(end)
            && match Exec(AsEmitted, fuel, s, start.mem)
               case Done(x, m) =>
                 (x != Normal ==> c.loops != []) && end.at == ExitAt(d, x) && end.at in exits && end.mem == m
               case Faulted => Stuck(g, exits, end)
               case Timeout => n >= fuel
  {
    hide LowerStmt, Exec, WellFormed, Contains, Clear, MemoryTyped, StepOf;
    ExitsAreClear(env, s, c);
    n, end := StmtSim(env, s, c, g, Exits(c, LowerStmt(env, c, s)), start, fuel);
  }

  /** How the statement ends is how, and with what memory, the machine leaves the code. */
  lemma LoweringPreservesEnds(env: Env, s: Stmt, c: Code, g: Blocks, start: Config, x: Exit, m: Memory)
    requires Compiled(env, s, c, g, start) && (x != Normal ==> c.loops != [])
    ensures var d := LowerStmt(env, c, s);
            && d.insert < |d.blocks| && d.loops == c.loops
            && (Ends(AsEmitted, s, start.mem, Done(x, m))
                <==> Arrives(g, Exits(c, d), start, ExitAt(d, x), m))
  {
    hide LowerStmt, Exec, Contains, StepOf, WellFormed, Run, Exits, ExitAt;
    ExitsDiffer(env, s, c, x, x);
    var d := LowerStmt(env, c, s);
    var exits := Exits(c, d);
    if fuel: nat :| Exec(AsEmitted, fuel, s, start.mem) == Done(x, m) {
      var n, end := Forward(env, s, c, g, start, fuel);
      assert RunsTo(g, exits, start, n, ExitAt(d, x), m);
    }
    if n: nat :| Run(g, exits, start, n).Some? && RunsTo(g, exits, start, n, ExitAt(d, x), m) {
      ArrivalIsEnd(env, s, c, g, start, x, m, n);
    }
  }

  lemma ArrivalIsEnd(env: Env, s: Stmt, c: Code, g: Blocks, start: Config, x: Exit, m: Memory, n: nat)
    requires Compiled(env, s, c, g, start) && (x != Normal ==> c.loops != [])
    requires var d := LowerStmt(env, c, s);
             && d.insert < |d.blocks| && d.loops == c.loops
             && Run(g, Exits(c, d), start, n).Some? && RunsTo(g, Exits(c, d), start, n, ExitAt(d, x), m)
    ensures Ends(AsEmitted, s, start.mem, Done(x, m))
  {
    hide LowerStmt, Exec, Contains, StepOf, WellFormed, Run, Exits, ExitAt;
    var exits := Exits(c, LowerStmt(env, c, s));
    var n1, end := Forward(env, s, c, g, start, n + 1);
    RunsStopOnce(g, exits, start, n, n1);
    var out := Exec(AsEmitted, n + 1, s, start.mem);
    assert !out.Timeout?;
    RunsStopOnce(g, exits, start, n1, n);
    assert out.Done?;
    ExitsDiffer(env, s, c, x, out.exit);
  }

  /** The machine gets stuck exactly when the statement performs an undefined operation. */
  lemma LoweringPreservesFaults(env: Env, s: Stmt, c: Code, g: Blocks, start: Config)
    requires Compiled(env, s, c, g, start)
    ensures var d := LowerStmt(env, c, s);
            && d.insert < |d.blocks| && d.loops == c.loops
            && (Ends(AsEmitted, s, start.mem, Faulted) <==> GetsStuck(g, Exits(c, d), start))
  {
    hide LowerStmt, Exec, Contains, StepOf, WellFormed;
    var exits := Exits(c, LowerStmt(env, c, s));
    if fuel: nat :| Exec(AsEmitted, fuel, s, start.mem) == Faulted {
      var n, end := Forward(env, s, c, g, start, fuel);
    }
    if n: nat :| Run(g, exits, start, n).Some? && Stuck(g, exits, Run(g, exits, start, n).value) {
      var n1, end := Forward(env, s, c, g, start, n + 1);
      RunsStopOnce(g, exits, start, n, n1);
      assert !Exec(AsEmitted, n + 1, s, start.mem).Timeout?;
      RunsStopOnce(g, exits, start, n1, n);
      assert Exec(AsEmitted, n + 1, s, start.mem) == Faulted;
    }
  }

  /** A statement that never ends keeps the machine inside its code for ever, and only such a one does. */
  lemma LoweringPreservesDivergence(env: Env, s: Stmt, c: Code, g: Blocks, start: Config)
    requires Compiled(env, s, c, g, start)
    ensures var d := LowerStmt(env, c, s);
            && d.insert < |d.blocks| && d.loops == c.loops
            && (Diverges(AsEmitted, s, start.mem) <==> RunsForever(g, Exits(c, d), start))
  {
    hide LowerStmt, Exec, Contains, StepOf, WellFormed;
    var exits := Exits(c, LowerStmt(env, c, s));
    if Diverges(AsEmitted, s, start.mem) {
      forall n: nat
        ensures Run(g, exits, start, n).Some?
      {
        var n1, end := Forward(env, s, c, g, start, n);
        RunsArePrefixClosed(g, exits, start, n, n1);
      }
    }
    if RunsForever(g, exits, start) {
      forall fuel: nat
        ensures Exec(AsEmitted, fuel, s, start.mem) == Timeout
      {
        var n, end := Forward(env, s, c, g, start, fuel);
        if !Exec(AsEmitted, fuel, s, start.mem).Timeout? {
          RunsStopOnce(g, exits, start, n, n + 1);
        }
      }
    }
  }

  // ---------- The error flag ----------

  /** A well-formed statement is emitted without an error. */
  lemma {:induction false} WellFormedEmitsCleanly(env: Env, s: Stmt, c: Code)
    requires c.Valid() && WellFormed(env, s, |c.loops|) && !c.hasError
    ensures !LowerStmt(env, c, s).hasError
    decreases s, 1
  {
    match s
    case Expression(_) =>
    case If(_, _, _) =>
      hide LowerExpr, OpenIf, WellFormed, TypeOf;
      IfEmitsCleanly(env, s, c);
    case While(_, _) =>
      WhileEmitsCleanly(env, s, c);
    case For(_, _, _, _) =>
      ForEmitsCleanly(env, s, c);
    case Break =>
    case Continue =>
    case Block(ss) => SeqEmitsCleanly(env, ss, c);
  }

  lemma {:induction false} SeqEmitsCleanly(env: Env, ss: seq<Stmt>, c: Code)
    requires c.Valid() && (forall t :: t in ss ==> WellFormed(env, t, |c.loops|)) && !c.hasError
    ensures !LowerSeq(env, c, ss).hasError
    decreases ss, 0
  {
    if ss != [] {
      WellFormedEmitsCleanly(env, ss[0], c);
      SeqEmitsCleanly(env, ss[1..], LowerStmt(env, c, ss[0]));
    }
  }

  lemma {:induction false} IfEmitsCleanly(env: Env, s: Stmt, c: Code)
    requires c.Valid() && s.If? && WellFormed(env, s, |c.loops|)
    ensures !LowerIf(env, c, s).hasError
    decreases s, 0
  {
    hide LowerExpr, OpenIf, TypeOf, LowerIf, LowerStmt, RoomForArms, Code.Valid;
    ValidInsert(c);
    LowerIfIs(env, s, c);
    var r := LowerExpr(env, c.ClearError(), s.cond);
    var c1 := OpenIf(r.code, r.value.value.operand);
    ArmsFit(c1);
    WellFormedEmitsCleanly(env, s.thenBranch, c1);
    var c2 := FinishThen(env, c1, s);
    if s.elseBranch.Some? {
      WellFormedEmitsCleanly(env, s.elseBranch.value, c2);
    }
  }

  lemma ArmsFit(c: Code)
    requires RoomForArms(c)
    ensures c.Valid()
  {
  }

  lemma {:induction false} WhileEmitsCleanly(env: Env, s: Stmt, c: Code)
    requires c.Valid() && s.While? && WellFormed(env, s, |c.loops|)
    ensures !LowerWhile(env, c, s).hasError
    decreases s, 0
  {
    hide LowerExpr, TypeOf, LowerWhile, LowerStmt, Code.Valid, WellFormed;
    ValidInsert(c);
    LowerWhileIs(env, s, c);
    WellFormedEmitsCleanly(env, s.body, WhileBody(env, c, s));
  }

  lemma {:induction false} ForEmitsCleanly(env: Env, s: Stmt, c: Code)
    requires c.Valid() && s.For? && WellFormed(env, s, |c.loops|)
    ensures !LowerFor(env, c, s).hasError
    decreases s, 0
  {
    hide LowerExpr, TypeOf, LowerFor, LowerStmt, Code.Valid, WellFormed, LowerOptional;
    ValidInsert(c);
    LowerForIs(env, s, c);
    WellFormedEmitsCleanly(env, s.body, ForBody(env, c, s));
  }

  lemma TwoInSequence(env: Env, c: Code, a: Stmt, b: Stmt)
    requires c.Valid()
    ensures LowerSeq(env, c, [a, b]) == LowerStmt(env, LowerStmt(env, c, a), b)
  {
    hide LowerStmt;
    var first := LowerStmt(env, c, a);
    var last := LowerStmt(env, first, b);
    assert [a, b][0] == a && [a, b][1..] == [b] && [b][0] == b && [b][1..] == [];
    assert LowerSeq(env, c, [a, b]) == LowerSeq(env, first, [b]);
    assert LowerSeq(env, first, [b]) == LowerSeq(env, last, []);
    assert LowerSeq(env, last, []) == last;
  }

  /** Nothing but expressions, in blocks or not. */
  predicate OnlyExpressions(s: Stmt) {
    match s
    case Expression(_) => true
    case Block(ss) => forall t :: t in ss ==> OnlyExpressions(t)
    case _ => false
  }

  /** The expression emitter neither looks at the error flag nor changes it. */
  lemma {:induction false} ExpressionsIgnoreTheFlag(env: Env, c: Code, e: Expr, flag: bool)
    requires c.insert < |c.blocks|
    ensures LowerExpr(env, c.(hasError := flag), e) == Flagged(LowerExpr(env, c, e), flag)
    decreases e, 1
  {
    match e
    case Unary(_, child) => ExpressionsIgnoreTheFlag(env, c, child, flag);
    case Binary(op, l, r) =>
      hide LowerExpr;
      OperatorsIgnoreTheFlag(env, c, e, flag);
      LowersOperator(env, c, e);
      LowersOperator(env, c.(hasError := flag), e);
    case Ternary(_, _, _) =>
      hide LowerExpr;
      TernariesIgnoreTheFlag(env, c, e, flag);
      LowersTernary(env, c, e);
      LowersTernary(env, c.(hasError := flag), e);
    case Grouping(child) => ExpressionsIgnoreTheFlag(env, c, child, flag);
    case _ =>
  }

  function Flagged(r: Lowered, flag: bool): Lowered {
    r.(code := r.code.(hasError := flag))
  }

  lemma LowersOperator(env: Env, c: Code, e: Expr)
    requires c.insert < |c.blocks| && e.Binary?
    ensures LowerExpr(env, c, e) == if IsAssignment(e.opcode) then LowerAssign(env, c, e) else LowerBinary(env, c, e)
  {
  }

  lemma LowersTernary(env: Env, c: Code, e: Expr)
    requires c.insert < |c.blocks| && e.Ternary?
    ensures LowerExpr(env, c, e) == LowerTernary(env, c, e)
  {
  }

  lemma {:induction false} OperatorsIgnoreTheFlag(env: Env, c: Code, e: Expr, flag: bool)
    requires c.insert < |c.blocks| && e.Binary?
    ensures IsAssignment(e.opcode) ==>
              LowerAssign(env, c.(hasError := flag), e) == Flagged(LowerAssign(env, c, e), flag)
    ensures !IsAssignment(e.opcode) ==>
              LowerBinary(env, c.(hasError := flag), e) == Flagged(LowerBinary(env, c, e), flag)
    decreases e, 0
  {
    hide LowerExpr, MachineOpOf;
    if IsAssignment(e.opcode) {
      ExpressionsIgnoreTheFlag(env, c, e.right, flag);
    } else {
      ExpressionsIgnoreTheFlag(env, c, e.left, flag);
      ExpressionsIgnoreTheFlag(env, LowerExpr(env, c, e.left).code, e.right, flag);
    }
  }

  lemma {:induction false} TernariesIgnoreTheFlag(env: Env, c: Code, e: Expr, flag: bool)
    requires c.insert < |c.blocks| && e.Ternary?
    ensures LowerTernary(env, c.(hasError := flag), e) == Flagged(LowerTernary(env, c, e), flag)
    decreases e, 0
  {
    hide LowerExpr, JoinArms;
    ExpressionsIgnoreTheFlag(env, c, e.condition, flag);
    var c1 := LowerExpr(env, c, e.condition).code;
    ExpressionsIgnoreTheFlag(env, c1, e.thenPath, flag);
    var c2 := LowerExpr(env, c1, e.thenPath).code;
    ExpressionsIgnoreTheFlag(env, c2, e.elsePath, flag);
    var r1, r2, r3 := LowerExpr(env, c, e.condition), LowerExpr(env, c1, e.thenPath), LowerExpr(env, c2, e.elsePath);
    if r1.value.Some? && r2.value.Some? && r3.value.Some? {
      JoinIgnoresTheFlag(r3.code, r1.value.value.operand, r2.value.value, r3.value.value, flag);
    }
  }

  lemma JoinIgnoresTheFlag(c: Code, test: Operand, t: TypedOperand, f: TypedOperand, flag: bool)
    requires c.insert < |c.blocks|
    ensures JoinArms(c.(hasError := flag), test, t, f) == Flagged(JoinArms(c, test, t, f), flag)
  {
  }

  /** A branch, loop or jump starts by clearing the flag, or ends with setting it at once, so an
      earlier error makes no difference to it. */
  lemma ControlFlowForgets(env: Env, c: Code, s: Stmt)
    requires c.Valid() && !s.Expression? && !s.Block?
    ensures c.Failed().Valid() && c.ClearError().Valid()
    ensures LowerStmt(env, c.Failed(), s) == LowerStmt(env, c.ClearError(), s)
  {
    FlagIsNoInvariant(c);
    match s
    case If(_, _, _) =>
      hide LowerIf;
      IfForgets(env, c, s);
    case While(_, _) =>
      hide LowerWhile;
      WhileForgets(env, c, s);
    case For(_, _, _, _) =>
      hide LowerFor;
      ForForgets(env, c, s);
    case _ =>
  }

  lemma IfForgets(env: Env, c: Code, s: Stmt)
    requires c.Valid() && c.Failed().Valid() && c.ClearError().Valid() && s.If?
    ensures LowerIf(env, c.Failed(), s) == LowerIf(env, c.ClearError(), s)
  {
    hide FinishIf, LowerExpr, OpenIf, Code.Valid, RoomForArms;
    assert c.Failed().ClearError() == c.ClearError().ClearError();
  }

  lemma WhileForgets(env: Env, c: Code, s: Stmt)
    requires c.Valid() && c.Failed().Valid() && c.ClearError().Valid() && s.While?
    ensures LowerWhile(env, c.Failed(), s) == LowerWhile(env, c.ClearError(), s)
  {
    hide FinishWhile, LowerExpr, OpenWhile, Code.Valid, Code.Close;
    ValidInsert(c);
    OpenForgets(env, c, s);
  }

  lemma ForForgets(env: Env, c: Code, s: Stmt)
    requires c.Valid() && c.Failed().Valid() && c.ClearError().Valid() && s.For?
    ensures LowerFor(env, c.Failed(), s) == LowerFor(env, c.ClearError(), s)
  {
    hide FinishFor, LowerOptional, OpenFor, Code.Valid, Code.Close;
    ValidInsert(c);
    OpenForgets(env, c, s);
  }

  lemma OpenForgets(env: Env, c: Code, s: Stmt)
    requires c.insert < |c.blocks|
    ensures OpenWhile(c.Failed()) == OpenWhile(c.ClearError())
    ensures s.For? ==> OpenFor(env, c.Failed(), s) == OpenFor(env, c.ClearError(), s)
  {
    hide LowerOptional, Code.CreateBlocks;
    assert c.Failed().ClearError() == c.ClearError().ClearError();
  }

  lemma FlagIsNoInvariant(c: Code)
    requires c.Valid()
    ensures c.Failed().Valid() && c.ClearError().Valid()
    ensures c.hasError ==> c == c.Failed()
    ensures !c.hasError ==> c == c.ClearError()
  {
  }

  /** An error reported earlier is still reported after a statement if and only if the statement is
      nothing but expressions, or is itself emitted with an error; the code is the same. */
  lemma {:induction false} ErrorsAreKeptExactly(env: Env, c: Code, s: Stmt)
    requires c.Valid()
    ensures c.Failed().Valid() && c.ClearError().Valid()
    ensures LowerStmt(env, c.Failed(), s).hasError <==>
              OnlyExpressions(s) || LowerStmt(env, c.ClearError(), s).hasError
    ensures LowerStmt(env, c.Failed(), s).ClearError() == LowerStmt(env, c.ClearError(), s).ClearError()
    decreases s, 1
  {
    FlagIsNoInvariant(c);
    match s
    case Expression(e) =>
      ExpressionsIgnoreTheFlag(env, c, e, true);
      ExpressionsIgnoreTheFlag(env, c, e, false);
    case Block(ss) => SequencesKeepErrorsExactly(env, c, ss);
    case _ => ControlFlowForgets(env, c, s);
  }

  lemma {:induction false} SequencesKeepErrorsExactly(env: Env, c: Code, ss: seq<Stmt>)
    requires c.Valid()
    ensures c.Failed().Valid() && c.ClearError().Valid()
    ensures LowerSeq(env, c.Failed(), ss).hasError <==>
              (forall t :: t in ss ==> OnlyExpressions(t)) || LowerSeq(env, c.ClearError(), ss).hasError
    ensures LowerSeq(env, c.Failed(), ss).ClearError() == LowerSeq(env, c.ClearError(), ss).ClearError()
    decreases ss, 0
  {
    hide LowerStmt, OnlyExpressions, Code.Valid;
    FlagIsNoInvariant(c);
    if ss != [] {
      ErrorsAreKeptExactly(env, c, ss[0]);
      var y := LowerStmt(env, c.ClearError(), ss[0]);
      FlagIsNoInvariant(y);
      SequencesKeepErrorsExactly(env, y, ss[1..]);
      assert LowerStmt(env, c.Failed(), ss[0]) ==
        (if LowerStmt(env, c.Failed(), ss[0]).hasError then y.Failed() else y.ClearError());
    }
  }

  /** So emission may end without an error after one was reported: the flag of any failing statement
      is cleared by any well-formed one behind it that is more than expressions. */
  lemma ErrorIsForgotten(env: Env, c: Code, failing: Stmt, next: Stmt)
    requires c.Valid() && LowerStmt(env, c, failing).hasError
    requires WellFormed(env, next, |c.loops|) && !OnlyExpressions(next)
    ensures !LowerStmt(env, c, Block([failing, next])).hasError
  {
    hide LowerStmt, WellFormed, LowerSeq, OnlyExpressions, Code.Valid;
    var d := LowerStmt(env, c, failing);
    TwoInSequence(env, c, failing, next);
    FlagIsNoInvariant(d);
    ErrorsAreKeptExactly(env, d, next);
    WellFormedEmitsCleanly(env, next, d.ClearError());
    BlockIsSequence(env, c, [failing, next]);
  }

  lemma BlockIsSequence(env: Env, c: Code, ss: seq<Stmt>)
    requires c.Valid()
    ensures LowerStmt(env, c, Block(ss)) == LowerSeq(env, c, ss)
  {
  }

  // ---------- The condition of a for ----------

  /** The instruction at this place of the graph. */
  predicate Holds(d: Code, b: nat, k: nat, i: Instr) {
    b < |d.blocks| && k < |d.blocks[b]| && d.blocks[b][k] == i
  }

  /** Behind the code of its condition a for branches on the constant true, without an error so far,
      if and only if the condition is absent, has no code, or is that constant. */
  lemma ForDefaultsExactly(env: Env, c: Code, s: Stmt)
    requires c.Valid() && s.For? && |c.loops| < MAX_LOOP_NESTING
    ensures
      var n := |c.blocks|;
      var r := LowerOptional(env, OpenFor(env, c, s), s.test);
      && !r.code.hasError
      && (Holds(LowerFor(env, c, s), r.code.insert, |r.code.blocks[r.code.insert]|,
                CondBr(Const(BoolValue(true)), n + 1, n + 3))
          <==> r.value.None? || (r.value.value.ty == Bool && r.value.value.operand == Const(BoolValue(true))))
  {
    hide LowerOptional, FinishFor, LowerStmt, Code.Valid, Grew;
    ValidInsert(c);
    var n := |c.blocks|;
    var r := LowerOptional(env, OpenFor(env, c, s), s.test);
    if r.value.None? || r.value.value.ty == Bool {
      var b := r.code.Close(CondBr(TestOperand(r), n + 1, n + 3), n + 1);
      ValidInLoop(c, b, LoopTarget(n + 3, n + 2));
      FinishForKeeps(env, b, s, n, r.code.insert);
    }
  }

  /** Body and post-clause leave every other block of the loop as it was. */
  lemma FinishForKeeps(env: Env, c: Code, s: Stmt, n: nat, b: nat)
    requires c.Valid() && s.For? && c.loops != [] && n + 3 < |c.blocks| && c.insert == n + 1
    requires b < |c.blocks| && b != n + 1 && b != n + 2
    ensures FinishFor(env, c, s, n).blocks[b] == c.blocks[b]
  {
    hide LowerStmt, LowerOptional, Code.Valid;
    ValidInsert(c);
    StmtGrows(env, c, s.body);
    var c1 := LowerStmt(env, c, s.body).Close(Br(n + 2), n + 2);
    OptionalGrows(env, c1, s.post);
  }

  /** A for whose condition is an undeclared name is emitted as one without a condition, which only a
      jump leaves, and without an error. */
  lemma UndeclaredTestIsNoTest(env: Env, c: Code, x: string, pre: Option<Expr>, post: Option<Expr>, body: Stmt)
    requires c.Valid() && x !in env && WellFormed(env, For(pre, None, post, body), |c.loops|)
    ensures LowerStmt(env, c, For(pre, Some(Atomic(Identifier(x))), post, body)) ==
              LowerStmt(env, c, For(pre, None, post, body))
    ensures !LowerStmt(env, c, For(pre, Some(Atomic(Identifier(x))), post, body)).hasError
  {
    hide LowerStmt, LowerFor, WellFormed, Code.Valid;
    var with, without := For(pre, Some(Atomic(Identifier(x))), post, body), For(pre, None, post, body);
    TestWithoutCode(env, c, x, with, without);
    FlagIsNoInvariant(c);
    ControlFlowForgets(env, c, without);
    WellFormedEmitsCleanly(env, without, c.ClearError());
  }

  lemma TestWithoutCode(env: Env, c: Code, x: string, with: Stmt, without: Stmt)
    requires c.Valid() && x !in env && with.For? && without == with.(test := None)
    requires with.test == Some(Atomic(Identifier(x)))
    ensures LowerStmt(env, c, with) == LowerStmt(env, c, without)
  {
    hide LowerFor, OpenFor, FinishFor, LowerExpr, Code.Valid;
    ForWithoutCode(env, c, x, with, without);
  }

  lemma ForWithoutCode(env: Env, c: Code, x: string, with: Stmt, without: Stmt)
    requires c.Valid() && x !in env && with.For? && without == with.(test := None)
    requires with.test == Some(Atomic(Identifier(x)))
    ensures LowerFor(env, c, with) == LowerFor(env, c, without)
  {
    hide LowerExpr, LowerStmt, Code.Valid;
    ValidInsert(c);
    var o := OpenFor(env, c, with);
    assert OpenFor(env, c, without) == o;
    NoCodeForUndeclared(env, o, x);
    assert LowerOptional(env, o, with.test) == Lowered(o, None) == LowerOptional(env, o, without.test);
    if |c.loops| < MAX_LOOP_NESTING {
      var n := |c.blocks|;
      var b := o.Close(CondBr(Const(BoolValue(true)), n + 1, n + 3), n + 1);
      ValidInLoop(c, b, LoopTarget(n + 3, n + 2));
      assert FinishFor(env, b, with, n) == FinishFor(env, b, without, n);
    }
  }

  lemma NoCodeForUndeclared(env: Env, c: Code, x: string)
    requires c.insert < |c.blocks| && x !in env
    ensures LowerExpr(env, c, Atomic(Identifier(x))) == Lowered(c, None)
  {
  }
}
