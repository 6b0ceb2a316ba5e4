/** Running the graph generated for a statement does what the statement means: it leaves the
    generated code where and with what memory the statement ends, is stuck where the statement
    is undefined, and stays inside for as long as the statement runs. */
module StmtSimulation {
  import opened Ast
  import opened Graph
  import opened Lowering
  import opened Growth
  import opened ExprSimulation

  // ---------- Statements the emitters accept without complaint ----------

  predicate OptionalTyped(env: Env, e: Option<Expr>) {
    e.Some? ==> TypeOf(env, e.value).Some?
  }

  /** Conditions are boolean, expressions well typed, jumps inside a loop, loops at most 64 deep. */
  predicate WellFormed(env: Env, s: Stmt, depth: nat)
    decreases s
  {
    match s
    case Expression(e) => TypeOf(env, e).Some?
    case If(c, t, f) =>
      TypeOf(env, c) == Some(Bool) && WellFormed(env, t, depth) && (f.Some? ==> WellFormed(env, f.value, depth))
    case While(c, body) =>
      TypeOf(env, c) == Some(Bool) && depth < MAX_LOOP_NESTING && WellFormed(env, body, depth + 1)
    case For(pre, test, post, body) =>
      && OptionalTyped(env, pre) && OptionalTyped(env, post)
      && (test.Some? ==> TypeOf(env, test.value) == Some(Bool))
      && depth < MAX_LOOP_NESTING && WellFormed(env, body, depth + 1)
    case Break => depth > 0
    case Continue => depth > 0
    case Block(ss) => forall t :: t in ss ==> WellFormed(env, t, depth)
  }

  // ---------- Memory stays well typed ----------

  lemma EvalIfIsTyped(mode: Mode, env: Env, e: Option<Expr>, m: Memory)
    requires OptionalTyped(env, e) && MemoryTyped(env, m)
    ensures var out := EvalIf(mode, e, m, BoolValue(true));
            out.Some? ==>
              && MemoryTyped(env, out.value.1)
              && (e.Some? ==> TypeOfValue(out.value.0) == TypeOf(env, e.value).value)
  {
    if e.Some? {
      EvaluationIsTyped(mode, env, e.value, m);
    }
  }

  lemma {:induction false} ExecIsTyped(mode: Mode, fuel: nat, env: Env, s: Stmt, depth: nat, m: Memory)
    requires WellFormed(env, s, depth) && MemoryTyped(env, m)
    ensures var out := Exec(mode, fuel, s, m);
            out.Done? ==> MemoryTyped(env, out.mem) && (out.exit != Normal ==> depth > 0)
    decreases fuel, s, 0
  {
    match s
    case Expression(e) => EvaluationIsTyped(mode, env, e, m);
    case If(c, t, f) =>
      EvaluationIsTyped(mode, env, c, m);
      if Eval(mode, c, m).Some? {
        var m1 := Eval(mode, c, m).value.1;
        ExecIsTyped(mode, fuel, env, t, depth, m1);
        if f.Some? {
          ExecIsTyped(mode, fuel, env, f.value, depth, m1);
        }
      }
    case While(c, body) => LoopIsTyped(mode, fuel, env, Some(c), None, body, depth + 1, m);
    case For(pre, test, post, body) =>
      EvalIfIsTyped(mode, env, pre, m);
      var out := EvalIf(mode, pre, m, BoolValue(true));
      if out.Some? {
        LoopIsTyped(mode, fuel, env, test, post, body, depth + 1, out.value.1);
      }
    case Break =>
    case Continue =>
    case Block(ss) => SeqIsTyped(mode, fuel, env, ss, depth, m);
  }

  lemma {:induction false} SeqIsTyped(mode: Mode, fuel: nat, env: Env, ss: seq<Stmt>, depth: nat, m: Memory)
    requires (forall t :: t in ss ==> WellFormed(env, t, depth)) && MemoryTyped(env, m)
    ensures var out := ExecSeq(mode, fuel, ss, m);
            out.Done? ==> MemoryTyped(env, out.mem) && (out.exit != Normal ==> depth > 0)
    decreases fuel, ss, 0
  {
    if ss != [] {
      ExecIsTyped(mode, fuel, env, ss[0], depth, m);
      var first := Exec(mode, fuel, ss[0], m);
      if first.Done? {
        SeqIsTyped(mode, fuel, env, ss[1..], depth, first.mem);
      }
    }
  }

  lemma {:induction false} LoopIsTyped(mode: Mode, fuel: nat, env: Env, test: Option<Expr>, post: Option<Expr>,
                                       body: Stmt, depth: nat, m: Memory)
    requires WellFormed(env, body, depth) && MemoryTyped(env, m)
    requires OptionalTyped(env, test) && OptionalTyped(env, post)
    ensures var out := ExecLoop(mode, fuel, test, post, body, m);
            out.Done? ==> MemoryTyped(env, out.mem) && out.exit == Normal
    decreases fuel, body, 1
  {
    hide Exec, EvalIf, MemoryTyped, TypeOf, WellFormed;
    if fuel > 0 {
      EvalIfIsTyped(mode, env, test, m);
      var v := EvalIf(mode, test, m, BoolValue(true));
      if v.Some? {
        ExecIsTyped(mode, fuel, env, body, depth, v.value.1);
        var once := Exec(mode, fuel, body, v.value.1);
        if once.Done? {
          EvalIfIsTyped(mode, env, post, once.mem);
          var after := EvalIf(mode, post, once.mem, BoolValue(true));
          if after.Some? {
            LoopIsTyped(mode, fuel - 1, env, test, post, body, depth, after.value.1);
          }
        }
      }
    }
  }

  // ---------- Where a statement leaves the graph ----------

  function ExitAt(d: Code, x: Exit): Position
    requires d.insert < |d.blocks| && (x != Normal ==> d.loops != [])
  {
    match x
    case Normal => d.Out()
    case Broke => Position(d.loops[|d.loops| - 1].endBlock, 0)
    case Continued => Position(d.loops[|d.loops| - 1].contBlock, 0)
  }

  /** The machine's n steps from start match the outcome of the statement. */
  ghost predicate Matches(g: Blocks, exits: set<Position>, start: Config, n: nat, end: Config,
                          d: Code, normal: Position, fuel: nat, out: Outcome)
    requires d.insert < |d.blocks|
  {
    && Run(g, exits, start, n) == Some(end)
    && match out
       case Done(x, m) =>
         && (x != Normal ==> d.loops != [])
         && end.at == (if x == Normal then normal else ExitAt(d, x)) && end.mem == m
       case Faulted => Stuck(g, exits, end)
       case Timeout => n >= fuel
  }

  // ---------- Pieces of a generated statement ----------

  /** The first piece, generated from c on, when generation ends in a block made after it. */
  lemma ClearFirst(exits: set<Position>, c: Code, m: Code, d: Code)
    requires c.insert < |c.blocks| && |m.blocks| <= d.insert < |d.blocks|
    requires Grew(c, m) && Clear(exits, c, d)
    ensures m.insert < |m.blocks| && Clear(exits, c, m) && m.Out() !in exits
  {
    forall p | p in exits
      ensures !Inside(c, m, p)
    {
      assert !Inside(c, d, p);
    }
    assert Inside(c, d, m.Out());
  }

  /** A piece from c1 to e1, ended with i, generation going on in another block b, as part of
      what is generated from c to d. */
  lemma PieceShape(g: Blocks, exits: set<Position>, c: Code, c1: Code, e1: Code, i: Instr, b: nat, d: Code)
    requires c.insert < |c.blocks| <= |c1.blocks| && c1.insert < |c1.blocks| && Grew(c1, e1)
    requires |c.blocks| <= c1.insert || (c1.insert == c.insert && c1.blocks[c.insert] == c.blocks[c.insert])
    requires b < |c1.blocks| && b != c1.insert
    requires |e1.blocks| <= |d.blocks| && d.insert < |c1.blocks| && d.insert != c1.insert
    requires Clear(exits, c, d) && Contains(g, e1.Close(i, b))
    ensures e1.insert < |e1.blocks|
    ensures Contains(g, e1.Emit(i)) && Contains(g, c1) && Contains(g, e1)
    ensures Clear(exits, c1, e1) && e1.Out() !in exits
  {
    GrewReflexive(e1);
    GrewEmit(e1, e1, i);
    ContainsEarlier(g, e1, e1.Emit(i));
    assert e1.Close(i, b).blocks == e1.Emit(i).blocks;
    ContainsAlike(g, e1.Close(i, b), e1.Emit(i));
    GrewEmit(c1, e1, i);
    ContainsEarlier(g, c1, e1.Emit(i));
    hide Contains, Grew;
    GrewSize(c1, e1);
    forall p | p in exits
      ensures !Inside(c1, e1, p)
    {
      assert !Inside(c, d, p);
    }
    assert Inside(c, d, e1.Out());
  }

  /** Behind the piece, the other blocks are as they were. */
  lemma OtherBlocksKept(c1: Code, e1: Code, i: Instr, b: nat)
    requires c1.insert < |c1.blocks| && Grew(c1, e1)
    ensures e1.insert < |e1.blocks|
    ensures forall j :: 0 <= j < |c1.blocks| && j != c1.insert ==> e1.Close(i, b).blocks[j] == c1.blocks[j]
  {
  }

  /** A jump emitted behind m: a run that has come to the end of m takes it. */
  lemma JumpStep(g: Blocks, exits: set<Position>, m: Code, i: Instr, start: Config, n: nat, mid: Config)
    requires m.insert < |m.blocks| && Contains(g, m.Emit(i)) && m.Out() !in exits
    requires Run(g, exits, start, n) == Some(mid) && mid.at == m.Out()
    ensures Run(g, exits, start, n + 1) == Execute(i, mid)
  {
    var d := m.Emit(i);
    assert d.blocks[m.insert] <= g[m.insert];
    assert d.blocks[m.insert][|m.blocks[m.insert]|] == i;
    RunsCompose(g, exits, start, n, 1);
  }

  lemma OptionalSim(env: Env, e: Option<Expr>, c: Code, g: Blocks, exits: set<Position>, start: Config)
    returns (n: nat, end: Config)
    requires c.insert < |c.blocks| && OptionalTyped(env, e) && MemoryTyped(env, start.mem)
    requires Contains(g, LowerOptional(env, c, e).code) && Clear(exits, c, LowerOptional(env, c, e).code)
    requires start.at == c.Out()
    ensures Run(g, exits, start, n) == Some(end)
    ensures match EvalIf(AsEmitted, e, start.mem, BoolValue(true))
            case None => Stuck(g, exits, end)
            case Some((v, m)) =>
              && end.at == LowerOptional(env, c, e).code.Out() && end.mem == m
              && Read(end.regs, TestOperand(LowerOptional(env, c, e))) == Some(v)
  {
    hide Contains, Clear, LowerExpr, Eval, MemoryTyped;
    if e.None? {
      n, end := 0, start;
    } else {
      n, end := ExprSim(env, e.value, c, g, exits, start);
    }
  }

  // ---------- Simulation ----------

  lemma {:induction false} StmtSim(env: Env, s: Stmt, c: Code, g: Blocks, exits: set<Position>, start: Config,
                                   fuel: nat)
    returns (n: nat, end: Config)
    requires c.Valid() && WellFormed(env, s, |c.loops|) && MemoryTyped(env, start.mem)
    requires Contains(g, LowerStmt(env, c, s)) && Clear(exits, c, LowerStmt(env, c, s))
    requires start.at == c.Out()
    ensures Matches(g, exits, start, n, end, c, LowerStmt(env, c, s).Out(), fuel, Exec(AsEmitted, fuel, s, start.mem))
    decreases fuel, s, 2
  {
    hide Grew, Contains, Clear, Run, StepOf, MemoryTyped;
    match s
    case Expression(e) =>
      n, end := ExprSim(env, e, c, g, exits, start);
    case If(_, _, _) => n, end := IfSim(env, s, c, g, exits, start, fuel);
    case While(_, _) => n, end := WhileSim(env, s, c, g, exits, start, fuel);
    case For(_, _, _, _) => n, end := ForSim(env, s, c, g, exits, start, fuel);
    case Break =>
      n, end := BranchSim(c, c.loops[|c.loops| - 1].endBlock, g, exits, start);
    case Continue =>
      n, end := BranchSim(c, c.loops[|c.loops| - 1].contBlock, g, exits, start);
    case Block(ss) => n, end := SeqSim(env, ss, c, g, exits, start, fuel);
  }

  lemma BranchSim(c: Code, target: nat, g: Blocks, exits: set<Position>, start: Config)
    returns (n: nat, end: Config)
    requires c.insert < |c.blocks| && start.at == c.Out()
    requires Contains(g, c.ClearError().Emit(Br(target))) && Clear(exits, c, c.ClearError().Emit(Br(target)))
    ensures Run(g, exits, start, n) == Some(end) && end.at == Position(target, 0) && end.mem == start.mem
  {
    assert Inside(c, c.ClearError().Emit(Br(target)), c.Out());
    JumpStep(g, exits, c.ClearError(), Br(target), start, 0, start);
    n, end := 1, Jump(start, target);
  }

  lemma {:induction false} SeqSim(env: Env, ss: seq<Stmt>, c: Code, g: Blocks, exits: set<Position>, start: Config,
                                  fuel: nat)
    returns (n: nat, end: Config)
    requires c.Valid() && (forall t :: t in ss ==> WellFormed(env, t, |c.loops|)) && MemoryTyped(env, start.mem)
    requires Contains(g, LowerSeq(env, c, ss)) && Clear(exits, c, LowerSeq(env, c, ss))
    requires start.at == c.Out()
    ensures Matches(g, exits, start, n, end, c, LowerSeq(env, c, ss).Out(), fuel,
                    ExecSeq(AsEmitted, fuel, ss, start.mem))
    decreases fuel, ss, 1
  {
    hide Grew, Contains, Clear, StepOf, MemoryTyped, LowerStmt, Exec, Stuck, WellFormed;
    if ss == [] {
      n, end := 0, start;
    } else {
      var d := LowerStmt(env, c, ss[0]);
      SeqShape(env, ss, c, g, exits);
      n, end := StmtSim(env, ss[0], c, g, exits, start, fuel);
      ExecIsTyped(AsEmitted, fuel, env, ss[0], |c.loops|, start.mem);
      var first := Exec(AsEmitted, fuel, ss[0], start.mem);
      if first.Done? && first.exit == Normal {
        var n2, end2 := SeqSim(env, ss[1..], d, g, exits, end, fuel);
        RunsCompose(g, exits, start, n, n2);
        n, end := n + n2, end2;
      }
    }
  }

  lemma SeqShape(env: Env, ss: seq<Stmt>, c: Code, g: Blocks, exits: set<Position>)
    requires c.Valid() && ss != []
    requires Contains(g, LowerSeq(env, c, ss)) && Clear(exits, c, LowerSeq(env, c, ss))
    ensures var d := LowerStmt(env, c, ss[0]);
            && Contains(g, d) && Clear(exits, c, d)
            && Contains(g, LowerSeq(env, d, ss[1..])) && Clear(exits, d, LowerSeq(env, d, ss[1..]))
            && LowerSeq(env, c, ss) == LowerSeq(env, d, ss[1..])
  {
    hide Grew, Contains, Clear, LowerStmt;
    var d := LowerStmt(env, c, ss[0]);
    StmtGrows(env, c, ss[0]);
    SeqGrows(env, d, ss[1..]);
    ContainsEarlier(g, d, LowerSeq(env, d, ss[1..]));
    ClearSplit(exits, c, d, LowerSeq(env, d, ss[1..]));
  }

  /** A statement that ends with a jump to target: the body of a loop, or an arm of an if. */
  lemma {:induction false} ArmSim(env: Env, s: Stmt, c: Code, target: nat, g: Blocks, exits: set<Position>,
                                  start: Config, fuel: nat)
    returns (n: nat, end: Config)
    requires c.Valid() && WellFormed(env, s, |c.loops|) && MemoryTyped(env, start.mem)
    requires Contains(g, LowerStmt(env, c, s).Emit(Br(target)))
    requires Clear(exits, c, LowerStmt(env, c, s)) && LowerStmt(env, c, s).Out() !in exits
    requires start.at == c.Out()
    ensures Matches(g, exits, start, n, end, c, Position(target, 0), fuel, Exec(AsEmitted, fuel, s, start.mem))
    decreases fuel, s, 3
  {
    hide Grew, Clear, Run, StepOf, MemoryTyped, LowerStmt, Exec, WellFormed;
    var d := LowerStmt(env, c, s);
    GrewReflexive(d);
    GrewEmit(d, d, Br(target));
    ContainsEarlier(g, d, d.Emit(Br(target)));
    n, end := StmtSim(env, s, c, g, exits, start, fuel);
    if Exec(AsEmitted, fuel, s, start.mem).Done? && Exec(AsEmitted, fuel, s, start.mem).exit == Normal {
      JumpStep(g, exits, d, Br(target), start, n, end);
      n, end := n + 1, Jump(end, target);
    }
  }

  // ---------- if ----------

  /** c1 is the state in which the arms of s are generated, into three empty blocks behind c. */
  ghost predicate ArmsReady(env: Env, s: Stmt, c: Code, c1: Code, g: Blocks, exits: set<Position>)
    requires c.insert < |c.blocks| && s.If?
  {
    && RoomForArms(c1) && |c.blocks| <= c1.insert
    && c1.blocks[c1.insert] == c1.blocks[c1.insert + 1] == c1.blocks[c1.insert + 2] == []
    && WellFormed(env, s, |c1.loops|)
    && Contains(g, FinishIf(env, c1, s)) && Clear(exits, c, FinishIf(env, c1, s))
  }

  /** A piece of generated code with the jump behind it is part of g and free of exits. */
  ghost predicate Placed(g: Blocks, exits: set<Position>, c: Code, d: Code, i: Instr) {
    && c.insert < |c.blocks| && d.insert < |d.blocks|
    && Contains(g, c) && Contains(g, d.Emit(i)) && Clear(exits, c, d) && d.Out() !in exits
  }

  lemma ElseShape(env: Env, s: Stmt, c: Code, c1: Code, g: Blocks, exits: set<Position>)
    requires c.insert < |c.blocks| && s.If? && ArmsReady(env, s, c, c1, g, exits)
    ensures var c2 := FinishThen(env, c1, s);
            && Placed(g, exits, c2, LowerElse(env, c2, s.elseBranch), Br(c1.insert + 2))
            && c2.Out() == Position(c1.insert + 1, 0)
            && FinishIf(env, c1, s).Out() == Position(c1.insert + 2, 0)
  {
    hide Grew, Contains, Clear, Code.Close, Code.Emit, LowerStmt, LowerElse;
    var n := c1.insert;
    var e1 := LowerStmt(env, c1, s.thenBranch);
    StmtGrows(env, c1, s.thenBranch);
    OtherBlocksKept(c1, e1, Br(n + 2), n + 1);
    var c2 := FinishThen(env, c1, s);
    var e2 := LowerElse(env, c2, s.elseBranch);
    ElseGrows(env, c2, s.elseBranch);
    OtherBlocksKept(c2, e2, Br(n + 2), n + 2);
    PieceShape(g, exits, c, c2, e2, Br(n + 2), n + 2, FinishIf(env, c1, s));
  }

  lemma ThenShape(env: Env, s: Stmt, c: Code, c1: Code, g: Blocks, exits: set<Position>)
    requires c.insert < |c.blocks| && s.If? && ArmsReady(env, s, c, c1, g, exits)
    ensures Placed(g, exits, c1, LowerStmt(env, c1, s.thenBranch), Br(c1.insert + 2))
  {
    hide Grew, Contains, Clear, Code.Close, Code.Emit, LowerStmt, LowerElse;
    ElseShape(env, s, c, c1, g, exits);
    StmtGrows(env, c1, s.thenBranch);
    PieceShape(g, exits, c, c1, LowerStmt(env, c1, s.thenBranch), Br(c1.insert + 2), c1.insert + 1,
               FinishIf(env, c1, s));
  }

  /** The arm that is taken runs, and ends in front of the block where the arms meet. */
  lemma {:induction false} ArmsSim(env: Env, s: Stmt, c: Code, c1: Code, taken: bool, g: Blocks, exits: set<Position>,
                                   start: Config, fuel: nat)
    returns (n: nat, end: Config)
    requires c.insert < |c.blocks| && s.If? && ArmsReady(env, s, c, c1, g, exits) && MemoryTyped(env, start.mem)
    requires start.at == Position(if taken then c1.insert else c1.insert + 1, 0)
    ensures Matches(g, exits, start, n, end, c1, FinishIf(env, c1, s).Out(), fuel,
                    if taken then Exec(AsEmitted, fuel, s.thenBranch, start.mem)
                    else if s.elseBranch.None? then Done(Normal, start.mem)
                    else Exec(AsEmitted, fuel, s.elseBranch.value, start.mem))
    decreases fuel, s, 0
  {
    hide Grew, Contains, Clear, MemoryTyped, LowerStmt, Exec, FinishIf, FinishThen, Code.Close, Code.Emit;
    ElseShape(env, s, c, c1, g, exits);
    var b := c1.insert;
    if taken {
      ThenShape(env, s, c, c1, g, exits);
      n, end := ArmSim(env, s.thenBranch, c1, b + 2, g, exits, start, fuel);
    } else {
      var c2 := FinishThen(env, c1, s);
      if s.elseBranch.None? {
        JumpStep(g, exits, c2, Br(b + 2), start, 0, start);
        n, end := 1, Jump(start, b + 2);
      } else {
        n, end := ArmSim(env, s.elseBranch.value, c2, b + 2, g, exits, start, fuel);
      }
    }
  }

  /** The code of an if: its test, ended by the conditional branch, and the arms. */
  lemma IfShape(env: Env, s: Stmt, c: Code, g: Blocks, exits: set<Position>)
    requires c.Valid() && s.If? && WellFormed(env, s, |c.loops|)
    requires Contains(g, LowerIf(env, c, s)) && Clear(exits, c, LowerIf(env, c, s))
    ensures var r := LowerExpr(env, c.ClearError(), s.cond);
            && r.value.Some?
            && Branches(g, exits, c.ClearError(), r.code,
                        CondBr(r.value.value.operand, |r.code.blocks|, |r.code.blocks| + 1))
            && ArmsReady(env, s, c, OpenIf(r.code, r.value.value.operand), g, exits)
            && LowerIf(env, c, s) == FinishIf(env, OpenIf(r.code, r.value.value.operand), s)
  {
    hide Grew, Contains, Clear, OpenIf, FinishIf, LowerExpr, Code.Valid, TypeOf, RoomForArms, WellFormed, LowerIf;
    ValidInsert(c);
    LowerIfIs(env, s, c);
    var r := LowerExpr(env, c.ClearError(), s.cond);
    OpenIfShape(r.code, r.value.value.operand, g);
    IfTestShape(env, s, c, OpenIf(r.code, r.value.value.operand), r, g, exits);
  }

  lemma LowerIfIs(env: Env, s: Stmt, c: Code)
    requires c.Valid() && s.If? && WellFormed(env, s, |c.loops|)
    ensures var r := LowerExpr(env, c.ClearError(), s.cond);
            && r.value.Some? && RoomForArms(OpenIf(r.code, r.value.value.operand))
            && LowerIf(env, c, s) == FinishIf(env, OpenIf(r.code, r.value.value.operand), s)
  {
    hide LowerExpr, TypeOf, OpenIf, FinishIf;
    TypedLowers(env, c.ClearError(), s.cond);
    var r := LowerExpr(env, c.ClearError(), s.cond);
    RoomAfterOpen(c, r.code, r.value.value.operand);
  }

  lemma IfTestShape(env: Env, s: Stmt, c: Code, c1: Code, r: Lowered, g: Blocks, exits: set<Position>)
    requires c.insert < |c.blocks| && s.If? && r == LowerExpr(env, c.ClearError(), s.cond) && r.value.Some?
    requires c1 == OpenIf(r.code, r.value.value.operand) && ArmsReady(env, s, c, c1, g, exits)
    ensures Branches(g, exits, c.ClearError(), r.code,
                     CondBr(r.value.value.operand, |r.code.blocks|, |r.code.blocks| + 1))
  {
    hide Grew, Contains, Clear, OpenIf, FinishIf, LowerExpr;
    var c0 := c.ClearError();
    ExprGrows(env, c0, s.cond);
    GrewAlike(c0, r.code, c, r.code);
    OpenIfShape(r.code, r.value.value.operand, g);
    ThenShape(env, s, c, c1, g, exits);
    ClearFirst(exits, c, r.code, FinishIf(env, c1, s));
    ClearAlike(exits, c, c0, r.code);
  }

  /** The code from c to d and the branch i behind it are part of g, and free of exits. */
  ghost predicate Branches(g: Blocks, exits: set<Position>, c: Code, d: Code, i: Instr) {
    && c.insert < |c.blocks| && d.insert < |d.blocks|
    && Contains(g, d) && Contains(g, d.Emit(i)) && Clear(exits, c, d) && d.Out() !in exits
  }

  lemma ClearAlike(exits: set<Position>, c: Code, c1: Code, d: Code)
    requires c.insert < |c.blocks| && d.insert < |d.blocks| && Clear(exits, c, d)
    requires c1.blocks == c.blocks && c1.insert == c.insert
    ensures Clear(exits, c1, d)
  {
    forall p | p in exits
      ensures !Inside(c1, d, p)
    {
      assert !Inside(c, d, p);
    }
  }

  lemma OpenIfShape(c: Code, test: Operand, g: Blocks)
    requires c.insert < |c.blocks|
    ensures var n := |c.blocks|;
            && OpenIf(c, test).blocks[n] == OpenIf(c, test).blocks[n + 1] == OpenIf(c, test).blocks[n + 2] == []
    ensures Contains(g, OpenIf(c, test)) ==>
              Contains(g, c) && Contains(g, c.Emit(CondBr(test, |c.blocks|, |c.blocks| + 1)))
  {
    var d := OpenIf(c, test);
    if Contains(g, d) {
      forall i | 0 <= i < |c.blocks|
        ensures c.blocks[i] <= c.Emit(CondBr(test, |c.blocks|, |c.blocks| + 1)).blocks[i] <= g[i]
      {
        assert d.blocks[i] <= g[i];
      }
    }
  }

  lemma IfUnfolds(env: Env, s: Stmt, c: Code, fuel: nat, m: Memory)
    requires c.Valid() && s.If? && WellFormed(env, s, |c.loops|)
    ensures LowerStmt(env, c, s) == LowerIf(env, c, s) && TypeOf(env, s.cond) == Some(Bool) && c.insert < |c.blocks|
    ensures Exec(AsEmitted, fuel, s, m) ==
              match Eval(AsEmitted, s.cond, m)
              case Some((BoolValue(true), m1)) => Exec(AsEmitted, fuel, s.thenBranch, m1)
              case Some((BoolValue(false), m1)) =>
                if s.elseBranch.None? then Done(Normal, m1) else Exec(AsEmitted, fuel, s.elseBranch.value, m1)
              case _ => Faulted
  {
    hide LowerIf, Eval, TypeOf;
  }

  /** The test is computed, the branch taken, and the arm runs. */
  lemma {:induction false} IfSim(env: Env, s: Stmt, c: Code, g: Blocks, exits: set<Position>, start: Config, fuel: nat)
    returns (n: nat, end: Config)
    requires s.If?
    requires c.Valid() && WellFormed(env, s, |c.loops|) && MemoryTyped(env, start.mem)
    requires Contains(g, LowerStmt(env, c, s)) && Clear(exits, c, LowerStmt(env, c, s))
    requires start.at == c.Out()
    ensures Matches(g, exits, start, n, end, c, LowerStmt(env, c, s).Out(), fuel, Exec(AsEmitted, fuel, s, start.mem))
    decreases fuel, s, 1
  {
    hide Grew, Contains, Clear, MemoryTyped, LowerExpr, FinishIf, OpenIf, Eval, StepOf, LowerStmt, LowerIf, Exec;
    hide WellFormed, TypeOf, Code.Valid, ArmsReady, Code.Emit, RoomForArms;
    IfUnfolds(env, s, c, fuel, start.mem);
    IfShape(env, s, c, g, exits);
    var r := LowerExpr(env, c.ClearError(), s.cond);
    n, end := ExprSim(env, s.cond, c.ClearError(), g, exits, start);
    EvaluationIsTyped(AsEmitted, env, s.cond, start.mem);
    var out := Eval(AsEmitted, s.cond, start.mem);
    if out.Some? {
      var k := |r.code.blocks|;
      JumpStep(g, exits, r.code, CondBr(r.value.value.operand, k, k + 1), start, n, end);
      var taken := out.value.0.b;
      var mid := Jump(end, if taken then k else k + 1);
      var n2, end2 := ArmsSim(env, s, c, OpenIf(r.code, r.value.value.operand), taken, g, exits, mid, fuel);
      RunsCompose(g, exits, start, n + 1, n2);
      n, end := n + 1 + n2, end2;
    }
  }

  // ---------- Loops ----------

  /** The pieces a loop is generated from: ct, cb and cp are the states in which the test, the
      body and the post-clause are lowered; a while loop has no third piece. */
  datatype LoopCode = LoopCode(test: Option<Expr>, post: Option<Expr>, body: Stmt,
                               ct: Code, cb: Code, cp: Option<Code>, target: LoopTarget)

  ghost predicate LoopReady(env: Env, l: LoopCode, g: Blocks, exits: set<Position>) {
    && TestReady(env, l, g, exits) && BodyReady(env, l, g, exits) && PostReady(env, l, g, exits)
  }

  ghost predicate TestReady(env: Env, l: LoopCode, g: Blocks, exits: set<Position>) {
    && l.ct.insert < |l.ct.blocks| && l.ct.Out() == Position(l.ct.insert, 0)
    && (l.test.Some? ==> TypeOf(env, l.test.value) == Some(Bool))
    && var r := LowerOptional(env, l.ct, l.test);
       Branches(g, exits, l.ct, r.code, CondBr(TestOperand(r), l.cb.insert, l.target.endBlock))
  }

  ghost predicate BodyReady(env: Env, l: LoopCode, g: Blocks, exits: set<Position>) {
    && l.cb.Valid() && l.cb.Out() == Position(l.cb.insert, 0) && WellFormed(env, l.body, |l.cb.loops|)
    && l.cb.loops != [] && l.cb.loops[|l.cb.loops| - 1] == l.target
    && Placed(g, exits, l.cb, LowerStmt(env, l.cb, l.body), Br(l.target.contBlock))
  }

  ghost predicate PostReady(env: Env, l: LoopCode, g: Blocks, exits: set<Position>) {
    match l.cp
    case None => l.post.None? && l.target.contBlock == l.ct.insert
    case Some(p) =>
      && p.insert < |p.blocks| && p.Out() == Position(l.target.contBlock, 0) && OptionalTyped(env, l.post)
      && Branches(g, exits, p, LowerOptional(env, p, l.post).code, Br(l.ct.insert))
  }

  lemma TestSim(env: Env, l: LoopCode, g: Blocks, exits: set<Position>, start: Config)
    returns (n: nat, end: Config)
    requires TestReady(env, l, g, exits) && MemoryTyped(env, start.mem)
    requires start.at == Position(l.ct.insert, 0)
    ensures Run(g, exits, start, n) == Some(end)
    ensures match EvalIf(AsEmitted, l.test, start.mem, BoolValue(true))
            case None => Stuck(g, exits, end)
            case Some((v, m)) =>
              && v.BoolValue? && n >= 1 && end.mem == m && MemoryTyped(env, m)
              && end.at == Position(if v.b then l.cb.insert else l.target.endBlock, 0)
  {
    hide Contains, Clear, LowerOptional, MemoryTyped, EvalIf, StepOf, TypeOf;
    TestIsBool(env, l.test, start.mem);
    n, end := OptionalSim(env, l.test, l.ct, g, exits, start);
    var out := EvalIf(AsEmitted, l.test, start.mem, BoolValue(true));
    if out.Some? {
      var r := LowerOptional(env, l.ct, l.test);
      JumpStep(g, exits, r.code, CondBr(TestOperand(r), l.cb.insert, l.target.endBlock), start, n, end);
      n, end := n + 1, Jump(end, if out.value.0.b then l.cb.insert else l.target.endBlock);
    }
  }

  lemma TestIsBool(env: Env, e: Option<Expr>, m: Memory)
    requires (e.Some? ==> TypeOf(env, e.value) == Some(Bool)) && MemoryTyped(env, m)
    ensures OptionalTyped(env, e)
    ensures var out := EvalIf(AsEmitted, e, m, BoolValue(true));
            out.Some? ==> out.value.0.BoolValue? && MemoryTyped(env, out.value.1)
  {
    EvalIfIsTyped(AsEmitted, env, e, m);
  }

  lemma PostSim(env: Env, l: LoopCode, g: Blocks, exits: set<Position>, start: Config)
    returns (n: nat, end: Config)
    requires PostReady(env, l, g, exits) && MemoryTyped(env, start.mem)
    requires start.at == Position(l.target.contBlock, 0)
    ensures Run(g, exits, start, n) == Some(end)
    ensures match EvalIf(AsEmitted, l.post, start.mem, BoolValue(true))
            case None => Stuck(g, exits, end)
            case Some((_, m)) => end.mem == m && MemoryTyped(env, m) && end.at == Position(l.ct.insert, 0)
  {
    if l.cp.None? {
      n, end := 0, start;
    } else {
      hide Contains, Clear, LowerOptional, MemoryTyped, EvalIf, StepOf, TypeOf;
      EvalIfIsTyped(AsEmitted, env, l.post, start.mem);
      n, end := OptionalSim(env, l.post, l.cp.value, g, exits, start);
      if EvalIf(AsEmitted, l.post, start.mem, BoolValue(true)).Some? {
        JumpStep(g, exits, LowerOptional(env, l.cp.value, l.post).code, Br(l.ct.insert), start, n, end);
        n, end := n + 1, Jump(end, l.ct.insert);
      }
    }
  }

  /** One round behind the test: the body, and the post-clause unless the body broke off. */
  function Round(fuel: nat, l: LoopCode, m: Memory): Outcome {
    var once := Exec(AsEmitted, fuel, l.body, m);
    if !once.Done? || once.exit == Broke then once
    else
      match EvalIf(AsEmitted, l.post, once.mem, BoolValue(true))
      case None => Faulted
      case Some((_, m1)) => Done(Normal, m1)
  }

  lemma LoopUnfolds(env: Env, l: LoopCode, m: Memory, fuel: nat)
    requires fuel > 0 && MemoryTyped(env, m) && (l.test.Some? ==> TypeOf(env, l.test.value) == Some(Bool))
    ensures ExecLoop(AsEmitted, fuel, l.test, l.post, l.body, m) ==
              match EvalIf(AsEmitted, l.test, m, BoolValue(true))
              case None => Faulted
              case Some((v, m1)) =>
                if v != BoolValue(true) then Done(Normal, m1)
                else
                  var round := Round(fuel, l, m1);
                  if !round.Done? then round
                  else if round.exit == Broke then Done(Normal, round.mem)
                  else ExecLoop(AsEmitted, fuel - 1, l.test, l.post, l.body, round.mem)
  {
    hide Exec, TypeOf, MemoryTyped, EvalIf;
    TestIsBool(env, l.test, m);
  }

  lemma {:induction false} RoundSim(env: Env, l: LoopCode, g: Blocks, exits: set<Position>, start: Config, fuel: nat)
    returns (n: nat, end: Config)
    requires BodyReady(env, l, g, exits) && PostReady(env, l, g, exits) && MemoryTyped(env, start.mem)
    requires start.at == Position(l.cb.insert, 0)
    ensures Run(g, exits, start, n) == Some(end)
    ensures match Round(fuel, l, start.mem)
            case Done(x, m) =>
              && end.mem == m && MemoryTyped(env, m)
              && end.at == Position(if x == Broke then l.target.endBlock else l.ct.insert, 0)
            case Faulted => Stuck(g, exits, end)
            case Timeout => n >= fuel
    decreases fuel, l.body, 4
  {
    hide Contains, Clear, MemoryTyped, EvalIf, StepOf, LowerStmt, Exec, WellFormed, PostReady, Run, Stuck;
    n, end := ArmSim(env, l.body, l.cb, l.target.contBlock, g, exits, start, fuel);
    ExecIsTyped(AsEmitted, fuel, env, l.body, |l.cb.loops|, start.mem);
    var once := Exec(AsEmitted, fuel, l.body, start.mem);
    if once.Done? && once.exit != Broke {
      var n2, end2 := PostSim(env, l, g, exits, end);
      RunsCompose(g, exits, start, n, n2);
      n, end := n + n2, end2;
    }
  }

  /** A loop runs round by round; while the fuel lasts it stays inside. */
  lemma {:induction false} LoopSim(env: Env, l: LoopCode, g: Blocks, exits: set<Position>, start: Config, fuel: nat)
    returns (n: nat, end: Config)
    requires LoopReady(env, l, g, exits) && MemoryTyped(env, start.mem)
    requires start.at == Position(l.ct.insert, 0)
    ensures Run(g, exits, start, n) == Some(end)
    ensures match ExecLoop(AsEmitted, fuel, l.test, l.post, l.body, start.mem)
            case Done(x, m) => x == Normal && end.at == Position(l.target.endBlock, 0) && end.mem == m
            case Faulted => Stuck(g, exits, end)
            case Timeout => n >= fuel
    decreases fuel, l.body, 5
  {
    hide MemoryTyped, EvalIf, BodyReady, PostReady, Stuck, Round, ExecLoop, TypeOf, StepOf, Branches;
    if fuel == 0 {
      n, end := 0, start;
      NoFuel(l, start.mem);
    } else {
      LoopUnfolds(env, l, start.mem, fuel);
      n, end := TestSim(env, l, g, exits, start);
      var v := EvalIf(AsEmitted, l.test, start.mem, BoolValue(true));
      if v.Some? && v.value.0.b {
        var n1, end1 := RoundSim(env, l, g, exits, end, fuel);
        RunsCompose(g, exits, start, n, n1);
        n, end := n + n1, end1;
        var round := Round(fuel, l, v.value.1);
        if round.Done? && round.exit != Broke {
          var n2, end2 := LoopSim(env, l, g, exits, end, fuel - 1);
          RunsCompose(g, exits, start, n, n2);
          n, end := n + n2, end2;
        }
      }
    }
  }

  lemma NoFuel(l: LoopCode, m: Memory)
    ensures ExecLoop(AsEmitted, 0, l.test, l.post, l.body, m) == Timeout
  {
  }

  // ---------- while ----------

  /** The test of a while and, behind its branch, the start of the body. */
  function WhileTest(env: Env, c: Code, s: Stmt): Lowered
    requires c.insert < |c.blocks| && s.While?
  {
    LowerExpr(env, OpenWhile(c), s.cond)
  }

  function WhileBody(env: Env, c: Code, s: Stmt): (d: Code)
    requires c.Valid() && |c.loops| < MAX_LOOP_NESTING && s.While?
    ensures d.Valid() && d.insert == |c.blocks| + 1 && |c.blocks| + 3 <= |d.blocks|
    ensures d.loops == c.loops + [LoopTarget(|c.blocks| + 2, |c.blocks|)]
  {
    var r := WhileTest(env, c, s);
    r.code.Close(CondBr(TestOperand(r), |c.blocks| + 1, |c.blocks| + 2), |c.blocks| + 1)
  }

  function WhileCode(env: Env, c: Code, s: Stmt): LoopCode
    requires c.Valid() && |c.loops| < MAX_LOOP_NESTING && s.While?
  {
    LoopCode(Some(s.cond), None, s.body, OpenWhile(c), WhileBody(env, c, s), None,
             LoopTarget(|c.blocks| + 2, |c.blocks|))
  }

  lemma LowerWhileIs(env: Env, s: Stmt, c: Code)
    requires c.Valid() && s.While? && WellFormed(env, s, |c.loops|)
    ensures |c.loops| < MAX_LOOP_NESTING && TypeOf(env, s.cond) == Some(Bool)
    ensures WellFormed(env, s.body, |c.loops| + 1)
    ensures LowerWhile(env, c, s) == FinishWhile(env, WhileBody(env, c, s), s, |c.blocks|).PopLoop()
  {
    hide LowerExpr, TypeOf, OpenWhile, FinishWhile;
    TypedLowers(env, OpenWhile(c), s.cond);
  }

  lemma OpenWhileShape(c: Code, g: Blocks)
    requires c.insert < |c.blocks|
    ensures var n := |c.blocks|;
            && OpenWhile(c).blocks[n] == OpenWhile(c).blocks[n + 1] == OpenWhile(c).blocks[n + 2] == []
    ensures Contains(g, OpenWhile(c)) ==> Contains(g, c.Emit(Br(|c.blocks|)))
  {
    var d := OpenWhile(c);
    if Contains(g, d) {
      forall i | 0 <= i < |c.blocks|
        ensures c.Emit(Br(|c.blocks|)).blocks[i] <= g[i]
      {
        assert d.blocks[i] <= g[i];
      }
    }
  }

  lemma WhileBodyShape(env: Env, s: Stmt, c: Code, g: Blocks, exits: set<Position>)
    requires c.Valid() && s.While? && |c.loops| < MAX_LOOP_NESTING && WellFormed(env, s.body, |c.loops| + 1)
    requires var d := FinishWhile(env, WhileBody(env, c, s), s, |c.blocks|); Contains(g, d) && Clear(exits, c, d)
    ensures BodyReady(env, WhileCode(env, c, s), g, exits)
    ensures Contains(g, WhileBody(env, c, s))
    ensures FinishWhile(env, WhileBody(env, c, s), s, |c.blocks|).Out() == Position(|c.blocks| + 2, 0)
  {
    hide Grew, Contains, Clear, OpenWhile, LowerStmt, LowerExpr, Code.Close, Code.Emit, WellFormed;
    var n := |c.blocks|;
    var c1 := OpenWhile(c);
    var c2 := WhileBody(env, c, s);
    var r := WhileTest(env, c, s);
    OpenWhileShape(c, g);
    ExprGrows(env, c1, s.cond);
    OtherBlocksKept(c1, r.code, CondBr(TestOperand(r), n + 1, n + 2), n + 1);
    var e := LowerStmt(env, c2, s.body);
    StmtGrows(env, c2, s.body);
    OtherBlocksKept(c2, e, Br(n), n + 2);
    PieceShape(g, exits, c, c2, e, Br(n), n + 2, FinishWhile(env, c2, s, n));
  }

  lemma WhileTestShape(env: Env, s: Stmt, c: Code, g: Blocks, exits: set<Position>)
    requires c.Valid() && s.While? && |c.loops| < MAX_LOOP_NESTING && TypeOf(env, s.cond) == Some(Bool)
    requires Contains(g, WhileBody(env, c, s))
    requires Clear(exits, c, FinishWhile(env, WhileBody(env, c, s), s, |c.blocks|))
    ensures TestReady(env, WhileCode(env, c, s), g, exits)
    ensures Contains(g, OpenWhile(c))
  {
    hide Grew, Contains, Clear, OpenWhile, FinishWhile, LowerExpr, Code.Close, Code.Emit, TypeOf, Code.Valid;
    ValidInsert(c);
    var n := |c.blocks|;
    var c1 := OpenWhile(c);
    var r := WhileTest(env, c, s);
    OpenWhileShape(c, g);
    TypedLowers(env, c1, s.cond);
    ExprGrows(env, c1, s.cond);
    PieceShape(g, exits, c, c1, r.code, CondBr(TestOperand(r), n + 1, n + 2), n + 1,
               FinishWhile(env, WhileBody(env, c, s), s, n));
  }

  lemma {:induction false} WhileSim(env: Env, s: Stmt, c: Code, g: Blocks, exits: set<Position>, start: Config,
                                    fuel: nat)
    returns (n: nat, end: Config)
    requires s.While?
    requires c.Valid() && WellFormed(env, s, |c.loops|) && MemoryTyped(env, start.mem)
    requires Contains(g, LowerStmt(env, c, s)) && Clear(exits, c, LowerStmt(env, c, s))
    requires start.at == c.Out()
    ensures Matches(g, exits, start, n, end, c, LowerStmt(env, c, s).Out(), fuel, Exec(AsEmitted, fuel, s, start.mem))
    decreases fuel, s, 1
  {
    hide Grew, Contains, Clear, MemoryTyped, OpenWhile, FinishWhile, WhileBody, WellFormed, TypeOf, LowerWhile, StepOf,
         ExecLoop;
    LowerWhileIs(env, s, c);
    var d := FinishWhile(env, WhileBody(env, c, s), s, |c.blocks|);
    LoopEntry(g, exits, c, d);
    WhileBodyShape(env, s, c, g, exits);
    WhileTestShape(env, s, c, g, exits);
    OpenWhileShape(c, g);
    JumpStep(g, exits, c, Br(|c.blocks|), start, 0, start);
    var l := WhileCode(env, c, s);
    n, end := LoopSim(env, l, g, exits, Jump(start, |c.blocks|), fuel);
    RunsCompose(g, exits, start, 1, n);
    n := n + 1;
  }

  /** The insert point of c is not an exit, nor are pieces shared with d told apart by flags. */
  lemma LoopEntry(g: Blocks, exits: set<Position>, c: Code, d: Code)
    requires c.insert < |c.blocks| <= d.insert < |d.blocks| && d.loops != []
    requires Contains(g, d.PopLoop()) && Clear(exits, c, d.PopLoop())
    ensures Contains(g, d) && Clear(exits, c, d) && c.Out() !in exits
  {
    forall p | p in exits
      ensures !Inside(c, d, p)
    {
      assert !Inside(c, d.PopLoop(), p);
    }
    assert Inside(c, d, c.Out());
  }

  // ---------- for ----------

  function ForTest(env: Env, c: Code, s: Stmt): Lowered
    requires c.insert < |c.blocks| && s.For?
  {
    LowerOptional(env, OpenFor(env, c, s), s.test)
  }

  function ForBody(env: Env, c: Code, s: Stmt): (d: Code)
    requires c.Valid() && |c.loops| < MAX_LOOP_NESTING && s.For?
    ensures d.Valid() && d.insert == |c.blocks| + 1 && |c.blocks| + 4 <= |d.blocks|
    ensures d.loops == c.loops + [LoopTarget(|c.blocks| + 3, |c.blocks| + 2)]
    ensures |d.blocks| == |ForTest(env, c, s).code.blocks|
  {
    var r := ForTest(env, c, s);
    r.code.Close(CondBr(TestOperand(r), |c.blocks| + 1, |c.blocks| + 3), |c.blocks| + 1)
  }

  function ForPost(env: Env, c: Code, s: Stmt): (d: Code)
    requires c.Valid() && |c.loops| < MAX_LOOP_NESTING && s.For?
    ensures d.insert == |c.blocks| + 2 && |c.blocks| + 4 <= |d.blocks|
    ensures d.loops == c.loops + [LoopTarget(|c.blocks| + 3, |c.blocks| + 2)]
  {
    LowerStmt(env, ForBody(env, c, s), s.body).Close(Br(|c.blocks| + 2), |c.blocks| + 2)
  }

  function ForCode(env: Env, c: Code, s: Stmt): LoopCode
    requires c.Valid() && |c.loops| < MAX_LOOP_NESTING && s.For?
  {
    LoopCode(s.test, s.post, s.body, OpenFor(env, c, s), ForBody(env, c, s), Some(ForPost(env, c, s)),
             LoopTarget(|c.blocks| + 3, |c.blocks| + 2))
  }

  /** The state in which the pre-clause is lowered: the blocks exist, the insert point is unmoved. */
  function ForPre(c: Code): (d: Code)
    ensures |d.blocks| == |c.blocks| + 4 && d.insert == c.insert && d.next == c.next
  {
    c.ClearError().CreateBlocks(4).PushLoop(LoopTarget(|c.blocks| + 3, |c.blocks| + 2))
  }

  lemma LowerForIs(env: Env, s: Stmt, c: Code)
    requires c.Valid() && s.For? && WellFormed(env, s, |c.loops|)
    ensures |c.loops| < MAX_LOOP_NESTING && OptionalTyped(env, s.pre) && OptionalTyped(env, s.post)
    ensures s.test.Some? ==> TypeOf(env, s.test.value) == Some(Bool)
    ensures WellFormed(env, s.body, |c.loops| + 1)
    ensures LowerFor(env, c, s) == FinishFor(env, ForBody(env, c, s), s, |c.blocks|).PopLoop()
  {
    hide LowerExpr, TypeOf, OpenFor, FinishFor;
    if s.test.Some? {
      TypedLowers(env, OpenFor(env, c, s), s.test.value);
    }
  }

  lemma FinishForIs(env: Env, s: Stmt, c: Code)
    requires c.Valid() && s.For? && |c.loops| < MAX_LOOP_NESTING
    ensures var p := ForPost(env, c, s);
            FinishFor(env, ForBody(env, c, s), s, |c.blocks|) ==
              LowerOptional(env, p, s.post).code.Close(Br(|c.blocks|), |c.blocks| + 3)
  {
    hide LowerStmt, LowerOptional, ForBody;
  }

  lemma ForPreShape(c: Code)
    requires c.insert < |c.blocks|
    ensures var n := |c.blocks|; var d := ForPre(c);
            && d.blocks[n] == d.blocks[n + 1] == d.blocks[n + 2] == d.blocks[n + 3] == []
            && d.blocks[c.insert] == c.blocks[c.insert]
  {
  }

  lemma OpenForIs(env: Env, c: Code, s: Stmt)
    requires c.insert < |c.blocks| && s.For?
    ensures OpenFor(env, c, s) == LowerOptional(env, ForPre(c), s.pre).code.Close(Br(|c.blocks|), |c.blocks|)
  {
  }

  /** The blocks of the loop are still empty when generation reaches them. */
  lemma ForBlocksEmpty(env: Env, c: Code, s: Stmt)
    requires c.Valid() && s.For? && |c.loops| < MAX_LOOP_NESTING
    ensures var n := |c.blocks|;
            && OpenFor(env, c, s).Out() == Position(n, 0)
            && ForBody(env, c, s).Out() == Position(n + 1, 0)
            && ForPost(env, c, s).Out() == Position(n + 2, 0)
            && FinishFor(env, ForBody(env, c, s), s, n).Out() == Position(n + 3, 0)
  {
    hide Grew, LowerStmt, LowerOptional, Code.Close, OpenFor, FinishFor;
    var n := |c.blocks|;
    ForPreShape(c);
    OpenForIs(env, c, s);
    FinishForIs(env, s, c);
    var c0, c1, c2, c3 := ForPre(c), OpenFor(env, c, s), ForBody(env, c, s), ForPost(env, c, s);
    OptionalGrows(env, c0, s.pre);
    OtherBlocksKept(c0, LowerOptional(env, c0, s.pre).code, Br(n), n);
    var r := ForTest(env, c, s);
    OptionalGrows(env, c1, s.test);
    OtherBlocksKept(c1, r.code, CondBr(TestOperand(r), n + 1, n + 3), n + 1);
    StmtGrows(env, c2, s.body);
    OtherBlocksKept(c2, LowerStmt(env, c2, s.body), Br(n + 2), n + 2);
    OptionalGrows(env, c3, s.post);
    OtherBlocksKept(c3, LowerOptional(env, c3, s.post).code, Br(n), n + 3);
  }

  lemma ForPostShape(env: Env, s: Stmt, c: Code, g: Blocks, exits: set<Position>)
    requires c.Valid() && s.For? && |c.loops| < MAX_LOOP_NESTING && OptionalTyped(env, s.post)
    requires var d := FinishFor(env, ForBody(env, c, s), s, |c.blocks|); Contains(g, d) && Clear(exits, c, d)
    ensures PostReady(env, ForCode(env, c, s), g, exits) && Contains(g, ForPost(env, c, s))
  {
    hide Grew, Contains, Clear, LowerStmt, LowerOptional, Code.Close, OpenFor, FinishFor, ForPost, ForBody, Code.Valid,
         Code.Emit;
    ValidInsert(c);
    ForBlocksEmpty(env, c, s);
    FinishForIs(env, s, c);
    var p := ForPost(env, c, s);
    OptionalGrows(env, p, s.post);
    PieceShape(g, exits, c, p, LowerOptional(env, p, s.post).code, Br(|c.blocks|), |c.blocks| + 3,
               FinishFor(env, ForBody(env, c, s), s, |c.blocks|));
  }

  lemma ForBodyShape(env: Env, s: Stmt, c: Code, g: Blocks, exits: set<Position>)
    requires c.Valid() && s.For? && |c.loops| < MAX_LOOP_NESTING && WellFormed(env, s.body, |c.loops| + 1)
    requires Contains(g, ForPost(env, c, s)) && Clear(exits, c, FinishFor(env, ForBody(env, c, s), s, |c.blocks|))
    ensures BodyReady(env, ForCode(env, c, s), g, exits) && Contains(g, ForBody(env, c, s))
  {
    hide Grew, Contains, Clear, LowerStmt, LowerOptional, Code.Close, OpenFor, FinishFor, ForBody, Code.Emit,
         WellFormed;
    ForBlocksEmpty(env, c, s);
    FinishForIs(env, s, c);
    var n := |c.blocks|;
    var c2 := ForBody(env, c, s);
    StmtGrows(env, c2, s.body);
    PieceShape(g, exits, c, c2, LowerStmt(env, c2, s.body), Br(n + 2), n + 2, FinishFor(env, c2, s, n));
  }

  lemma ForTestShape(env: Env, s: Stmt, c: Code, g: Blocks, exits: set<Position>)
    requires c.Valid() && s.For? && |c.loops| < MAX_LOOP_NESTING
    requires s.test.Some? ==> TypeOf(env, s.test.value) == Some(Bool)
    requires Contains(g, ForBody(env, c, s)) && Clear(exits, c, FinishFor(env, ForBody(env, c, s), s, |c.blocks|))
    ensures TestReady(env, ForCode(env, c, s), g, exits) && Contains(g, OpenFor(env, c, s))
  {
    hide Grew, Contains, Clear, LowerOptional, Code.Close, OpenFor, FinishFor, ForPost, Code.Emit, TypeOf, Code.Valid;
    ValidInsert(c);
    ForBlocksEmpty(env, c, s);
    var n := |c.blocks|;
    var c1 := OpenFor(env, c, s);
    var r := ForTest(env, c, s);
    OptionalGrows(env, c1, s.test);
    PieceShape(g, exits, c, c1, r.code, CondBr(TestOperand(r), n + 1, n + 3), n + 1,
               FinishFor(env, ForBody(env, c, s), s, n));
  }

  lemma ForPreReady(env: Env, s: Stmt, c: Code, g: Blocks, exits: set<Position>)
    requires c.Valid() && s.For? && |c.loops| < MAX_LOOP_NESTING
    requires Contains(g, OpenFor(env, c, s)) && Clear(exits, c, FinishFor(env, ForBody(env, c, s), s, |c.blocks|))
    ensures Branches(g, exits, ForPre(c), LowerOptional(env, ForPre(c), s.pre).code, Br(|c.blocks|))
    ensures ForPre(c).Out() == c.Out()
  {
    hide Grew, Contains, Clear, LowerOptional, Code.Close, OpenFor, FinishFor, ForPost, ForBody, Code.Emit, Code.Valid,
         ForPre;
    ValidInsert(c);
    ForPreShape(c);
    OpenForIs(env, c, s);
    var n := |c.blocks|;
    OptionalGrows(env, ForPre(c), s.pre);
    PieceShape(g, exits, c, ForPre(c), LowerOptional(env, ForPre(c), s.pre).code, Br(n), n,
               FinishFor(env, ForBody(env, c, s), s, n));
  }

  lemma {:induction false} ForSim(env: Env, s: Stmt, c: Code, g: Blocks, exits: set<Position>, start: Config, fuel: nat)
    returns (n: nat, end: Config)
    requires s.For?
    requires c.Valid() && WellFormed(env, s, |c.loops|) && MemoryTyped(env, start.mem)
    requires Contains(g, LowerStmt(env, c, s)) && Clear(exits, c, LowerStmt(env, c, s))
    requires start.at == c.Out()
    ensures Matches(g, exits, start, n, end, c, LowerStmt(env, c, s).Out(), fuel, Exec(AsEmitted, fuel, s, start.mem))
    decreases fuel, s, 1
  {
    hide Grew, Contains, Clear, MemoryTyped, OpenFor, FinishFor, ForBody, ForPost, ForPre, WellFormed, TypeOf,
         LowerFor, StepOf,
         ExecLoop, LowerOptional, EvalIf, Run, PostReady, BodyReady, TestReady;
    LowerForIs(env, s, c);
    ForBlocksEmpty(env, c, s);
    ForParts(env, s, c, g, exits);
    EvalIfIsTyped(AsEmitted, env, s.pre, start.mem);
    n, end := OptionalSim(env, s.pre, ForPre(c), g, exits, start);
    var out := EvalIf(AsEmitted, s.pre, start.mem, BoolValue(true));
    if out.Some? {
      JumpStep(g, exits, LowerOptional(env, ForPre(c), s.pre).code, Br(|c.blocks|), start, n, end);
      var mid := Jump(end, |c.blocks|);
      var n2, end2 := LoopSim(env, ForCode(env, c, s), g, exits, mid, fuel);
      RunsCompose(g, exits, start, n + 1, n2);
      n, end := n + 1 + n2, end2;
    }
  }

  lemma ForParts(env: Env, s: Stmt, c: Code, g: Blocks, exits: set<Position>)
    requires c.Valid() && s.For? && |c.loops| < MAX_LOOP_NESTING && OptionalTyped(env, s.post)
    requires WellFormed(env, s.body, |c.loops| + 1)
    requires s.test.Some? ==> TypeOf(env, s.test.value) == Some(Bool)
    requires var d := FinishFor(env, ForBody(env, c, s), s, |c.blocks|).PopLoop(); Contains(g, d) && Clear(exits, c, d)
    ensures LoopReady(env, ForCode(env, c, s), g, exits)
    ensures Branches(g, exits, ForPre(c), LowerOptional(env, ForPre(c), s.pre).code, Br(|c.blocks|))
    ensures ForPre(c).Out() == c.Out()
  {
    hide Grew, Contains, Clear, OpenFor, FinishFor, ForBody, ForPost, ForPre, WellFormed, TypeOf, LowerOptional,
         PostReady, BodyReady, TestReady;
    LoopEntry(g, exits, c, FinishFor(env, ForBody(env, c, s), s, |c.blocks|));
    ForPostShape(env, s, c, g, exits);
    ForBodyShape(env, s, c, g, exits);
    ForTestShape(env, s, c, g, exits);
    ForPreReady(env, s, c, g, exits);
  }
}
