/** Running the code generated for an expression computes the value of the expression. */
module ExprSimulation {
  import opened Ast
  import opened Graph
  import opened Lowering
  import opened Growth

  // ---------- Where a piece of generated code lies in the finished function ----------

  /** The finished function g has everything generated so far, perhaps with more behind it. */
  ghost predicate Contains(g: Blocks, d: Code) {
    |d.blocks| <= |g| && forall i :: 0 <= i < |d.blocks| ==> d.blocks[i] <= g[i]
  }

  /** The positions of the code emitted between c and d, up to the insert point of d. */
  ghost predicate Inside(c: Code, d: Code, p: Position)
    requires c.insert < |c.blocks| && d.insert < |d.blocks|
  {
    && ((p.block == c.insert && p.pc >= |c.blocks[c.insert]|) || |c.blocks| <= p.block < |d.blocks|)
    && !(p.block == d.insert && p.pc >= |d.blocks[d.insert]|)
  }

  ghost predicate Clear(exits: set<Position>, c: Code, d: Code)
    requires c.insert < |c.blocks| && d.insert < |d.blocks|
  {
    forall p :: p in exits ==> !Inside(c, d, p)
  }

  lemma ContainsEarlier(g: Blocks, c: Code, d: Code)
    requires c.insert < |c.blocks| && Grew(c, d) && Contains(g, d)
    ensures Contains(g, c)
  {
    forall i | 0 <= i < |c.blocks|
      ensures c.blocks[i] <= g[i]
    {
      assert c.blocks[i] <= d.blocks[i] <= g[i];
    }
  }

  lemma ContainsAlike(g: Blocks, c: Code, d: Code)
    requires Contains(g, c) && c.blocks == d.blocks
    ensures Contains(g, d)
  {
  }

  lemma ClearSplit(exits: set<Position>, c: Code, m: Code, d: Code)
    requires c.insert < |c.blocks| && m.insert < |m.blocks| && d.insert < |d.blocks|
    requires Grew(c, m) && Grew(m, d) && Clear(exits, c, d)
    ensures Clear(exits, c, m) && Clear(exits, m, d)
  {
    forall p | p in exits
      ensures !Inside(c, m, p) && !Inside(m, d, p)
    {
      assert !Inside(c, d, p);
    }
  }

  /** d is m with one more instruction: a run that has come to the end of m executes it. */
  lemma OneMore(g: Blocks, exits: set<Position>, c: Code, m: Code, i: Instr, d: Code, start: Config, n: nat,
                mid: Config)
    requires c.insert < |c.blocks| && m.insert < |m.blocks| && Grew(c, m)
    requires d.blocks == m.Emit(i).blocks && d.insert == m.insert
    requires Contains(g, d) && Clear(exits, c, d)
    requires Run(g, exits, start, n) == Some(mid) && mid.at == m.Out()
    ensures mid.at !in exits
    ensures Run(g, exits, start, n + 1) == Execute(i, mid)
    ensures Execute(i, mid) == None ==> Stuck(g, exits, mid)
  {
    assert Inside(c, d, m.Out());
    assert d.blocks[m.insert] <= g[m.insert];
    assert d.blocks[m.insert][|m.blocks[m.insert]|] == i;
    RunsCompose(g, exits, start, n, 1);
  }

  // ---------- Well-typed expressions are lowered to a value of their type ----------

  lemma {:induction false} TypedLowers(env: Env, c: Code, e: Expr)
    requires c.insert < |c.blocks| && TypeOf(env, e).Some?
    ensures LowersTo(LowerExpr(env, c, e), TypeOf(env, e))
    decreases e, 1
  {
    match e
    case Atomic(_) =>
    case Unary(_, child) => TypedLowers(env, c, child);
    case Binary(op, l, r) => TypedOperatorLowers(env, c, e);
    case Ternary(cond, t, f) => TypedTernaryLowers(env, c, e);
    case Grouping(child) => TypedLowers(env, c, child);
    case Prefix(_, _) =>
    case Postfix(_, _) =>
  }

  /** There is code, and its operand has the type. */
  predicate LowersTo(r: Lowered, t: Option<Type>) {
    r.value.Some? && Some(r.value.value.ty) == t
  }

  lemma {:induction false} TypedOperatorLowers(env: Env, c: Code, e: Expr)
    requires c.insert < |c.blocks| && e.Binary? && TypeOf(env, e).Some?
    ensures LowersTo(if IsAssignment(e.opcode) then LowerAssign(env, c, e) else LowerBinary(env, c, e), TypeOf(env, e))
    decreases e, 0
  {
    hide LowerExpr, Code.Emit, EmitUpdate, Code.EmitValue, MachineOpOf;
    if IsAssignment(e.opcode) {
      TypedLowers(env, c, e.right);
    } else {
      TypedLowers(env, c, e.left);
      TypedLowers(env, LowerExpr(env, c, e.left).code, e.right);
    }
  }

  lemma {:induction false} TypedTernaryLowers(env: Env, c: Code, e: Expr)
    requires c.insert < |c.blocks| && e.Ternary? && TypeOf(env, e).Some?
    ensures LowersTo(LowerTernary(env, c, e), TypeOf(env, e))
    decreases e, 0
  {
    hide LowerExpr, Code.Close, Code.CreateBlocks, Code.EmitValue;
    TypedLowers(env, c, e.condition);
    var c1 := LowerExpr(env, c, e.condition).code;
    TypedLowers(env, c1, e.thenPath);
    TypedLowers(env, LowerExpr(env, c1, e.thenPath).code, e.elsePath);
  }

  // ---------- Simulation ----------

  ghost predicate Kept(before: map<nat, Value>, after: map<nat, Value>, next: nat) {
    forall q :: 0 <= q < next && q in before ==> q in after && after[q] == before[q]
  }

  /** From start the machine reaches end after n steps, avoiding the exits: behind the code of r
      with the value and memory of out, earlier registers kept; or stuck where out has no result. */
  ghost predicate Evaluates(g: Blocks, exits: set<Position>, start: Config, n: nat, end: Config,
                            r: Lowered, next: nat, out: Evaluated)
    requires r.code.insert < |r.code.blocks| && r.value.Some?
  {
    && Run(g, exits, start, n) == Some(end)
    && match out
       case None => Stuck(g, exits, end)
       case Some((v, m)) =>
         && end.at == r.code.Out() && end.mem == m
         && Read(end.regs, r.value.value.operand) == Some(v)
         && Kept(start.regs, end.regs, next)
  }

  /** What the simulation of e at c assumes. */
  ghost predicate Ready(env: Env, e: Expr, c: Code, g: Blocks, exits: set<Position>, start: Config)
  {
    && c.insert < |c.blocks| && TypeOf(env, e).Some? && MemoryTyped(env, start.mem)
    && Contains(g, LowerExpr(env, c, e).code)
    && Clear(exits, c, LowerExpr(env, c, e).code)
    && start.at == c.Out()
  }

  lemma {:induction false} ExprSim(env: Env, e: Expr, c: Code, g: Blocks, exits: set<Position>, start: Config)
    returns (n: nat, end: Config)
    requires Ready(env, e, c, g, exits, start)
    ensures LowerExpr(env, c, e).value.Some?
    ensures Evaluates(g, exits, start, n, end, LowerExpr(env, c, e), c.next, Eval(AsEmitted, e, start.mem))
    decreases e, 3
  {
    match e
    case Atomic(Integer(_)) => n, end := 0, start;
    case Atomic(Boolean(_)) => n, end := 0, start;
    case Atomic(Identifier(x)) =>
      end := OneLoad(g, exits, c, c, x, start, 0, start);
      n := 1;
    case Unary(_, _) => n, end := UnarySim(env, e, c, g, exits, start);
    case Binary(op, _, _) =>
      if IsAssignment(op) {
        n, end := AssignSim(env, e, c, g, exits, start);
      } else {
        n, end := BinarySim(env, e, c, g, exits, start);
      }
    case Ternary(_, _, _) => n, end := TernarySim(env, e, c, g, exits, start);
    case Grouping(child) => n, end := ExprSim(env, child, c, g, exits, start);
    case Prefix(_, _) => n, end := StepSim(env, e, c, g, exits, start);
    case Postfix(_, _) => n, end := StepSim(env, e, c, g, exits, start);
  }

  lemma OneLoad(g: Blocks, exits: set<Position>, c: Code, m: Code, x: string, start: Config, n: nat, mid: Config)
    returns (end: Config)
    requires c.insert < |c.blocks| && m.insert < |m.blocks| && Grew(c, m)
    requires Contains(g, m.EmitValue(Load(m.next, x))) && Clear(exits, c, m.EmitValue(Load(m.next, x)))
    requires Run(g, exits, start, n) == Some(mid) && mid.at == m.Out() && x in mid.mem
    ensures Run(g, exits, start, n + 1) == Some(end)
    ensures end == mid.(at := m.EmitValue(Load(m.next, x)).Out(), regs := mid.regs[m.next := mid.mem[x]])
  {
    var i := Load(m.next, x);
    OneMore(g, exits, c, m, i, m.EmitValue(i), start, n, mid);
    end := Execute(i, mid).value;
  }

  lemma OneStore(g: Blocks, exits: set<Position>, c: Code, m: Code, o: Operand, x: string, v: Value,
                 start: Config, n: nat, mid: Config)
    returns (end: Config)
    requires c.insert < |c.blocks| && m.insert < |m.blocks| && Grew(c, m)
    requires Contains(g, m.Emit(Store(o, x))) && Clear(exits, c, m.Emit(Store(o, x)))
    requires Run(g, exits, start, n) == Some(mid) && mid.at == m.Out()
    requires x in mid.mem && Read(mid.regs, o) == Some(v)
    ensures Run(g, exits, start, n + 1) == Some(end)
    ensures end == mid.(at := m.Emit(Store(o, x)).Out(), mem := mid.mem[x := v])
  {
    var i := Store(o, x);
    OneMore(g, exits, c, m, i, m.Emit(i), start, n, mid);
    end := Execute(i, mid).value;
  }

  /** Running one more arithmetic instruction whose operands are known. */
  lemma OneBinOp(g: Blocks, exits: set<Position>, c: Code, m: Code, i: Instr, d: Code, start: Config, n: nat,
                 mid: Config, x: Value, y: Value)
    returns (n1: nat, end: Config)
    requires c.insert < |c.blocks| && m.insert < |m.blocks| && Grew(c, m)
    requires i.BinOp? && i.dst == m.next && d == m.EmitValue(i)
    requires Contains(g, d) && Clear(exits, c, d)
    requires Run(g, exits, start, n) == Some(mid) && mid.at == m.Out()
    requires Read(mid.regs, i.a) == Some(x) && Read(mid.regs, i.b) == Some(y)
    ensures Run(g, exits, start, n1) == Some(end)
    ensures Compute(i.mop, x, y) == None ==> Stuck(g, exits, end)
    ensures Compute(i.mop, x, y).Some? ==>
              && end.at == d.Out() && end.mem == mid.mem
              && end.regs == mid.regs[m.next := Compute(i.mop, x, y).value]
  {
    hide Grew, Contains, Clear, Run, StepOf, Compute;
    OneMore(g, exits, c, m, i, d, start, n, mid);
    if Compute(i.mop, x, y) == None {
      n1, end := n, mid;
    } else {
      n1, end := n + 1, Execute(i, mid).value;
      assert d.blocks[d.insert] == m.blocks[m.insert] + [i];
    }
  }

  function UnaryInstr(op: UnaryOp, dst: nat, v: Operand): Instr {
    if op == Negate then BinOp(dst, Sub, Const(IntValue(0)), v)
    else BinOp(dst, ICmpNE, v, Const(BoolValue(false)))
  }

  lemma UnaryShape(env: Env, e: Expr, c: Code, g: Blocks, exits: set<Position>)
    requires c.insert < |c.blocks| && TypeOf(env, e).Some? && e.Unary?
    requires Contains(g, LowerExpr(env, c, e).code) && Clear(exits, c, LowerExpr(env, c, e).code)
    ensures var r1 := LowerExpr(env, c, e.child);
            && TypeOf(env, e.child).Some? && Grew(c, r1.code) && r1.value.Some?
            && Contains(g, r1.code) && Clear(exits, c, r1.code)
            && LowerExpr(env, c, e).code ==
                 r1.code.EmitValue(UnaryInstr(e.unaryOp, r1.code.next, r1.value.value.operand))
            && LowerExpr(env, c, e).value.Some?
            && LowerExpr(env, c, e).value.value.operand == Reg(r1.code.next)
  {
    hide Grew, Contains, Clear;
    TypedLowers(env, c, e);
    assert LowerExpr(env, c, e) == LowerUnary(env, c, e);
    TypedLowers(env, c, e.child);
    ExprGrows(env, c, e.child);
    var r1 := LowerExpr(env, c, e.child);
    Narrow(g, exits, c, r1.code, LowerExpr(env, c, e).code,
           UnaryInstr(e.unaryOp, r1.code.next, r1.value.value.operand));
  }

  /** The unary operators: negation is 0 - x, `!` compares with false. */
  lemma {:induction false} UnarySim(env: Env, e: Expr, c: Code, g: Blocks, exits: set<Position>, start: Config)
    returns (n: nat, end: Config)
    requires Ready(env, e, c, g, exits, start) && e.Unary?
    ensures LowerExpr(env, c, e).value.Some?
    ensures Evaluates(g, exits, start, n, end, LowerExpr(env, c, e), c.next, Eval(AsEmitted, e, start.mem))
    decreases e, 1
  {
    hide Grew, Contains, Clear, Run, StepOf, MemoryTyped, LowerExpr, Compute, Eval, TypeOf;
    UnaryShape(env, e, c, g, exits);
    var r1 := LowerExpr(env, c, e.child);
    n, end := ExprSim(env, e.child, c, g, exits, start);
    if Eval(AsEmitted, e.child, start.mem).Some? {
      var x, y := UnaryMeaning(env, e, start.mem);
      n, end := OneBinOp(g, exits, c, r1.code, UnaryInstr(e.unaryOp, r1.code.next, r1.value.value.operand),
                         LowerExpr(env, c, e).code, start, n, end, x, y);
    } else {
      UnaryFaults(e, start.mem);
    }
  }

  lemma UnaryFaults(e: Expr, m: Memory)
    requires e.Unary? && Eval(AsEmitted, e.child, m).None?
    ensures Eval(AsEmitted, e, m).None?
  {
  }

  lemma UnaryMeaning(env: Env, e: Expr, m: Memory) returns (x: Value, y: Value)
    requires e.Unary? && TypeOf(env, e).Some? && MemoryTyped(env, m) && Eval(AsEmitted, e.child, m).Some?
    ensures e.unaryOp == Negate ==>
              x == IntValue(0) && y == Eval(AsEmitted, e.child, m).value.0 &&
              Eval(AsEmitted, e, m) == Lift(Compute(Sub, x, y), Eval(AsEmitted, e.child, m).value.1)
    ensures e.unaryOp == Invert ==>
              x == Eval(AsEmitted, e.child, m).value.0 && y == BoolValue(false) &&
              Eval(AsEmitted, e, m) == Lift(Compute(ICmpNE, x, y), Eval(AsEmitted, e.child, m).value.1)
  {
    EvaluationIsTyped(AsEmitted, env, e.child, m);
    var v := Eval(AsEmitted, e.child, m).value.0;
    x := if e.unaryOp == Negate then IntValue(0) else v;
    y := if e.unaryOp == Negate then v else BoolValue(false);
  }

  function Lift(v: Option<Value>, m: Memory): Evaluated {
    if v.None? then None else Some((v.value, m))
  }

  /** Two expressions one after the other: the value of the first outlives the second. */
  lemma {:induction false} PairSim(env: Env, e: Expr, l: Expr, r: Expr, c: Code, g: Blocks, exits: set<Position>,
                                   start: Config)
    returns (n: nat, end: Config)
    requires l < e && r < e
    requires c.insert < |c.blocks| && TypeOf(env, l).Some? && TypeOf(env, r).Some?
    requires MemoryTyped(env, start.mem) && start.at == c.Out()
    requires Contains(g, LowerExpr(env, LowerExpr(env, c, l).code, r).code)
    requires Clear(exits, c, LowerExpr(env, LowerExpr(env, c, l).code, r).code)
    ensures LowerExpr(env, c, l).value.Some?
    ensures LowerExpr(env, LowerExpr(env, c, l).code, r).value.Some?
    ensures BothEvaluate(g, exits, start, n, end, LowerExpr(env, c, l),
                         LowerExpr(env, LowerExpr(env, c, l).code, r), c.next, EvalPair(l, r, start.mem))
    decreases e, 0
  {
    hide Grew, Contains, Clear, Run, StepOf, MemoryTyped, Eval, LowerExpr;
    TypedLowers(env, c, l);
    ExprGrows(env, c, l);
    var r1 := LowerExpr(env, c, l);
    TypedLowers(env, r1.code, r);
    ExprGrows(env, r1.code, r);
    var r2 := LowerExpr(env, r1.code, r);
    ContainsEarlier(g, r1.code, r2.code);
    ClearSplit(exits, c, r1.code, r2.code);
    n, end := ExprSim(env, l, c, g, exits, start);
    EvaluationIsTyped(AsEmitted, env, l, start.mem);
    if Eval(AsEmitted, l, start.mem).Some? {
      var n2, end2 := ExprSim(env, r, r1.code, g, exits, end);
      RunsCompose(g, exits, start, n, n2);
      n, end := n + n2, end2;
    }
  }

  /** The values of l and then r, and the memory they leave. */
  function EvalPair(l: Expr, r: Expr, m: Memory): Option<(Value, Value, Memory)> {
    match Eval(AsEmitted, l, m)
    case None => None
    case Some((x, m1)) =>
      match Eval(AsEmitted, r, m1)
      case None => None
      case Some((y, m2)) => Some((x, y, m2))
  }

  ghost predicate BothEvaluate(g: Blocks, exits: set<Position>, start: Config, n: nat, end: Config,
                               r1: Lowered, r2: Lowered, next: nat, out: Option<(Value, Value, Memory)>)
    requires r2.code.insert < |r2.code.blocks| && r1.value.Some? && r2.value.Some?
  {
    && Run(g, exits, start, n) == Some(end)
    && match out
       case None => Stuck(g, exits, end)
       case Some((x, y, m)) =>
         && end.at == r2.code.Out() && end.mem == m
         && Read(end.regs, r1.value.value.operand) == Some(x)
         && Read(end.regs, r2.value.value.operand) == Some(y)
         && Kept(start.regs, end.regs, next)
  }

  /** Each operator is lowered to the machine instruction with its meaning. */
  lemma OperatorMeaning(op: Opcode, x: Value, y: Value, l: Type, r: Type)
    requires !IsAssignment(op) && TypeOfValue(x) == l && TypeOfValue(y) == r
    requires BinaryType(op, Some(l), Some(r)).Some?
    ensures Compute(MachineOpOf(op), x, y) == Apply(op, x, y)
  {
    hide Wrap, TruncDiv, TruncMod, DivisionFaults;
  }

  lemma BinaryShape(env: Env, e: Expr, c: Code, g: Blocks, exits: set<Position>)
    requires c.insert < |c.blocks| && TypeOf(env, e).Some? && e.Binary? && !IsAssignment(e.opcode)
    requires Contains(g, LowerExpr(env, c, e).code) && Clear(exits, c, LowerExpr(env, c, e).code)
    ensures var r1 := LowerExpr(env, c, e.left);
            var r2 := LowerExpr(env, r1.code, e.right);
            && TypeOf(env, e.left).Some? && TypeOf(env, e.right).Some?
            && Grew(c, r2.code) && r1.value.Some? && r2.value.Some?
            && Contains(g, r2.code) && Clear(exits, c, r2.code)
            && LowerExpr(env, c, e).code == r2.code.EmitValue(
                 BinOp(r2.code.next, MachineOpOf(e.opcode), r1.value.value.operand, r2.value.value.operand))
            && LowerExpr(env, c, e).value.Some?
            && LowerExpr(env, c, e).value.value.operand == Reg(r2.code.next)
  {
    hide Grew, Contains, Clear, MachineOpOf;
    TypedLowers(env, c, e);
    assert LowerExpr(env, c, e) == LowerBinary(env, c, e);
    var r1 := LowerExpr(env, c, e.left);
    var r2 := LowerExpr(env, r1.code, e.right);
    TypedLowers(env, c, e.left);
    TypedLowers(env, r1.code, e.right);
    ExprGrows(env, c, e.left);
    ExprGrows(env, r1.code, e.right);
    GrewTransitive(c, r1.code, r2.code);
    Narrow(g, exits, c, r2.code, LowerExpr(env, c, e).code,
           BinOp(r2.code.next, MachineOpOf(e.opcode), r1.value.value.operand, r2.value.value.operand));
  }

  lemma {:induction false} BinarySim(env: Env, e: Expr, c: Code, g: Blocks, exits: set<Position>, start: Config)
    returns (n: nat, end: Config)
    requires Ready(env, e, c, g, exits, start) && e.Binary? && !IsAssignment(e.opcode)
    ensures LowerExpr(env, c, e).value.Some?
    ensures Evaluates(g, exits, start, n, end, LowerExpr(env, c, e), c.next, Eval(AsEmitted, e, start.mem))
    decreases e, 1
  {
    hide Grew, Contains, Clear, Run, StepOf, MemoryTyped, LowerExpr, Compute, Eval, TypeOf, MachineOpOf;
    BinaryShape(env, e, c, g, exits);
    var r1 := LowerExpr(env, c, e.left);
    var r2 := LowerExpr(env, r1.code, e.right);
    n, end := PairSim(env, e, e.left, e.right, c, g, exits, start);
    BinaryMeaning(env, e, start.mem);
    var out := EvalPair(e.left, e.right, start.mem);
    if out.Some? {
      n, end := OneBinOp(g, exits, c, r2.code,
                         BinOp(r2.code.next, MachineOpOf(e.opcode), r1.value.value.operand, r2.value.value.operand),
                         LowerExpr(env, c, e).code, start, n, end, out.value.0, out.value.1);
    }
  }

  lemma BinaryMeaning(env: Env, e: Expr, m: Memory)
    requires e.Binary? && !IsAssignment(e.opcode) && TypeOf(env, e).Some? && MemoryTyped(env, m)
    ensures var out := EvalPair(e.left, e.right, m);
            Eval(AsEmitted, e, m) ==
              if out.None? then None
              else Lift(Compute(MachineOpOf(e.opcode), out.value.0, out.value.1), out.value.2)
  {
    hide Compute, Apply;
    if EvalPair(e.left, e.right, m).Some? {
      EvaluationIsTyped(AsEmitted, env, e.left, m);
      var (x, m1) := Eval(AsEmitted, e.left, m).value;
      EvaluationIsTyped(AsEmitted, env, e.right, m1);
      OperatorMeaning(e.opcode, x, Eval(AsEmitted, e.right, m1).value.0,
                      TypeOf(env, e.left).value, TypeOf(env, e.right).value);
    }
  }

  /** Load, combine, store: x becomes the combination of its value at that moment and b. */
  lemma UpdateSim(g: Blocks, exits: set<Position>, c: Code, m: Code, mop: MachineOp, x: string, b: Operand, y: Value,
                  start: Config, n: nat, mid: Config)
    returns (n1: nat, end: Config)
    requires c.insert < |c.blocks| && m.insert < |m.blocks| && Grew(c, m)
    requires Contains(g, EmitUpdate(m, mop, x, b)) && Clear(exits, c, EmitUpdate(m, mop, x, b))
    requires Run(g, exits, start, n) == Some(mid) && mid.at == m.Out()
    requires x in mid.mem && Read(mid.regs, b) == Some(y) && (b.Reg? ==> b.r < m.next)
    ensures Run(g, exits, start, n1) == Some(end)
    ensures match Compute(mop, mid.mem[x], y)
            case None => Stuck(g, exits, end)
            case Some(w) =>
              && end.at == EmitUpdate(m, mop, x, b).Out() && end.mem == mid.mem[x := w]
              && end.regs == mid.regs[m.next := mid.mem[x]][m.next + 1 := w]
  {
    hide Grew, Contains, Clear, Run, Compute, Code.EmitValue, Code.Emit;
    var i1, i2, i3 := Load(m.next, x), BinOp(m.next + 1, mop, Reg(m.next), b), Store(Reg(m.next + 1), x);
    var m1 := m.EmitValue(i1);
    var m2 := m1.EmitValue(i2);
    GrewEmit(c, m, i1);
    GrewEmit(c, m1, i2);
    EmitAlike(m1, i2);
    EmitAlike(m, i1);
    Narrow(g, exits, c, m2, m2.Emit(i3), i3);
    Narrow(g, exits, c, m1, m2, i2);
    end := OneLoad(g, exits, c, m, x, start, n, mid);
    var v := end.mem[x];
    n1, end := OneBinOp(g, exits, c, m1, i2, m2, start, n + 1, end, v, y);
    if Compute(mop, v, y).Some? {
      end := OneStore(g, exits, c, m2, Reg(m.next + 1), x, Compute(mop, v, y).value, start, n1, end);
      n1 := n1 + 1;
    }
  }

  lemma StepMeaning(step: Step, v: Value)
    requires v.IntValue?
    ensures StepValue(step, v) == Compute(StepOp(step), v, IntValue(1))
  {
    hide Wrap;
  }

  lemma StepSim(env: Env, e: Expr, c: Code, g: Blocks, exits: set<Position>, start: Config)
    returns (n: nat, end: Config)
    requires Ready(env, e, c, g, exits, start) && (e.Prefix? || e.Postfix?)
    ensures LowerExpr(env, c, e).value.Some?
    ensures Evaluates(g, exits, start, n, end, LowerExpr(env, c, e), c.next, Eval(AsEmitted, e, start.mem))
  {
    hide Grew, Contains, Clear, StepValue, Compute, EmitUpdate;
    GrewReflexive(c);
    var v := start.mem[e.name];
    StepMeaning(e.step, v);
    n, end := UpdateSim(g, exits, c, c, StepOp(e.step), e.name, Const(IntValue(1)), IntValue(1), start, 0, start);
  }

  lemma AssignShape(env: Env, e: Expr, c: Code, g: Blocks, exits: set<Position>)
    requires c.insert < |c.blocks| && TypeOf(env, e).Some? && e.Binary? && IsAssignment(e.opcode)
    requires Contains(g, LowerExpr(env, c, e).code) && Clear(exits, c, LowerExpr(env, c, e).code)
    ensures e.left.Atomic? && e.left.literal.Identifier? && e.left.literal.name in env
    ensures var x := e.left.literal.name;
            var r1 := LowerExpr(env, c, e.right);
            && TypeOf(env, e.right) == Some(env[x]) && Grew(c, r1.code) && r1.value.Some?
            && Contains(g, r1.code) && Clear(exits, c, r1.code)
            && LowerExpr(env, c, e).value.Some?
            && if CompoundOp(e.opcode).None? then
                 && LowerExpr(env, c, e).code == r1.code.Emit(Store(r1.value.value.operand, x))
                 && LowerExpr(env, c, e).value == r1.value
               else
                 && env[x] == Int
                 && LowerExpr(env, c, e).code
                    == EmitUpdate(r1.code, MachineOpOf(CompoundOp(e.opcode).value), x, r1.value.value.operand)
                 && LowerExpr(env, c, e).value.value.operand == Reg(r1.code.next + 1)
  {
    hide Grew, Contains, Clear, MachineOpOf, Code.Emit, EmitUpdate;
    TypedLowers(env, c, e);
    assert LowerExpr(env, c, e) == LowerAssign(env, c, e);
    TypedLowers(env, c, e.right);
    ExprGrows(env, c, e.right);
    var r1 := LowerExpr(env, c, e.right);
    var x := e.left.literal.name;
    if CompoundOp(e.opcode).None? {
      var i := Store(r1.value.value.operand, x);
      Narrow(g, exits, c, r1.code, r1.code.Emit(i), i);
    } else {
      NarrowUpdate(g, exits, c, r1.code, MachineOpOf(CompoundOp(e.opcode).value), x, r1.value.value.operand);
    }
  }

  lemma NarrowUpdate(g: Blocks, exits: set<Position>, c: Code, m: Code, mop: MachineOp, x: string, b: Operand)
    requires c.insert < |c.blocks| && m.insert < |m.blocks| && Grew(c, m)
    requires Contains(g, EmitUpdate(m, mop, x, b)) && Clear(exits, c, EmitUpdate(m, mop, x, b))
    ensures Contains(g, m) && Clear(exits, c, m)
  {
    hide Grew, Contains, Clear;
    var d := EmitUpdate(m, mop, x, b);
    GrewReflexive(m);
    UpdateGrows(m, m, mop, x, b);
    ContainsEarlier(g, m, d);
    ClearSplit(exits, c, m, d);
  }

  /** An assignment computes its right side, then reads (if compound) and writes its target. */
  lemma {:induction false} AssignSim(env: Env, e: Expr, c: Code, g: Blocks, exits: set<Position>, start: Config)
    returns (n: nat, end: Config)
    requires Ready(env, e, c, g, exits, start) && e.Binary? && IsAssignment(e.opcode)
    ensures LowerExpr(env, c, e).value.Some?
    ensures Evaluates(g, exits, start, n, end, LowerExpr(env, c, e), c.next, Eval(AsEmitted, e, start.mem))
    decreases e, 1
  {
    hide Grew, Contains, Clear, Run, StepOf, LowerExpr, Compute, TypeOf, MachineOpOf, Apply, EmitUpdate, Code.Emit,
         Eval;
    AssignShape(env, e, c, g, exits);
    var x := e.left.literal.name;
    var r1 := LowerExpr(env, c, e.right);
    n, end := ExprSim(env, e.right, c, g, exits, start);
    AssignMeaning(env, e, start.mem);
    var out := Eval(AsEmitted, e.right, start.mem);
    if out.Some? {
      EvaluationIsTyped(AsEmitted, env, e.right, start.mem);
      var o := r1.value.value.operand;
      if CompoundOp(e.opcode).None? {
        end := OneStore(g, exits, c, r1.code, o, x, out.value.0, start, n, end);
        n := n + 1;
      } else {
        n, end := UpdateSim(g, exits, c, r1.code, MachineOpOf(CompoundOp(e.opcode).value), x, o, out.value.0,
                            start, n, end);
      }
    }
  }

  lemma AssignMeaning(env: Env, e: Expr, m: Memory)
    requires e.Binary? && IsAssignment(e.opcode) && TypeOf(env, e).Some? && MemoryTyped(env, m)
    ensures var x := e.left.literal.name;
            match Eval(AsEmitted, e.right, m)
            case None => Eval(AsEmitted, e, m) == None
            case Some((v, m1)) =>
              && x in m1
              && Eval(AsEmitted, e, m) ==
                   if CompoundOp(e.opcode).None? then Some((v, m1[x := v]))
                   else
                     match Compute(MachineOpOf(CompoundOp(e.opcode).value), m1[x], v)
                     case None => None
                     case Some(w) => Some((w, m1[x := w]))
  {
    hide Compute, Apply, MachineOpOf;
    EvaluationIsTyped(AsEmitted, env, e.right, m);
    if Eval(AsEmitted, e.right, m).Some? && CompoundOp(e.opcode).Some? {
      var (v, m1) := Eval(AsEmitted, e.right, m).value;
      OperatorMeaning(CompoundOp(e.opcode).value, m1[e.left.literal.name], v, Int, Int);
    }
  }

  /** The three blocks that choose between two computed values. */
  lemma JoinShape(c: Code, test: Operand, t: TypedOperand, f: TypedOperand, g: Blocks)
    requires c.insert < |c.blocks| && Contains(g, JoinArms(c, test, t, f).code)
    ensures var n := |c.blocks|;
            && |g| >= n + 3 && |g[c.insert]| > |c.blocks[c.insert]|
            && g[c.insert][|c.blocks[c.insert]|] == CondBr(test, n, n + 1)
            && |g[n]| >= 1 && g[n][0] == Br(n + 2)
            && |g[n + 1]| >= 1 && g[n + 1][0] == Br(n + 2)
            && |g[n + 2]| >= 1 && g[n + 2][0] == Phi(c.next, t.operand, n, f.operand, n + 1)
            && JoinArms(c, test, t, f).code.Out() == Position(n + 2, 1)
            && |JoinArms(c, test, t, f).code.blocks| == n + 3
            && |JoinArms(c, test, t, f).code.blocks[c.insert]| == |c.blocks[c.insert]| + 1
  {
    var n := |c.blocks|;
    var d := JoinArms(c, test, t, f).code;
    assert d.blocks[c.insert] == c.blocks[c.insert] + [CondBr(test, n, n + 1)];
    assert d.blocks[n] == [Br(n + 2)];
    assert d.blocks[n + 1] == [Br(n + 2)];
    assert d.blocks[n + 2] == [Phi(c.next, t.operand, n, f.operand, n + 1)];
    assert d.blocks[c.insert] <= g[c.insert] && d.blocks[n] <= g[n];
    assert d.blocks[n + 1] <= g[n + 1] && d.blocks[n + 2] <= g[n + 2];
  }

  lemma JoinSim(c: Code, test: Operand, t: TypedOperand, f: TypedOperand, g: Blocks, exits: set<Position>,
                start: Config, b: bool, x: Value, y: Value)
    returns (end: Config)
    requires c.insert < |c.blocks| && Contains(g, JoinArms(c, test, t, f).code)
    requires Clear(exits, c, JoinArms(c, test, t, f).code) && start.at == c.Out()
    requires Read(start.regs, test) == Some(BoolValue(b))
    requires Read(start.regs, t.operand) == Some(x) && Read(start.regs, f.operand) == Some(y)
    ensures JoinArms(c, test, t, f).value == Some(TypedOperand(Reg(c.next), t.ty))
    ensures Run(g, exits, start, 3) == Some(end)
    ensures end.at == JoinArms(c, test, t, f).code.Out() && end.mem == start.mem
    ensures end.regs == start.regs[c.next := if b then x else y]
  {
    var n := |c.blocks|;
    var d := JoinArms(c, test, t, f).code;
    JoinShape(c, test, t, f, g);
    hide JoinArms, Contains;
    assert Inside(c, d, c.Out()) && Inside(c, d, Position(n, 0))
           && Inside(c, d, Position(n + 1, 0)) && Inside(c, d, Position(n + 2, 0));
    var mid := Jump(start, if b then n else n + 1);
    var last := Jump(mid, n + 2);
    assert StepOf(g, start) == Some(mid) && StepOf(g, mid) == Some(last);
    end := Define(last, c.next, if b then x else y);
    assert StepOf(g, last) == Some(end);
    assert Run(g, exits, last, 1) == Some(end) && Run(g, exits, mid, 2) == Some(end);
  }

  lemma TernaryShape(env: Env, e: Expr, c: Code, g: Blocks, exits: set<Position>)
    requires c.insert < |c.blocks| && TypeOf(env, e).Some? && e.Ternary?
    requires Contains(g, LowerExpr(env, c, e).code) && Clear(exits, c, LowerExpr(env, c, e).code)
    ensures TypeOf(env, e.condition) == Some(Bool) && TypeOf(env, e.thenPath).Some? && TypeOf(env, e.elsePath).Some?
    ensures var r1 := LowerExpr(env, c, e.condition);
            var r2 := LowerExpr(env, r1.code, e.thenPath);
            var r3 := LowerExpr(env, r2.code, e.elsePath);
            && r1.value.Some? && r2.value.Some? && r3.value.Some? && LowerExpr(env, c, e).value.Some?
            && LowerExpr(env, c, e) == JoinArms(r3.code, r1.value.value.operand, r2.value.value, r3.value.value)
            && Contains(g, r1.code) && Clear(exits, c, r1.code)
            && Contains(g, r3.code) && Clear(exits, r1.code, r3.code)
            && Clear(exits, r3.code, LowerExpr(env, c, e).code)
  {
    hide Grew, Contains, Clear, JoinArms;
    TypedLowers(env, c, e);
    assert LowerExpr(env, c, e) == LowerTernary(env, c, e);
    var r1 := LowerExpr(env, c, e.condition);
    var r2 := LowerExpr(env, r1.code, e.thenPath);
    var r3 := LowerExpr(env, r2.code, e.elsePath);
    TypedLowers(env, c, e.condition);
    TypedLowers(env, r1.code, e.thenPath);
    TypedLowers(env, r2.code, e.elsePath);
    ExprGrows(env, c, e.condition);
    ExprGrows(env, r1.code, e.thenPath);
    ExprGrows(env, r2.code, e.elsePath);
    GrewTransitive(r1.code, r2.code, r3.code);
    GrewTransitive(c, r1.code, r3.code);
    GrewReflexive(r3.code);
    JoinGrows(r3.code, r3.code, r1.value.value.operand, r2.value.value, r3.value.value);
    var d := LowerExpr(env, c, e).code;
    ContainsEarlier(g, r3.code, d);
    ContainsEarlier(g, r1.code, r3.code);
    ClearSplit(exits, c, r3.code, d);
    ClearSplit(exits, c, r1.code, r3.code);
  }

  /** The part of a ternary behind its test: both arms run before the choice is made. */
  lemma {:induction false} ArmsSim(env: Env, e: Expr, c: Code, test: Operand, b: bool, g: Blocks,
                                   exits: set<Position>, start: Config)
    returns (n: nat, end: Config)
    requires c.insert < |c.blocks| && e.Ternary? && TypeOf(env, e.thenPath).Some? && TypeOf(env, e.elsePath).Some?
    requires MemoryTyped(env, start.mem) && start.at == c.Out() && Read(start.regs, test) == Some(BoolValue(b))
    requires test.Reg? ==> test.r < c.next
    requires ArmsReady(env, e, c, test, g, exits)
    ensures var r := JoinedArms(env, e, c, test);
            Evaluates(g, exits, start, n, end, r, c.next,
                      match EvalPair(e.thenPath, e.elsePath, start.mem)
                      case None => None
                      case Some((x, y, m)) => Some((if b then x else y, m)))
    decreases e, 1
  {
    hide Grew, Contains, Clear, Run, StepOf, LowerExpr, TypeOf, JoinArms, MemoryTyped, EvalPair, Eval;
    var r2 := LowerExpr(env, c, e.thenPath);
    var r3 := LowerExpr(env, r2.code, e.elsePath);
    n, end := PairSim(env, e, e.thenPath, e.elsePath, c, g, exits, start);
    ghost var mid := end;
    var arms := EvalPair(e.thenPath, e.elsePath, start.mem);
    if arms.Some? {
      end := JoinSim(r3.code, test, r2.value.value, r3.value.value, g, exits, mid, b, arms.value.0, arms.value.1);
      RunsCompose(g, exits, start, n, 3);
      n := n + 3;
    }
  }

  ghost predicate ArmsReady(env: Env, e: Expr, c: Code, test: Operand, g: Blocks, exits: set<Position>)
    requires c.insert < |c.blocks| && e.Ternary?
  {
    && ArmsHaveCode(env, e, c)
    && var d := LowerExpr(env, LowerExpr(env, c, e.thenPath).code, e.elsePath).code;
       var j := JoinedArms(env, e, c, test).code;
       c.next <= d.next && Contains(g, d) && Clear(exits, c, d) && Contains(g, j) && Clear(exits, d, j)
  }

  predicate ArmsHaveCode(env: Env, e: Expr, c: Code)
    requires c.insert < |c.blocks| && e.Ternary?
  {
    var r := LowerExpr(env, c, e.thenPath);
    r.value.Some? && LowerExpr(env, r.code, e.elsePath).value.Some?
  }

  function JoinedArms(env: Env, e: Expr, c: Code, test: Operand): Lowered
    requires c.insert < |c.blocks| && e.Ternary? && ArmsHaveCode(env, e, c)
  {
    var t := LowerExpr(env, c, e.thenPath);
    var f := LowerExpr(env, t.code, e.elsePath);
    JoinArms(f.code, test, t.value.value, f.value.value)
  }

  /** Both arms of a ternary run before the choice is made. */
  lemma {:induction false} TernarySim(env: Env, e: Expr, c: Code, g: Blocks, exits: set<Position>, start: Config)
    returns (n: nat, end: Config)
    requires Ready(env, e, c, g, exits, start) && e.Ternary?
    ensures LowerExpr(env, c, e).value.Some?
    ensures Evaluates(g, exits, start, n, end, LowerExpr(env, c, e), c.next, Eval(AsEmitted, e, start.mem))
    decreases e, 2
  {
    hide Grew, Contains, Clear, Run, StepOf, LowerExpr, TypeOf, JoinArms, MemoryTyped;
    TernaryShape(env, e, c, g, exits);
    var r1 := LowerExpr(env, c, e.condition);
    n, end := ExprSim(env, e.condition, c, g, exits, start);
    EvaluationIsTyped(AsEmitted, env, e.condition, start.mem);
    var out := Eval(AsEmitted, e.condition, start.mem);
    if out.Some? {
      var n2, end2 := ArmsSim(env, e, r1.code, r1.value.value.operand, out.value.0.b, g, exits, end);
      RunsCompose(g, exits, start, n, n2);
      n, end := n + n2, end2;
    }
  }

  lemma EmitAlike(m: Code, i: Instr)
    requires m.insert < |m.blocks|
    ensures m.EmitValue(i).blocks == m.Emit(i).blocks
  {
  }

  /** What holds of the code up to d holds of the code up to m, which d extends by an instruction. */
  lemma Narrow(g: Blocks, exits: set<Position>, c: Code, m: Code, d: Code, i: Instr)
    requires c.insert < |c.blocks| && m.insert < |m.blocks| && Grew(c, m)
    requires d.blocks == m.Emit(i).blocks && d.insert == m.insert
    requires Contains(g, d) && Clear(exits, c, d)
    ensures Contains(g, m) && Clear(exits, c, m)
  {
    forall k | 0 <= k < |m.blocks|
      ensures m.blocks[k] <= g[k]
    {
      assert d.blocks[k] <= g[k];
    }
    forall p | p in exits
      ensures !Inside(c, m, p)
    {
      assert !Inside(c, d, p);
    }
  }
}
