/** What the expression emitter and the control-flow emitter do to the function being
    generated, as functions from one state of the generated code to the next. */
module Lowering {
  import opened Ast
  import opened Graph

  const MAX_LOOP_NESTING := 64

  /** Where `break` and `continue` lead in one enclosing loop. */
  datatype LoopTarget = LoopTarget(endBlock: nat, contBlock: nat)

  /** insert is the block new instructions go to, next the first unused register, loops the
      used part of the loop-target stack, hasError the flag of the control-flow emitter. */
  datatype Code = Code(blocks: Blocks, insert: nat, next: nat, loops: seq<LoopTarget>, hasError: bool) {

    /** The targets of every open loop are distinct blocks other than the insert block. */
    ghost predicate Valid() {
      && insert < |blocks|
      && |loops| <= MAX_LOOP_NESTING
      && forall i :: 0 <= i < |loops| ==>
           && loops[i].endBlock < |blocks| && loops[i].contBlock < |blocks|
           && loops[i].endBlock != loops[i].contBlock
           && insert != loops[i].endBlock && insert != loops[i].contBlock
    }

    /** The position just behind the last instruction emitted. */
    function Out(): Position
      requires insert < |blocks|
    {
      Position(insert, |blocks[insert]|)
    }

    function Emit(i: Instr): (d: Code)
      requires insert < |blocks|
      ensures |d.blocks| == |blocks| && d.insert == insert && d.next == next
      ensures d.loops == loops && d.hasError == hasError
    {
      this.(blocks := blocks[insert := blocks[insert] + [i]])
    }

    /** Appends an instruction that defines the next register. */
    function EmitValue(i: Instr): (d: Code)
      requires insert < |blocks|
      ensures |d.blocks| == |blocks| && d.insert == insert && d.next == next + 1
      ensures d.loops == loops && d.hasError == hasError
    {
      Emit(i).(next := next + 1)
    }

    function CreateBlocks(n: nat): (d: Code)
      ensures |d.blocks| == |blocks| + n && d.insert == insert && d.next == next
      ensures d.loops == loops && d.hasError == hasError
    {
      this.(blocks := blocks + seq(n, _ => []))
    }

    /** Ends the insert block with an instruction and goes on in block b. */
    function Close(i: Instr, b: nat): (d: Code)
      requires insert < |blocks|
      ensures |d.blocks| == |blocks| && d.insert == b && d.next == next
      ensures d.loops == loops && d.hasError == hasError
    {
      Emit(i).SetInsert(b)
    }

    function SetInsert(b: nat): Code {
      this.(insert := b)
    }

    function Failed(): Code {
      this.(hasError := true)
    }

    function ClearError(): Code {
      this.(hasError := false)
    }

    function PushLoop(t: LoopTarget): Code {
      this.(loops := loops + [t])
    }

    function PopLoop(): Code
      requires |loops| > 0
    {
      this.(loops := loops[..|loops| - 1])
    }
  }

  /** The insert point of d is that of c or in a block created since. */
  ghost predicate Moved(c: Code, d: Code) {
    && |c.blocks| <= |d.blocks|
    && (d.insert == c.insert || |c.blocks| <= d.insert < |d.blocks|)
    && c.next <= d.next
  }

  /** From c to d instructions were only appended to the insert block of c and to fresh blocks,
      and the insert point is where it was or in a fresh block. */
  ghost predicate Grew(c: Code, d: Code) {
    && Moved(c, d)
    && (forall i :: 0 <= i < |c.blocks| && i != c.insert ==> d.blocks[i] == c.blocks[i])
    && (c.insert < |c.blocks| ==> c.blocks[c.insert] <= d.blocks[c.insert])
  }

  // ---------- Expressions ----------

  /** An LLVM value: where it is found and its type. */
  datatype TypedOperand = TypedOperand(operand: Operand, ty: Type)

  /** value is None where the emitter returns a null pointer. */
  datatype Lowered = Lowered(code: Code, value: Option<TypedOperand>)

  function MachineOpOf(op: Opcode): MachineOp
    requires !IsAssignment(op)
  {
    match op
    case Addition => Add
    case Subtraction => Sub
    case Multiplication => Mul
    case Division => SDiv
    case Modulo => SRem
    case And => AndBits
    case Or => OrBits
    case CompareLess => ICmpSLT
    case CompareLessEqual => ICmpSLE
    case CompareGreater => ICmpSGT
    case CompareGreaterEqual => ICmpSGE
    case CompareEqual => ICmpEQ
    case CompareNotEqual => ICmpNE
  }

  predicate IsComparison(op: Opcode) {
    op in {CompareEqual, CompareNotEqual, CompareLess, CompareLessEqual, CompareGreater, CompareGreaterEqual}
  }

  function EmitBinOp(c: Code, mop: MachineOp, a: Operand, b: Operand, ty: Type): Lowered
    requires c.insert < |c.blocks|
  {
    Lowered(c.EmitValue(BinOp(c.next, mop, a, b)), Some(TypedOperand(Reg(c.next), ty)))
  }

  function StepOp(step: Step): MachineOp {
    if step == Increment then Add else Sub
  }

  /** The value left behind is usable: a register it names has been defined. */
  predicate ValueDefined(r: Lowered) {
    r.value.Some? && r.value.value.operand.Reg? ==> r.value.value.operand.r < r.code.next
  }

  function LowerExpr(env: Env, c: Code, e: Expr): (r: Lowered)
    requires c.insert < |c.blocks|
    ensures Moved(c, r.code) && ValueDefined(r)
    ensures r.code.loops == c.loops && r.code.hasError == c.hasError
    decreases e, 1
  {
    match e
    case Missing => Lowered(c, None)
    case Atomic(Integer(n)) => Lowered(c, Some(TypedOperand(Const(IntValue(n)), Int)))
    case Atomic(Boolean(b)) => Lowered(c, Some(TypedOperand(Const(BoolValue(b)), Bool)))
    case Atomic(Identifier(x)) =>
      if x in env then
        Lowered(c.EmitValue(Load(c.next, x)), Some(TypedOperand(Reg(c.next), env[x])))
      else Lowered(c, None)
    case Unary(_, _) => LowerUnary(env, c, e)
    case Binary(op, _, _) => if IsAssignment(op) then LowerAssign(env, c, e) else LowerBinary(env, c, e)
    case Ternary(_, _, _) => LowerTernary(env, c, e)
    case Grouping(child) => LowerExpr(env, c, child)
    case Prefix(step, x) =>
      if x in env then
        Lowered(EmitUpdate(c, StepOp(step), x, Const(IntValue(1))), Some(TypedOperand(Reg(c.next + 1), env[x])))
      else Lowered(c, None)
    case Postfix(step, x) =>
      if x in env then
        Lowered(EmitUpdate(c, StepOp(step), x, Const(IntValue(1))), Some(TypedOperand(Reg(c.next), env[x])))
      else Lowered(c, None)
  }

  function LowerUnary(env: Env, c: Code, e: Expr): (r: Lowered)
    requires c.insert < |c.blocks| && e.Unary?
    ensures Moved(c, r.code) && ValueDefined(r)
    ensures r.code.loops == c.loops && r.code.hasError == c.hasError
    decreases e, 0
  {
    var r1 := LowerExpr(env, c, e.child);
    if r1.value.None? then r1
    else if e.unaryOp == Negate then
      EmitBinOp(r1.code, Sub, Const(IntValue(0)), r1.value.value.operand, Int)
    else
      EmitBinOp(r1.code, ICmpNE, r1.value.value.operand, Const(BoolValue(false)), Bool)
  }

  function LowerBinary(env: Env, c: Code, e: Expr): (r: Lowered)
    requires c.insert < |c.blocks| && e.Binary? && !IsAssignment(e.opcode)
    ensures Moved(c, r.code) && ValueDefined(r)
    ensures r.code.loops == c.loops && r.code.hasError == c.hasError
    decreases e, 0
  {
    var r1 := LowerExpr(env, c, e.left);
    if r1.value.None? then r1
    else
      var r2 := LowerExpr(env, r1.code, e.right);
      if r2.value.None? then r2
      else
        EmitBinOp(r2.code, MachineOpOf(e.opcode), r1.value.value.operand, r2.value.value.operand,
                  if IsComparison(e.opcode) then Bool else r1.value.value.ty)
  }

  /** The right side is computed first; a compound assignment then loads its target. */
  function LowerAssign(env: Env, c: Code, e: Expr): (r: Lowered)
    requires c.insert < |c.blocks| && e.Binary? && IsAssignment(e.opcode)
    ensures Moved(c, r.code) && ValueDefined(r)
    ensures r.code.loops == c.loops && r.code.hasError == c.hasError
    decreases e, 0
  {
    if !(e.left.Atomic? && e.left.literal.Identifier? && e.left.literal.name in env) then Lowered(c, None)
    else
      var x := e.left.literal.name;
      var r1 := LowerExpr(env, c, e.right);
      if r1.value.None? then r1
      else
        var v := r1.value.value;
        match CompoundOp(e.opcode)
        case None => Lowered(r1.code.Emit(Store(v.operand, x)), Some(v))
        case Some(arith) =>
          Lowered(EmitUpdate(r1.code, MachineOpOf(arith), x, v.operand),
                  Some(TypedOperand(Reg(r1.code.next + 1), env[x])))
  }

  function LowerTernary(env: Env, c: Code, e: Expr): (r: Lowered)
    requires c.insert < |c.blocks| && e.Ternary?
    ensures Moved(c, r.code) && ValueDefined(r)
    ensures r.code.loops == c.loops && r.code.hasError == c.hasError
    decreases e, 0
  {
    var r1 := LowerExpr(env, c, e.condition);
    if e.condition.Missing? || e.thenPath.Missing? || e.elsePath.Missing? then Lowered(c, None)
    else if r1.value.None? || r1.value.value.ty != Bool then Lowered(r1.code, None)
    else
      var r2 := LowerExpr(env, r1.code, e.thenPath);
      var r3 := LowerExpr(env, r2.code, e.elsePath);
      if r2.value.None? || r3.value.None? then Lowered(r3.code, None)
      else JoinArms(r3.code, r1.value.value.operand, r2.value.value, r3.value.value)
  }

  /** Compound assignment, ++ and --: load x, combine it with b, store the result. */
  function EmitUpdate(c: Code, mop: MachineOp, x: string, b: Operand): (d: Code)
    requires c.insert < |c.blocks|
    ensures |d.blocks| == |c.blocks| && d.insert == c.insert && d.next == c.next + 2
    ensures d.loops == c.loops && d.hasError == c.hasError
  {
    c.EmitValue(Load(c.next, x))
     .EmitValue(BinOp(c.next + 1, mop, Reg(c.next), b))
     .Emit(Store(Reg(c.next + 1), x))
  }

  /** Both arms have been computed; the blocks only choose between the two registers. */
  function JoinArms(c: Code, test: Operand, t: TypedOperand, f: TypedOperand): Lowered
    requires c.insert < |c.blocks|
  {
    var n := |c.blocks|;
    var c1 := c.CreateBlocks(3).Close(CondBr(test, n, n + 1), n);
    var c2 := c1.Close(Br(n + 2), n + 1);
    var c3 := c2.Close(Br(n + 2), n + 2);
    Lowered(c3.EmitValue(Phi(c.next, t.operand, n, f.operand, n + 1)), Some(TypedOperand(Reg(c.next), t.ty)))
  }

  // ---------- Statements ----------

  function LowerStmt(env: Env, c: Code, s: Stmt): (d: Code)
    requires c.Valid()
    ensures d.Valid() && Moved(c, d) && d.loops == c.loops
    decreases s, 3
  {
    match s
    case Expression(e) => LowerExpr(env, c, e).code
    case If(_, _, _) => LowerIf(env, c, s)
    case While(_, _) => LowerWhile(env, c, s)
    case For(_, _, _, _) => LowerFor(env, c, s)
    case Break =>
      if c.loops == [] then c.Failed()
      else c.ClearError().Emit(Br(c.loops[|c.loops| - 1].endBlock))
    case Continue =>
      if c.loops == [] then c.Failed()
      else c.ClearError().Emit(Br(c.loops[|c.loops| - 1].contBlock))
    case Block(ss) => LowerSeq(env, c, ss)
  }

  function LowerSeq(env: Env, c: Code, ss: seq<Stmt>): (d: Code)
    requires c.Valid()
    ensures d.Valid() && Moved(c, d) && d.loops == c.loops
    decreases ss, 0
  {
    if ss == [] then c else LowerSeq(env, LowerStmt(env, c, ss[0]), ss[1..])
  }

  function LowerIf(env: Env, c: Code, s: Stmt): (d: Code)
    requires c.Valid() && s.If?
    ensures d.Valid() && Moved(c, d) && d.loops == c.loops
    decreases s, 2
  {
    var r := LowerExpr(env, c.ClearError(), s.cond);
    if r.value.None? || r.value.value.ty != Bool then r.code.Failed()
    else FinishIf(env, OpenIf(r.code, r.value.value.operand), s)
  }

  /** The insert block and the two behind it are none of them loop targets. */
  ghost predicate RoomForArms(c: Code) {
    c.Valid() && c.SetInsert(c.insert + 1).Valid() && c.SetInsert(c.insert + 2).Valid()
  }

  /** The arms go to the insert block n and to block n + 1; both lead on to block n + 2. */
  function FinishIf(env: Env, c: Code, s: Stmt): (d: Code)
    requires RoomForArms(c) && s.If?
    ensures d.Valid() && d.insert == c.insert + 2 && d.loops == c.loops
    ensures |c.blocks| <= |d.blocks| && c.next <= d.next
    decreases s, 1
  {
    LowerElse(env, FinishThen(env, c, s), s.elseBranch).Close(Br(c.insert + 2), c.insert + 2)
  }

  function FinishThen(env: Env, c: Code, s: Stmt): (d: Code)
    requires RoomForArms(c) && s.If?
    ensures d.Valid() && d.insert == c.insert + 1 && d.loops == c.loops && d.SetInsert(c.insert + 2).Valid()
    ensures |c.blocks| <= |d.blocks| && c.next <= d.next
    decreases s, 0
  {
    LowerStmt(env, c, s.thenBranch).Close(Br(c.insert + 2), c.insert + 1)
  }

  /** Three fresh blocks: the arm taken when the test holds, the other arm, and what follows. */
  function OpenIf(c: Code, test: Operand): (d: Code)
    requires c.insert < |c.blocks|
    ensures |d.blocks| == |c.blocks| + 3 && d.insert == |c.blocks| && d.next == c.next
    ensures d.loops == c.loops && d.hasError == c.hasError
  {
    c.CreateBlocks(3).Close(CondBr(test, |c.blocks|, |c.blocks| + 1), |c.blocks|)
  }

  function LowerElse(env: Env, c: Code, s: Option<Stmt>): (d: Code)
    requires c.Valid()
    ensures d.Valid() && Moved(c, d) && d.loops == c.loops
    decreases s, 0
  {
    if s.None? then c else LowerStmt(env, c, s.value)
  }

  /** Blocks n, n+1, n+2 are the condition, the body and the end; `continue` leads to the condition. */
  function LowerWhile(env: Env, c: Code, s: Stmt): (d: Code)
    requires c.Valid() && s.While?
    ensures d.Valid() && Moved(c, d) && d.loops == c.loops
    decreases s, 1
  {
    if |c.loops| >= MAX_LOOP_NESTING then c.Failed()
    else
      var n := |c.blocks|;
      var r := LowerExpr(env, OpenWhile(c), s.cond);
      if r.value.None? || r.value.value.ty != Bool then r.code.Failed().PopLoop()
      else
        FinishWhile(env, r.code.Close(CondBr(r.value.value.operand, n + 1, n + 2), n + 1), s, n).PopLoop()
  }

  function OpenWhile(c: Code): (d: Code)
    requires c.insert < |c.blocks|
    ensures |d.blocks| == |c.blocks| + 3 && d.insert == |c.blocks| && d.next == c.next
    ensures d.loops == c.loops + [LoopTarget(|c.blocks| + 2, |c.blocks|)]
  {
    var n := |c.blocks|;
    c.ClearError().CreateBlocks(3).PushLoop(LoopTarget(n + 2, n)).Close(Br(n), n)
  }

  function FinishWhile(env: Env, c: Code, s: Stmt, n: nat): (d: Code)
    requires c.Valid() && s.While? && c.loops != [] && n + 2 < |c.blocks|
    ensures d.insert == n + 2 && d.loops == c.loops
    ensures |c.blocks| <= |d.blocks| && c.next <= d.next
    decreases s, 0
  {
    LowerStmt(env, c, s.body).Close(Br(n), n + 2)
  }

  function LowerOptional(env: Env, c: Code, e: Option<Expr>): (r: Lowered)
    requires c.insert < |c.blocks|
    ensures Moved(c, r.code) && ValueDefined(r)
    ensures r.code.loops == c.loops && r.code.hasError == c.hasError
  {
    if e.None? then Lowered(c, None) else LowerExpr(env, c, e.value)
  }

  /** Blocks n .. n+3 are the condition, the body, the increment and the end; `continue` leads to
      the increment. A condition that is absent, or for which no code can be generated, is true. */
  function LowerFor(env: Env, c: Code, s: Stmt): (d: Code)
    requires c.Valid() && s.For?
    ensures d.Valid() && Moved(c, d) && d.loops == c.loops
    decreases s, 1
  {
    if |c.loops| >= MAX_LOOP_NESTING then c.Failed()
    else
      var n := |c.blocks|;
      var r := LowerOptional(env, OpenFor(env, c, s), s.test);
      if r.value.Some? && r.value.value.ty != Bool then r.code.Failed().PopLoop()
      else
        FinishFor(env, r.code.Close(CondBr(TestOperand(r), n + 1, n + 3), n + 1), s, n).PopLoop()
  }

  /** The pre-clause stays in the insert block, which then leads to the condition. */
  function OpenFor(env: Env, c: Code, s: Stmt): (d: Code)
    requires c.insert < |c.blocks| && s.For?
    ensures |c.blocks| + 4 <= |d.blocks| && d.insert == |c.blocks| && c.next <= d.next
    ensures d.loops == c.loops + [LoopTarget(|c.blocks| + 3, |c.blocks| + 2)]
  {
    var n := |c.blocks|;
    var c1 := c.ClearError().CreateBlocks(4).PushLoop(LoopTarget(n + 3, n + 2));
    LowerOptional(env, c1, s.pre).code.Close(Br(n), n)
  }

  function TestOperand(r: Lowered): Operand {
    if r.value.None? then Const(BoolValue(true)) else r.value.value.operand
  }

  function FinishFor(env: Env, c: Code, s: Stmt, n: nat): (d: Code)
    requires c.Valid() && s.For? && c.loops != [] && n + 3 < |c.blocks|
    ensures d.insert == n + 3 && d.loops == c.loops
    ensures |c.blocks| <= |d.blocks| && c.next <= d.next
    decreases s, 0
  {
    var c1 := LowerStmt(env, c, s.body).Close(Br(n + 2), n + 2);
    LowerOptional(env, c1, s.post).code.Close(Br(n), n + 3)
  }
}
