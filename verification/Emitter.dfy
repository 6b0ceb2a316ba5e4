/** The emitters as the program has them: a mutable IR builder, a fixed 64-entry loop-target stack,
    an error flag. Every method is tied to the function on code states it computes. */
module Emitter {
  import opened Ast
  import opened Graph
  import opened Lowering
  import opened Growth

  /** The abstract LLVM builder: blocks that grow at the insert point, and a register counter. */
  class Builder {
    var blocks: Blocks
    var insert: nat
    var next: nat

    ghost predicate Ready()
      reads this
    {
      insert < |blocks|
    }

    /** A function under construction, with its entry block. */
    constructor ()
      ensures Ready() && blocks == [[]] && insert == 0 && next == 0
    {
      blocks, insert, next := [[]], 0, 0;
    }

    method CreateBlock() returns (b: nat)
      modifies this
      ensures b == |old(blocks)| && blocks == old(blocks) + [[]] && insert == old(insert) && next == old(next)
    {
      b := |blocks|;
      blocks := blocks + [[]];
    }

    method SetInsertPoint(b: nat)
      modifies this`insert
      ensures insert == b
    {
      insert := b;
    }

    method Append(i: Instr)
      requires Ready()
      modifies this`blocks
      ensures Ready() && blocks == old(blocks)[insert := old(blocks)[insert] + [i]]
    {
      blocks := blocks[insert := blocks[insert] + [i]];
    }

    method CreateBr(target: nat)
      requires Ready()
      modifies this`blocks
      ensures Ready() && blocks == old(blocks)[insert := old(blocks)[insert] + [Br(target)]]
    {
      Append(Br(target));
    }

    method CreateCondBr(test: Operand, t: nat, e: nat)
      requires Ready()
      modifies this`blocks
      ensures Ready() && blocks == old(blocks)[insert := old(blocks)[insert] + [CondBr(test, t, e)]]
    {
      Append(CondBr(test, t, e));
    }

    method CreateStore(v: Operand, slot: string)
      requires Ready()
      modifies this`blocks
      ensures Ready() && blocks == old(blocks)[insert := old(blocks)[insert] + [Store(v, slot)]]
    {
      Append(Store(v, slot));
    }

    method CreateLoad(slot: string) returns (o: Operand)
      requires Ready()
      modifies this`blocks, this`next
      ensures Ready() && o == Reg(old(next)) && next == old(next) + 1
      ensures blocks == old(blocks)[insert := old(blocks)[insert] + [Load(old(next), slot)]]
    {
      Append(Load(next, slot));
      o := Reg(next);
      next := next + 1;
    }

    method CreateBinOp(mop: MachineOp, a: Operand, b: Operand) returns (o: Operand)
      requires Ready()
      modifies this`blocks, this`next
      ensures Ready() && o == Reg(old(next)) && next == old(next) + 1
      ensures blocks == old(blocks)[insert := old(blocks)[insert] + [BinOp(old(next), mop, a, b)]]
    {
      Append(BinOp(next, mop, a, b));
      o := Reg(next);
      next := next + 1;
    }

    method CreatePhi(t: Operand, tb: nat, f: Operand, fb: nat) returns (o: Operand)
      requires Ready()
      modifies this`blocks, this`next
      ensures Ready() && o == Reg(old(next)) && next == old(next) + 1
      ensures blocks == old(blocks)[insert := old(blocks)[insert] + [Phi(old(next), t, tb, f, fb)]]
    {
      Append(Phi(next, t, tb, f, fb));
      o := Reg(next);
      next := next + 1;
    }
  }

  /** The used part of the two loop stacks, innermost last. */
  function Targets(ends: seq<nat>, conts: seq<nat>): (ts: seq<LoopTarget>)
    requires |ends| == |conts|
    ensures |ts| == |ends|
    ensures forall i :: 0 <= i < |ts| ==> ts[i] == LoopTarget(ends[i], conts[i])
  {
    seq(|ends|, i requires 0 <= i < |ends| => LoopTarget(ends[i], conts[i]))
  }

  /** Opening a loop clears the error flag. */
  lemma OpenClears(env: Env, c: Code, s: Stmt)
    requires c.insert < |c.blocks|
    ensures OpenWhile(c.ClearError()) == OpenWhile(c)
    ensures s.For? ==> OpenFor(env, c.ClearError(), s) == OpenFor(env, c, s)
  {
  }

  lemma RoomIsThere(c: Code)
    requires RoomForArms(c)
    ensures c.insert + 2 < |c.blocks|
  {
  }

  /** The two ways a while goes once its blocks exist. */
  lemma WhileUnfolds(env: Env, c: Code, s: Stmt)
    requires c.Valid() && s.While?
    ensures c.insert < |c.blocks|
    ensures |c.loops| >= MAX_LOOP_NESTING ==> LowerWhile(env, c, s) == c.Failed()
    ensures
      var n := |c.blocks|;
      var r := LowerExpr(env, OpenWhile(c), s.cond);
      |c.loops| < MAX_LOOP_NESTING ==>
        && r.code.loops == OpenWhile(c).loops
        && if r.value.None? || r.value.value.ty != Bool then LowerWhile(env, c, s) == r.code.Failed().PopLoop()
           else
             var b := r.code.Close(CondBr(r.value.value.operand, n + 1, n + 2), n + 1);
             && b.Valid() && b.loops != [] && n + 2 < |b.blocks|
             && LowerWhile(env, c, s) == FinishWhile(env, b, s, n).PopLoop()
  {
    hide LowerExpr, OpenWhile, FinishWhile, Code.Valid;
    ValidInsert(c);
    var n := |c.blocks|;
    var r := LowerExpr(env, OpenWhile(c), s.cond);
    if |c.loops| < MAX_LOOP_NESTING && r.value.Some? {
      ValidInLoop(c, r.code.Close(CondBr(r.value.value.operand, n + 1, n + 2), n + 1), LoopTarget(n + 2, n));
    }
  }

  /** The two ways a for goes once its blocks exist. */
  lemma ForUnfolds(env: Env, c: Code, s: Stmt)
    requires c.Valid() && s.For?
    ensures c.insert < |c.blocks|
    ensures |c.loops| >= MAX_LOOP_NESTING ==> LowerFor(env, c, s) == c.Failed()
    ensures
      var n := |c.blocks|;
      var r := LowerOptional(env, OpenFor(env, c, s), s.test);
      |c.loops| < MAX_LOOP_NESTING ==>
        && r.code.loops == OpenFor(env, c, s).loops && |r.code.blocks| >= n + 4
        && if r.value.Some? && r.value.value.ty != Bool then LowerFor(env, c, s) == r.code.Failed().PopLoop()
           else
             var b := r.code.Close(CondBr(TestOperand(r), n + 1, n + 3), n + 1);
             && b.Valid() && b.loops != [] && n + 3 < |b.blocks|
             && LowerFor(env, c, s) == FinishFor(env, b, s, n).PopLoop()
  {
    hide LowerOptional, OpenFor, FinishFor, Code.Valid;
    ValidInsert(c);
    var n := |c.blocks|;
    var r := LowerOptional(env, OpenFor(env, c, s), s.test);
    if |c.loops| < MAX_LOOP_NESTING {
      ValidInLoop(c, r.code.Close(CondBr(TestOperand(r), n + 1, n + 3), n + 1), LoopTarget(n + 3, n + 2));
    }
  }

  class Emitter {
    const env: Env
    const builder: Builder
    const loopEnd: array<nat>
    const loopCond: array<nat>
    var depth: nat
    var hasError: bool

    ghost predicate Ready()
      reads this, builder, loopEnd, loopCond
    {
      && loopEnd.Length == loopCond.Length == MAX_LOOP_NESTING && loopEnd != loopCond
      && depth <= MAX_LOOP_NESTING && builder.Ready()
    }

    /** The abstract value: the code state of the specification. */
    ghost function State(): (c: Code)
      reads this, builder, loopEnd, loopCond
      requires Ready()
      ensures c.insert < |c.blocks|
    {
      Code(builder.blocks, builder.insert, builder.next, Targets(loopEnd[..depth], loopCond[..depth]), hasError)
    }

    constructor (env: Env, builder: Builder)
      requires builder.Ready()
      ensures Ready() && this.env == env && this.builder == builder
      ensures State() == Code(builder.blocks, builder.insert, builder.next, [], false)
      ensures fresh(loopEnd) && fresh(loopCond)
    {
      this.env, this.builder := env, builder;
      loopEnd, loopCond := new nat[MAX_LOOP_NESTING], new nat[MAX_LOOP_NESTING];
      depth, hasError := 0, false;
    }

    // ---------- Expressions ----------

    method EmitExpr(e: Expr) returns (v: Option<TypedOperand>)
      requires Ready()
      modifies builder
      ensures Ready() && Lowered(State(), v) == LowerExpr(env, old(State()), e)
      decreases e, 1
    {
      match e {
        case Missing =>
          v := None;
        case Atomic(Integer(n)) =>
          v := Some(TypedOperand(Const(IntValue(n)), Int));
        case Atomic(Boolean(b)) =>
          v := Some(TypedOperand(Const(BoolValue(b)), Bool));
        case Atomic(Identifier(x)) =>
          if x in env {
            var o := builder.CreateLoad(x);
            v := Some(TypedOperand(o, env[x]));
          } else {
            v := None;
          }
        case Unary(op, child) =>
          v := EmitExpr(child);
          if v.Some? {
            if op == Negate {
              var o := builder.CreateBinOp(Sub, Const(IntValue(0)), v.value.operand);
              v := Some(TypedOperand(o, Int));
            } else {
              var o := builder.CreateBinOp(ICmpNE, v.value.operand, Const(BoolValue(false)));
              v := Some(TypedOperand(o, Bool));
            }
          }
        case Binary(op, _, _) =>
          if IsAssignment(op) {
            v := EmitAssign(e);
          } else {
            v := EmitBinary(e);
          }
        case Ternary(_, _, _) =>
          v := EmitTernary(e);
        case Grouping(child) =>
          v := EmitExpr(child);
        case Prefix(step, x) =>
          if x in env {
            var before, after := EmitUpdate(StepOp(step), x, Const(IntValue(1)));
            v := Some(TypedOperand(after, env[x]));
          } else {
            v := None;
          }
        case Postfix(step, x) =>
          if x in env {
            var before, after := EmitUpdate(StepOp(step), x, Const(IntValue(1)));
            v := Some(TypedOperand(before, env[x]));
          } else {
            v := None;
          }
      }
    }

    method EmitUpdate(mop: MachineOp, x: string, b: Operand) returns (before: Operand, after: Operand)
      requires Ready()
      modifies builder
      ensures Ready() && State() == Lowering.EmitUpdate(old(State()), mop, x, b)
      ensures before == Reg(old(builder.next)) && after == Reg(old(builder.next) + 1)
    {
      before := builder.CreateLoad(x);
      after := builder.CreateBinOp(mop, before, b);
      builder.CreateStore(after, x);
    }

    method EmitBinary(e: Expr) returns (v: Option<TypedOperand>)
      requires Ready() && e.Binary? && !IsAssignment(e.opcode)
      modifies builder
      ensures Ready() && Lowered(State(), v) == LowerBinary(env, old(State()), e)
      decreases e, 0
    {
      var x := EmitExpr(e.left);
      if x.None? {
        return None;
      }
      var y := EmitExpr(e.right);
      if y.None? {
        return None;
      }
      var o := builder.CreateBinOp(MachineOpOf(e.opcode), x.value.operand, y.value.operand);
      v := Some(TypedOperand(o, if IsComparison(e.opcode) then Bool else x.value.ty));
    }

    method EmitAssign(e: Expr) returns (v: Option<TypedOperand>)
      requires Ready() && e.Binary? && IsAssignment(e.opcode)
      modifies builder
      ensures Ready() && Lowered(State(), v) == LowerAssign(env, old(State()), e)
      decreases e, 0
    {
      if !(e.left.Atomic? && e.left.literal.Identifier? && e.left.literal.name in env) {
        return None;
      }
      var x := e.left.literal.name;
      v := EmitExpr(e.right);
      if v.Some? {
        if CompoundOp(e.opcode).None? {
          builder.CreateStore(v.value.operand, x);
        } else {
          var before, after := EmitUpdate(MachineOpOf(CompoundOp(e.opcode).value), x, v.value.operand);
          v := Some(TypedOperand(after, env[x]));
        }
      }
    }

    /** Both arms are computed before the branch. */
    method EmitTernary(e: Expr) returns (v: Option<TypedOperand>)
      requires Ready() && e.Ternary?
      modifies builder
      ensures Ready() && Lowered(State(), v) == LowerTernary(env, old(State()), e)
      decreases e, 0
    {
      if e.condition.Missing? || e.thenPath.Missing? || e.elsePath.Missing? {
        return None;
      }
      var test := EmitExpr(e.condition);
      if test.None? || test.value.ty != Bool {
        return None;
      }
      var t := EmitExpr(e.thenPath);
      var f := EmitExpr(e.elsePath);
      if t.None? || f.None? {
        return None;
      }
      v := EmitJoin(test.value.operand, t.value, f.value);
    }

    method EmitJoin(test: Operand, t: TypedOperand, f: TypedOperand) returns (v: Option<TypedOperand>)
      requires Ready()
      modifies builder
      ensures Ready() && Lowered(State(), v) == JoinArms(old(State()), test, t, f)
    {
      hide Code.Close, Targets;
      ghost var c := State();
      var thenBlock := builder.CreateBlock();
      var elseBlock := builder.CreateBlock();
      var mergeBlock := builder.CreateBlock();
      assert State() == c.CreateBlocks(3);
      hide Code.CreateBlocks;
      Branch(test, thenBlock, elseBlock);
      BranchTo(mergeBlock, elseBlock);
      BranchTo(mergeBlock, mergeBlock);
      var o := builder.CreatePhi(t.operand, thenBlock, f.operand, elseBlock);
      v := Some(TypedOperand(o, t.ty));
    }

    // ---------- Statements ----------

    method SetError()
      requires Ready()
      modifies this`hasError
      ensures Ready() && hasError && State() == old(State()).Failed()
    {
      hasError := true;
    }

    method ClearError()
      requires Ready()
      modifies this`hasError
      ensures Ready() && !hasError && State() == old(State()).ClearError()
    {
      hasError := false;
    }

    method PushLoop(endBlock: nat, contBlock: nat)
      requires Ready() && depth < MAX_LOOP_NESTING
      modifies this`depth, loopEnd, loopCond
      ensures Ready() && State() == old(State()).PushLoop(LoopTarget(endBlock, contBlock))
    {
      loopEnd[depth] := endBlock;
      loopCond[depth] := contBlock;
      depth := depth + 1;
      assert loopEnd[..depth] == old(loopEnd[..depth]) + [endBlock];
      assert loopCond[..depth] == old(loopCond[..depth]) + [contBlock];
    }

    method PopLoop()
      requires Ready() && depth > 0
      modifies this`depth
      ensures Ready() && State() == old(State()).PopLoop()
    {
      depth := depth - 1;
    }

    /** A conditional branch, after which generation goes on in its first target. */
    method Branch(test: Operand, t: nat, e: nat)
      requires Ready() && t < |builder.blocks|
      modifies builder
      ensures Ready() && State() == old(State()).Close(CondBr(test, t, e), t)
    {
      builder.CreateCondBr(test, t, e);
      builder.SetInsertPoint(t);
    }

    /** A branch, after which generation goes on in another block. */
    method BranchTo(target: nat, b: nat)
      requires Ready() && b < |builder.blocks|
      modifies builder
      ensures Ready() && State() == old(State()).Close(Br(target), b)
    {
      builder.CreateBr(target);
      builder.SetInsertPoint(b);
    }

    method EmitOptional(e: Option<Expr>) returns (v: Option<TypedOperand>)
      requires Ready()
      modifies builder
      ensures Ready() && Lowered(State(), v) == LowerOptional(env, old(State()), e)
    {
      v := None;
      if e.Some? {
        v := EmitExpr(e.value);
      }
    }

    /** Statement nodes; whether their emission succeeded is not looked at. */
    method Emit(s: Stmt)
      requires Ready() && State().Valid()
      modifies this, builder, loopEnd, loopCond
      ensures Ready() && State() == LowerStmt(env, old(State()), s)
      decreases s, 3
    {
      match s {
        case Expression(e) =>
          var _ := EmitExpr(e);
        case If(_, _, _) =>
          var _ := EmitIf(s);
        case While(_, _) =>
          var _ := EmitWhile(s);
        case For(_, _, _, _) =>
          var _ := EmitFor(s);
        case Break =>
          var _ := EmitBreak();
        case Continue =>
          var _ := EmitContinue();
        case Block(ss) =>
          EmitBlock(ss);
      }
    }

    method EmitBlock(ss: seq<Stmt>)
      requires Ready() && State().Valid()
      modifies this, builder, loopEnd, loopCond
      ensures Ready() && State() == LowerSeq(env, old(State()), ss)
      decreases ss, 0
    {
      var i := 0;
      while i < |ss|
        invariant 0 <= i <= |ss| && Ready() && State().Valid()
        invariant LowerSeq(env, State(), ss[i..]) == LowerSeq(env, old(State()), ss)
      {
        assert ss[i..][0] == ss[i] && ss[i..][1..] == ss[i + 1..];
        Emit(ss[i]);
        i := i + 1;
      }
    }

    /** False iff the emitter is outside a loop; the last entry of the stack is the innermost loop. */
    method EmitBreak() returns (ok: bool)
      requires Ready() && State().Valid()
      modifies this`hasError, builder
      ensures Ready() && State() == LowerStmt(env, old(State()), Stmt.Break)
      ensures ok == (old(depth) > 0) && hasError == (old(depth) == 0)
      ensures builder.insert == old(builder.insert)
      ensures builder.blocks[builder.insert] ==
                old(builder.blocks)[builder.insert] + if depth == 0 then [] else [Br(loopEnd[depth - 1])]
    {
      ClearError();
      if depth == 0 {
        SetError();
        return false;
      }
      builder.CreateBr(loopEnd[depth - 1]);
      ok := true;
    }

    method EmitContinue() returns (ok: bool)
      requires Ready() && State().Valid()
      modifies this`hasError, builder
      ensures Ready() && State() == LowerStmt(env, old(State()), Stmt.Continue)
      ensures ok == (old(depth) > 0) && hasError == (old(depth) == 0)
      ensures builder.insert == old(builder.insert)
      ensures builder.blocks[builder.insert] ==
                old(builder.blocks)[builder.insert] + if depth == 0 then [] else [Br(loopCond[depth - 1])]
    {
      ClearError();
      if depth == 0 {
        SetError();
        return false;
      }
      builder.CreateBr(loopCond[depth - 1]);
      ok := true;
    }

    method EmitIf(s: Stmt) returns (ok: bool)
      requires Ready() && State().Valid() && s.If?
      modifies this, builder, loopEnd, loopCond
      ensures Ready() && State() == LowerIf(env, old(State()), s)
      ensures !ok ==> hasError
      decreases s, 1
    {
      hide LowerExpr, FinishIf, Targets, Code.Valid, RoomForArms;
      ClearError();
      var test := EmitCondition(s.cond);
      if test.None? { return false; }
      ghost var c := State();
      var thenBlock := builder.CreateBlock();
      var elseBlock := builder.CreateBlock();
      var mergeBlock := builder.CreateBlock();
      assert State() == c.CreateBlocks(3);
      hide Code.CreateBlocks;
      Branch(test.value, thenBlock, elseBlock);
      RoomAfterOpen(old(State()), c, test.value);
      EmitArms(s, elseBlock, mergeBlock);
      ok := true;
    }

    /** The two arms, each ended with a branch to the block where they meet. */
    method EmitArms(s: Stmt, elseBlock: nat, mergeBlock: nat)
      requires Ready() && RoomForArms(State()) && s.If?
      requires elseBlock == builder.insert + 1 && mergeBlock == builder.insert + 2
      modifies this, builder, loopEnd, loopCond
      ensures Ready() && State() == FinishIf(env, old(State()), s)
      decreases s, 0
    {
      hide Code.Close, Targets, Code.Valid, LowerStmt;
      RoomIsThere(State());
      Emit(s.thenBranch);
      BranchTo(mergeBlock, elseBlock);
      assert State() == FinishThen(env, old(State()), s);
      if s.elseBranch.Some? {
        Emit(s.elseBranch.value);
      }
      BranchTo(mergeBlock, mergeBlock);
    }

    /** Emits a condition; without code for it, or if it is not boolean, there is an error. */
    method EmitCondition(e: Expr) returns (test: Option<Operand>)
      requires Ready()
      modifies this`hasError, builder
      ensures Ready()
      ensures
        var r := LowerExpr(env, old(State()), e);
        if r.value.None? || r.value.value.ty != Bool then test == None && State() == r.code.Failed()
        else test == Some(r.value.value.operand) && State() == r.code
    {
      hide LowerExpr, Targets;
      var v := EmitExpr(e);
      if v.None? || v.value.ty != Bool {
        SetError();
        return None;
      }
      return Some(v.value.operand);
    }

    method EmitWhile(s: Stmt) returns (ok: bool)
      requires Ready() && State().Valid() && s.While?
      modifies this, builder, loopEnd, loopCond
      ensures Ready() && State() == LowerWhile(env, old(State()), s)
      ensures !ok ==> hasError
      decreases s, 1
    {
      hide LowerExpr, OpenWhile, FinishWhile, Targets, Code.Close, Code.Valid, LowerWhile;
      WhileUnfolds(env, old(State()), s);
      ClearError();
      if depth >= MAX_LOOP_NESTING {
        SetError();
        return false;
      }
      OpenClears(env, old(State()), s);
      var condBlock, bodyBlock, endBlock := BeginWhile();
      var test := EmitCondition(s.cond);
      if test.None? {
        PopLoop();
        return false;
      }
      Branch(test.value, bodyBlock, endBlock);
      EmitWhileBody(s, condBlock, endBlock);
      PopLoop();
      ok := true;
    }

    /** Creates the blocks of a while, registers its targets and moves on to its condition. */
    method BeginWhile() returns (condBlock: nat, bodyBlock: nat, endBlock: nat)
      requires Ready() && depth < MAX_LOOP_NESTING && !hasError
      modifies this`depth, builder, loopEnd, loopCond
      ensures Ready() && State() == OpenWhile(old(State()))
      ensures condBlock == |old(builder.blocks)| && bodyBlock == condBlock + 1 && endBlock == condBlock + 2
    {
      ghost var c := State();
      condBlock := builder.CreateBlock();
      bodyBlock := builder.CreateBlock();
      endBlock := builder.CreateBlock();
      assert State() == c.CreateBlocks(3);
      PushLoop(endBlock, condBlock);
      BranchTo(condBlock, condBlock);
    }

    method EmitWhileBody(s: Stmt, condBlock: nat, endBlock: nat)
      requires Ready() && State().Valid() && s.While? && depth > 0
      requires condBlock + 2 == endBlock < |builder.blocks|
      modifies this, builder, loopEnd, loopCond
      ensures Ready() && State() == FinishWhile(env, old(State()), s, condBlock)
      decreases s, 0
    {
      hide Code.Close, Targets, LowerStmt, Code.Valid;
      Emit(s.body);
      BranchTo(condBlock, endBlock);
    }

    method EmitFor(s: Stmt) returns (ok: bool)
      requires Ready() && State().Valid() && s.For?
      modifies this, builder, loopEnd, loopCond
      ensures Ready() && State() == LowerFor(env, old(State()), s)
      ensures !ok ==> hasError
      decreases s, 2
    {
      hide LowerOptional, OpenFor, FinishFor, Targets, Code.Valid, LowerFor;
      ForUnfolds(env, old(State()), s);
      ClearError();
      if depth >= MAX_LOOP_NESTING {
        SetError();
        return false;
      }
      OpenClears(env, old(State()), s);
      var condBlock := BeginFor(s);
      ok := EmitForRest(s, condBlock, old(State()));
    }

    /** Emits a for from its condition on. */
    method EmitForRest(s: Stmt, condBlock: nat, ghost c: Code) returns (ok: bool)
      requires Ready() && s.For? && c.Valid() && |c.loops| < MAX_LOOP_NESTING && condBlock == |c.blocks|
      requires State() == OpenFor(env, c, s)
      modifies this, builder, loopEnd, loopCond
      ensures Ready() && State() == LowerFor(env, c, s)
      ensures !ok ==> hasError
      decreases s, 1
    {
      hide LowerOptional, OpenFor, FinishFor, Targets, Code.Close, Code.Valid, LowerFor, TestOperand;
      ForUnfolds(env, c, s);
      var test := EmitForCondition(s.test);
      if test.None? {
        PopLoop();
        return false;
      }
      Branch(test.value, condBlock + 1, condBlock + 3);
      EmitForBody(s, condBlock, condBlock + 2, condBlock + 3);
      PopLoop();
      ok := true;
    }

    /** Emits the condition of a for, which without code is the constant true; if it is not boolean,
        there is an error. */
    method EmitForCondition(e: Option<Expr>) returns (test: Option<Operand>)
      requires Ready()
      modifies this`hasError, builder
      ensures Ready()
      ensures
        var r := LowerOptional(env, old(State()), e);
        if r.value.Some? && r.value.value.ty != Bool then test == None && State() == r.code.Failed()
        else test == Some(TestOperand(r)) && State() == r.code
    {
      hide LowerOptional, Targets;
      var v := EmitOptional(e);
      if v.Some? && v.value.ty != Bool {
        SetError();
        return None;
      }
      return Some(if v.None? then Const(BoolValue(true)) else v.value.operand);
    }

    /** Creates the blocks of a for, registers its targets, emits its pre-clause and moves on to
        its condition. */
    method BeginFor(s: Stmt) returns (condBlock: nat)
      requires Ready() && depth < MAX_LOOP_NESTING && !hasError && s.For?
      modifies this`depth, builder, loopEnd, loopCond
      ensures Ready() && State() == OpenFor(env, old(State()), s)
      ensures condBlock == |old(builder.blocks)|
    {
      hide Code.Close, Targets, LowerOptional;
      ghost var c := State();
      condBlock := builder.CreateBlock();
      var bodyBlock := builder.CreateBlock();
      var incBlock := builder.CreateBlock();
      var endBlock := builder.CreateBlock();
      assert State() == c.CreateBlocks(4);
      PushLoop(endBlock, incBlock);
      var _ := EmitOptional(s.pre);
      BranchTo(condBlock, condBlock);
    }

    method EmitForBody(s: Stmt, condBlock: nat, incBlock: nat, endBlock: nat)
      requires Ready() && State().Valid() && s.For? && depth > 0
      requires condBlock + 2 == incBlock && incBlock + 1 == endBlock < |builder.blocks|
      modifies this, builder, loopEnd, loopCond
      ensures Ready() && State() == FinishFor(env, old(State()), s, condBlock)
      decreases s, 0
    {
      hide Code.Close, Targets, LowerOptional, LowerStmt, Code.Valid;
      Emit(s.body);
      BranchTo(incBlock, incBlock);
      var _ := EmitOptional(s.post);
      BranchTo(condBlock, endBlock);
    }
  }
}
