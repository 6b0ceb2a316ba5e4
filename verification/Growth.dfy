/** Every emission only appends: what was generated before keeps its place, whichever path
    the emitters take, the failing ones included. */
module Growth {
  import opened Ast
  import opened Graph
  import opened Lowering

  lemma GrewTransitive(c: Code, d: Code, e: Code)
    requires c.insert < |c.blocks| && Grew(c, d) && Grew(d, e)
    ensures Grew(c, e)
  {
    assert d.insert < |d.blocks|;
    if d.insert == c.insert {
      assert c.blocks[c.insert] <= d.blocks[c.insert] <= e.blocks[c.insert];
    }
  }

  /** Growth is about the blocks, the insert point and the registers only. */
  lemma GrewAlike(c: Code, d: Code, c1: Code, d1: Code)
    requires Grew(c, d)
    requires c1.blocks == c.blocks && c1.insert == c.insert && c1.next == c.next
    requires d1.blocks == d.blocks && d1.insert == d.insert && d1.next == d.next
    ensures Grew(c1, d1)
  {
  }

  lemma GrewSize(c: Code, d: Code)
    requires Grew(c, d)
    ensures Moved(c, d)
  {
  }

  /** The loop targets stay valid while code grows. */
  lemma ValidInLoop(c: Code, d: Code, t: LoopTarget)
    requires c.Valid() && |c.loops| < MAX_LOOP_NESTING && d.loops == c.loops + [t]
    requires |c.blocks| <= t.endBlock < |d.blocks| && |c.blocks| <= t.contBlock < |d.blocks|
    requires |c.blocks| <= d.insert < |d.blocks|
    requires t.endBlock != t.contBlock && d.insert != t.endBlock && d.insert != t.contBlock
    ensures d.Valid()
  {
  }

  /** The three blocks of an if are free for its arms. */
  lemma RoomAfterOpen(c: Code, d: Code, test: Operand)
    requires c.Valid() && Moved(c, d) && d.loops == c.loops && d.insert < |d.blocks|
    ensures RoomForArms(OpenIf(d, test))
  {
  }

  lemma ValidInsert(c: Code)
    requires c.Valid()
    ensures c.insert < |c.blocks|
  {
  }

  lemma GrewReflexive(c: Code)
    ensures Grew(c, c)
  {
  }

  lemma GrewEmit(c: Code, d: Code, i: Instr)
    requires c.insert < |c.blocks| && Grew(c, d)
    ensures Grew(c, d.Emit(i)) && Grew(c, d.EmitValue(i))
  {
  }

  lemma GrewClose(c: Code, d: Code, i: Instr, b: nat)
    requires c.insert < |c.blocks| && Grew(c, d)
    requires |c.blocks| <= b < |d.blocks|
    ensures Grew(c, d.Close(i, b))
  {
  }

  lemma GrewCreate(c: Code, d: Code, n: nat)
    requires c.insert < |c.blocks| && Grew(c, d)
    ensures Grew(c, d.CreateBlocks(n))
  {
  }

  lemma {:induction false} ExprGrows(env: Env, c: Code, e: Expr)
    requires c.insert < |c.blocks|
    ensures Grew(c, LowerExpr(env, c, e).code)
    decreases e, 1
  {
    hide Grew;
    GrewReflexive(c);
    match e
    case Missing =>
    case Atomic(Identifier(x)) => GrewEmit(c, c, Load(c.next, x));
    case Atomic(_) =>
    case Unary(_, child) =>
      ExprGrows(env, c, child);
      var r1 := LowerExpr(env, c, child);
      if r1.value.Some? {
        var v := r1.value.value.operand;
        GrewEmit(c, r1.code, BinOp(r1.code.next, Sub, Const(IntValue(0)), v));
        GrewEmit(c, r1.code, BinOp(r1.code.next, ICmpNE, v, Const(BoolValue(false))));
      }
    case Binary(op, _, _) =>
      if IsAssignment(op) { AssignGrows(env, c, e); } else { BinaryGrows(env, c, e); }
    case Ternary(_, _, _) => TernaryGrows(env, c, e);
    case Grouping(child) => ExprGrows(env, c, child);
    case Prefix(step, x) => UpdateGrows(c, c, StepOp(step), x, Const(IntValue(1)));
    case Postfix(step, x) => UpdateGrows(c, c, StepOp(step), x, Const(IntValue(1)));
  }

  lemma UpdateGrows(c: Code, d: Code, mop: MachineOp, x: string, b: Operand)
    requires c.insert < |c.blocks| && Grew(c, d)
    ensures Grew(c, EmitUpdate(d, mop, x, b))
  {
    hide Grew, Code.EmitValue, Code.Emit;
    GrewSize(c, d);
    GrewEmit(c, d, Load(d.next, x));
    var d1 := d.EmitValue(Load(d.next, x));
    var i := BinOp(d.next + 1, mop, Reg(d.next), b);
    GrewEmit(c, d1, i);
    GrewEmit(c, d1.EmitValue(i), Store(Reg(d.next + 1), x));
  }

  lemma {:induction false} BinaryGrows(env: Env, c: Code, e: Expr)
    requires c.insert < |c.blocks| && e.Binary? && !IsAssignment(e.opcode)
    ensures Grew(c, LowerBinary(env, c, e).code)
    decreases e, 0
  {
    hide Grew;
    ExprGrows(env, c, e.left);
    var r1 := LowerExpr(env, c, e.left);
    if r1.value.Some? {
      var r2 := LowerExpr(env, r1.code, e.right);
      ExprGrows(env, r1.code, e.right);
      GrewTransitive(c, r1.code, r2.code);
      if r2.value.Some? {
        GrewEmit(c, r2.code,
                 BinOp(r2.code.next, MachineOpOf(e.opcode), r1.value.value.operand, r2.value.value.operand));
      }
    }
  }

  lemma {:induction false} AssignGrows(env: Env, c: Code, e: Expr)
    requires c.insert < |c.blocks| && e.Binary? && IsAssignment(e.opcode)
    ensures Grew(c, LowerAssign(env, c, e).code)
    decreases e, 0
  {
    hide Grew;
    GrewReflexive(c);
    ExprGrows(env, c, e.right);
    var r1 := LowerExpr(env, c, e.right);
    if e.left.Atomic? && e.left.literal.Identifier? && r1.value.Some? {
      var x := e.left.literal.name;
      var v := r1.value.value.operand;
      if CompoundOp(e.opcode).Some? {
        UpdateGrows(c, r1.code, MachineOpOf(CompoundOp(e.opcode).value), x, v);
      } else {
        GrewEmit(c, r1.code, Store(v, x));
      }
    }
  }

  lemma {:induction false} TernaryGrows(env: Env, c: Code, e: Expr)
    requires c.insert < |c.blocks| && e.Ternary?
    ensures Grew(c, LowerTernary(env, c, e).code)
    decreases e, 0
  {
    hide Grew;
    GrewReflexive(c);
    ExprGrows(env, c, e.condition);
    var r1 := LowerExpr(env, c, e.condition);
    ExprGrows(env, r1.code, e.thenPath);
    var r2 := LowerExpr(env, r1.code, e.thenPath);
    ExprGrows(env, r2.code, e.elsePath);
    var r3 := LowerExpr(env, r2.code, e.elsePath);
    GrewTransitive(c, r1.code, r2.code);
    GrewTransitive(c, r2.code, r3.code);
    if r1.value.Some? && r2.value.Some? && r3.value.Some? {
      JoinGrows(c, r3.code, r1.value.value.operand, r2.value.value, r3.value.value);
    }
  }

  lemma JoinGrows(c: Code, d: Code, test: Operand, t: TypedOperand, f: TypedOperand)
    requires c.insert < |c.blocks| && Grew(c, d)
    ensures Grew(c, JoinArms(d, test, t, f).code)
  {
    hide Grew, Code.EmitValue, Code.CreateBlocks, Code.Close;
    var n := |d.blocks|;
    GrewSize(c, d);
    GrewCreate(c, d, 3);
    var c0 := d.CreateBlocks(3);
    GrewClose(c, c0, CondBr(test, n, n + 1), n);
    var c1 := c0.Close(CondBr(test, n, n + 1), n);
    GrewClose(c, c1, Br(n + 2), n + 1);
    var c2 := c1.Close(Br(n + 2), n + 1);
    GrewClose(c, c2, Br(n + 2), n + 2);
    GrewEmit(c, c2.Close(Br(n + 2), n + 2), Phi(d.next, t.operand, n, f.operand, n + 1));
  }

  lemma OptionalGrows(env: Env, c: Code, e: Option<Expr>)
    requires c.insert < |c.blocks|
    ensures Grew(c, LowerOptional(env, c, e).code)
  {
    if e.Some? {
      ExprGrows(env, c, e.value);
    }
  }

  /** Earlier blocks and instructions keep their identity. */
  lemma {:induction false} StmtGrows(env: Env, c: Code, s: Stmt)
    requires c.Valid()
    ensures Grew(c, LowerStmt(env, c, s))
    decreases s, 2
  {
    match s
    case Expression(e) => ExprGrows(env, c, e);
    case If(_, _, _) => IfGrows(env, c, s);
    case While(_, _) => WhileGrows(env, c, s);
    case For(_, _, _, _) => ForGrows(env, c, s);
    case Break =>
    case Continue =>
    case Block(ss) => SeqGrows(env, c, ss);
  }

  lemma {:induction false} SeqGrows(env: Env, c: Code, ss: seq<Stmt>)
    requires c.Valid()
    ensures Grew(c, LowerSeq(env, c, ss))
    decreases ss, 0
  {
    if ss != [] {
      var d := LowerStmt(env, c, ss[0]);
      StmtGrows(env, c, ss[0]);
      SeqGrows(env, d, ss[1..]);
      GrewTransitive(c, d, LowerSeq(env, d, ss[1..]));
    }
  }

  lemma {:induction false} IfGrows(env: Env, c: Code, s: Stmt)
    requires c.Valid() && s.If?
    ensures Grew(c, LowerIf(env, c, s))
    decreases s, 1
  {
    hide Grew, OpenIf, LowerExpr, FinishIf;
    var c0 := c.ClearError();
    ExprGrows(env, c0, s.cond);
    var r := LowerExpr(env, c0, s.cond);
    GrewAlike(c0, r.code, c, r.code);
    if r.value.None? || r.value.value.ty != Bool {
      GrewAlike(c, r.code, c, r.code.Failed());
    } else {
      OpenIfGrows(c, r.code, r.value.value.operand);
      FinishIfGrows(env, c, OpenIf(r.code, r.value.value.operand), s);
    }
  }

  lemma {:induction false} FinishIfGrows(env: Env, c: Code, c1: Code, s: Stmt)
    requires c.insert < |c.blocks| && RoomForArms(c1) && s.If?
    requires Grew(c, c1) && |c.blocks| <= c1.insert
    ensures Grew(c, FinishIf(env, c1, s))
    decreases s, 0
  {
    hide Grew, Code.Close, LowerStmt, LowerElse;
    ArmGrows(env, c, c1, s.thenBranch, c1.insert + 2, c1.insert + 1);
    var c2 := FinishThen(env, c1, s);
    ElseGrows(env, c2, s.elseBranch);
    var e2 := LowerElse(env, c2, s.elseBranch);
    GrewTransitive(c, c2, e2);
    GrewClose(c, e2, Br(c1.insert + 2), c1.insert + 2);
  }

  lemma OpenIfGrows(c: Code, d: Code, test: Operand)
    requires c.insert < |c.blocks| && Grew(c, d)
    ensures Grew(c, OpenIf(d, test))
  {
    hide Grew, Code.CreateBlocks, Code.Close;
    GrewSize(c, d);
    GrewCreate(c, d, 3);
    GrewClose(c, d.CreateBlocks(3), CondBr(test, |d.blocks|, |d.blocks| + 1), |d.blocks|);
  }

  lemma {:induction false} ElseGrows(env: Env, c: Code, s: Option<Stmt>)
    requires c.Valid()
    ensures Grew(c, LowerElse(env, c, s))
    decreases s, 0
  {
    if s.None? { GrewReflexive(c); } else { StmtGrows(env, c, s.value); }
  }

  /** A statement lowered at d, ended with a jump, after which generation goes on in block b. */
  lemma {:induction false} ArmGrows(env: Env, c: Code, d: Code, s: Stmt, target: nat, b: nat)
    requires c.insert < |c.blocks| && d.Valid() && Grew(c, d)
    requires |c.blocks| <= b < |d.blocks|
    ensures LowerStmt(env, d, s).insert < |LowerStmt(env, d, s).blocks|
    ensures Grew(c, LowerStmt(env, d, s).Close(Br(target), b))
    decreases s, 3
  {
    hide Grew, Code.Valid, Code.Close, LowerStmt;
    StmtGrows(env, d, s);
    var e := LowerStmt(env, d, s);
    ValidInsert(e);
    GrewSize(d, e);
    GrewTransitive(c, d, e);
    GrewClose(c, e, Br(target), b);
  }

  lemma {:induction false} WhileGrows(env: Env, c: Code, s: Stmt)
    requires c.Valid() && s.While?
    ensures Grew(c, LowerWhile(env, c, s))
    decreases s, 1
  {
    hide Grew, Code.Close, OpenWhile, LowerExpr, FinishWhile;
    if |c.loops| >= MAX_LOOP_NESTING {
      GrewReflexive(c);
      GrewAlike(c, c, c, c.Failed());
    } else {
      var n := |c.blocks|;
      var c1 := OpenWhile(c);
      var r := LowerExpr(env, c1, s.cond);
      OpenWhileGrows(c);
      ExprGrows(env, c1, s.cond);
      GrewTransitive(c, c1, r.code);
      if r.value.None? || r.value.value.ty != Bool {
        GrewAlike(c, r.code, c, r.code.Failed().PopLoop());
      } else {
        var i := CondBr(r.value.value.operand, n + 1, n + 2);
        GrewClose(c, r.code, i, n + 1);
        FinishWhileGrows(env, c, r.code.Close(i, n + 1), s, n);
        var d := FinishWhile(env, r.code.Close(i, n + 1), s, n);
        GrewAlike(c, d, c, d.PopLoop());
      }
    }
  }

  lemma OpenWhileGrows(c: Code)
    requires c.insert < |c.blocks|
    ensures Grew(c, OpenWhile(c))
  {
    hide Grew, Code.Close;
    var n := |c.blocks|;
    OpenLoopGrows(c, 3, LoopTarget(n + 2, n));
    GrewClose(c, c.ClearError().CreateBlocks(3).PushLoop(LoopTarget(n + 2, n)), Br(n), n);
  }

  lemma {:induction false} FinishWhileGrows(env: Env, c: Code, d: Code, s: Stmt, n: nat)
    requires s.While? && c.insert < |c.blocks| && d.Valid() && Grew(c, d)
    requires |c.blocks| <= n && n + 2 < |d.blocks| && d.loops != []
    ensures Grew(c, FinishWhile(env, d, s, n))
    decreases s, 0
  {
    ArmGrows(env, c, d, s.body, n, n + 2);
  }

  lemma OpenLoopGrows(c: Code, n: nat, t: LoopTarget)
    requires c.insert < |c.blocks|
    ensures Grew(c, c.ClearError().CreateBlocks(n).PushLoop(t))
  {
  }

  lemma {:induction false} ForGrows(env: Env, c: Code, s: Stmt)
    requires c.Valid() && s.For?
    ensures Grew(c, LowerFor(env, c, s))
    decreases s, 1
  {
    hide Grew, Code.Close, OpenFor, LowerOptional, FinishFor;
    if |c.loops| >= MAX_LOOP_NESTING {
      GrewReflexive(c);
      GrewAlike(c, c, c, c.Failed());
    } else {
      var n := |c.blocks|;
      var c1 := OpenFor(env, c, s);
      var r := LowerOptional(env, c1, s.test);
      OpenForGrows(env, c, s);
      OptionalGrows(env, c1, s.test);
      GrewTransitive(c, c1, r.code);
      if r.value.Some? && r.value.value.ty != Bool {
        GrewAlike(c, r.code, c, r.code.Failed().PopLoop());
      } else {
        var i := CondBr(TestOperand(r), n + 1, n + 3);
        GrewClose(c, r.code, i, n + 1);
        FinishForGrows(env, c, r.code.Close(i, n + 1), s, n);
        var d := FinishFor(env, r.code.Close(i, n + 1), s, n);
        GrewAlike(c, d, c, d.PopLoop());
      }
    }
  }

  lemma OpenForGrows(env: Env, c: Code, s: Stmt)
    requires c.insert < |c.blocks| && s.For?
    ensures Grew(c, OpenFor(env, c, s))
  {
    hide Grew, Code.Close, LowerOptional;
    var n := |c.blocks|;
    var c1 := c.ClearError().CreateBlocks(4).PushLoop(LoopTarget(n + 3, n + 2));
    OpenLoopGrows(c, 4, LoopTarget(n + 3, n + 2));
    var d1 := LowerOptional(env, c1, s.pre).code;
    OptionalGrows(env, c1, s.pre);
    GrewTransitive(c, c1, d1);
    GrewClose(c, d1, Br(n), n);
  }

  lemma {:induction false} FinishForGrows(env: Env, c: Code, d: Code, s: Stmt, n: nat)
    requires s.For? && c.insert < |c.blocks| && d.Valid() && Grew(c, d)
    requires |c.blocks| <= n && n + 3 < |d.blocks| && d.loops != []
    ensures Grew(c, FinishFor(env, d, s, n))
    decreases s, 0
  {
    hide Grew, Code.Valid, Code.Close, LowerOptional, LowerStmt;
    ArmGrows(env, c, d, s.body, n + 2, n + 2);
    var c1 := LowerStmt(env, d, s.body).Close(Br(n + 2), n + 2);
    OptionalGrows(env, c1, s.post);
    var d1 := LowerOptional(env, c1, s.post).code;
    GrewTransitive(c, c1, d1);
    GrewClose(c, d1, Br(n), n + 3);
  }
}
