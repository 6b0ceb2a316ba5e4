/** The graph that lowering leaves behind is well formed: every branch leads to an existing block,
    and every block but the one generation goes on in ends in a terminator. */
module GraphShape {
  import opened Ast
  import opened Graph
  import opened Lowering
  import opened Growth
  import opened ExprSimulation
  import opened StmtSimulation

  // ---------- Terminators ----------

  /** Among the insert block of c and the blocks created since, only those in open lack a terminator. */
  ghost predicate OnlyOpen(c: Code, d: Code, open: set<nat>) {
    forall b :: 0 <= b < |d.blocks| && (b == c.insert || |c.blocks| <= b) && b !in open ==> HasTerminator(d.blocks[b])
  }

  lemma TerminatorAdded(a: seq<Instr>, i: Instr)
    requires IsTerminator(i)
    ensures HasTerminator(a + [i])
  {
    assert (a + [i])[|a|] == i;
  }

  /** A piece whose only open block is its last, ended with a jump, leaves no open block of its own. */
  lemma PieceSeals(c: Code, c1: Code, e: Code, i: Instr, b: nat, open: set<nat>)
    requires c.insert < |c.blocks| <= |c1.blocks| && c1.insert < |c1.blocks|
    requires c1.insert == c.insert || |c.blocks| <= c1.insert
    requires Grew(c1, e) && OnlyOpen(c, c1, open) && OnlyOpen(c1, e, {e.insert}) && IsTerminator(i)
    ensures e.insert < |e.blocks|
    ensures OnlyOpen(c, e.Close(i, b), open - {c1.insert})
  {
    var d := e.Close(i, b);
    TerminatorAdded(e.blocks[e.insert], i);
    forall k | 0 <= k < |d.blocks| && (k == c.insert || |c.blocks| <= k) && k !in open - {c1.insert}
      ensures HasTerminator(d.blocks[k])
    {
      if k != e.insert && (k == c1.insert || |c1.blocks| <= k) {
        assert HasTerminator(e.blocks[k]);
      } else if k != e.insert {
        assert HasTerminator(c1.blocks[k]);
      }
    }
  }

  lemma SealsCompose(c: Code, m: Code, d: Code)
    requires c.insert < |c.blocks| && Grew(c, m) && Grew(m, d)
    requires OnlyOpen(c, m, {m.insert}) && OnlyOpen(m, d, {d.insert})
    ensures OnlyOpen(c, d, {d.insert})
  {
    forall k | 0 <= k < |d.blocks| && (k == c.insert || |c.blocks| <= k) && k != d.insert
      ensures HasTerminator(d.blocks[k])
    {
      if k < |m.blocks| && k != m.insert {
        assert HasTerminator(m.blocks[k]);
      }
    }
  }

  /** More instructions in the insert block open nothing. */
  lemma SealsSame(c: Code, m: Code, d: Code)
    requires c.insert < |c.blocks| && OnlyOpen(c, m, {m.insert}) && d.insert == m.insert
    requires |d.blocks| == |m.blocks| && forall k :: 0 <= k < |m.blocks| && k != m.insert ==> d.blocks[k] == m.blocks[k]
    ensures OnlyOpen(c, d, {d.insert})
  {
    forall k | 0 <= k < |d.blocks| && (k == c.insert || |c.blocks| <= k) && k != d.insert
      ensures HasTerminator(d.blocks[k])
    {
      assert HasTerminator(m.blocks[k]);
    }
  }

  lemma EmitKeepsOthers(m: Code, i: Instr)
    requires m.insert < |m.blocks|
    ensures forall k :: 0 <= k < |m.blocks| && k != m.insert ==>
              m.Emit(i).blocks[k] == m.blocks[k] && m.EmitValue(i).blocks[k] == m.blocks[k]
  {
  }

  lemma UpdateKeepsOthers(m: Code, mop: MachineOp, x: string, b: Operand)
    requires m.insert < |m.blocks|
    ensures forall k :: 0 <= k < |m.blocks| && k != m.insert ==> EmitUpdate(m, mop, x, b).blocks[k] == m.blocks[k]
  {
  }

  lemma JoinSeals(c: Code, test: Operand, t: TypedOperand, f: TypedOperand)
    requires c.insert < |c.blocks|
    ensures var d := JoinArms(c, test, t, f).code; OnlyOpen(c, d, {d.insert})
  {
    var n := |c.blocks|;
    var d := JoinArms(c, test, t, f).code;
    TerminatorAdded(c.blocks[c.insert], CondBr(test, n, n + 1));
    TerminatorAdded([], Br(n + 2));
    assert d.blocks[c.insert] == c.blocks[c.insert] + [CondBr(test, n, n + 1)];
    assert d.blocks[n] == d.blocks[n + 1] == [] + [Br(n + 2)];
  }

  lemma {:induction false} ExprSeals(env: Env, c: Code, e: Expr)
    requires c.insert < |c.blocks|
    ensures var d := LowerExpr(env, c, e).code; OnlyOpen(c, d, {d.insert})
    decreases e, 1
  {
    hide OnlyOpen, Grew, Code.Emit, Code.EmitValue, EmitUpdate, JoinArms;
    NothingOpen(c);
    match e
    case Missing =>
    case Atomic(Identifier(x)) =>
      EmitKeepsOthers(c, Load(c.next, x));
      SealsSame(c, c, c.EmitValue(Load(c.next, x)));
    case Atomic(_) =>
    case Unary(op, child) =>
      ExprSeals(env, c, child);
      var r1 := LowerExpr(env, c, child);
      if r1.value.Some? {
        var i := UnaryInstr(op, r1.code.next, r1.value.value.operand);
        EmitKeepsOthers(r1.code, i);
        SealsSame(c, r1.code, r1.code.EmitValue(i));
      }
    case Binary(op, _, _) =>
      if IsAssignment(op) { AssignSeals(env, c, e); } else { BinarySeals(env, c, e); }
    case Ternary(_, _, _) => TernarySeals(env, c, e);
    case Grouping(child) => ExprSeals(env, c, child);
    case Prefix(step, x) =>
      UpdateKeepsOthers(c, StepOp(step), x, Const(IntValue(1)));
      SealsSame(c, c, EmitUpdate(c, StepOp(step), x, Const(IntValue(1))));
    case Postfix(step, x) =>
      UpdateKeepsOthers(c, StepOp(step), x, Const(IntValue(1)));
      SealsSame(c, c, EmitUpdate(c, StepOp(step), x, Const(IntValue(1))));
  }

  lemma NothingOpen(c: Code)
    requires c.insert < |c.blocks|
    ensures OnlyOpen(c, c, {c.insert})
  {
  }

  lemma {:induction false} BinarySeals(env: Env, c: Code, e: Expr)
    requires c.insert < |c.blocks| && e.Binary? && !IsAssignment(e.opcode)
    ensures var d := LowerBinary(env, c, e).code; OnlyOpen(c, d, {d.insert})
    decreases e, 0
  {
    hide OnlyOpen, Grew, Code.Emit, Code.EmitValue;
    ExprSeals(env, c, e.left);
    ExprGrows(env, c, e.left);
    var r1 := LowerExpr(env, c, e.left);
    if r1.value.Some? {
      ExprSeals(env, r1.code, e.right);
      ExprGrows(env, r1.code, e.right);
      var r2 := LowerExpr(env, r1.code, e.right);
      SealsCompose(c, r1.code, r2.code);
      if r2.value.Some? {
        var i := BinOp(r2.code.next, MachineOpOf(e.opcode), r1.value.value.operand, r2.value.value.operand);
        EmitKeepsOthers(r2.code, i);
        SealsSame(c, r2.code, r2.code.EmitValue(i));
      }
    }
  }

  lemma {:induction false} AssignSeals(env: Env, c: Code, e: Expr)
    requires c.insert < |c.blocks| && e.Binary? && IsAssignment(e.opcode)
    ensures var d := LowerAssign(env, c, e).code; OnlyOpen(c, d, {d.insert})
    decreases e, 0
  {
    hide OnlyOpen, Code.Emit, EmitUpdate;
    NothingOpen(c);
    ExprSeals(env, c, e.right);
    var r1 := LowerExpr(env, c, e.right);
    if e.left.Atomic? && e.left.literal.Identifier? && r1.value.Some? {
      var x := e.left.literal.name;
      var v := r1.value.value.operand;
      if CompoundOp(e.opcode).Some? {
        var mop := MachineOpOf(CompoundOp(e.opcode).value);
        UpdateKeepsOthers(r1.code, mop, x, v);
        SealsSame(c, r1.code, EmitUpdate(r1.code, mop, x, v));
      } else {
        EmitKeepsOthers(r1.code, Store(v, x));
        SealsSame(c, r1.code, r1.code.Emit(Store(v, x)));
      }
    }
  }

  lemma {:induction false} TernarySeals(env: Env, c: Code, e: Expr)
    requires c.insert < |c.blocks| && e.Ternary?
    ensures var d := LowerTernary(env, c, e).code; OnlyOpen(c, d, {d.insert})
    decreases e, 0
  {
    hide OnlyOpen, Grew, JoinArms;
    NothingOpen(c);
    var r1 := LowerExpr(env, c, e.condition);
    var r2 := LowerExpr(env, r1.code, e.thenPath);
    var r3 := LowerExpr(env, r2.code, e.elsePath);
    ExprSeals(env, c, e.condition);
    ExprGrows(env, c, e.condition);
    ExprSeals(env, r1.code, e.thenPath);
    ExprGrows(env, r1.code, e.thenPath);
    ExprSeals(env, r2.code, e.elsePath);
    ExprGrows(env, r2.code, e.elsePath);
    SealsCompose(c, r1.code, r2.code);
    GrewTransitive(c, r1.code, r2.code);
    SealsCompose(c, r2.code, r3.code);
    GrewTransitive(c, r2.code, r3.code);
    if r1.value.Some? && r2.value.Some? && r3.value.Some? {
      var test := r1.value.value.operand;
      JoinSeals(r3.code, test, r2.value.value, r3.value.value);
      GrewReflexive(r3.code);
      JoinGrows(r3.code, r3.code, test, r2.value.value, r3.value.value);
      SealsCompose(c, r3.code, JoinArms(r3.code, test, r2.value.value, r3.value.value).code);
    }
  }

  lemma OptionalSeals(env: Env, c: Code, e: Option<Expr>)
    requires c.insert < |c.blocks|
    ensures var d := LowerOptional(env, c, e).code; OnlyOpen(c, d, {d.insert})
  {
    if e.Some? { ExprSeals(env, c, e.value); } else { NothingOpen(c); }
  }

  // ---------- Conditions ----------

  /** The type of the operand an expression is emitted with, if there is one. */
  function EmittedType(env: Env, e: Expr): Option<Type> {
    match e
    case Missing => None
    case Atomic(Integer(_)) => Some(Int)
    case Atomic(Boolean(_)) => Some(Bool)
    case Atomic(Identifier(x)) => Declared(env, x)
    case Unary(op, child) =>
      if EmittedType(env, child).None? then None else Some(if op == Negate then Int else Bool)
    case Binary(op, l, r) =>
      if IsAssignment(op) then
        if !(l.Atomic? && l.literal.Identifier? && l.literal.name in env) || EmittedType(env, r).None? then None
        else if CompoundOp(op).Some? then Some(env[l.literal.name]) else EmittedType(env, r)
      else if EmittedType(env, l).None? || EmittedType(env, r).None? then None
      else if IsComparison(op) then Some(Bool) else EmittedType(env, l)
    case Ternary(c, t, f) =>
      if EmittedType(env, c) == Some(Bool) && EmittedType(env, f).Some? then EmittedType(env, t) else None
    case Grouping(child) => EmittedType(env, child)
    case Prefix(_, x) => Declared(env, x)
    case Postfix(_, x) => Declared(env, x)
  }

  function Declared(env: Env, x: string): Option<Type> {
    if x in env then Some(env[x]) else None
  }

  function OperandType(v: Option<TypedOperand>): Option<Type> {
    if v.None? then None else Some(v.value.ty)
  }

  lemma {:induction false} EmittedTypeIs(env: Env, c: Code, e: Expr)
    requires c.insert < |c.blocks|
    ensures OperandType(LowerExpr(env, c, e).value) == EmittedType(env, e)
    decreases e
  {
    hide Code.EmitValue, Code.Emit;
    match e
    case Missing =>
    case Atomic(_) =>
    case Unary(_, child) => EmittedTypeIs(env, c, child);
    case Binary(op, l, r) =>
      if IsAssignment(op) {
        EmittedTypeIs(env, c, r);
      } else {
        EmittedTypeIs(env, c, l);
        EmittedTypeIs(env, LowerExpr(env, c, l).code, r);
      }
    case Ternary(test, t, f) => TernaryTypeIs(env, c, e);
    case Grouping(child) => EmittedTypeIs(env, c, child);
    case Prefix(_, _) =>
    case Postfix(_, _) =>
  }

  lemma {:induction false} TernaryTypeIs(env: Env, c: Code, e: Expr)
    requires c.insert < |c.blocks| && e.Ternary?
    ensures OperandType(LowerExpr(env, c, e).value) == EmittedType(env, e)
    decreases e, 0
  {
    hide JoinArms;
    var r1 := LowerExpr(env, c, e.condition);
    var r2 := LowerExpr(env, r1.code, e.thenPath);
    EmittedTypeIs(env, c, e.condition);
    EmittedTypeIs(env, r1.code, e.thenPath);
    EmittedTypeIs(env, r2.code, e.elsePath);
    if EmittedType(env, e).Some? {
      JoinedType(LowerExpr(env, r2.code, e.elsePath).code, r1.value.value.operand, r2.value.value,
                 LowerExpr(env, r2.code, e.elsePath).value.value);
    }
  }

  lemma JoinedType(c: Code, test: Operand, t: TypedOperand, f: TypedOperand)
    requires c.insert < |c.blocks|
    ensures OperandType(JoinArms(c, test, t, f).value) == Some(t.ty)
  {
  }

  /** No loop that is emitted and not nested too deep has a condition which fails once its blocks
      exist. */
  predicate NoLoopFails(env: Env, s: Stmt, depth: nat)
    decreases s
  {
    match s
    case Expression(_) => true
    case If(c, t, f) =>
      EmittedType(env, c) == Some(Bool) ==>
        NoLoopFails(env, t, depth) && (f.Some? ==> NoLoopFails(env, f.value, depth))
    case While(c, body) =>
      depth < MAX_LOOP_NESTING ==> EmittedType(env, c) == Some(Bool) && NoLoopFails(env, body, depth + 1)
    case For(_, test, _, body) =>
      depth < MAX_LOOP_NESTING ==> TestIsTaken(env, test) && NoLoopFails(env, body, depth + 1)
    case Break => true
    case Continue => true
    case Block(ss) => forall t :: t in ss ==> NoLoopFails(env, t, depth)
  }

  predicate TestIsTaken(env: Env, test: Option<Expr>) {
    test.None? || EmittedType(env, test.value).None? || EmittedType(env, test.value) == Some(Bool)
  }

  lemma IfGoes(env: Env, c: Code, s: Stmt)
    requires c.Valid() && s.If?
    ensures c.ClearError().insert < |c.blocks|
    ensures var r := LowerExpr(env, c.ClearError(), s.cond);
            if EmittedType(env, s.cond) == Some(Bool) then
              && r.value.Some? && RoomForArms(OpenIf(r.code, r.value.value.operand))
              && LowerIf(env, c, s) == FinishIf(env, OpenIf(r.code, r.value.value.operand), s)
            else LowerIf(env, c, s) == r.code.Failed()
  {
    hide LowerExpr, OpenIf, FinishIf, EmittedType;
    ValidInsert(c);
    var r := LowerExpr(env, c.ClearError(), s.cond);
    EmittedTypeIs(env, c.ClearError(), s.cond);
    if r.value.Some? { RoomAfterOpen(c, r.code, r.value.value.operand); }
  }

  lemma WhileGoes(env: Env, c: Code, s: Stmt)
    requires c.Valid() && s.While?
    ensures c.insert < |c.blocks|
    ensures if |c.loops| >= MAX_LOOP_NESTING then LowerWhile(env, c, s) == c.Failed()
            else if EmittedType(env, s.cond) == Some(Bool) then
              LowerWhile(env, c, s) == FinishWhile(env, WhileBody(env, c, s), s, |c.blocks|).PopLoop()
            else
              && WhileTest(env, c, s).code.loops != []
              && LowerWhile(env, c, s) == WhileTest(env, c, s).code.Failed().PopLoop()
  {
    hide LowerExpr, OpenWhile, FinishWhile, EmittedType;
    ValidInsert(c);
    EmittedTypeIs(env, OpenWhile(c), s.cond);
  }

  lemma ForGoes(env: Env, c: Code, s: Stmt)
    requires c.Valid() && s.For?
    ensures c.insert < |c.blocks|
    ensures if |c.loops| >= MAX_LOOP_NESTING then LowerFor(env, c, s) == c.Failed()
            else if TestIsTaken(env, s.test) then
              LowerFor(env, c, s) == FinishFor(env, ForBody(env, c, s), s, |c.blocks|).PopLoop()
            else
              && ForTest(env, c, s).code.loops != []
              && LowerFor(env, c, s) == ForTest(env, c, s).code.Failed().PopLoop()
  {
    hide LowerExpr, OpenFor, FinishFor, EmittedType;
    ValidInsert(c);
    if s.test.Some? { EmittedTypeIs(env, OpenFor(env, c, s), s.test.value); }
  }

  // ---------- Statements ----------

  /** After a statement in which no loop fails, the block generation goes on in is the only one, among
      the old insert block and the blocks created, that may lack a terminator. */
  lemma {:induction false} StmtSeals(env: Env, c: Code, s: Stmt)
    requires c.Valid() && NoLoopFails(env, s, |c.loops|)
    ensures var d := LowerStmt(env, c, s); OnlyOpen(c, d, {d.insert})
    decreases s, 2
  {
    hide OnlyOpen;
    match s
    case Expression(e) => ExprSeals(env, c, e);
    case If(_, _, _) => IfSeals(env, c, s);
    case While(_, _) => WhileSeals(env, c, s);
    case For(_, _, _, _) => ForSeals(env, c, s);
    case Break => JumpSeals(env, c, s);
    case Continue => JumpSeals(env, c, s);
    case Block(ss) => SeqSeals(env, c, ss);
  }

  lemma JumpSeals(env: Env, c: Code, s: Stmt)
    requires c.Valid() && (s.Break? || s.Continue?)
    ensures var d := LowerStmt(env, c, s); OnlyOpen(c, d, {d.insert})
  {
  }

  lemma {:induction false} SeqSeals(env: Env, c: Code, ss: seq<Stmt>)
    requires c.Valid() && forall t :: t in ss ==> NoLoopFails(env, t, |c.loops|)
    ensures var d := LowerSeq(env, c, ss); OnlyOpen(c, d, {d.insert})
    decreases ss, 0
  {
    hide OnlyOpen, Grew, LowerStmt, NoLoopFails;
    if ss == [] {
      NothingOpen(c);
    } else {
      var m := LowerStmt(env, c, ss[0]);
      StmtSeals(env, c, ss[0]);
      StmtGrows(env, c, ss[0]);
      SeqSeals(env, m, ss[1..]);
      SeqGrows(env, m, ss[1..]);
      SealsCompose(c, m, LowerSeq(env, m, ss[1..]));
    }
  }

  lemma OpenAlike(c: Code, c1: Code, d: Code, d1: Code, open: set<nat>)
    requires OnlyOpen(c, d, open) && c1.insert == c.insert && |c1.blocks| == |c.blocks| && d1.blocks == d.blocks
    ensures OnlyOpen(c1, d1, open)
  {
  }

  lemma {:induction false} IfSeals(env: Env, c: Code, s: Stmt)
    requires c.Valid() && s.If? && NoLoopFails(env, s, |c.loops|)
    ensures var d := LowerIf(env, c, s); OnlyOpen(c, d, {d.insert})
    decreases s, 1
  {
    hide OnlyOpen, Grew, OpenIf, FinishIf, LowerIf, LowerExpr, EmittedType, Code.Valid, RoomForArms;
    ValidInsert(c);
    IfGoes(env, c, s);
    var c0 := c.ClearError();
    var r := LowerExpr(env, c0, s.cond);
    ExprSeals(env, c0, s.cond);
    if EmittedType(env, s.cond) == Some(Bool) {
      var c1 := OpenIf(r.code, r.value.value.operand);
      ExprGrows(env, c0, s.cond);
      OpenIfSeals(c0, r.code, r.value.value.operand);
      OpenAlike(c0, c, c1, c1, {c1.insert, c1.insert + 1, c1.insert + 2});
      FinishIfSeals(env, c, c1, s);
    } else {
      OpenAlike(c0, c, r.code, r.code.Failed(), {r.code.insert});
    }
  }

  lemma OpenIfSeals(c: Code, d: Code, test: Operand)
    requires c.insert < |c.blocks| && Grew(c, d) && OnlyOpen(c, d, {d.insert})
    ensures d.insert < |d.blocks|
    ensures var n := |d.blocks|; OnlyOpen(c, OpenIf(d, test), {n, n + 1, n + 2})
  {
    var n := |d.blocks|;
    TerminatorAdded(d.blocks[d.insert], CondBr(test, n, n + 1));
    var e := OpenIf(d, test);
    forall k | 0 <= k < |e.blocks| && (k == c.insert || |c.blocks| <= k) && k !in {n, n + 1, n + 2}
      ensures HasTerminator(e.blocks[k])
    {
      if k == d.insert {
        assert e.blocks[k] == d.blocks[k] + [CondBr(test, n, n + 1)];
      } else {
        assert e.blocks[k] == d.blocks[k];
        assert HasTerminator(d.blocks[k]);
      }
    }
  }

  lemma {:induction false} FinishIfSeals(env: Env, c: Code, c1: Code, s: Stmt)
    requires s.If? && c.insert < |c.blocks| <= c1.insert && RoomForArms(c1) && NoLoopFails(env, s, |c1.loops|)
    requires EmittedType(env, s.cond) == Some(Bool)
    requires OnlyOpen(c, c1, {c1.insert, c1.insert + 1, c1.insert + 2})
    ensures var d := FinishIf(env, c1, s); OnlyOpen(c, d, {d.insert})
    decreases s, 0
  {
    hide OnlyOpen, Grew, LowerStmt, LowerElse, TypeOf, Code.Close;
    var n := c1.insert;
    StmtSeals(env, c1, s.thenBranch);
    StmtGrows(env, c1, s.thenBranch);
    PieceSeals(c, c1, LowerStmt(env, c1, s.thenBranch), Br(n + 2), n + 1, {n, n + 1, n + 2});
    assert {n, n + 1, n + 2} - {n} == {n + 1, n + 2};
    var c2 := FinishThen(env, c1, s);
    ElseSeals(env, c2, s.elseBranch);
    ElseGrows(env, c2, s.elseBranch);
    PieceSeals(c, c2, LowerElse(env, c2, s.elseBranch), Br(n + 2), n + 2, {n + 1, n + 2});
    assert {n + 1, n + 2} - {n + 1} == {n + 2};
  }

  lemma {:induction false} ElseSeals(env: Env, c: Code, s: Option<Stmt>)
    requires c.Valid() && (s.Some? ==> NoLoopFails(env, s.value, |c.loops|))
    ensures var d := LowerElse(env, c, s); OnlyOpen(c, d, {d.insert})
    decreases s, 0
  {
    hide OnlyOpen;
    if s.None? { NothingOpen(c); } else { StmtSeals(env, c, s.value); }
  }

  lemma OpenWhileSeals(c: Code)
    requires c.insert < |c.blocks|
    ensures var n := |c.blocks|; OnlyOpen(c, OpenWhile(c), {n, n + 1, n + 2})
  {
    TerminatorAdded(c.blocks[c.insert], Br(|c.blocks|));
    assert OpenWhile(c).blocks[c.insert] == c.blocks[c.insert] + [Br(|c.blocks|)];
  }

  lemma {:induction false} WhileSeals(env: Env, c: Code, s: Stmt)
    requires c.Valid() && s.While? && NoLoopFails(env, s, |c.loops|)
    ensures var d := LowerWhile(env, c, s); OnlyOpen(c, d, {d.insert})
    decreases s, 0
  {
    hide OnlyOpen, Grew, OpenWhile, LowerWhile, LowerExpr, LowerStmt, EmittedType, Code.Close;
    WhileGoes(env, c, s);
    if |c.loops| >= MAX_LOOP_NESTING {
      NothingOpen(c);
      OpenAlike(c, c, c, c.Failed(), {c.insert});
      return;
    }
    var n := |c.blocks|;
    var c1 := OpenWhile(c);
    var r := WhileTest(env, c, s);
    OpenWhileSeals(c);
    ExprSeals(env, c1, s.cond);
    ExprGrows(env, c1, s.cond);
    PieceSeals(c, c1, r.code, CondBr(TestOperand(r), n + 1, n + 2), n + 1, {n, n + 1, n + 2});
    assert {n, n + 1, n + 2} - {n} == {n + 1, n + 2};
    var c2 := WhileBody(env, c, s);
    StmtSeals(env, c2, s.body);
    StmtGrows(env, c2, s.body);
    PieceSeals(c, c2, LowerStmt(env, c2, s.body), Br(n), n + 2, {n + 1, n + 2});
    assert {n + 1, n + 2} - {n + 1} == {n + 2};
    var d := FinishWhile(env, c2, s, n);
    OpenAlike(c, c, d, d.PopLoop(), {n + 2});
  }

  lemma OpenForSeals(env: Env, c: Code, s: Stmt)
    requires c.insert < |c.blocks| && s.For?
    ensures var n := |c.blocks|; OnlyOpen(c, OpenFor(env, c, s), {n, n + 1, n + 2, n + 3})
  {
    hide OnlyOpen, Grew, LowerOptional, Code.Close, ForPre, OpenFor;
    var n := |c.blocks|;
    OpenForIs(env, c, s);
    OptionalSeals(env, ForPre(c), s.pre);
    OptionalGrows(env, ForPre(c), s.pre);
    ForPreOpens(c);
    PieceSeals(c, ForPre(c), LowerOptional(env, ForPre(c), s.pre).code, Br(n), n, {c.insert, n, n + 1, n + 2, n + 3});
    assert {c.insert, n, n + 1, n + 2, n + 3} - {c.insert} == {n, n + 1, n + 2, n + 3};
  }

  lemma ForPreOpens(c: Code)
    requires c.insert < |c.blocks|
    ensures var n := |c.blocks|; OnlyOpen(c, ForPre(c), {c.insert, n, n + 1, n + 2, n + 3})
  {
  }

  lemma {:induction false} ForSeals(env: Env, c: Code, s: Stmt)
    requires c.Valid() && s.For? && NoLoopFails(env, s, |c.loops|)
    ensures var d := LowerFor(env, c, s); OnlyOpen(c, d, {d.insert})
    decreases s, 0
  {
    hide OnlyOpen, Grew, OpenFor, LowerFor, FinishFor, LowerOptional, LowerStmt, EmittedType, Code.Close;
    ForGoes(env, c, s);
    if |c.loops| >= MAX_LOOP_NESTING {
      NothingOpen(c);
      OpenAlike(c, c, c, c.Failed(), {c.insert});
      return;
    }
    FinishForIs(env, s, c);
    var n := |c.blocks|;
    var c1 := OpenFor(env, c, s);
    var r := ForTest(env, c, s);
    OpenForSeals(env, c, s);
    OptionalSeals(env, c1, s.test);
    OptionalGrows(env, c1, s.test);
    PieceSeals(c, c1, r.code, CondBr(TestOperand(r), n + 1, n + 3), n + 1, {n, n + 1, n + 2, n + 3});
    assert {n, n + 1, n + 2, n + 3} - {n} == {n + 1, n + 2, n + 3};
    var c2 := ForBody(env, c, s);
    StmtSeals(env, c2, s.body);
    StmtGrows(env, c2, s.body);
    PieceSeals(c, c2, LowerStmt(env, c2, s.body), Br(n + 2), n + 2, {n + 1, n + 2, n + 3});
    assert {n + 1, n + 2, n + 3} - {n + 1} == {n + 2, n + 3};
    var c3 := ForPost(env, c, s);
    OptionalSeals(env, c3, s.post);
    OptionalGrows(env, c3, s.post);
    PieceSeals(c, c3, LowerOptional(env, c3, s.post).code, Br(n), n + 3, {n + 2, n + 3});
    assert {n + 2, n + 3} - {n + 2} == {n + 3};
    var d := FinishFor(env, c2, s, n);
    OpenAlike(c, c, d, d.PopLoop(), {n + 3});
  }

  // ---------- Branch targets ----------

  predicate LeadsBelow(i: Instr, n: nat) {
    match i
    case Br(t) => t < n
    case CondBr(_, t, e) => t < n && e < n
    case _ => true
  }

  /** Every branch leads to a block that exists. */
  ghost predicate TargetsExist(c: Code) {
    forall b, k :: 0 <= b < |c.blocks| && 0 <= k < |c.blocks[b]| ==> LeadsBelow(c.blocks[b][k], |c.blocks|)
  }

  lemma TargetsEmit(c: Code, i: Instr)
    requires c.insert < |c.blocks| && TargetsExist(c) && LeadsBelow(i, |c.blocks|)
    ensures TargetsExist(c.Emit(i)) && TargetsExist(c.EmitValue(i))
  {
    var d := c.Emit(i);
    forall b, k | 0 <= b < |d.blocks| && 0 <= k < |d.blocks[b]|
      ensures LeadsBelow(d.blocks[b][k], |d.blocks|)
    {
      if b != c.insert || k < |c.blocks[b]| {
        assert d.blocks[b][k] == c.blocks[b][k];
      }
    }
  }

  lemma TargetsClose(c: Code, i: Instr, b: nat)
    requires c.insert < |c.blocks| && TargetsExist(c) && LeadsBelow(i, |c.blocks|)
    ensures TargetsExist(c.Close(i, b))
  {
    TargetsEmit(c, i);
    TargetsAlike(c.Emit(i), c.Close(i, b));
  }

  lemma TargetsCreate(c: Code, n: nat)
    requires TargetsExist(c)
    ensures TargetsExist(c.CreateBlocks(n))
  {
    var d := c.CreateBlocks(n);
    forall b, k | 0 <= b < |d.blocks| && 0 <= k < |d.blocks[b]|
      ensures LeadsBelow(d.blocks[b][k], |d.blocks|)
    {
      assert b < |c.blocks| && d.blocks[b] == c.blocks[b];
      assert LeadsBelow(c.blocks[b][k], |c.blocks|);
    }
  }

  lemma TargetsAlike(c: Code, d: Code)
    requires TargetsExist(c) && d.blocks == c.blocks
    ensures TargetsExist(d)
  {
  }

  lemma TargetsUpdate(c: Code, mop: MachineOp, x: string, b: Operand)
    requires c.insert < |c.blocks| && TargetsExist(c)
    ensures TargetsExist(EmitUpdate(c, mop, x, b))
  {
    hide TargetsExist, Code.Emit, Code.EmitValue;
    TargetsEmit(c, Load(c.next, x));
    var c1 := c.EmitValue(Load(c.next, x));
    TargetsEmit(c1, BinOp(c.next + 1, mop, Reg(c.next), b));
    TargetsEmit(c1.EmitValue(BinOp(c.next + 1, mop, Reg(c.next), b)), Store(Reg(c.next + 1), x));
  }

  lemma TargetsJoin(c: Code, test: Operand, t: TypedOperand, f: TypedOperand)
    requires c.insert < |c.blocks| && TargetsExist(c)
    ensures TargetsExist(JoinArms(c, test, t, f).code)
  {
    hide TargetsExist, Code.Close, Code.EmitValue, Code.CreateBlocks;
    var n := |c.blocks|;
    TargetsCreate(c, 3);
    var c0 := c.CreateBlocks(3);
    TargetsClose(c0, CondBr(test, n, n + 1), n);
    var c1 := c0.Close(CondBr(test, n, n + 1), n);
    TargetsClose(c1, Br(n + 2), n + 1);
    var c2 := c1.Close(Br(n + 2), n + 1);
    TargetsClose(c2, Br(n + 2), n + 2);
    TargetsEmit(c2.Close(Br(n + 2), n + 2), Phi(c.next, t.operand, n, f.operand, n + 1));
  }

  lemma {:induction false} ExprTargets(env: Env, c: Code, e: Expr)
    requires c.insert < |c.blocks| && TargetsExist(c)
    ensures TargetsExist(LowerExpr(env, c, e).code)
    decreases e, 1
  {
    hide TargetsExist, Code.Emit, Code.EmitValue, EmitUpdate, JoinArms;
    match e
    case Missing =>
    case Atomic(Identifier(x)) => TargetsEmit(c, Load(c.next, x));
    case Atomic(_) =>
    case Unary(op, child) =>
      ExprTargets(env, c, child);
      var r1 := LowerExpr(env, c, child);
      if r1.value.Some? {
        TargetsEmit(r1.code, UnaryInstr(op, r1.code.next, r1.value.value.operand));
      }
    case Binary(op, l, r) =>
      if IsAssignment(op) {
        AssignTargets(env, c, e);
      } else {
        ExprTargets(env, c, l);
        var r1 := LowerExpr(env, c, l);
        ExprTargets(env, r1.code, r);
        var r2 := LowerExpr(env, r1.code, r);
        if r1.value.Some? && r2.value.Some? {
          TargetsEmit(r2.code, BinOp(r2.code.next, MachineOpOf(op), r1.value.value.operand, r2.value.value.operand));
        }
      }
    case Ternary(cond, t, f) =>
      ExprTargets(env, c, cond);
      var r1 := LowerExpr(env, c, cond);
      ExprTargets(env, r1.code, t);
      var r2 := LowerExpr(env, r1.code, t);
      ExprTargets(env, r2.code, f);
      var r3 := LowerExpr(env, r2.code, f);
      if r1.value.Some? && r2.value.Some? && r3.value.Some? {
        TargetsJoin(r3.code, r1.value.value.operand, r2.value.value, r3.value.value);
      }
    case Grouping(child) => ExprTargets(env, c, child);
    case Prefix(step, x) => TargetsUpdate(c, StepOp(step), x, Const(IntValue(1)));
    case Postfix(step, x) => TargetsUpdate(c, StepOp(step), x, Const(IntValue(1)));
  }

  lemma {:induction false} AssignTargets(env: Env, c: Code, e: Expr)
    requires c.insert < |c.blocks| && TargetsExist(c) && e.Binary? && IsAssignment(e.opcode)
    ensures TargetsExist(LowerAssign(env, c, e).code)
    decreases e, 0
  {
    hide TargetsExist, Code.Emit, EmitUpdate;
    ExprTargets(env, c, e.right);
    var r1 := LowerExpr(env, c, e.right);
    if e.left.Atomic? && e.left.literal.Identifier? && r1.value.Some? {
      var x := e.left.literal.name;
      if CompoundOp(e.opcode).Some? {
        TargetsUpdate(r1.code, MachineOpOf(CompoundOp(e.opcode).value), x, r1.value.value.operand);
      } else {
        TargetsEmit(r1.code, Store(r1.value.value.operand, x));
      }
    }
  }

  lemma OptionalTargets(env: Env, c: Code, e: Option<Expr>)
    requires c.insert < |c.blocks| && TargetsExist(c)
    ensures TargetsExist(LowerOptional(env, c, e).code)
  {
    if e.Some? { ExprTargets(env, c, e.value); }
  }

  /** Whether or not emission succeeds, no branch leads outside the function. */
  lemma {:induction false} StmtTargets(env: Env, c: Code, s: Stmt)
    requires c.Valid() && TargetsExist(c)
    ensures TargetsExist(LowerStmt(env, c, s))
    decreases s, 2
  {
    hide TargetsExist, Code.Emit;
    match s
    case Expression(e) => ExprTargets(env, c, e);
    case If(_, _, _) => IfTargets(env, c, s);
    case While(_, _) => WhileTargets(env, c, s);
    case For(_, _, _, _) => ForTargets(env, c, s);
    case Break =>
      TargetsAlike(c, c.ClearError());
      TargetsAlike(c, c.Failed());
      if c.loops != [] { TargetsEmit(c.ClearError(), Br(c.loops[|c.loops| - 1].endBlock)); }
    case Continue =>
      TargetsAlike(c, c.ClearError());
      TargetsAlike(c, c.Failed());
      if c.loops != [] { TargetsEmit(c.ClearError(), Br(c.loops[|c.loops| - 1].contBlock)); }
    case Block(ss) => SeqTargets(env, c, ss);
  }

  lemma {:induction false} SeqTargets(env: Env, c: Code, ss: seq<Stmt>)
    requires c.Valid() && TargetsExist(c)
    ensures TargetsExist(LowerSeq(env, c, ss))
    decreases ss, 0
  {
    hide TargetsExist, LowerStmt;
    if ss != [] {
      StmtTargets(env, c, ss[0]);
      SeqTargets(env, LowerStmt(env, c, ss[0]), ss[1..]);
    }
  }

  lemma {:induction false} IfTargets(env: Env, c: Code, s: Stmt)
    requires c.Valid() && TargetsExist(c) && s.If?
    ensures TargetsExist(LowerIf(env, c, s))
    decreases s, 1
  {
    hide TargetsExist, LowerExpr, OpenIf, FinishIf;
    TargetsAlike(c, c.ClearError());
    var r := LowerExpr(env, c.ClearError(), s.cond);
    ExprTargets(env, c.ClearError(), s.cond);
    TargetsAlike(r.code, r.code.Failed());
    if r.value.Some? && r.value.value.ty == Bool {
      OpenIfTargets(r.code, r.value.value.operand);
      FinishIfTargets(env, OpenIf(r.code, r.value.value.operand), s);
    }
  }

  lemma OpenIfTargets(c: Code, test: Operand)
    requires c.insert < |c.blocks| && TargetsExist(c)
    ensures TargetsExist(OpenIf(c, test))
  {
    hide TargetsExist, Code.Close, Code.CreateBlocks;
    TargetsCreate(c, 3);
    TargetsClose(c.CreateBlocks(3), CondBr(test, |c.blocks|, |c.blocks| + 1), |c.blocks|);
  }

  lemma {:induction false} FinishIfTargets(env: Env, c: Code, s: Stmt)
    requires RoomForArms(c) && TargetsExist(c) && s.If?
    ensures TargetsExist(FinishIf(env, c, s))
    decreases s, 0
  {
    hide TargetsExist, LowerStmt, Code.Close;
    StmtTargets(env, c, s.thenBranch);
    TargetsClose(LowerStmt(env, c, s.thenBranch), Br(c.insert + 2), c.insert + 1);
    var c2 := FinishThen(env, c, s);
    if s.elseBranch.Some? {
      StmtTargets(env, c2, s.elseBranch.value);
    }
    TargetsClose(LowerElse(env, c2, s.elseBranch), Br(c.insert + 2), c.insert + 2);
  }

  lemma OpenLoopTargets(c: Code, n: nat, t: LoopTarget)
    requires TargetsExist(c)
    ensures TargetsExist(c.ClearError().CreateBlocks(n).PushLoop(t))
  {
    hide TargetsExist, Code.CreateBlocks;
    TargetsAlike(c, c.ClearError());
    TargetsCreate(c.ClearError(), n);
    TargetsAlike(c.ClearError().CreateBlocks(n), c.ClearError().CreateBlocks(n).PushLoop(t));
  }

  lemma {:induction false} WhileTargets(env: Env, c: Code, s: Stmt)
    requires c.Valid() && TargetsExist(c) && s.While?
    ensures TargetsExist(LowerWhile(env, c, s))
    decreases s, 1
  {
    hide TargetsExist, LowerExpr, OpenWhile, FinishWhile, Code.Close;
    if |c.loops| >= MAX_LOOP_NESTING {
      TargetsAlike(c, c.Failed());
    } else {
      var n := |c.blocks|;
      OpenWhileTargets(c);
      var r := LowerExpr(env, OpenWhile(c), s.cond);
      ExprTargets(env, OpenWhile(c), s.cond);
      if r.value.None? || r.value.value.ty != Bool {
        TargetsAlike(r.code, r.code.Failed().PopLoop());
      } else {
        var i := CondBr(r.value.value.operand, n + 1, n + 2);
        TargetsClose(r.code, i, n + 1);
        var c2 := r.code.Close(i, n + 1);
        FinishWhileTargets(env, c2, s, n);
        TargetsAlike(FinishWhile(env, c2, s, n), FinishWhile(env, c2, s, n).PopLoop());
      }
    }
  }

  lemma OpenWhileTargets(c: Code)
    requires c.insert < |c.blocks| && TargetsExist(c)
    ensures TargetsExist(OpenWhile(c))
  {
    hide TargetsExist, Code.Close;
    var n := |c.blocks|;
    OpenLoopTargets(c, 3, LoopTarget(n + 2, n));
    TargetsClose(c.ClearError().CreateBlocks(3).PushLoop(LoopTarget(n + 2, n)), Br(n), n);
  }

  lemma {:induction false} FinishWhileTargets(env: Env, c: Code, s: Stmt, n: nat)
    requires c.Valid() && s.While? && c.loops != [] && n + 2 < |c.blocks| && TargetsExist(c)
    ensures TargetsExist(FinishWhile(env, c, s, n))
    decreases s, 0
  {
    hide TargetsExist, LowerStmt, Code.Close;
    StmtTargets(env, c, s.body);
    TargetsClose(LowerStmt(env, c, s.body), Br(n), n + 2);
  }

  lemma {:induction false} ForTargets(env: Env, c: Code, s: Stmt)
    requires c.Valid() && TargetsExist(c) && s.For?
    ensures TargetsExist(LowerFor(env, c, s))
    decreases s, 1
  {
    hide TargetsExist, LowerOptional, OpenFor, FinishFor, Code.Close;
    if |c.loops| >= MAX_LOOP_NESTING {
      TargetsAlike(c, c.Failed());
    } else {
      var n := |c.blocks|;
      OpenForTargets(env, c, s);
      var r := LowerOptional(env, OpenFor(env, c, s), s.test);
      OptionalTargets(env, OpenFor(env, c, s), s.test);
      if r.value.Some? && r.value.value.ty != Bool {
        TargetsAlike(r.code, r.code.Failed().PopLoop());
      } else {
        var i := CondBr(TestOperand(r), n + 1, n + 3);
        TargetsClose(r.code, i, n + 1);
        var c2 := r.code.Close(i, n + 1);
        FinishForTargets(env, c2, s, n);
        TargetsAlike(FinishFor(env, c2, s, n), FinishFor(env, c2, s, n).PopLoop());
      }
    }
  }

  lemma OpenForTargets(env: Env, c: Code, s: Stmt)
    requires c.insert < |c.blocks| && TargetsExist(c) && s.For?
    ensures TargetsExist(OpenFor(env, c, s))
  {
    hide TargetsExist, LowerOptional, Code.Close;
    var n := |c.blocks|;
    var c1 := c.ClearError().CreateBlocks(4).PushLoop(LoopTarget(n + 3, n + 2));
    OpenLoopTargets(c, 4, LoopTarget(n + 3, n + 2));
    OptionalTargets(env, c1, s.pre);
    TargetsClose(LowerOptional(env, c1, s.pre).code, Br(n), n);
  }

  lemma {:induction false} FinishForTargets(env: Env, c: Code, s: Stmt, n: nat)
    requires c.Valid() && s.For? && c.loops != [] && n + 3 < |c.blocks| && TargetsExist(c)
    ensures TargetsExist(FinishFor(env, c, s, n))
    decreases s, 0
  {
    hide TargetsExist, LowerStmt, LowerOptional, Code.Close;
    StmtTargets(env, c, s.body);
    TargetsClose(LowerStmt(env, c, s.body), Br(n + 2), n + 2);
    var c1 := LowerStmt(env, c, s.body).Close(Br(n + 2), n + 2);
    OptionalTargets(env, c1, s.post);
    TargetsClose(LowerOptional(env, c1, s.post).code, Br(n), n + 3);
  }
}
