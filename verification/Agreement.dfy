/** When the order of effects in the generated code gives every expression its intended meaning,
    and exactly where a ternary or a `!` does not. */
module Agreement {
  import opened Ast
  import opened Graph
  import opened Lowering
  import opened ExprSimulation
  import opened StmtSimulation
  import opened LoweringTheorems

  // ---------- Expressions that neither write nor fault ----------

  /** No assignment, no ++ or --, and no division but by a literal other than 0 and -1. */
  predicate Silent(e: Expr) {
    match e
    case Missing => false
    case Atomic(_) => true
    case Unary(_, c) => Silent(c)
    case Binary(op, l, r) =>
      && !IsAssignment(op) && Silent(l) && Silent(r)
      && (op == Division || op == Modulo ==>
            r.Atomic? && r.literal.Integer? && r.literal.n != 0 && r.literal.n != -1)
    case Ternary(c, t, f) => Silent(c) && Silent(t) && Silent(f)
    case Grouping(c) => Silent(c)
    case Prefix(_, _) => false
    case Postfix(_, _) => false
  }

  lemma {:induction false} SilentIsHarmless(mode: Mode, env: Env, e: Expr, m: Memory)
    requires Silent(e) && TypeOf(env, e).Some? && MemoryTyped(env, m)
    ensures Harmless(mode, e, m)
    decreases e, 1
  {
    match e
    case Atomic(_) =>
    case Unary(_, c) =>
      hide MemoryTyped;
      SilentIsHarmless(mode, env, c, m);
      EvaluationIsTyped(mode, env, c, m);
    case Binary(op, l, r) => SilentInfixIsHarmless(mode, env, op, l, r, m);
    case Ternary(c, t, f) => SilentTernaryIsHarmless(mode, env, c, t, f, m);
    case Grouping(c) => SilentIsHarmless(mode, env, c, m);
  }

  /** e can be evaluated at m, and leaves m as it was. */
  predicate Harmless(mode: Mode, e: Expr, m: Memory) {
    Eval(mode, e, m).Some? && Eval(mode, e, m).value.1 == m
  }

  lemma {:induction false} SilentInfixIsHarmless(mode: Mode, env: Env, op: Opcode, l: Expr, r: Expr, m: Memory)
    requires Silent(Binary(op, l, r)) && TypeOf(env, Binary(op, l, r)).Some? && MemoryTyped(env, m)
    ensures Harmless(mode, Binary(op, l, r), m)
    decreases Binary(op, l, r), 0
  {
    hide MemoryTyped, Apply, IsAssignment;
    SilentIsHarmless(mode, env, l, m);
    SilentIsHarmless(mode, env, r, m);
    EvaluationIsTyped(mode, env, l, m);
    EvaluationIsTyped(mode, env, r, m);
    SilentOperator(op, Eval(mode, l, m).value.0, Eval(mode, r, m).value.0);
  }

  lemma {:induction false} SilentTernaryIsHarmless(mode: Mode, env: Env, c: Expr, t: Expr, f: Expr, m: Memory)
    requires Silent(Ternary(c, t, f)) && TypeOf(env, Ternary(c, t, f)).Some? && MemoryTyped(env, m)
    ensures Harmless(mode, Ternary(c, t, f), m)
    decreases Ternary(c, t, f), 0
  {
    hide MemoryTyped;
    SilentIsHarmless(mode, env, c, m);
    EvaluationIsTyped(mode, env, c, m);
    SilentIsHarmless(mode, env, t, m);
    SilentIsHarmless(mode, env, f, m);
  }

  lemma SilentOperator(op: Opcode, x: Value, y: Value)
    requires BinaryType(op, Some(TypeOfValue(x)), Some(TypeOfValue(y))).Some?
    requires op == Division || op == Modulo ==> y.IntValue? && y.n != 0 && y.n != -1
    ensures Apply(op, x, y).Some?
  {
    hide Wrap, TruncDiv, TruncMod;
  }

  // ---------- Agreement of the two meanings ----------

  /** No `!`, and the arms of every ternary silent. */
  predicate Agreeing(e: Expr) {
    match e
    case Missing => true
    case Atomic(_) => true
    case Unary(op, c) => op != Invert && Agreeing(c)
    case Binary(_, l, r) => Agreeing(l) && Agreeing(r)
    case Ternary(c, t, f) => Agreeing(c) && Agreeing(t) && Agreeing(f) && Silent(t) && Silent(f)
    case Grouping(c) => Agreeing(c)
    case Prefix(_, _) => true
    case Postfix(_, _) => true
  }

  lemma {:induction false} EvaluationAgrees(env: Env, e: Expr, m: Memory)
    requires Agreeing(e) && TypeOf(env, e).Some? && MemoryTyped(env, m)
    ensures Eval(Intended, e, m) == Eval(AsEmitted, e, m)
    decreases e
  {
    hide MemoryTyped, Apply;
    match e
    case Atomic(_) =>
    case Unary(_, c) => EvaluationAgrees(env, c, m);
    case Binary(op, l, r) =>
      if IsAssignment(op) {
        EvaluationAgrees(env, r, m);
      } else {
        EvaluationAgrees(env, l, m);
        EvaluationIsTyped(AsEmitted, env, l, m);
        if Eval(AsEmitted, l, m).Some? {
          EvaluationAgrees(env, r, Eval(AsEmitted, l, m).value.1);
        }
      }
    case Ternary(c, t, f) =>
      EvaluationAgrees(env, c, m);
      EvaluationIsTyped(AsEmitted, env, c, m);
      if Eval(AsEmitted, c, m).Some? {
        var m1 := Eval(AsEmitted, c, m).value.1;
        EvaluationAgrees(env, t, m1);
        EvaluationAgrees(env, f, m1);
        SilentIsHarmless(AsEmitted, env, t, m1);
        SilentIsHarmless(AsEmitted, env, f, m1);
      }
    case Grouping(c) => EvaluationAgrees(env, c, m);
    case Prefix(_, _) =>
    case Postfix(_, _) =>
  }

  // ---------- Exactly where they differ ----------

  /** The two meanings of an expression agree in every memory. */
  ghost predicate AgreesEverywhere(e: Expr) {
    forall m: Memory :: Eval(Intended, e, m) == Eval(AsEmitted, e, m)
  }

  /** What the arm f yields when it is evaluated after t, as the generated code does. */
  function After(t: Expr, f: Expr, m: Memory): Evaluated {
    match Eval(AsEmitted, t, m)
    case None => None
    case Some((_, m1)) => Eval(AsEmitted, f, m1)
  }

  /** Exactly when the generated code of a ternary does what is meant, once its condition has left
      the memory m1. With the condition true, the arm not chosen must be harmless behind the chosen
      one, unless that has no value; with the condition false, the chosen arm must yield behind the
      other one what it yields alone. */
  lemma TernaryAgreesExactly(c: Expr, t: Expr, f: Expr, m: Memory)
    requires AgreesEverywhere(c) && AgreesEverywhere(t) && AgreesEverywhere(f)
    ensures
      var e := Ternary(c, t, f);
      (Eval(Intended, e, m) == Eval(AsEmitted, e, m)) <==>
        match Eval(AsEmitted, c, m)
        case Some((BoolValue(true), m1)) =>
          Eval(AsEmitted, t, m1).None? || Harmless(AsEmitted, f, Eval(AsEmitted, t, m1).value.1)
        case Some((BoolValue(false), m1)) => After(t, f, m1) == Eval(AsEmitted, f, m1)
        case _ => true
  {
    assert Eval(Intended, c, m) == Eval(AsEmitted, c, m);
    if Eval(AsEmitted, c, m).Some? {
      var m1 := Eval(AsEmitted, c, m).value.1;
      assert Eval(Intended, t, m1) == Eval(AsEmitted, t, m1);
      assert Eval(Intended, f, m1) == Eval(AsEmitted, f, m1);
    }
  }

  /** Silent arms are a condition on the text alone that is enough, whatever the condition yields. */
  lemma SilentArmsAgree(env: Env, c: Expr, t: Expr, f: Expr, m: Memory)
    requires TypeOf(env, Ternary(c, t, f)).Some? && MemoryTyped(env, m)
    requires AgreesEverywhere(c) && AgreesEverywhere(t) && AgreesEverywhere(f) && Silent(t) && Silent(f)
    ensures Eval(Intended, Ternary(c, t, f), m) == Eval(AsEmitted, Ternary(c, t, f), m)
  {
    hide Eval, MemoryTyped, Silent, AgreesEverywhere;
    TernaryAgreesExactly(c, t, f, m);
    EvaluationIsTyped(AsEmitted, env, c, m);
    if Eval(AsEmitted, c, m).Some? {
      var m1 := Eval(AsEmitted, c, m).value.1;
      SilentIsHarmless(AsEmitted, env, t, m1);
      SilentIsHarmless(AsEmitted, env, f, m1);
    }
  }

  /** `!` has its intended meaning only where it has none: wherever its operand has a value, the
      code generated for it yields that very value. */
  lemma InvertAgreesNowhere(c: Expr, m: Memory)
    requires Eval(Intended, c, m) == Eval(AsEmitted, c, m)
    requires Eval(AsEmitted, c, m).Some? ==> Eval(AsEmitted, c, m).value.0.BoolValue?
    ensures Eval(AsEmitted, Unary(Invert, c), m) == Eval(AsEmitted, c, m)
    ensures (Eval(Intended, Unary(Invert, c), m) == Eval(AsEmitted, Unary(Invert, c), m))
            <==> Eval(AsEmitted, c, m).None?
  {
  }

  /** x != 0 ? 7 / x : 0 at x = 0: intended 0, but the generated code divides first. */
  lemma GuardedDivisionFaults()
    ensures var x := Atomic(Identifier("x"));
            var e := Ternary(Binary(CompareNotEqual, x, Atomic(Integer(0))),
                             Binary(Division, Atomic(Integer(7)), x), Atomic(Integer(0)));
            var m := map["x" := IntValue(0)];
            Eval(Intended, e, m) == Some((IntValue(0), m)) && Eval(AsEmitted, e, m) == None
  {
    var x, zero := Atomic(Identifier("x")), Atomic(Integer(0));
    var test := Binary(CompareNotEqual, x, zero);
    var quotient := Binary(Division, Atomic(Integer(7)), x);
    var m: Memory := map["x" := IntValue(0)];
    ZeroEvaluates(m, AsEmitted);
    ZeroEvaluates(m, Intended);
    hide Eval, AgreesEverywhere;
    WithoutTernariesAgrees(test);
    WithoutTernariesAgrees(quotient);
    WithoutTernariesAgrees(zero);
    TernaryAgreesExactly(test, quotient, zero, m);
    TernaryChooses(Intended, test, quotient, zero, m);
    TernaryChooses(AsEmitted, test, quotient, zero, m);
  }

  lemma ZeroEvaluates(m: Memory, mode: Mode)
    requires "x" in m && m["x"] == IntValue(0)
    ensures Eval(mode, Atomic(Integer(0)), m) == Some((IntValue(0), m))
    ensures Eval(mode, Binary(CompareNotEqual, Atomic(Identifier("x")), Atomic(Integer(0))), m) ==
              Some((BoolValue(false), m))
    ensures Eval(mode, Binary(Division, Atomic(Integer(7)), Atomic(Identifier("x"))), m) == None
  {
    hide Wrap, TruncDiv;
    assert Eval(mode, Atomic(Identifier("x")), m) == Some((IntValue(0), m));
    assert Eval(mode, Atomic(Integer(7)), m) == Some((IntValue(7), m));
  }

  /** A ternary whose condition is false. */
  lemma TernaryChooses(mode: Mode, c: Expr, t: Expr, f: Expr, m: Memory)
    requires Eval(mode, c, m) == Some((BoolValue(false), m))
    ensures mode == Intended ==> Eval(mode, Ternary(c, t, f), m) == Eval(mode, f, m)
    ensures mode == AsEmitted && Eval(mode, t, m) == None ==> Eval(mode, Ternary(c, t, f), m) == None
  {
  }

  /** Without ternaries and `!` the two meanings agree in every memory. */
  predicate Straight(e: Expr) {
    match e
    case Unary(op, c) => op != Invert && Straight(c)
    case Binary(_, l, r) => Straight(l) && Straight(r)
    case Ternary(_, _, _) => false
    case Grouping(c) => Straight(c)
    case _ => true
  }

  lemma {:induction false} StraightAgrees(e: Expr, m: Memory)
    requires Straight(e)
    ensures Eval(Intended, e, m) == Eval(AsEmitted, e, m)
    decreases e
  {
    hide Apply;
    match e
    case Unary(_, c) => StraightAgrees(c, m);
    case Binary(op, l, r) =>
      StraightAgrees(l, m);
      StraightAgrees(r, m);
      if Eval(AsEmitted, l, m).Some? {
        StraightAgrees(r, Eval(AsEmitted, l, m).value.1);
      }
    case Grouping(c) => StraightAgrees(c, m);
    case _ =>
  }

  lemma WithoutTernariesAgrees(e: Expr)
    requires Straight(e)
    ensures AgreesEverywhere(e)
  {
    forall m: Memory
      ensures Eval(Intended, e, m) == Eval(AsEmitted, e, m)
    {
      StraightAgrees(e, m);
    }
  }

  // ---------- Statements ----------

  predicate OptionalAgreeing(e: Option<Expr>) {
    e.Some? ==> Agreeing(e.value)
  }

  predicate AgreeingStmt(s: Stmt)
    decreases s
  {
    match s
    case Expression(e) => Agreeing(e)
    case If(c, t, f) => Agreeing(c) && AgreeingStmt(t) && (f.Some? ==> AgreeingStmt(f.value))
    case While(c, body) => Agreeing(c) && AgreeingStmt(body)
    case For(pre, test, post, body) =>
      OptionalAgreeing(pre) && OptionalAgreeing(test) && OptionalAgreeing(post) && AgreeingStmt(body)
    case Break => true
    case Continue => true
    case Block(ss) => forall t :: t in ss ==> AgreeingStmt(t)
  }

  lemma OptionalAgrees(env: Env, e: Option<Expr>, m: Memory)
    requires OptionalAgreeing(e) && OptionalTyped(env, e) && MemoryTyped(env, m)
    ensures EvalIf(Intended, e, m, BoolValue(true)) == EvalIf(AsEmitted, e, m, BoolValue(true))
  {
    if e.Some? {
      EvaluationAgrees(env, e.value, m);
    }
  }

  lemma {:induction false} ExecutionAgrees(fuel: nat, env: Env, s: Stmt, depth: nat, m: Memory)
    requires AgreeingStmt(s) && WellFormed(env, s, depth) && MemoryTyped(env, m)
    ensures Exec(Intended, fuel, s, m) == Exec(AsEmitted, fuel, s, m)
    decreases fuel, s, 0
  {
    hide MemoryTyped, TypeOf, Eval, EvalIf;
    match s
    case Expression(e) => EvaluationAgrees(env, e, m);
    case If(c, t, f) =>
      EvaluationAgrees(env, c, m);
      EvaluationIsTyped(AsEmitted, env, c, m);
      if Eval(AsEmitted, c, m).Some? {
        var m1 := Eval(AsEmitted, c, m).value.1;
        ExecutionAgrees(fuel, env, t, depth, m1);
        if f.Some? {
          ExecutionAgrees(fuel, env, f.value, depth, m1);
        }
      }
    case While(c, body) => LoopAgrees(fuel, env, Some(c), None, body, depth + 1, m);
    case For(pre, test, post, body) =>
      OptionalAgrees(env, pre, m);
      EvalIfIsTyped(AsEmitted, env, pre, m);
      var out := EvalIf(AsEmitted, pre, m, BoolValue(true));
      if out.Some? {
        LoopAgrees(fuel, env, test, post, body, depth + 1, out.value.1);
      }
    case Break =>
    case Continue =>
    case Block(ss) => SequenceAgrees(fuel, env, ss, depth, m);
  }

  lemma {:induction false} SequenceAgrees(fuel: nat, env: Env, ss: seq<Stmt>, depth: nat, m: Memory)
    requires forall t :: t in ss ==> AgreeingStmt(t) && WellFormed(env, t, depth)
    requires MemoryTyped(env, m)
    ensures ExecSeq(Intended, fuel, ss, m) == ExecSeq(AsEmitted, fuel, ss, m)
    decreases fuel, ss, 0
  {
    if ss != [] {
      ExecutionAgrees(fuel, env, ss[0], depth, m);
      ExecIsTyped(AsEmitted, fuel, env, ss[0], depth, m);
      var first := Exec(AsEmitted, fuel, ss[0], m);
      if first.Done? {
        SequenceAgrees(fuel, env, ss[1..], depth, first.mem);
      }
    }
  }

  lemma {:induction false} LoopAgrees(fuel: nat, env: Env, test: Option<Expr>, post: Option<Expr>, body: Stmt,
                                      depth: nat, m: Memory)
    requires OptionalAgreeing(test) && OptionalAgreeing(post) && AgreeingStmt(body)
    requires OptionalTyped(env, test) && OptionalTyped(env, post) && WellFormed(env, body, depth)
    requires MemoryTyped(env, m)
    ensures ExecLoop(Intended, fuel, test, post, body, m) == ExecLoop(AsEmitted, fuel, test, post, body, m)
    decreases fuel, body, 1
  {
    hide MemoryTyped, EvalIf, Exec, ExecLoop, WellFormed, AgreeingStmt, OptionalAgreeing, OptionalTyped;
    if fuel == 0 {
      NoFuelAgrees(test, post, body, m);
    } else {
      OptionalAgrees(env, test, m);
      EvalIfIsTyped(AsEmitted, env, test, m);
      var v := EvalIf(AsEmitted, test, m, BoolValue(true));
      if v.Some? {
        ExecutionAgrees(fuel, env, body, depth, v.value.1);
        ExecIsTyped(AsEmitted, fuel, env, body, depth, v.value.1);
        var once := Exec(AsEmitted, fuel, body, v.value.1);
        if once.Done? {
          OptionalAgrees(env, post, once.mem);
          EvalIfIsTyped(AsEmitted, env, post, once.mem);
          var after := EvalIf(AsEmitted, post, once.mem, BoolValue(true));
          if after.Some? {
            LoopAgrees(fuel - 1, env, test, post, body, depth, after.value.1);
          }
        }
      }
      RoundsAgree(fuel, test, post, body, m);
    }
  }

  lemma NoFuelAgrees(test: Option<Expr>, post: Option<Expr>, body: Stmt, m: Memory)
    ensures ExecLoop(Intended, 0, test, post, body, m) == ExecLoop(AsEmitted, 0, test, post, body, m)
  {
  }

  /** Two meanings of a loop agree if those of each of its pieces do where the loop comes to them. */
  lemma RoundsAgree(fuel: nat, test: Option<Expr>, post: Option<Expr>, body: Stmt, m: Memory)
    requires fuel > 0
    requires
      var v := EvalIf(AsEmitted, test, m, BoolValue(true));
      && EvalIf(Intended, test, m, BoolValue(true)) == v
      && (v.Some? ==>
            var once := Exec(AsEmitted, fuel, body, v.value.1);
            && Exec(Intended, fuel, body, v.value.1) == once
            && (once.Done? ==>
                  var after := EvalIf(AsEmitted, post, once.mem, BoolValue(true));
                  && EvalIf(Intended, post, once.mem, BoolValue(true)) == after
                  && (after.Some? ==>
                        ExecLoop(Intended, fuel - 1, test, post, body, after.value.1) ==
                        ExecLoop(AsEmitted, fuel - 1, test, post, body, after.value.1))))
    ensures ExecLoop(Intended, fuel, test, post, body, m) == ExecLoop(AsEmitted, fuel, test, post, body, m)
  {
    hide EvalIf, Exec;
  }

  /** Lowering preserves the intended meaning of every statement without `!` whose ternaries have
      silent arms, in both directions. */
  lemma LoweringPreservesIntent(env: Env, s: Stmt, c: Code, g: Blocks, start: Config, x: Exit, m: Memory)
    requires Compiled(env, s, c, g, start) && AgreeingStmt(s) && (x != Normal ==> c.loops != [])
    ensures var d := LowerStmt(env, c, s);
            && d.insert < |d.blocks| && d.loops == c.loops
            && (Ends(Intended, s, start.mem, Done(x, m)) <==> Arrives(g, Exits(c, d), start, ExitAt(d, x), m))
            && (Ends(Intended, s, start.mem, Faulted) <==> GetsStuck(g, Exits(c, d), start))
            && (Diverges(Intended, s, start.mem) <==> RunsForever(g, Exits(c, d), start))
  {
    hide LowerStmt, Exec, WellFormed, AgreeingStmt, Contains, MemoryTyped;
    forall fuel: nat
      ensures Exec(Intended, fuel, s, start.mem) == Exec(AsEmitted, fuel, s, start.mem)
    {
      ExecutionAgrees(fuel, env, s, |c.loops|, start.mem);
    }
    LoweringPreservesEnds(env, s, c, g, start, x, m);
    LoweringPreservesFaults(env, s, c, g, start);
    LoweringPreservesDivergence(env, s, c, g, start);
  }
}
