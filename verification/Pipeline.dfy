/** The front end and the lowering together: from the tokens of an expression to the graph that
    computes it. */
module Pipeline {
  import opened Ast
  import opened Folding
  import opened Parsing
  import opened FoldingWhileParsing
  import opened Graph
  import opened Lowering
  import opened ExprSimulation
  import opened StmtSimulation
  import opened LoweringTheorems
  import opened Agreement

  // ---------- What folding keeps besides the value ----------

  lemma CalculateKeepsType(env: Env, op: Opcode, a: i32, b: i32)
    requires Foldable(op)
    ensures TypeOf(env, Calculate(op, a, b).tree) == BinaryType(op, Some(Int), Some(Int))
    ensures Agreeing(Calculate(op, a, b).tree)
    ensures Calculate(op, a, b).fault == NoFault ==> Silent(Calculate(op, a, b).tree)
  {
    hide TruncDiv, TruncMod, DivisionFaults;
    assert TypeOf(env, Atomic(Integer(a))) == TypeOf(env, Atomic(Integer(b))) == Some(Int);
  }

  /** Folding keeps the static type, adds no effect and no `!`. */
  lemma {:induction false} FoldTreeKeepsShape(env: Env, e: Expr)
    requires FoldTree(e).fault == NoFault
    ensures SameShape(env, FoldTree(e).tree, e)
    decreases e
  {
    match e
    case Unary(_, c) => FoldTreeKeepsShape(env, c);
    case Grouping(c) => FoldTreeKeepsShape(env, c);
    case Ternary(c, t, f) =>
      FoldTreeKeepsShape(env, c);
      FoldTreeKeepsShape(env, t);
      FoldTreeKeepsShape(env, f);
    case Binary(op, l, r) =>
      FoldTreeKeepsShape(env, l);
      FoldTreeKeepsShape(env, r);
      NodeKeepsShape(env, op, l, r);
    case _ =>
  }

  /** x has the type of l, and is agreeing and silent if l is. */
  predicate SameShape(env: Env, x: Expr, l: Expr) {
    TypeOf(env, x) == TypeOf(env, l) && (Agreeing(l) ==> Agreeing(x)) && (Silent(l) ==> Silent(x))
  }

  lemma NodeKeepsShape(env: Env, op: Opcode, l: Expr, r: Expr)
    requires FoldTree(Binary(op, l, r)).fault == NoFault
    requires SameShape(env, FoldTree(l).tree, l) && SameShape(env, FoldTree(r).tree, r)
    ensures SameShape(env, FoldTree(Binary(op, l, r)).tree, Binary(op, l, r))
  {
    hide Fold, Calculate, SameShape;
    FoldTreeIsComplete(l);
    FoldTreeIsComplete(r);
    var x, y := FoldTree(l).tree, FoldTree(r).tree;
    FoldAboveFolded(op, x, y);
    TargetKept(l);
    TargetKept(r);
    if Foldable(op) && IsInt(x) && IsInt(y) {
      CalculatedShape(env, op, x.literal.n, y.literal.n, l, r);
    } else {
      RebuiltShape(env, op, x, y, l, r);
    }
  }

  lemma CalculatedShape(env: Env, op: Opcode, a: i32, b: i32, l: Expr, r: Expr)
    requires Foldable(op) && Calculate(op, a, b).fault == NoFault
    requires SameShape(env, Atomic(Integer(a)), l) && SameShape(env, Atomic(Integer(b)), r)
    ensures SameShape(env, Calculate(op, a, b).tree, Binary(op, l, r))
  {
    hide Calculate;
    CalculateKeepsType(env, op, a, b);
  }

  lemma RebuiltShape(env: Env, op: Opcode, x: Expr, y: Expr, l: Expr, r: Expr)
    requires SameShape(env, x, l) && SameShape(env, y, r)
    requires l.Atomic? ==> x == l
    requires r.Atomic? ==> y == r
    requires (x.Atomic? && x.literal.Identifier?) == (l.Atomic? && l.literal.Identifier?)
    ensures SameShape(env, Binary(op, x, y), Binary(op, l, r))
  {
  }

  // ---------- From tokens to the graph ----------

  /** The machine runs the code of the tree the program parsed and folded. It leaves the code with
      a memory exactly if evaluating the unfolded tree as intended ends with that memory, and it
      gets stuck exactly if that evaluation has no result. */
  lemma CompiledExpressionMeans(ts: seq<Token>, rule: nat, env: Env, c: Code, g: Blocks, start: Config, m: Memory)
    requires PREC_ASSIGNMENT <= rule <= PREC_CALL && Parse(true, ts, rule, Clean).status == Clean
    requires var s := Expression(Parse(true, ts, rule, Clean).tree);
             Compiled(env, s, c, g, start) && AgreeingStmt(s)
    ensures var s := Expression(Parse(true, ts, rule, Clean).tree);
            var plain := Parse(false, ts, rule, Clean).tree;
            var d := LowerStmt(env, c, s);
            && d.insert < |d.blocks| && d.loops == c.loops
            && ((exists v :: Eval(Intended, plain, start.mem) == Some((v, m)))
                <==> Arrives(g, Exits(c, d), start, ExitAt(d, Normal), m))
            && (Eval(Intended, plain, start.mem) == None <==> GetsStuck(g, Exits(c, d), start))
  {
    hide Parse, LowerStmt, WellFormed, Contains, MemoryTyped, Eval, FoldTree, NoRedex;
    var tree := Parse(true, ts, rule, Clean).tree;
    FoldingCommutesWithParsing(ts, rule);
    LoweringPreservesIntent(env, Expression(tree), c, g, start, Normal, m);
    ExpressionEnds(tree, start.mem, m);
  }

  lemma ExpressionEnds(e: Expr, m0: Memory, m: Memory)
    ensures Ends(Intended, Expression(e), m0, Done(Normal, m)) <==> exists v :: Eval(Intended, e, m0) == Some((v, m))
    ensures Ends(Intended, Expression(e), m0, Faulted) <==> Eval(Intended, e, m0) == None
  {
    hide Eval;
    var out := Eval(Intended, e, m0);
    assert Exec(Intended, 0, Expression(e), m0) == if out.Some? then Done(Normal, out.value.1) else Faulted;
  }

  /** Every printable, well-typed expression that folds without a fault can be written down,
      parsed, folded and lowered, and the graph then computes what the expression means. */
  lemma WrittenExpressionRuns(e: Expr, rest: seq<Token>, env: Env, c: Code, g: Blocks, start: Config, m: Memory)
    requires Printable(e) && Level(e) >= PREC_ASSIGNMENT && NextPrec(rest) < PREC_ASSIGNMENT
    requires TypeOf(env, e).Some? && Agreeing(e) && FoldTree(e).fault == NoFault
    requires c.Valid() && MemoryTyped(env, start.mem) && start.at == c.Out()
    requires var s := Expression(Parse(true, Print(e) + rest, PREC_ASSIGNMENT, Clean).tree);
             Contains(g, LowerStmt(env, c, s))
    ensures var p := Parse(true, Print(e) + rest, PREC_ASSIGNMENT, Clean);
            var d := LowerStmt(env, c, Expression(p.tree));
            && p.status == Clean && p.rest == rest
            && d.insert < |d.blocks| && d.loops == c.loops
            && ((exists v :: Eval(Intended, e, start.mem) == Some((v, m)))
                <==> Arrives(g, Exits(c, d), start, ExitAt(d, Normal), m))
            && (Eval(Intended, e, start.mem) == None <==> GetsStuck(g, Exits(c, d), start))
  {
    hide Parse, Print, LowerStmt, Contains, MemoryTyped, Eval, FoldTree, NoRedex, Same, Agreeing, TypeOf, Printable;
    ParseOfPrint(e, rest, PREC_ASSIGNMENT);
    FoldingCommutesWithParsing(Print(e) + rest, PREC_ASSIGNMENT);
    FoldTreeKeepsShape(env, e);
    CompiledExpressionMeans(Print(e) + rest, PREC_ASSIGNMENT, env, c, g, start, m);
  }
}
