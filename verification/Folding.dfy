/** Constant folding as the parser does it after every infix step. */
module Folding {
  import opened Ast

  /** DivideByZero is the error the folder reports; Overflow is a sum, product or quotient that
      does not fit 32 bits, whose folding the program leaves undefined. */
  datatype Fault = NoFault | DivideByZero | Overflow

  /** ok is what the folder returns: false exactly when it stopped at this node with an error. */
  datatype Folded = Folded(tree: Expr, fault: Fault, ok: bool)

  predicate Foldable(op: Opcode) {
    op in {Addition, Subtraction, Multiplication, Division, Modulo, CompareEqual, CompareNotEqual,
           CompareLess, CompareLessEqual, CompareGreater, CompareGreaterEqual}
  }

  function FirstFault(a: Fault, b: Fault): Fault {
    if a == Overflow || (a == DivideByZero && b != Overflow) then a else b
  }

  predicate Fits(n: int) {
    -0x8000_0000 <= n < 0x8000_0000
  }

  function IntResult(e: Expr, n: int): Folded {
    if Fits(n) then Folded(Atomic(Integer(n)), NoFault, true) else Folded(e, Overflow, false)
  }

  /** A node with two integer literals becomes the literal of its value. */
  function Calculate(op: Opcode, a: i32, b: i32): Folded
    requires Foldable(op)
  {
    var e := Binary(op, Atomic(Integer(a)), Atomic(Integer(b)));
    match op
    case Addition => IntResult(e, a + b)
    case Subtraction => IntResult(e, a - b)
    case Multiplication => IntResult(e, a * b)
    case Division => if b == 0 then Folded(e, DivideByZero, false) else IntResult(e, TruncDiv(a, b))
    case Modulo =>
      if b == 0 then Folded(e, DivideByZero, false)
      else if DivisionFaults(a, b) then Folded(e, Overflow, false)
      else IntResult(e, TruncMod(a, b))
    case CompareEqual => Folded(Atomic(Boolean(a == b)), NoFault, true)
    case CompareNotEqual => Folded(Atomic(Boolean(a != b)), NoFault, true)
    case CompareLess => Folded(Atomic(Boolean(a < b)), NoFault, true)
    case CompareLessEqual => Folded(Atomic(Boolean(a <= b)), NoFault, true)
    case CompareGreater => Folded(Atomic(Boolean(a > b)), NoFault, true)
    case _ => Folded(Atomic(Boolean(a >= b)), NoFault, true)
  }

  predicate IsInt(e: Expr) {
    e.Atomic? && e.literal.Integer?
  }

  /** The folder: operators other than arithmetic and comparison are left alone with everything
      below them; otherwise the operands that are infix nodes are folded first. */
  function Fold(e: Expr): Folded
    requires e.Binary?
    decreases e, 0
  {
    if !Foldable(e.opcode) then Folded(e, NoFault, true)
    else Combine(e.opcode, FoldOperand(e.left), FoldOperand(e.right))
  }

  function FoldOperand(e: Expr): Folded
    decreases e, 1
  {
    if e.Binary? then Fold(e) else Folded(e, NoFault, true)
  }

  function Combine(op: Opcode, l: Folded, r: Folded): Folded
    requires Foldable(op)
  {
    var fault := FirstFault(l.fault, r.fault);
    if IsInt(l.tree) && IsInt(r.tree) then
      var n := Calculate(op, l.tree.literal.n, r.tree.literal.n);
      n.(fault := FirstFault(fault, n.fault))
    else Folded(Binary(op, l.tree, r.tree), fault, true)
  }

  // ---------- Folding preserves meaning ----------

  lemma WrapFits(n: int)
    requires Fits(n)
    ensures Wrap(n) == n
  {
  }

  lemma CalculateMeans(op: Opcode, a: i32, b: i32, mode: Mode, m: Memory)
    requires Foldable(op)
    ensures Calculate(op, a, b).fault == NoFault ==>
              Eval(mode, Calculate(op, a, b).tree, m) ==
                Eval(mode, Binary(op, Atomic(Integer(a)), Atomic(Integer(b))), m)
    ensures Calculate(op, a, b).fault == DivideByZero ==>
              Eval(mode, Binary(op, Atomic(Integer(a)), Atomic(Integer(b))), m) == None
  {
    hide Eval, Calculate, Apply, Foldable;
    var x, y := Atomic(Integer(a)), Atomic(Integer(b));
    NotAnAssignment(op);
    EvalInteger(x, mode, m);
    EvalInteger(y, mode, m);
    EvalInfix(op, x, y, mode, m);
    CalculateApplies(op, a, b);
    if Calculate(op, a, b).fault == NoFault {
      EvalLiteral(Calculate(op, a, b).tree, mode, m);
    }
  }

  /** The value of a literal. */
  function ValueOf(e: Expr): Value
    requires e.Atomic? && !e.literal.Identifier?
  {
    match e.literal
    case Integer(n) => IntValue(n)
    case Boolean(b) => BoolValue(b)
  }

  lemma EvalLiteral(e: Expr, mode: Mode, m: Memory)
    requires e.Atomic? && !e.literal.Identifier?
    ensures Eval(mode, e, m) == Some((ValueOf(e), m))
  {
  }

  lemma CalculateApplies(op: Opcode, a: i32, b: i32)
    requires Foldable(op)
    ensures var c := Calculate(op, a, b);
            && (c.fault == NoFault ==>
                  && c.tree.Atomic? && !c.tree.literal.Identifier?
                  && Apply(op, IntValue(a), IntValue(b)) == Some(ValueOf(c.tree)))
            && (c.fault == DivideByZero ==> Apply(op, IntValue(a), IntValue(b)) == None)
  {
    hide Wrap, TruncDiv, TruncMod;
    match op
    case Addition => if Fits(a + b) { WrapFits(a + b); }
    case Subtraction => if Fits(a - b) { WrapFits(a - b); }
    case Multiplication => if Fits(a * b) { WrapFits(a * b); }
    case Division =>
      if b != 0 && Fits(TruncDiv(a, b)) {
        WrapFits(TruncDiv(a, b));
        QuotientFits(a, b);
      }
    case Modulo => if b != 0 && Fits(TruncMod(a, b)) { WrapFits(TruncMod(a, b)); }
    case _ =>
  }

  lemma QuotientFits(a: i32, b: i32)
    requires b != 0 && Fits(TruncDiv(a, b))
    ensures !DivisionFaults(a, b)
  {
  }

  /** The folded operand means what the operand means, or the operand means nothing. */
  ghost predicate Sound(f: Folded, e: Expr) {
    forall mode: Mode, m: Memory :: Means(f, e, mode, m)
  }

  predicate Means(f: Folded, e: Expr, mode: Mode, m: Memory) {
    && (f.fault == NoFault ==> Eval(mode, f.tree, m) == Eval(mode, e, m))
    && (f.fault == DivideByZero ==> Eval(mode, e, m) == None)
  }

  lemma CombineMeans(op: Opcode, l: Folded, r: Folded, x: Expr, y: Expr)
    requires Foldable(op) && Sound(l, x) && Sound(r, y)
    ensures Sound(Combine(op, l, r), Binary(op, x, y))
  {
    hide Calculate, Apply, Foldable, Eval, Combine;
    forall mode: Mode, m: Memory
      ensures Means(Combine(op, l, r), Binary(op, x, y), mode, m)
    {
      assert Means(l, x, mode, m);
      if Eval(mode, x, m).Some? {
        assert Means(r, y, mode, Eval(mode, x, m).value.1);
      }
      CombineMeansAt(op, l, r, x, y, mode, m);
    }
  }

  lemma CombineMeansAt(op: Opcode, l: Folded, r: Folded, x: Expr, y: Expr, mode: Mode, m: Memory)
    requires Foldable(op) && Means(l, x, mode, m)
    requires Eval(mode, x, m).Some? ==> Means(r, y, mode, Eval(mode, x, m).value.1)
    ensures Means(Combine(op, l, r), Binary(op, x, y), mode, m)
  {
    hide Calculate, Apply, Foldable, Eval;
    NotAnAssignment(op);
    EvalInfix(op, x, y, mode, m);
    EvalInfix(op, l.tree, r.tree, mode, m);
    if IsInt(l.tree) && IsInt(r.tree) {
      CalculateMeans(op, l.tree.literal.n, r.tree.literal.n, mode, m);
      EvalInteger(l.tree, mode, m);
      EvalInteger(r.tree, mode, m);
      assert l.fault == NoFault ==> Eval(mode, x, m) == Some((IntValue(l.tree.literal.n), m));
      assert l.fault == r.fault == NoFault ==>
        Eval(mode, Binary(op, x, y), m) == Eval(mode, Binary(op, l.tree, r.tree), m);
    }
  }

  lemma EvalInteger(e: Expr, mode: Mode, m: Memory)
    requires IsInt(e)
    ensures Eval(mode, e, m) == Some((IntValue(e.literal.n), m)) && e == Atomic(Integer(e.literal.n))
  {
  }

  /** The value of an infix node that is no assignment: left operand first. */
  lemma EvalInfix(op: Opcode, x: Expr, y: Expr, mode: Mode, m: Memory)
    requires !IsAssignment(op)
    ensures Eval(mode, Binary(op, x, y), m) ==
              match Eval(mode, x, m)
              case None => None
              case Some((v, m1)) =>
                match Eval(mode, y, m1)
                case None => None
                case Some((w, m2)) =>
                  match Apply(op, v, w)
                  case None => None
                  case Some(u) => Some((u, m2))
  {
    hide Apply, IsAssignment;
  }

  lemma NotAnAssignment(op: Opcode)
    requires Foldable(op)
    ensures !IsAssignment(op)
  {
  }

  /** Unless it reports an error or overflows, folding changes the value of no expression in any
      memory; and it reports a division by zero only where evaluation has no result in any. */
  lemma {:induction false} FoldMeans(e: Expr)
    requires e.Binary?
    ensures Sound(Fold(e), e)
    decreases e, 0
  {
    hide Sound;
    if Foldable(e.opcode) {
      OperandMeans(e.left);
      OperandMeans(e.right);
      CombineMeans(e.opcode, FoldOperand(e.left), FoldOperand(e.right), e.left, e.right);
    } else {
      Unfolded(e);
    }
  }

  lemma Unfolded(e: Expr)
    ensures Sound(Folded(e, NoFault, true), e)
  {
  }

  lemma {:induction false} OperandMeans(e: Expr)
    ensures Sound(FoldOperand(e), e)
    decreases e, 1
  {
    hide Sound;
    if e.Binary? { FoldMeans(e); } else { Unfolded(e); }
  }

  // ---------- Folding a whole tree, innermost nodes first ----------

  function FoldTree(e: Expr): Folded {
    match e
    case Unary(op, c) =>
      var f := FoldTree(c);
      Folded(Unary(op, f.tree), f.fault, f.ok)
    case Grouping(c) =>
      var f := FoldTree(c);
      Folded(Grouping(f.tree), f.fault, f.ok)
    case Ternary(c, t, f) =>
      var fc, ft, ff := FoldTree(c), FoldTree(t), FoldTree(f);
      Folded(Ternary(fc.tree, ft.tree, ff.tree), FirstFault(FirstFault(fc.fault, ft.fault), ff.fault), true)
    case Binary(op, l, r) =>
      var fl, fr := FoldTree(l), FoldTree(r);
      var f := Fold(Binary(op, fl.tree, fr.tree));
      f.(fault := FirstFault(FirstFault(fl.fault, fr.fault), f.fault))
    case _ => Folded(e, NoFault, true)
  }

  /** No arithmetic or comparison node has two integer literals left. */
  predicate NoRedex(e: Expr) {
    match e
    case Unary(_, c) => NoRedex(c)
    case Grouping(c) => NoRedex(c)
    case Ternary(c, t, f) => NoRedex(c) && NoRedex(t) && NoRedex(f)
    case Binary(op, l, r) => NoRedex(l) && NoRedex(r) && !(Foldable(op) && IsInt(l) && IsInt(r))
    case _ => true
  }

  /** A tree without redexes is a fixed point of the folder. */
  lemma {:induction false} NothingToFold(e: Expr)
    requires NoRedex(e) && e.Binary?
    ensures Fold(e) == Folded(e, NoFault, true)
    decreases e
  {
    if e.left.Binary? { NothingToFold(e.left); }
    if e.right.Binary? { NothingToFold(e.right); }
  }

  /** Folding above two folded operands is one calculation, or nothing. */
  lemma FoldAboveFolded(op: Opcode, l: Expr, r: Expr)
    requires NoRedex(l) && NoRedex(r)
    ensures Fold(Binary(op, l, r)) ==
              if Foldable(op) && IsInt(l) && IsInt(r) then Calculate(op, l.literal.n, r.literal.n)
              else Folded(Binary(op, l, r), NoFault, true)
    ensures Fold(Binary(op, l, r)).fault == NoFault ==> NoRedex(Fold(Binary(op, l, r)).tree)
  {
    hide NoRedex, Calculate, Foldable;
    OperandIsFolded(l);
    OperandIsFolded(r);
    if Foldable(op) && IsInt(l) && IsInt(r) {
      CalculatedHasNoRedex(op, l.literal.n, r.literal.n);
    } else {
      NodeHasNoRedex(op, l, r);
    }
  }

  lemma OperandIsFolded(e: Expr)
    requires NoRedex(e)
    ensures FoldOperand(e) == Folded(e, NoFault, true)
  {
    hide Fold;
    if e.Binary? { NothingToFold(e); }
  }

  lemma CalculatedHasNoRedex(op: Opcode, a: i32, b: i32)
    requires Foldable(op)
    ensures Calculate(op, a, b).fault == NoFault ==> NoRedex(Calculate(op, a, b).tree)
  {
    hide TruncDiv, TruncMod;
  }

  lemma NodeHasNoRedex(op: Opcode, l: Expr, r: Expr)
    requires NoRedex(l) && NoRedex(r) && !(Foldable(op) && IsInt(l) && IsInt(r))
    ensures NoRedex(Binary(op, l, r))
  {
  }

  /** A tree folded without a fault has no redex left, and folding it again changes nothing. */
  lemma {:induction false} FoldTreeIsComplete(e: Expr)
    ensures FoldTree(e).fault == NoFault ==> NoRedex(FoldTree(e).tree)
    decreases e
  {
    match e
    case Unary(_, c) => FoldTreeIsComplete(c);
    case Grouping(c) => FoldTreeIsComplete(c);
    case Ternary(c, t, f) =>
      FoldTreeIsComplete(c);
      FoldTreeIsComplete(t);
      FoldTreeIsComplete(f);
    case Binary(op, l, r) =>
      hide Fold;
      FoldTreeIsComplete(l);
      FoldTreeIsComplete(r);
      if FoldTree(e).fault == NoFault {
        FoldAboveFolded(op, FoldTree(l).tree, FoldTree(r).tree);
      }
    case _ =>
  }

  lemma {:induction false} FoldTreeOfFolded(e: Expr)
    requires NoRedex(e)
    ensures FoldTree(e).tree == e && FoldTree(e).fault == NoFault
    decreases e
  {
    match e
    case Unary(_, c) => FoldTreeOfFolded(c);
    case Grouping(c) => FoldTreeOfFolded(c);
    case Ternary(c, t, f) =>
      FoldTreeOfFolded(c);
      FoldTreeOfFolded(t);
      FoldTreeOfFolded(f);
    case Binary(op, l, r) =>
      FoldTreeOfFolded(l);
      FoldTreeOfFolded(r);
      NothingToFold(e);
    case _ =>
  }

  /** Folding a whole tree without a fault preserves its meaning and is idempotent. */
  lemma {:induction false} FoldTreeMeans(e: Expr)
    ensures FoldTree(e).fault == NoFault ==>
              && Same(FoldTree(e).tree, e)
              && FoldTree(FoldTree(e).tree).tree == FoldTree(e).tree
    decreases e
  {
    hide Same;
    if FoldTree(e).fault == NoFault {
      FoldTreeIsComplete(e);
      FoldTreeOfFolded(FoldTree(e).tree);
      match e
      case Unary(op, c) =>
        FoldTreeMeans(c);
        SameInside(op, FoldTree(c).tree, c);
      case Grouping(c) =>
        FoldTreeMeans(c);
        SameInside(Negate, FoldTree(c).tree, c);
      case Ternary(c, t, f) =>
        FoldTreeMeans(c);
        FoldTreeMeans(t);
        FoldTreeMeans(f);
        SameTernary(FoldTree(c).tree, c, FoldTree(t).tree, t, FoldTree(f).tree, f);
      case Binary(op, l, r) =>
        FoldTreeMeans(l);
        FoldTreeMeans(r);
        BinaryFoldMeans(op, l, r);
      case _ => SameRefl(e);
    }
  }

  /** Two expressions with the same meaning, in both senses, in every memory. */
  ghost predicate Same(a: Expr, b: Expr) {
    forall mode: Mode, m: Memory :: Eval(mode, a, m) == Eval(mode, b, m)
  }

  lemma SameRefl(e: Expr)
    ensures Same(e, e)
  {
  }

  lemma SameInside(op: UnaryOp, a: Expr, b: Expr)
    requires Same(a, b)
    ensures Same(Unary(op, a), Unary(op, b)) && Same(Grouping(a), Grouping(b))
  {
    forall mode: Mode, m: Memory
      ensures Eval(mode, Unary(op, a), m) == Eval(mode, Unary(op, b), m)
      ensures Eval(mode, Grouping(a), m) == Eval(mode, Grouping(b), m)
    {
      assert Eval(mode, a, m) == Eval(mode, b, m);
    }
  }

  lemma SameTernary(c: Expr, c1: Expr, t: Expr, t1: Expr, f: Expr, f1: Expr)
    requires Same(c, c1) && Same(t, t1) && Same(f, f1)
    ensures Same(Ternary(c, t, f), Ternary(c1, t1, f1))
  {
  }

  /** A target of an assignment is a literal, which folding leaves as it is. */
  lemma SameBinary(op: Opcode, l: Expr, l1: Expr, r: Expr, r1: Expr)
    requires Same(l, l1) && Same(r, r1)
    requires IsAssignment(op) ==> (l.Atomic? && l.literal.Identifier?) == (l1.Atomic? && l1.literal.Identifier?)
    requires IsAssignment(op) && l.Atomic? && l.literal.Identifier? ==> l == l1
    ensures Same(Binary(op, l, r), Binary(op, l1, r1))
  {
    hide Apply, IsAssignment;
    forall mode: Mode, m: Memory
      ensures Eval(mode, Binary(op, l, r), m) == Eval(mode, Binary(op, l1, r1), m)
    {
      assert Eval(mode, l, m) == Eval(mode, l1, m) && Eval(mode, r, m) == Eval(mode, r1, m);
      if Eval(mode, l, m).Some? {
        var m1 := Eval(mode, l, m).value.1;
        assert Eval(mode, r, m1) == Eval(mode, r1, m1);
      }
    }
  }

  lemma SameTransitive(a: Expr, b: Expr, c: Expr)
    requires Same(a, b) && Same(b, c)
    ensures Same(a, c)
  {
    forall mode: Mode, m: Memory
      ensures Eval(mode, a, m) == Eval(mode, c, m)
    {
      assert Eval(mode, a, m) == Eval(mode, b, m);
    }
  }

  lemma BinaryFoldMeans(op: Opcode, l: Expr, r: Expr)
    requires FoldTree(Binary(op, l, r)).fault == NoFault
    requires Same(FoldTree(l).tree, l) && Same(FoldTree(r).tree, r)
    ensures Same(FoldTree(Binary(op, l, r)).tree, Binary(op, l, r))
  {
    hide Same, Fold;
    var node := Binary(op, FoldTree(l).tree, FoldTree(r).tree);
    FoldMeans(node);
    SoundIsSame(Fold(node), node);
    TargetKept(l);
    SameBinary(op, FoldTree(l).tree, l, FoldTree(r).tree, r);
    SameTransitive(Fold(node).tree, node, Binary(op, l, r));
  }

  lemma SoundIsSame(f: Folded, e: Expr)
    requires Sound(f, e) && f.fault == NoFault
    ensures Same(f.tree, e)
  {
    forall mode: Mode, m: Memory
      ensures Eval(mode, f.tree, m) == Eval(mode, e, m)
    {
      assert Means(f, e, mode, m);
    }
  }

  /** Folding makes no identifier and removes none. */
  lemma {:induction false} TargetKept(e: Expr)
    ensures var f := FoldTree(e).tree;
            (f.Atomic? && f.literal.Identifier?) == (e.Atomic? && e.literal.Identifier?)
    ensures e.Atomic? ==> FoldTree(e).tree == e
  {
    if e.Binary? {
      FoldMakesNoName(Binary(e.opcode, FoldTree(e.left).tree, FoldTree(e.right).tree));
    }
  }

  lemma FoldMakesNoName(e: Expr)
    requires e.Binary?
    ensures !(Fold(e).tree.Atomic? && Fold(e).tree.literal.Identifier?)
  {
    hide TruncDiv, TruncMod, DivisionFaults;
  }

  // ---------- When folding rejects an expression ----------

  predicate NoTernary(e: Expr) {
    match e
    case Unary(_, c) => NoTernary(c)
    case Grouping(c) => NoTernary(c)
    case Binary(_, l, r) => NoTernary(l) && NoTernary(r)
    case Ternary(_, _, _) => false
    case _ => true
  }

  /** Folding reports a division by zero only in an expression whose generated code never comes to
      its end, in any memory; without a ternary, only in one that has no intended value either. */
  lemma {:induction false} RejectionIsRight(mode: Mode, e: Expr, m: Memory)
    requires FoldTree(e).fault == DivideByZero && (mode == AsEmitted || NoTernary(e))
    ensures Eval(mode, e, m) == None
    decreases e
  {
    hide Apply, Fold;
    match e
    case Unary(_, c) => RejectionIsRight(mode, c, m);
    case Grouping(c) => RejectionIsRight(mode, c, m);
    case Ternary(c, t, f) =>
      if Eval(AsEmitted, c, m).Some? {
        var m1 := Eval(AsEmitted, c, m).value.1;
        if FoldTree(c).fault == DivideByZero { RejectionIsRight(mode, c, m); }
        if FoldTree(t).fault == DivideByZero { RejectionIsRight(mode, t, m1); }
        if FoldTree(f).fault == DivideByZero && Eval(AsEmitted, t, m1).Some? {
          RejectionIsRight(mode, f, Eval(AsEmitted, t, m1).value.1);
        }
      }
    case Binary(op, l, r) =>
      if FoldTree(l).fault == DivideByZero {
        RejectionIsRight(mode, l, m);
      } else if FoldTree(r).fault == DivideByZero {
        RejectionIsRight(mode, r, m);
        if Eval(mode, l, m).Some? { RejectionIsRight(mode, r, Eval(mode, l, m).value.1); }
      } else {
        NodeIsRejected(mode, op, l, r, m);
      }
    case _ =>
  }

  /** The operands fold without a fault, so the division is at this node. */
  lemma NodeIsRejected(mode: Mode, op: Opcode, l: Expr, r: Expr, m: Memory)
    requires FoldTree(Binary(op, l, r)).fault == DivideByZero
    requires FoldTree(l).fault == NoFault && FoldTree(r).fault == NoFault
    ensures Eval(mode, Binary(op, l, r), m) == None
  {
    hide Fold, Same, Eval;
    var node := Binary(op, FoldTree(l).tree, FoldTree(r).tree);
    FoldMeans(node);
    assert Means(Fold(node), node, mode, m);
    FoldTreeMeans(l);
    FoldTreeMeans(r);
    TargetKept(l);
    SameBinary(op, FoldTree(l).tree, l, FoldTree(r).tree, r);
    SameAt(node, Binary(op, l, r), mode, m);
  }

  lemma SameAt(a: Expr, b: Expr, mode: Mode, m: Memory)
    requires Same(a, b)
    ensures Eval(mode, a, m) == Eval(mode, b, m)
  {
  }

  /** The number that operators alone make of integer literals; None where there is a name, another
      kind of node, a division by zero or a result that does not fit. */
  function Number(e: Expr): Option<i32> {
    match e
    case Atomic(Integer(n)) => Some(n)
    case Binary(op, l, r) =>
      if Foldable(op) && Number(l).Some? && Number(r).Some? then
        var n := Calculate(op, Number(l).value, Number(r).value);
        if n.fault == NoFault && IsInt(n.tree) then Some(n.tree.literal.n) else None
      else None
    case _ => None
  }

  /** An operator over two such numbers that divides by zero or leaves the 32 bits. */
  predicate Breaks(e: Expr) {
    && e.Binary? && Foldable(e.opcode) && Number(e.left).Some? && Number(e.right).Some?
    && var a, b := Number(e.left).value, Number(e.right).value;
       match e.opcode
       case Addition => !Fits(a + b)
       case Subtraction => !Fits(a - b)
       case Multiplication => !Fits(a * b)
       case Division => DivisionFaults(a, b)
       case Modulo => DivisionFaults(a, b)
       case _ => false
  }

  predicate SomeNodeBreaks(e: Expr) {
    Breaks(e) ||
    match e
    case Unary(_, c) => SomeNodeBreaks(c)
    case Grouping(c) => SomeNodeBreaks(c)
    case Ternary(c, t, f) => SomeNodeBreaks(c) || SomeNodeBreaks(t) || SomeNodeBreaks(f)
    case Binary(_, l, r) => SomeNodeBreaks(l) || SomeNodeBreaks(r)
    case _ => false
  }

  lemma CalculateFaults(op: Opcode, a: i32, b: i32)
    requires Foldable(op)
    ensures Calculate(op, a, b).fault != NoFault <==>
              match op
              case Addition => !Fits(a + b)
              case Subtraction => !Fits(a - b)
              case Multiplication => !Fits(a * b)
              case Division => DivisionFaults(a, b)
              case Modulo => DivisionFaults(a, b)
              case _ => false
  {
    if op == Division && b != 0 { QuotientFitsExactly(a, b); }
    if op == Modulo && b != 0 && !DivisionFaults(a, b) { RemainderFits(a, b); }
  }

  lemma QuotientFitsExactly(a: i32, b: i32)
    requires b != 0
    ensures Fits(TruncDiv(a, b)) <==> !DivisionFaults(a, b)
  {
  }

  lemma RemainderFits(a: i32, b: i32)
    requires b != 0
    ensures Fits(TruncMod(a, b))
  {
  }

  /** Folding a whole tree meets a fault if and only if somewhere in it operators over integer
      literals alone divide by zero or leave the 32 bits. */
  lemma {:induction false} FoldingFaultsExactly(e: Expr)
    ensures FoldTree(e).fault != NoFault <==> SomeNodeBreaks(e)
    ensures FoldTree(e).fault == NoFault ==>
              Number(e) == if IsInt(FoldTree(e).tree) then Some(FoldTree(e).tree.literal.n) else None
    decreases e
  {
    match e
    case Unary(_, c) => FoldingFaultsExactly(c);
    case Grouping(c) => FoldingFaultsExactly(c);
    case Ternary(c, t, f) =>
      FoldingFaultsExactly(c);
      FoldingFaultsExactly(t);
      FoldingFaultsExactly(f);
    case Binary(op, l, r) =>
      hide Fold, Calculate, Foldable, DivisionFaults;
      FoldingFaultsExactly(l);
      FoldingFaultsExactly(r);
      if FoldTree(l).fault == NoFault && FoldTree(r).fault == NoFault {
        NodeFaultsExactly(op, l, r);
      }
    case _ =>
  }

  lemma NodeFaultsExactly(op: Opcode, l: Expr, r: Expr)
    requires FoldTree(l).fault == FoldTree(r).fault == NoFault
    requires Number(l) == if IsInt(FoldTree(l).tree) then Some(FoldTree(l).tree.literal.n) else None
    requires Number(r) == if IsInt(FoldTree(r).tree) then Some(FoldTree(r).tree.literal.n) else None
    ensures var e := Binary(op, l, r);
            && (FoldTree(e).fault != NoFault <==> Breaks(e))
            && (FoldTree(e).fault == NoFault ==>
                  Number(e) == if IsInt(FoldTree(e).tree) then Some(FoldTree(e).tree.literal.n) else None)
  {
    hide Fold, Calculate, Foldable, Breaks, Number, NoRedex;
    FoldTreeIsComplete(l);
    FoldTreeIsComplete(r);
    FoldAboveFolded(op, FoldTree(l).tree, FoldTree(r).tree);
    NumberOfNode(op, l, r);
    if Foldable(op) && Number(l).Some? && Number(r).Some? {
      BreaksExactly(op, l, r);
    } else {
      NoNumberNoBreak(op, l, r);
    }
  }

  lemma NumberOfNode(op: Opcode, l: Expr, r: Expr)
    ensures Number(Binary(op, l, r)) ==
              if Foldable(op) && Number(l).Some? && Number(r).Some? then
                var n := Calculate(op, Number(l).value, Number(r).value);
                if n.fault == NoFault && IsInt(n.tree) then Some(n.tree.literal.n) else None
              else None
  {
  }

  lemma BreaksExactly(op: Opcode, l: Expr, r: Expr)
    requires Foldable(op) && Number(l).Some? && Number(r).Some?
    ensures Breaks(Binary(op, l, r)) <==> Calculate(op, Number(l).value, Number(r).value).fault != NoFault
  {
    hide Calculate, Number, DivisionFaults, Fits;
    CalculateFaults(op, Number(l).value, Number(r).value);
  }

  lemma NoNumberNoBreak(op: Opcode, l: Expr, r: Expr)
    requires !(Foldable(op) && Number(l).Some? && Number(r).Some?)
    ensures !Breaks(Binary(op, l, r))
  {
    hide Number;
  }

  /** true ? 1 : 1 / 0: folding rejects a division that evaluation would never come to. */
  lemma FoldRejectsWhatIsNeverReached(m: Memory)
    ensures var e := Ternary(Atomic(Boolean(true)), Atomic(Integer(1)),
                             Binary(Division, Atomic(Integer(1)), Atomic(Integer(0))));
            FoldTree(e).fault == DivideByZero && Eval(Intended, e, m) == Some((IntValue(1), m))
  {
    var q := Binary(Division, Atomic(Integer(1)), Atomic(Integer(0)));
    assert FoldTree(Atomic(Integer(1))) == Folded(Atomic(Integer(1)), NoFault, true);
    assert FoldTree(Atomic(Integer(0))) == Folded(Atomic(Integer(0)), NoFault, true);
    assert FoldTree(q).fault == DivideByZero;
    assert Eval(Intended, Atomic(Boolean(true)), m) == Some((BoolValue(true), m));
    assert Eval(Intended, Atomic(Integer(1)), m) == Some((IntValue(1), m));
  }
}
