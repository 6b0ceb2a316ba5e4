/** What the operators compute, stated without the functions that compute it: for the meaning of
    expressions and for the folder. */
module Arithmetic {
  import opened Ast
  import opened Folding

  // ---------- Whole numbers ----------

  /** Truncating division: the remainder is smaller than the divisor and has the sign of the dividend. */
  predicate Divides(a: int, b: int, q: int, r: int) {
    && a == q * b + r
    && (if b > 0 then -b < r < b else b < r < -b)
    && (r == 0 || (r > 0 <==> a > 0))
  }

  /** Of all quotients and remainders exactly one pair truncates, and it is the computed one. */
  lemma QuotientAndRemainder(a: int, b: int, q: int, r: int)
    requires b != 0
    ensures Divides(a, b, q, r) <==> q == TruncDiv(a, b) && r == TruncMod(a, b)
  {
    TruncDivDivides(a, b);
    if Divides(a, b, q, r) { DividesOnce(a, b, q, r, TruncDiv(a, b), TruncMod(a, b)); }
  }

  lemma TruncDivDivides(a: int, b: int)
    requires b != 0
    ensures Divides(a, b, TruncDiv(a, b), TruncMod(a, b))
  {
    var n := if a >= 0 then a else -a;
    var p := n / b;
    Euclid(n, b);
    Products(b, p);
    TakesSign(a, b, TruncDiv(a, b), if a >= 0 then n % b else -(n % b), p * b, TruncDiv(a, b) * b);
  }

  lemma Euclid(n: int, b: int)
    requires b != 0
    ensures n == n / b * b + n % b && 0 <= n % b < (if b > 0 then b else -b)
  {
  }

  lemma Products(b: int, p: int)
    ensures b * p == p * b && b * -p == -(p * b) && -p * b == -(p * b)
  {
  }

  /** With the product of quotient and divisor known there is only linear arithmetic left. */
  lemma TakesSign(a: int, b: int, q: int, r: int, product: int, signed: int)
    requires b != 0 && signed == q * b && (if a >= 0 then signed == product else signed == -product)
    requires if a >= 0 then a == product + r else -a == product - r
    requires if a >= 0 then 0 <= r < (if b > 0 then b else -b) else 0 <= -r < (if b > 0 then b else -b)
    ensures Divides(a, b, q, r)
  {
  }

  lemma DividesOnce(a: int, b: int, q: int, r: int, p: int, s: int)
    requires b != 0 && Divides(a, b, q, r) && Divides(a, b, p, s)
    ensures q == p && r == s
  {
    RemaindersAreClose(a, b, q, r, p, s);
    MultiplesAreFar(q - p, b);
  }

  lemma RemaindersAreClose(a: int, b: int, q: int, r: int, p: int, s: int)
    requires b != 0 && Divides(a, b, q, r) && Divides(a, b, p, s)
    ensures (q - p) * b == s - r && (if b > 0 then -b < s - r < b else b < s - r < -b)
  {
    assert (q - p) * b == q * b - p * b;
  }

  lemma MultiplesAreFar(d: int, b: int)
    requires b != 0
    ensures d == 0 || (if b > 0 then d * b >= b || d * b <= -b else d * b >= -b || d * b <= b)
  {
    if d != 0 && b > 0 {
      PositiveMultiple(if d > 0 then d else -d, b);
    } else if d != 0 {
      PositiveMultiple(if d > 0 then d else -d, -b);
    }
  }

  lemma PositiveMultiple(d: int, b: int)
    requires d > 0 && b > 0
    ensures d * b >= b
  {
  }

  predicate DifferBy(n: int, w: int, k: int) {
    n == w + k * 0x1_0000_0000
  }

  /** Wrapping gives the one number of 32 bits that differs by a multiple of 2^32. */
  lemma WrapIsCongruent(n: int, w: i32)
    ensures w == Wrap(n) <==> exists k: int :: DifferBy(n, w, k)
  {
    var k := (n + 0x8000_0000) / 0x1_0000_0000;
    assert DifferBy(n, Wrap(n), k);
    if j: int :| DifferBy(n, w, j) {
      assert w - Wrap(n) == (k - j) * 0x1_0000_0000;
    }
  }

  // ---------- The meaning of the operators ----------

  /** The 32-bit number that n wraps around to. */
  ghost predicate WrapsTo(v: Option<Value>, n: int) {
    v.Some? && v.value.IntValue? && exists k: int :: DifferBy(n, v.value.n, k)
  }

  lemma WrappedWrapsTo(n: int)
    ensures WrapsTo(Some(IntValue(Wrap(n))), n)
  {
    WrapIsCongruent(n, Wrap(n));
  }

  /** The arithmetic operators on integers. */
  lemma ArithmeticMeans(a: i32, b: i32)
    ensures WrapsTo(Apply(Addition, IntValue(a), IntValue(b)), a + b)
    ensures WrapsTo(Apply(Subtraction, IntValue(a), IntValue(b)), a - b)
    ensures WrapsTo(Apply(Multiplication, IntValue(a), IntValue(b)), a * b)
  {
    WrappedWrapsTo(a + b);
    WrappedWrapsTo(a - b);
    WrappedWrapsTo(a * b);
  }

  /** Division and remainder have a value exactly if the divisor is not zero and the quotient fits. */
  lemma DivisionMeans(a: i32, b: i32, q: int, r: int)
    requires b != 0 ==> Divides(a, b, q, r)
    ensures Apply(Division, IntValue(a), IntValue(b)) ==
              if b != 0 && q < 0x8000_0000 then Some(IntValue(q)) else None
    ensures Apply(Modulo, IntValue(a), IntValue(b)) ==
              if b != 0 && q < 0x8000_0000 then Some(IntValue(r)) else None
    ensures b != 0 ==> -0x8000_0000 <= q <= 0x8000_0000 && -0x8000_0000 < r < 0x8000_0000
  {
    hide Divides, TruncDiv, TruncMod, Wrap;
    if b != 0 {
      QuotientAndRemainder(a, b, q, r);
      QuotientIsSmall(a, b, q, r);
      if q < 0x8000_0000 {
        WrapFits(q);
        WrapFits(r);
      }
    }
  }

  lemma QuotientIsSmall(a: i32, b: i32, q: int, r: int)
    requires b != 0 && Divides(a, b, q, r)
    ensures -0x8000_0000 <= q <= 0x8000_0000 && -0x8000_0000 < r < 0x8000_0000
    ensures q == 0x8000_0000 <==> DivisionFaults(a, b)
  {
  }

  /** The comparisons of integers, and the operators on booleans. */
  lemma ComparisonMeans(a: i32, b: i32, x: bool, y: bool)
    ensures Apply(CompareEqual, IntValue(a), IntValue(b)) == Some(BoolValue(a == b))
    ensures Apply(CompareNotEqual, IntValue(a), IntValue(b)) == Some(BoolValue(a != b))
    ensures Apply(CompareLess, IntValue(a), IntValue(b)) == Some(BoolValue(a < b))
    ensures Apply(CompareLessEqual, IntValue(a), IntValue(b)) == Some(BoolValue(a <= b))
    ensures Apply(CompareGreater, IntValue(a), IntValue(b)) == Some(BoolValue(a > b))
    ensures Apply(CompareGreaterEqual, IntValue(a), IntValue(b)) == Some(BoolValue(a >= b))
    ensures Apply(CompareEqual, BoolValue(x), BoolValue(y)) == Some(BoolValue(x <==> y))
    ensures Apply(CompareNotEqual, BoolValue(x), BoolValue(y)) == Some(BoolValue(x <==> !y))
    ensures Apply(And, BoolValue(x), BoolValue(y)) == Some(BoolValue(x && y))
    ensures Apply(Or, BoolValue(x), BoolValue(y)) == Some(BoolValue(x || y))
  {
  }

  /** A compound assignment is the assignment of its operator's result, if its right side leaves
      memory alone. */
  lemma CompoundMeans(mode: Mode, x: string, e: Expr, m: Memory, compound: Opcode, op: Opcode)
    requires (compound, op) in {(VarAdditionAssign, Addition), (VarSubtractionAssign, Subtraction),
                                (VarMultiplicationAssign, Multiplication), (VarDivisionAssign, Division),
                                (VarModuloAssign, Modulo)}
    requires Eval(mode, e, m).Some? ==> Eval(mode, e, m).value.1 == m
    ensures Eval(mode, Binary(compound, Atomic(Identifier(x)), e), m)
            == Eval(mode, Binary(VarAssign, Atomic(Identifier(x)), Binary(op, Atomic(Identifier(x)), e)), m)
  {
    hide Eval;
    CompoundIs(mode, x, e, m, compound, op);
  }

  lemma CompoundIs(mode: Mode, x: string, e: Expr, m: Memory, compound: Opcode, op: Opcode)
    requires IsAssignment(compound) && CompoundOp(compound) == Some(op) && !IsAssignment(op)
    requires Eval(mode, e, m).Some? ==> Eval(mode, e, m).value.1 == m
    ensures Eval(mode, Binary(compound, Atomic(Identifier(x)), e), m)
            == Eval(mode, Binary(VarAssign, Atomic(Identifier(x)), Binary(op, Atomic(Identifier(x)), e)), m)
  {
    hide Apply;
    var target := Atomic(Identifier(x));
    var infix := Binary(op, target, e);
    assert Eval(mode, target, m) == if x in m then Some((m[x], m)) else None;
    assert Eval(mode, infix, m) ==
      if x in m && Eval(mode, e, m).Some? && Apply(op, m[x], Eval(mode, e, m).value.0).Some?
      then Some((Apply(op, m[x], Eval(mode, e, m).value.0).value, m)) else None;
  }

  /** ++ and -- go to the next number, around the end of the range. */
  lemma StepMeans(n: i32)
    ensures StepValue(Increment, IntValue(n)) == Some(IntValue(if n == 0x7fff_ffff then -0x8000_0000 else n + 1))
    ensures StepValue(Decrement, IntValue(n)) == Some(IntValue(if n == -0x8000_0000 then 0x7fff_ffff else n - 1))
  {
  }

  // ---------- The folder ----------

  function Infix(op: Opcode, a: i32, b: i32): Expr {
    Binary(op, Atomic(Integer(a)), Atomic(Integer(b)))
  }

  /** Folded to a number, if that is one of 32 bits. */
  predicate FoldsTo(op: Opcode, a: i32, b: i32, n: int) {
    if -0x8000_0000 <= n < 0x8000_0000 then Fold(Infix(op, a, b)) == Folded(Atomic(Integer(n)), NoFault, true)
    else Fold(Infix(op, a, b)) == Folded(Infix(op, a, b), Overflow, false)
  }

  predicate FoldsToTruth(op: Opcode, a: i32, b: i32, t: bool) {
    Fold(Infix(op, a, b)) == Folded(Atomic(Boolean(t)), NoFault, true)
  }

  /** What the folder makes of two integer literals. */
  lemma FolderComputes(a: i32, b: i32)
    ensures FoldsTo(Addition, a, b, a + b) && FoldsTo(Subtraction, a, b, a - b) && FoldsTo(Multiplication, a, b, a * b)
    ensures FoldsToTruth(CompareEqual, a, b, a == b) && FoldsToTruth(CompareNotEqual, a, b, a != b)
    ensures FoldsToTruth(CompareLess, a, b, a < b) && FoldsToTruth(CompareLessEqual, a, b, a <= b)
    ensures FoldsToTruth(CompareGreater, a, b, a > b) && FoldsToTruth(CompareGreaterEqual, a, b, a >= b)
  {
    hide Fold;
    FoldIs(Addition, a, b);
    FoldIs(Subtraction, a, b);
    FoldIs(Multiplication, a, b);
    FoldIs(CompareEqual, a, b);
    FoldIs(CompareNotEqual, a, b);
    FoldIs(CompareLess, a, b);
    FoldIs(CompareLessEqual, a, b);
    FoldIs(CompareGreater, a, b);
    FoldIs(CompareGreaterEqual, a, b);
  }

  /** The operators that the folder leaves alone, with everything below them. */
  lemma FolderLeaves(op: Opcode, l: Expr, r: Expr)
    requires op in {And, Or, VarAssign, VarAdditionAssign, VarSubtractionAssign,
                    VarMultiplicationAssign, VarDivisionAssign, VarModuloAssign}
    ensures Fold(Binary(op, l, r)) == Folded(Binary(op, l, r), NoFault, true)
  {
  }

  /** Division folds to the truncated quotient and its remainder; by zero it is rejected. */
  lemma FolderDivides(a: i32, b: i32, q: int, r: int)
    requires b != 0 ==> Divides(a, b, q, r)
    ensures b == 0 ==>
              && Fold(Infix(Division, a, b)) == Folded(Infix(Division, a, b), DivideByZero, false)
              && Fold(Infix(Modulo, a, b)) == Folded(Infix(Modulo, a, b), DivideByZero, false)
    ensures b != 0 ==> FoldsTo(Division, a, b, q)
    ensures b != 0 && q < 0x8000_0000 ==> FoldsTo(Modulo, a, b, r)
    ensures b != 0 && q >= 0x8000_0000 ==> Fold(Infix(Modulo, a, b)) == Folded(Infix(Modulo, a, b), Overflow, false)
  {
    FoldIs(Division, a, b);
    FoldIs(Modulo, a, b);
    hide Fold;
    if b != 0 {
      QuotientAndRemainder(a, b, q, r);
      QuotientIsSmall(a, b, q, r);
    }
  }

  lemma FoldIs(op: Opcode, a: i32, b: i32)
    requires Foldable(op)
    ensures var f := Calculate(op, a, b); Fold(Infix(op, a, b)) == f
  {
    hide Calculate;
    FaultIs(op, a, b);
  }

  lemma FaultIs(op: Opcode, a: i32, b: i32)
    requires Foldable(op)
    ensures FirstFault(FirstFault(NoFault, NoFault), Calculate(op, a, b).fault) == Calculate(op, a, b).fault
  {
  }
}
