/** The conversion of integers to 32-bit floats, as real numbers. */
module Floats {
  import Ast

  /** The weight of the last of 24 significant bits. */
  function Quantum(n: nat): (q: nat)
    ensures q > 0
  {
    if n < 0x100_0000 then 1 else 2 * Quantum(n / 2)
  }

  /** The nearest 32-bit float to an integer; the even one of two equally near. */
  function Rounded(n: nat): nat {
    var q := Quantum(n);
    var down, left := n / q, n % q;
    q * (if 2 * left > q || (2 * left == q && down % 2 == 1) then down + 1 else down)
  }

  function IntAsFloat(n: Ast.i32): real {
    var magnitude: int := if n < 0 then -(n as int) else n;
    if n < 0 then -(Rounded(magnitude) as real) else Rounded(magnitude) as real
  }

  // ---------- The nearest float ----------

  function Power2(k: nat): (p: nat)
    ensures p > 0
  {
    if k == 0 then 1 else 2 * Power2(k - 1)
  }

  /** The floats among the whole numbers: 24 significant bits at most. */
  predicate IsFloat(f: nat, m: nat, k: nat) {
    f == m * Power2(k) && m <= 0x100_0000
  }

  function Distance(a: int, b: int): nat {
    if a < b then b - a else a - b
  }

  /** The weight is 1 or a power of two with 24 significant bits of n above it. */
  lemma {:induction false} QuantumIsWeight(n: nat) returns (k: nat)
    ensures Quantum(n) == Power2(k) && n < 0x100_0000 * Power2(k) && (k > 0 ==> 0x80_0000 * Power2(k) <= n)
  {
    if n < 0x100_0000 {
      k := 0;
    } else {
      k := QuantumIsWeight(n / 2);
      k := k + 1;
    }
  }

  /** The quotient by the weight, rounded: down or up to the nearer, to the even one if equally near. */
  lemma RoundedIsMultiple(n: nat) returns (q: nat, d: nat, k: nat)
    ensures q == Power2(k) && Rounded(n) == q * d && d <= 0x100_0000 && (k > 0 ==> 0x80_0000 * q <= n)
    ensures (d == n / q && 2 * (n % q) <= q) || (d == n / q + 1 && 2 * (n % q) >= q)
    ensures 2 * (n % q) == q ==> d % 2 == 0
  {
    k := QuantumIsWeight(n);
    q := Power2(k);
    QuotientBelow(n, q, 0x100_0000);
    var down, left := n / q, n % q;
    d := if 2 * left > q || (2 * left == q && down % 2 == 1) then down + 1 else down;
  }

  lemma QuotientBelow(n: nat, q: nat, bound: nat)
    requires q > 0 && n < bound * q
    ensures n / q < bound
  {
  }

  lemma Multiply(a: nat, b: nat, q: nat)
    requires a <= b
    ensures a * q <= b * q
  {
  }

  /** What an integer is rounded to is a float. */
  lemma RoundedIsFloat(n: nat) returns (m: nat, k: nat)
    ensures IsFloat(Rounded(n), m, k)
  {
    var q;
    q, m, k := RoundedIsMultiple(n);
  }

  /** And no float is nearer to it. */
  lemma RoundedIsNearest(n: nat, f: nat, m: nat, j: nat)
    requires IsFloat(f, m, j)
    ensures Distance(Rounded(n), n) <= Distance(f, n)
  {
    var q, d, k := RoundedIsMultiple(n);
    var down, left := n / q, n % q;
    RoundedIsClose(n, q, down, left, d);
    if j >= k {
      var e := WeightDivides(m, k, j);
      MultiplesAreFarther(n, q, down, left, e);
    } else {
      SmallFloatsAreBelow(m, j, k);
      QuotientAbove(n, q, 0x80_0000);
      Multiply(0x80_0000, down, q);
    }
  }

  lemma RoundedIsClose(n: nat, q: nat, down: nat, left: nat, d: nat)
    requires q > 0 && down == n / q && left == n % q
    requires (d == down && 2 * left <= q) || (d == down + 1 && 2 * left >= q)
    ensures n == q * down + left && left < q
    ensures Distance(q * d, n) <= left && Distance(q * d, n) <= q - left
  {
    Distribute(q, down);
  }

  lemma Distribute(q: nat, down: nat)
    ensures q * (down + 1) == q * down + q
  {
  }

  lemma QuotientAbove(n: nat, q: nat, bound: nat)
    requires q > 0 && bound * q <= n
    ensures bound <= n / q
  {
    var down := n / q;
    assert n == q * down + n % q;
    Distribute(q, down);
    if bound > down { Multiply(down + 1, bound, q); }
  }

  lemma {:induction false} WeightDivides(m: nat, k: nat, j: nat) returns (e: nat)
    requires j >= k
    ensures m * Power2(j) == Power2(k) * e
    decreases j
  {
    if j == k {
      e := m;
    } else {
      e := WeightDivides(2 * m, k, j - 1);
      assert m * Power2(j) == 2 * m * Power2(j - 1);
    }
  }

  lemma MultiplesAreFarther(n: nat, q: nat, down: nat, left: nat, e: nat)
    requires n == q * down + left && left < q
    ensures Distance(q * e, n) >= left || Distance(q * e, n) >= q - left
  {
    if e <= down {
      Multiply(e, down, q);
    } else {
      Multiply(down + 1, e, q);
      assert (down + 1) * q == q * down + q;
    }
  }

  lemma {:induction false} SmallFloatsAreBelow(m: nat, j: nat, k: nat)
    requires j < k && m <= 0x100_0000
    ensures m * Power2(j) <= 0x80_0000 * Power2(k)
    decreases k
  {
    if j == k - 1 {
      Multiply(m, 0x100_0000, Power2(j));
      assert 0x100_0000 * Power2(j) == 0x80_0000 * (2 * Power2(j));
    } else {
      SmallFloatsAreBelow(m, j, k - 1);
    }
  }
}
