/** Integer arithmetic shared by the kernels: quotient and remainder of a product,
    powers of two, and the rounding helpers of include/alpaka/utility.hpp. */
module Arith {

  /** Quotient and remainder are determined by a product decomposition. */
  lemma DivModUnique(a: int, m: int, q: int, r: int)
    requires 0 <= r < m && a == m * q + r
    ensures a / m == q && a % m == r
  {
    var d := a / m - q;
    assert a == m * (a / m) + a % m;
    assert m * d == r - a % m by { assert m * d == m * (a / m) - m * q; }
    if d >= 1 {
      MulMono(1, d, m);
    } else if d <= -1 {
      MulMono(d, -1, m);
    }
  }

  lemma MulMono(a: int, b: int, m: int)
    requires a <= b && 0 <= m
    ensures a * m <= b * m && m * a <= m * b
  {
    assert (b - a) * m >= 0;
  }

  lemma MulStrict(a: int, b: int, m: int)
    requires a < b && 0 < m
    ensures a * m < b * m && m * a < m * b
    ensures a * m + m <= b * m
  {
    MulMono(a + 1, b, m);
    assert (a + 1) * m == a * m + m;
  }

  lemma Distribute(a: int, b: int, c: int)
    ensures a * (b + c) == a * b + a * c
  {
  }

  lemma Associate(a: int, b: int, c: int)
    ensures a * (b * c) == (a * b) * c
  {
  }

  lemma MulNonNeg(a: int, b: int)
    requires 0 <= a && 0 <= b
    ensures 0 <= a * b
  {
  }

  /** Reducing a factor first makes no difference to the remainder of a product. */
  lemma ReducedFactor(a: int, b: int, m: int)
    requires m > 0
    ensures a % m * b % m == a * b % m && b * (a % m) % m == a * b % m
  {
    var x := a % m * b;
    assert a * b == m * (a / m * b) + x by {
      assert a == m * (a / m) + a % m;
      Associate(m, a / m, b);
    }
    assert b * (a % m) == x;
    Distribute(m, a / m * b, x / m);
    DivModUnique(a * b, m, a / m * b + x / m, x % m);
  }

  lemma DivNonNeg(a: nat, m: nat)
    requires 0 < m
    ensures 0 <= a / m <= a
  {
    var q := a / m;
    assert a == m * q + a % m;
    if q < 0 {
      MulMono(q, -1, m);
    } else {
      MulMono(1, m, q);
    }
  }

  lemma Unwrapped(x: nat, modulus: nat)
    requires x < modulus
    ensures x % modulus == x
  {
    DivModUnique(x, modulus, 0, x);
  }

  lemma MultipleAtLeast(q: nat, m: nat)
    requires 0 < m && 0 < q && q % m == 0
    ensures m <= q
  {
  }

  predicate IsPow2(n: nat) {
    n == 1 || (n > 1 && n % 2 == 0 && IsPow2(n / 2))
  }

  lemma DoublePow2(n: nat)
    requires IsPow2(n)
    ensures IsPow2(2 * n)
  {
  }

  /** A smaller power of two divides a larger one, and the quotient is one as well. */
  lemma {:induction false} Pow2Divides(a: nat, b: nat)
    requires IsPow2(a) && IsPow2(b) && a <= b
    ensures b % a == 0 && IsPow2(b / a) && a * (b / a) == b
    decreases b
  {
    if a == b {
      DivModUnique(b, a, 1, 0);
    } else if a == 1 {
    } else {
      Pow2Divides(a / 2, b / 2);
      var q := (b / 2) / (a / 2);
      assert b == a * q by { assert (a / 2) * q == b / 2; }
      DivModUnique(b, a, q, 0);
    }
  }

  /** include/alpaka/utility.hpp: the ceiling of a / b. */
  function DivCeil(a: nat, b: nat): (q: nat)
    requires b > 0
    ensures (q - 1) * b < a <= q * b || (a == 0 && q == 0)
  {
    var q := (a + b - 1) / b;
    assert a + b - 1 == b * q + (a + b - 1) % b;
    assert (q - 1) * b == b * q - b;
    q
  }

  /** More than one chunk means strictly fewer chunks than elements: the recursion over
      block sums terminates. */
  lemma DivCeilShrinks(a: nat, b: nat)
    requires b >= 2 && DivCeil(a, b) > 1
    ensures DivCeil(a, b) < a
  {
    var q := DivCeil(a, b);
    MulMono(2, b, q - 1);
    assert (q - 1) * b < a;
  }

  lemma DivCeilUnique(a: nat, b: nat, q: nat)
    requires b > 0 && a <= q * b && (q == 0 || (q - 1) * b < a)
    ensures DivCeil(a, b) == q
  {
    var p := DivCeil(a, b);
    if p < q {
      MulMono(p, q - 1, b);
    } else if q < p {
      MulMono(q, p - 1, b);
    }
  }

  /** With the sum in the numerator taken modulo the type's size the result is the ceiling exactly
      if that sum fits the type. Types narrower than 32 bits are promoted and do not wrap here. */
  lemma DivCeilFitsExactly(a: nat, b: nat, modulus: nat)
    requires 0 < b < modulus && a < modulus && modulus >= 0x1_0000_0000
    ensures (a + b - 1) % modulus / b == DivCeil(a, b) <==> a + b - 1 < modulus
  {
    if a + b - 1 < modulus {
      DivModUnique(a + b - 1, modulus, 0, a + b - 1);
    } else {
      var x := a + b - 1 - modulus;
      DivModUnique(a + b - 1, modulus, 1, x);
      assert x == b * (x / b) + x % b;
      if x / b >= DivCeil(a, b) {
        MulMono(DivCeil(a, b), x / b, b);
      }
    }
  }

  lemma QuotientBounds(a: nat, b: nat)
    requires b > 0
    ensures a / b * b <= a < a / b * b + b && (a >= b <==> a / b >= 1)
  {
    assert a == b * (a / b) + a % b;
    DivNonNeg(a, b);
    if a / b >= 1 {
      MulMono(1, a / b, b);
    }
  }

  /** include/alpaka/utility.hpp: max(a / b, 1). */
  function DivExZero(a: nat, b: nat): (r: nat)
    requires b > 0
    ensures a >= b ==> r * b <= a < r * b + b
    ensures a < b ==> r == 1
  {
    QuotientBounds(a, b);
    if a / b > 1 then a / b else 1
  }

  /** The indices lo, ..., hi - 1, as handed out to the workers of a phase. */
  function Range(lo: nat, hi: nat): (r: set<nat>)
    ensures forall j: nat :: j in r <==> lo <= j < hi
    decreases hi - lo
  {
    if lo >= hi then {} else {lo} + Range(lo + 1, hi)
  }
}
