/** Integer powers and powers of two, over an index type that is either unbounded or
    wraps around at `modulus`. */
module IntegerMath {
  import opened Arith

  datatype IntType = Unbounded | Unsigned(modulus: nat) {
    predicate Valid() {
      Unsigned? ==> modulus >= 0x1_0000_0000
    }

    function Wrap(x: int): (r: int)
      requires Valid()
      ensures Unsigned? ==> 0 <= r < modulus
    {
      if Unsigned? then x % modulus else x
    }

    predicate Holds(x: int) {
      Unsigned? ==> 0 <= x < modulus
    }
  }

  /** Every width from 32 bits on is an index type. */
  lemma EveryWidth(modulus: nat)
    requires modulus >= 0x1_0000_0000
    ensures Unbounded.Valid() && Unsigned(modulus).Valid()
    ensures forall x: int :: Unsigned(modulus).Wrap(x) == x % modulus && Unbounded.Wrap(x) == x
    ensures forall x: int :: (Unsigned(modulus).Holds(x) <==> 0 <= x < modulus) && Unbounded.Holds(x)
  {
  }

  lemma WrapSmall(t: IntType, x: int)
    requires t.Valid() && t.Holds(x)
    ensures t.Wrap(x) == x
  {
  }

  /** Wrapping early or late makes no difference to a product. */
  lemma WrapProduct(t: IntType, a: int, b: int)
    requires t.Valid()
    ensures t.Wrap(t.Wrap(a) * b) == t.Wrap(a * b) == t.Wrap(a * t.Wrap(b))
  {
    if t.Unsigned? {
      ReducedFactor(a, b, t.modulus);
      ReducedFactor(b, a, t.modulus);
      assert b * a == a * b;
    }
  }

  function Pow(b: int, e: nat): int {
    if e == 0 then 1 else b * Pow(b, e - 1)
  }

  lemma FirstPow(b: int)
    ensures Pow(b, 1) == b
  {
  }

  lemma {:induction false} PowAdd(b: int, e: nat, f: nat)
    ensures Pow(b, e + f) == Pow(b, e) * Pow(b, f)
    decreases e
  {
    if e > 0 {
      PowAdd(b, e - 1, f);
      Associate(b, Pow(b, e - 1), Pow(b, f));
    }
  }

  lemma {:induction false} PowMono(a: nat, b: nat, e: nat)
    requires a <= b
    ensures 0 <= Pow(a, e) <= Pow(b, e)
  {
    if e > 0 {
      PowMono(a, b, e - 1);
      MulMono(a, b, Pow(a, e - 1));
      MulMono(Pow(a, e - 1), Pow(b, e - 1), b);
      MulNonNeg(a, Pow(a, e - 1));
    }
  }

  lemma {:induction false} PowGrows(a: nat, e: nat)
    requires a >= 1 && e >= 1
    ensures a <= Pow(a, e) && (e >= 2 ==> a * a <= Pow(a, e))
  {
    if e > 1 {
      PowGrows(a, e - 1);
      MulMono(a, Pow(a, e - 1), a);
      MulMono(1, a, a);
    } else {
      assert Pow(a, 0) == 1;
    }
  }

  /** Repeated multiplication. For a negative exponent no multiplication takes place. */
  method IntPow(t: IntType, base: int, n: int) returns (r: int)
    requires t.Valid() && t.Holds(base) && t.Holds(n)
    ensures r == IntPowValue(t, base, n)
  {
    WrapSmall(t, 1);
    if n == 0 {
      return 1;
    }
    r := base;
    FirstPower(t, base);
    var i := 1;
    while i < n
      invariant if n > 0 then 1 <= i <= n && r == IntPowValue(t, base, i) else i == 1 && r == base
    {
      NextPower(t, base, i);
      r := t.Wrap(r * base);
      i := i + 1;
    }
  }

  lemma FirstPower(t: IntType, base: int)
    requires t.Valid() && t.Holds(base)
    ensures IntPowValue(t, base, 1) == base
  {
    WrapSmall(t, base);
    assert Pow(base, 1) == base * Pow(base, 0);
  }

  lemma NextPower(t: IntType, base: int, i: nat)
    requires t.Valid()
    ensures t.Wrap(IntPowValue(t, base, i) * base) == IntPowValue(t, base, i + 1)
  {
    WrapProduct(t, Pow(base, i), base);
    assert Pow(base, i + 1) == Pow(base, i) * base;
  }

  function IntPowValue(t: IntType, base: int, n: int): int
    requires t.Valid()
  {
    if n >= 0 then t.Wrap(Pow(base, n)) else base
  }

  /** Half of the exponent, rounded towards zero as the division of the language does. */
  function Half(e: int): int {
    if e >= 0 then e / 2 else -(-e / 2)
  }

  function Abs(e: int): nat {
    if e >= 0 then e else -e
  }

  /** Recursive squaring. */
  function Ipow(t: IntType, base: int, exponent: int): int
    requires t.Valid()
    decreases Abs(exponent)
  {
    if exponent == 0 then 1
    else
      var half := Ipow(t, base, Half(exponent));
      var square := t.Wrap(half * half);
      if exponent % 2 != 0 then t.Wrap(square * base) else square
  }

  /** The recursion squares its way to the power with the absolute value of the exponent. */
  lemma {:induction false} IpowIsPow(t: IntType, base: int, exponent: int)
    requires t.Valid()
    ensures Ipow(t, base, exponent) == t.Wrap(Pow(base, Abs(exponent)))
    decreases Abs(exponent)
  {
    WrapSmall(t, 1);
    if exponent != 0 {
      var h := Abs(Half(exponent));
      IpowIsPow(t, base, Half(exponent));
      WrappedSquare(t, base, h);
      if exponent % 2 != 0 {
        assert Abs(exponent) == 2 * h + 1;
        NextPower(t, base, 2 * h);
      } else {
        assert Abs(exponent) == 2 * h;
      }
    }
  }

  lemma WrappedSquare(t: IntType, base: int, h: nat)
    requires t.Valid()
    ensures t.Wrap(t.Wrap(Pow(base, h)) * t.Wrap(Pow(base, h))) == IntPowValue(t, base, 2 * h)
  {
    PowAdd(base, h, h);
    WrapProduct(t, Pow(base, h), t.Wrap(Pow(base, h)));
    WrapProduct(t, Pow(base, h), Pow(base, h));
  }

  /** Fast and slow power agree, wrap-around included, for all exponents that are not negative. */
  lemma PowersAgree(t: IntType, base: int, n: nat)
    requires t.Valid()
    ensures Ipow(t, base, n) == IntPowValue(t, base, n)
  {
    IpowIsPow(t, base, n);
  }

  lemma {:induction false} PowIsOne(b: int, k: nat)
    requires k >= 1
    ensures Pow(b, k) == 1 <==> b == 1 || (b == -1 && k % 2 == 0)
    ensures b == -1 ==> Pow(b, k) == if k % 2 == 0 then 1 else -1
  {
    assert Pow(b, 0) == 1;
    if k > 1 {
      PowIsOne(b, k - 1);
    }
    if Pow(b, k) == 1 {
      Unit(b, Pow(b, k - 1));
    }
  }

  lemma Unit(a: int, b: int)
    requires a * b == 1
    ensures a == 1 || a == -1
  {
  }

  /** On signed values the two part for negative exponents, with exactly these exceptions. */
  lemma PowersAgreeExactly(base: int, n: int)
    ensures Ipow(Unbounded, base, n) == IntPowValue(Unbounded, base, n) <==>
            n >= -1 || base == 0 || base == 1 || (base == -1 && n % 2 != 0)
  {
    IpowIsPow(Unbounded, base, n);
    if n == -1 {
      assert Pow(base, 1) == base * Pow(base, 0);
    } else if n < -1 {
      var k := Abs(n) - 1;
      PowIsOne(base, k);
      assert Pow(base, Abs(n)) == base * Pow(base, k);
      if base != 0 && base * Pow(base, k) == base {
        assert base * (Pow(base, k) - 1) == 0;
      }
    }
  }

  // ---- Powers of two ----

  /** Position of the highest bit that is set. */
  function FirstSetBit(value: nat): nat
    requires value > 0
  {
    if value == 1 then 0 else 1 + FirstSetBit(value / 2)
  }

  function RoundDownToPowerOfTwo(value: nat): nat
    requires value > 0
  {
    var r := Pow(2, FirstSetBit(value));
    PowMono(0, 2, FirstSetBit(value));
    r
  }

  /** The power of two next to the value from below. */
  lemma {:induction false} RoundsDown(value: nat)
    requires value > 0
    ensures IsPow2(RoundDownToPowerOfTwo(value))
    ensures RoundDownToPowerOfTwo(value) <= value < 2 * RoundDownToPowerOfTwo(value)
  {
    if value > 1 {
      RoundsDown(value / 2);
      DoublePow2(RoundDownToPowerOfTwo(value / 2));
    }
  }

  lemma {:induction false} PowersOfTwoApart(a: nat, b: nat)
    requires IsPow2(a) && IsPow2(b) && a < b
    ensures 2 * a <= b
  {
    if a > 1 {
      PowersOfTwoApart(a / 2, b / 2);
    }
  }

  /** Doubling as long as the double does not exceed the value, in a type whose size is a power
      of two. From half of the type's size on the doubled value would wrap to zero. */
  method HighestPowerOfTwo(modulus: nat, value: nat) returns (result: nat)
    requires IsPow2(modulus) && modulus >= 0x1_0000_0000 && 2 * value < modulus
    ensures value > 0 ==> result == RoundDownToPowerOfTwo(value)
    ensures value == 0 ==> result == 1
  {
    result := 1;
    if value > 0 {
      RoundsDown(value);
    }
    while result * 2 % modulus <= value
      invariant IsPow2(result) && (value > 0 ==> result <= value)
      invariant value == 0 ==> result == 1
      decreases value - result
    {
      DivModUnique(2 * result, modulus, 0, 2 * result);
      DoublePow2(result);
      result := result * 2 % modulus;
    }
    if value > 0 {
      DivModUnique(2 * result, modulus, 0, 2 * result);
      var highest := RoundDownToPowerOfTwo(value);
      if result < highest {
        PowersOfTwoApart(result, highest);
      } else if highest < result {
        PowersOfTwoApart(highest, result);
      }
    }
  }

  /** The loop's variable after k rounds, if it is never left. */
  function Doubled(modulus: nat, k: nat): (r: nat)
    requires modulus > 1
  {
    if k == 0 then 1 else Doubled(modulus, k - 1) * 2 % modulus
  }

  ghost predicate Stops(modulus: nat, value: nat)
    requires modulus > 1
  {
    exists k: nat :: k > 0 && Doubled(modulus, k) > value
  }

  lemma {:induction false} PowerOrZero(modulus: nat, k: nat)
    requires IsPow2(modulus) && modulus > 1
    ensures Doubled(modulus, k) == 0 || (IsPow2(Doubled(modulus, k)) && 2 * Doubled(modulus, k) <= modulus)
  {
    if k > 0 {
      PowerOrZero(modulus, k - 1);
      var d := Doubled(modulus, k - 1);
      if 2 * d < modulus {
        DivModUnique(2 * d, modulus, 0, 2 * d);
        if d > 0 {
          DoublePow2(d);
          PowersOfTwoApart(2 * d, modulus);
        }
      } else {
        DivModUnique(2 * d, modulus, 1, 0);
      }
    }
  }

  lemma {:induction false} DoublingReaches(modulus: nat, value: nat, k: nat) returns (j: nat)
    requires modulus > 2 && 2 * value < modulus && Doubled(modulus, k) > 0 && 2 * Doubled(modulus, k) < modulus
    ensures Doubled(modulus, j + 1) > value
    decreases modulus - Doubled(modulus, k)
  {
    var d := Doubled(modulus, k);
    DivModUnique(2 * d, modulus, 0, 2 * d);
    j := k;
    if 2 * d <= value {
      j := DoublingReaches(modulus, value, k + 1);
    }
  }

  /** The loop stops exactly for values below half the range: from there on doubling the top bit
      yields zero, and zero stays zero. */
  lemma StopsExactly(modulus: nat, value: nat)
    requires IsPow2(modulus) && modulus >= 0x1_0000_0000 && value < modulus
    ensures Stops(modulus, value) <==> 2 * value < modulus
  {
    if 2 * value < modulus {
      var k := DoublingReaches(modulus, value, 0);
    } else {
      forall k: nat ensures Doubled(modulus, k) <= value {
        PowerOrZero(modulus, k);
      }
    }
  }
}
