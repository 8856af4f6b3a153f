/** Shrinking a vector of extents until the product of its components, taken in the index type,
    meets a limit. */
module Limits {
  import opened Arith
  import opened IntegerMath
  import opened VecIndex

  /** The first position of the largest component. */
  function MaxIdx(v: seq<nat>): (m: nat)
    requires |v| > 0
    ensures m < |v| && (forall k :: 0 <= k < |v| ==> v[k] <= v[m]) && forall k :: 0 <= k < m ==> v[k] < v[m]
  {
    if |v| == 1 then 0
    else
      var m := MaxIdx(Front(v));
      assert forall k :: 0 <= k < |v| - 1 ==> v[k] == Front(v)[k];
      if v[m] < Last(v) then |v| - 1 else m
  }

  /** Halves the largest component, but not below one. */
  function Halved(v: seq<nat>): (r: seq<nat>)
    requires |v| > 0
    ensures |r| == |v|
  {
    v[MaxIdx(v) := DivExZero(v[MaxIdx(v)], 2)]
  }

  /** Only the first of the largest components changes, to half of it rounded down, or one. */
  lemma OnlyFirstLargestHalved(v: seq<nat>) returns (m: nat)
    requires |v| > 0
    ensures m < |v| && (forall k :: 0 <= k < |v| ==> v[k] <= v[m]) && forall k :: 0 <= k < m ==> v[k] < v[m]
    ensures forall k :: 0 <= k < |v| && k != m ==> Halved(v)[k] == v[k]
    ensures if v[m] < 2 then Halved(v)[m] == 1 else 2 * Halved(v)[m] <= v[m] <= 2 * Halved(v)[m] + 1
  {
    m := MaxIdx(v);
  }

  function Sum(v: seq<nat>): nat {
    if |v| == 0 then 0 else Sum(Front(v)) + Last(v)
  }

  lemma {:induction false} SumUpdate(v: seq<nat>, k: nat, x: nat)
    requires k < |v|
    ensures Sum(v[k := x]) == Sum(v) - v[k] + x
  {
    var w := v[k := x];
    if k == |v| - 1 {
      assert Front(w) == Front(v);
    } else {
      SumUpdate(Front(v), k, x);
      assert Front(w) == Front(v)[k := x];
    }
  }

  lemma SwapLast(a: int, b: int, c: int)
    ensures a * b * c == a * c * b
  {
  }

  lemma {:induction false} ProductUpdate(v: seq<nat>, k: nat, x: nat)
    requires k < |v|
    ensures Product(v[k := x]) * v[k] == Product(v) * x
  {
    var w := v[k := x];
    if k == |v| - 1 {
      assert Front(w) == Front(v);
      SwapLast(Product(Front(v)), x, v[k]);
    } else {
      ProductUpdate(Front(v), k, x);
      assert Front(w) == Front(v)[k := x];
      var a, b, last := Product(Front(w)), Product(Front(v)), Last(v);
      SwapLast(a, last, v[k]);
      SwapLast(b, last, x);
    }
  }

  lemma {:induction false} SmallFactors(v: seq<nat>)
    requires forall k :: 0 <= k < |v| ==> v[k] <= 1
    ensures Product(v) <= 1
  {
    if |v| > 0 {
      assert forall k :: 0 <= k < |v| - 1 ==> v[k] == Front(v)[k];
      SmallFactors(Front(v));
      MulMono(Last(v), 1, Product(Front(v)));
    }
  }

  /** A product above one leaves something to halve. */
  lemma HalvingShrinks(v: seq<nat>)
    requires |v| > 0 && Product(v) > 1
    ensures v[MaxIdx(v)] >= 2 && Sum(Halved(v)) < Sum(v)
  {
    if v[MaxIdx(v)] <= 1 {
      SmallFactors(v);
    }
    SumUpdate(v, MaxIdx(v), DivExZero(v[MaxIdx(v)], 2));
  }

  /** One halving divides the product by at most three. */
  lemma HalvingLosesLittle(v: seq<nat>)
    requires |v| > 0 && Product(v) > 1
    ensures 3 * Product(Halved(v)) >= Product(v) > Product(Halved(v)) > 0
  {
    HalvingShrinks(v);
    var m := v[MaxIdx(v)];
    var x := DivExZero(m, 2);
    var p, q := Product(v), Product(Halved(v));
    ProductUpdate(v, MaxIdx(v), x);
    assert m <= 3 * x && x < m;
    ScaledBy(p, q, m, x);
  }

  lemma ScaledBy(p: nat, q: nat, m: nat, x: nat)
    requires q * m == p * x && 0 < x < m <= 3 * x && p > 0
    ensures 3 * q >= p > q > 0
  {
  }

  /** The result of the loop. Without the condition it would not end. */
  function Adjusted(v: seq<nat>, limit: nat): (r: seq<nat>)
    requires |v| > 0 && (limit >= 1 || Product(v) == 0)
    ensures |r| == |v| && Product(r) <= limit
    decreases Sum(v)
  {
    if Product(v) > limit then HalvingShrinks(v); Adjusted(Halved(v), limit) else v
  }

  /** Every component stays between one and its input, and the product does not drop below a
      third of the limit unless the input was already there. */
  lemma {:induction false} AdjustedIsTight(v: seq<nat>, limit: nat)
    requires |v| > 0 && limit >= 1 && Positive(v)
    ensures forall k :: 0 <= k < |v| ==> 1 <= Adjusted(v, limit)[k] <= v[k]
    ensures Product(v) <= limit ==> Adjusted(v, limit) == v
    ensures Product(v) > limit ==> 3 * Product(Adjusted(v, limit)) > limit
    decreases Sum(v)
  {
    if Product(v) > limit {
      HalvingShrinks(v);
      HalvingLosesLittle(v);
      AdjustedIsTight(Halved(v), limit);
    }
  }

  /** The factor three is attained. */
  lemma FactorThreeAttained()
    ensures Positive([3]) && Adjusted([3], 2) == [1] && Product([1]) == 1 && Product([3]) == 3
  {
    assert Front([3]) == [] && Front([1]) == [];
    assert Halved([3]) == [1];
  }

  // ---- The loop over the index type ----

  /** The loop's test passes: the product as the index type holds it meets the limit. */
  predicate Meets(t: IntType, v: seq<nat>, limit: nat)
    requires t.Valid()
  {
    t.Wrap(Product(v)) <= limit
  }

  /** The loop, entered with v, is left after exactly this many rounds with the result r. */
  predicate Leaves(t: IntType, v: seq<nat>, limit: nat, rounds: nat, r: seq<nat>)
    requires t.Valid() && |v| > 0
    decreases rounds
  {
    if Meets(t, v, limit) then rounds == 0 && r == v else rounds > 0 && Leaves(t, Halved(v), limit, rounds - 1, r)
  }

  ghost predicate Ends(t: IntType, v: seq<nat>, limit: nat)
    requires t.Valid() && |v| > 0
  {
    exists rounds, r :: Leaves(t, v, limit, rounds, r)
  }

  lemma WrapIsSmaller(t: IntType, x: nat)
    requires t.Valid()
    ensures 0 <= t.Wrap(x) <= x
  {
    if t.Unsigned? {
      DivNonNeg(x, t.modulus);
      MulNonNeg(t.modulus, x / t.modulus);
      assert x == t.modulus * (x / t.modulus) + x % t.modulus;
    }
  }

  /** With a positive limit the loop ends on every input, whether products wrap or not. */
  lemma {:induction false} PositiveLimitEnds(t: IntType, v: seq<nat>, limit: nat) returns (rounds: nat, r: seq<nat>)
    requires t.Valid() && |v| > 0 && limit >= 1
    ensures Leaves(t, v, limit, rounds, r)
    decreases Sum(v)
  {
    if Meets(t, v, limit) {
      rounds, r := 0, v;
    } else {
      WrapIsSmaller(t, Product(v));
      HalvingShrinks(v);
      rounds, r := PositiveLimitEnds(t, Halved(v), limit);
      rounds := rounds + 1;
    }
  }

  /** Where the product of the input fits the type no later product wraps, and the result is the
      adjusted vector. */
  lemma {:induction false} FittingProduct(t: IntType, v: seq<nat>, limit: nat) returns (rounds: nat)
    requires t.Valid() && |v| > 0 && t.Holds(Product(v)) && (limit >= 1 || Product(v) == 0)
    ensures Leaves(t, v, limit, rounds, Adjusted(v, limit))
    decreases Sum(v)
  {
    rounds := 0;
    WrapSmall(t, Product(v));
    if Product(v) > limit {
      HalvingShrinks(v);
      HalvingLosesLittle(v);
      rounds := FittingProduct(t, Halved(v), limit);
      rounds := rounds + 1;
    }
  }

  lemma ProductsShrink(v: seq<nat>)
    requires |v| > 0 && Product(v) > 0
    ensures 0 < Product(Halved(v)) <= Product(v)
  {
    PositiveFactors(v);
    if Product(v) > 1 {
      HalvingLosesLittle(v);
    } else {
      var x := DivExZero(v[MaxIdx(v)], 2);
      ProductUpdate(v, MaxIdx(v), x);
      PositiveProduct(Halved(v));
      MulMono(x, v[MaxIdx(v)], Product(Halved(v)));
      ProductCancels(Product(Halved(v)), v[MaxIdx(v)], x);
    }
  }

  lemma ProductCancels(q: nat, m: nat, x: nat)
    requires q * m == x && 0 < x <= m
    ensures q <= 1
  {
    if q > 1 {
      MulMono(2, q, m);
    }
  }

  /** Components of the result stay between one and the input, and if anything was shrunk, or
      should have been, three times the product exceeds the limit; whether products wrap or not. */
  lemma {:induction false} ResultIsTight(t: IntType, v: seq<nat>, limit: nat, rounds: nat, r: seq<nat>)
    requires t.Valid() && |v| > 0 && Positive(v) && Leaves(t, v, limit, rounds, r)
    ensures |r| == |v| && forall k :: 0 <= k < |v| ==> 1 <= r[k] <= v[k]
    ensures r != v || Product(v) > limit ==> 3 * Product(r) > limit
    decreases rounds
  {
    if !Meets(t, v, limit) {
      PositiveProduct(v);
      WrapIsSmaller(t, Product(v));
      ProductsShrink(v);
      if Product(v) > 1 {
        HalvingLosesLittle(v);
      }
      ResultIsTight(t, Halved(v), limit, rounds - 1, r);
    }
  }

  /** On its way down the loop meets a vector whose product exceeds the limit, but wraps to a value
      that does not. */
  predicate Misled(t: IntType, v: seq<nat>, limit: nat)
    requires t.Valid() && |v| > 0
    decreases Sum(v)
  {
    Product(v) > limit &&
    (Meets(t, v, limit) || (Product(v) > 1 && (HalvingShrinks(v); Misled(t, Halved(v), limit))))
  }

  /** The result meets the limit exactly if the loop is not misled on the way. */
  lemma {:induction false} MeetsLimitExactly(t: IntType, v: seq<nat>, limit: nat, rounds: nat, r: seq<nat>)
    requires t.Valid() && |v| > 0 && Leaves(t, v, limit, rounds, r)
    ensures Product(r) <= limit <==> !Misled(t, v, limit)
    decreases rounds
  {
    if !Meets(t, v, limit) {
      WrapIsSmaller(t, Product(v));
      MeetsLimitExactly(t, Halved(v), limit, rounds - 1, r);
      if Product(v) == 1 {
        HalvingOne(v);
        StuckAtOne(t, Halved(v), limit, rounds - 1, r);
      }
    }
  }

  lemma HalvingOne(v: seq<nat>)
    requires |v| > 0 && Product(v) == 1
    ensures Product(Halved(v)) == 1
  {
    ProductsShrink(v);
  }

  lemma {:induction false} StuckAtOne(t: IntType, v: seq<nat>, limit: nat, rounds: nat, r: seq<nat>)
    requires t.Valid() && |v| > 0 && Product(v) == 1 && limit == 0
    ensures !Leaves(t, v, limit, rounds, r)
    decreases rounds
  {
    WrapSmall(t, 1);
    if rounds > 0 {
      HalvingOne(v);
      StuckAtOne(t, Halved(v), limit, rounds - 1, r);
    }
  }

  /** Halving reaches a vector whose product is zero in the index type. */
  predicate Vanishes(t: IntType, v: seq<nat>)
    requires t.Valid() && |v| > 0
    decreases Sum(v)
  {
    Meets(t, v, 0) || (Product(v) > 1 && (HalvingShrinks(v); Vanishes(t, Halved(v))))
  }

  lemma {:induction false} VanishingEnds(t: IntType, v: seq<nat>) returns (rounds: nat, r: seq<nat>)
    requires t.Valid() && |v| > 0 && Vanishes(t, v)
    ensures Leaves(t, v, 0, rounds, r)
    decreases Sum(v)
  {
    if Meets(t, v, 0) {
      rounds, r := 0, v;
    } else {
      HalvingShrinks(v);
      rounds, r := VanishingEnds(t, Halved(v));
      rounds := rounds + 1;
    }
  }

  lemma {:induction false} EndsByVanishing(t: IntType, v: seq<nat>, rounds: nat, r: seq<nat>)
    requires t.Valid() && |v| > 0 && Leaves(t, v, 0, rounds, r)
    ensures Vanishes(t, v)
    decreases rounds
  {
    if !Meets(t, v, 0) {
      WrapIsSmaller(t, Product(v));
      EndsByVanishing(t, Halved(v), rounds - 1, r);
      if Product(v) == 1 {
        StuckAtOne(t, v, 0, rounds, r);
      }
    }
  }

  /** The loop ends exactly for a positive limit, or if halving makes the product vanish in the
      index type. */
  lemma EndsExactly(t: IntType, v: seq<nat>, limit: nat)
    requires t.Valid() && |v| > 0
    ensures Ends(t, v, limit) <==> limit >= 1 || Vanishes(t, v)
  {
    if limit >= 1 {
      var rounds, r := PositiveLimitEnds(t, v, limit);
    } else {
      if Vanishes(t, v) {
        var rounds, r := VanishingEnds(t, v);
      }
      forall rounds, r | Leaves(t, v, limit, rounds, r) ensures Vanishes(t, v) {
        EndsByVanishing(t, v, rounds, r);
      }
    }
  }

  /** Where the product of the input fits the type, only a product that is zero vanishes, and the
      loop is not misled. */
  lemma {:induction false} FittingIsExact(t: IntType, v: seq<nat>, limit: nat)
    requires t.Valid() && |v| > 0 && t.Holds(Product(v))
    ensures !Misled(t, v, limit) && (Vanishes(t, v) <==> Product(v) == 0)
    decreases Sum(v)
  {
    WrapSmall(t, Product(v));
    if Product(v) > 1 {
      HalvingShrinks(v);
      ProductsShrink(v);
      FittingIsExact(t, Halved(v), limit);
    }
  }

  lemma PairProduct(a: nat, b: nat)
    ensures Product([a, b]) == a * b
  {
    assert Front([a, b]) == [a] && Front([a]) == [];
    assert Product([a]) == Product([]) * a;
  }

  /** Where it does not fit, the loop may return an input that exceeds the limit, */
  lemma WrappedProductMisleads()
    ensures var t := Unsigned(0x1_0000_0000);
            Leaves(t, [65536, 65536], 1024, 0, [65536, 65536]) && Product([65536, 65536]) > 1024
  {
    PairProduct(65536, 65536);
  }

  /** or end in spite of a zero limit and a positive product. */
  lemma WrappedProductEnds()
    ensures var t := Unsigned(0x1_0000_0000);
            Leaves(t, [131073, 65536], 0, 1, [65536, 65536]) && !Ends(Unbounded, [131073, 65536], 0)
  {
    var v := [131073, 65536];
    PairProduct(131073, 65536);
    PairProduct(65536, 65536);
    assert Halved(v) == [65536, 65536];
    FittingIsExact(Unbounded, v, 0);
    EndsExactly(Unbounded, v, 0);
  }

  predicate Below(v: seq<nat>, modulus: nat) {
    forall k :: 0 <= k < |v| ==> v[k] < modulus
  }

  method Exceeds(modulus: nat, v: seq<nat>, limitValue: nat) returns (exceeds: bool)
    requires |v| > 0 && Unsigned(modulus).Valid() && Below(v, modulus)
    ensures exceeds <==> !Meets(Unsigned(modulus), v, limitValue)
  {
    var product := ProductOf(modulus, v);
    exceeds := product > limitValue;
  }

  /** The function, for whatever input its loop ends on; the limit is converted to the index type.
      Where product and limit fit, the result meets the limit and is not smaller than needed. */
  method AdjustToLimit(modulus: nat, input: seq<nat>, limit: nat) returns (result: array<nat>, ghost rounds: nat)
    requires |input| > 0 && Unsigned(modulus).Valid() && Below(input, modulus)
    requires Ends(Unsigned(modulus), input, limit % modulus)
    ensures fresh(result)
    ensures Leaves(Unsigned(modulus), input, limit % modulus, rounds, result[..])
    ensures limit < modulus ==> Leaves(Unsigned(modulus), input, limit, rounds, result[..])
    ensures Product(input) < modulus && limit < modulus ==> Product(result[..]) <= limit
    ensures Product(input) < modulus && limit < modulus && Positive(input) && result[..] != input ==>
      3 * Product(result[..]) > limit
  {
    var limitValue := limit % modulus;
    if limit < modulus {
      Unwrapped(limit, modulus);
    }
    ghost var r;
    rounds, r :| Leaves(Unsigned(modulus), input, limitValue, rounds, r);
    result := new nat[|input|](k requires 0 <= k < |input| => input[k]);
    assert result[..] == input;
    ghost var left := rounds;
    var exceeds := Exceeds(modulus, result[..], limitValue);
    while exceeds
      invariant fresh(result) && result.Length > 0 && Below(result[..], modulus)
      invariant exceeds <==> !Meets(Unsigned(modulus), result[..], limitValue)
      invariant Leaves(Unsigned(modulus), result[..], limitValue, left, r)
      decreases left
    {
      HalvedComponents(result[..], modulus);
      HalveLargest(result);
      exceeds := Exceeds(modulus, result[..], limitValue);
      left := left - 1;
    }
    FittingLimit(modulus, input, limit, rounds, result[..]);
  }

  lemma FittingLimit(modulus: nat, v: seq<nat>, limit: nat, rounds: nat, r: seq<nat>)
    requires |v| > 0 && Unsigned(modulus).Valid() && Leaves(Unsigned(modulus), v, limit % modulus, rounds, r)
    ensures Product(v) < modulus && limit < modulus ==> Product(r) <= limit
    ensures limit < modulus && Positive(v) && r != v ==> 3 * Product(r) > limit
  {
    if limit < modulus {
      Unwrapped(limit, modulus);
      MeetsLimitExactly(Unsigned(modulus), v, limit, rounds, r);
      if Product(v) < modulus {
        FittingIsExact(Unsigned(modulus), v, limit);
      }
      if Positive(v) {
        ResultIsTight(Unsigned(modulus), v, limit, rounds, r);
      }
    }
  }

  lemma HalvedComponents(v: seq<nat>, modulus: nat)
    requires |v| > 0 && Below(v, modulus) && modulus > 1
    ensures Below(Halved(v), modulus)
  {
  }

  /** One round: finds the largest component and halves it. */
  method HalveLargest(v: array<nat>)
    requires v.Length > 0
    modifies v
    ensures v[..] == Halved(old(v[..]))
  {
    var maxIdx := 0;
    var maxValue := v[0];
    for i := 0 to v.Length
      invariant maxIdx < v.Length && maxValue == v[maxIdx] && (maxIdx == 0 || maxIdx < i)
      invariant forall k :: 0 <= k < i ==> v[k] <= maxValue
      invariant forall k :: 0 <= k < maxIdx ==> v[k] < maxValue
    {
      if maxValue < v[i] {
        maxIdx := i;
        maxValue := v[i];
      }
    }
    assert maxIdx == MaxIdx(v[..]);
    v[maxIdx] := DivExZero(v[maxIdx], 2);
  }
}
