/** Mixed-radix index arithmetic of `Vec`: products, linear indices and their inverse, over an
    unsigned integer type with `modulus` values. */
module VecIndex {
  import opened Arith

  function Front<T>(v: seq<T>): (r: seq<T>)
    requires |v| > 0
  {
    v[..|v| - 1]
  }

  function Last<T>(v: seq<T>): T
    requires |v| > 0
  {
    v[|v| - 1]
  }

  function Product(v: seq<nat>): nat {
    if |v| == 0 then 1 else Product(Front(v)) * Last(v)
  }

  /** Linear position of an index; `inner` are the extents without the slowest one. */
  function Linear(inner: seq<nat>, idx: seq<nat>): nat
    requires |idx| == |inner| + 1
  {
    if |inner| == 0 then idx[0] else Linear(Front(inner), Front(idx)) * Last(inner) + Last(idx)
  }

  /** The digits of a linear position, fastest digit split off first. */
  function Digits(inner: seq<nat>, l: nat): (r: seq<nat>)
    requires Positive(inner)
    ensures |r| == |inner| + 1
  {
    if |inner| == 0 then [l] else Digits(Front(inner), l / Last(inner)) + [l % Last(inner)]
  }

  predicate Positive(v: seq<nat>) {
    forall k :: 0 <= k < |v| ==> v[k] > 0
  }

  predicate InBox(extents: seq<nat>, idx: seq<nat>) {
    |idx| == |extents| && forall k :: 0 <= k < |idx| ==> idx[k] < extents[k]
  }

  /** Every coordinate but the slowest is in range. */
  predicate InnerInRange(inner: seq<nat>, idx: seq<nat>) {
    |idx| == |inner| + 1 && InBox(inner, idx[1..])
  }

  lemma FrontInRange(inner: seq<nat>, idx: seq<nat>)
    requires InnerInRange(inner, idx) && |inner| > 0
    ensures InnerInRange(Front(inner), Front(idx)) && Last(idx) < Last(inner)
    ensures Positive(inner) ==> Positive(Front(inner))
    ensures Front(idx)[0] == idx[0]
  {
  }

  lemma {:induction false} PositiveProduct(v: seq<nat>)
    requires Positive(v)
    ensures Product(v) > 0
  {
    if |v| > 0 {
      PositiveProduct(Front(v));
      MulStrict(0, Product(Front(v)), Last(v));
    }
  }

  lemma {:induction false} PositiveFactors(v: seq<nat>)
    requires Product(v) > 0
    ensures Positive(v)
  {
    if |v| > 0 {
      assert Product(Front(v)) > 0 && Last(v) > 0;
      PositiveFactors(Front(v));
      assert forall k :: 0 <= k < |v| - 1 ==> v[k] == Front(v)[k];
    }
  }

  lemma QuotientRemainder(l: nat, w: nat)
    requires w > 0
    ensures l / w * w + l % w == l && w * (l / w) <= l && l - w * (l / w) == l % w
  {
    assert l == w * (l / w) + l % w;
  }

  /** Linear positions of indices in range have exactly those indices as digits. */
  lemma {:induction false} DigitsOfLinear(inner: seq<nat>, idx: seq<nat>)
    requires InnerInRange(inner, idx)
    ensures Positive(inner) && Digits(inner, Linear(inner, idx)) == idx
  {
    assert forall k :: 0 <= k < |inner| ==> idx[1..][k] < inner[k];
    if |inner| > 0 {
      FrontInRange(inner, idx);
      DigitsOfLinear(Front(inner), Front(idx));
      DivModUnique(Linear(inner, idx), Last(inner), Linear(Front(inner), Front(idx)), Last(idx));
      assert idx == Front(idx) + [Last(idx)];
    }
  }

  /** Every position, in range or not, is the position of its digits, whose inner ones are in range. */
  lemma {:induction false} LinearOfDigits(inner: seq<nat>, l: nat)
    requires Positive(inner)
    ensures InnerInRange(inner, Digits(inner, l)) && Linear(inner, Digits(inner, l)) == l
  {
    if |inner| > 0 {
      QuotientRemainder(l, Last(inner));
      var front := Digits(Front(inner), l / Last(inner));
      LinearOfDigits(Front(inner), l / Last(inner));
      var r := Digits(inner, l);
      assert Front(r) == front && Last(r) == l % Last(inner);
      assert r[1..] == front[1..] + [l % Last(inner)];
    }
  }

  /** An index is in range exactly when its position is below the product of the extents. */
  lemma {:induction false} RangeOfLinear(slow: nat, inner: seq<nat>, idx: seq<nat>)
    requires InnerInRange(inner, idx)
    ensures idx[0] < slow <==> Linear(inner, idx) < Product([slow] + inner)
  {
    if |inner| == 0 {
      assert Front([slow]) == [];
      assert Product([slow]) == slow;
      assert [slow] + inner == [slow];
    } else {
      FrontInRange(inner, idx);
      RangeOfLinear(slow, Front(inner), Front(idx));
      assert Front([slow] + inner) == [slow] + Front(inner) && Last([slow] + inner) == Last(inner);
      BelowProduct(Linear(Front(inner), Front(idx)), Product([slow] + Front(inner)), Last(inner), Last(idx));
    }
  }

  lemma BelowProduct(a: nat, b: nat, w: nat, r: nat)
    requires r < w
    ensures a < b <==> a * w + r < b * w
  {
    if a < b {
      MulStrict(a, b, w);
    } else {
      MulMono(b, a, w);
    }
  }

  // ---- The loops over a fixed-width unsigned type ----

  lemma WrappedStep(a: nat, w: nat, i: nat, modulus: nat)
    requires modulus > 0
    ensures (a % modulus * w % modulus + i) % modulus == (a * w + i) % modulus
  {
    ReducedFactor(a, w, modulus);
    var x, y := a * w, a * w % modulus + i;
    Distribute(modulus, x / modulus, y / modulus);
    DivModUnique(x + i, modulus, x / modulus + y / modulus, y % modulus);
  }

  /** The position modulo the width of the index type. */
  method Linearize(modulus: nat, dim: seq<nat>, idx: seq<nat>) returns (linearIdx: nat)
    requires |idx| == |dim| + 1 && modulus > idx[0]
    ensures linearIdx == Linear(dim, idx) % modulus
  {
    linearIdx := idx[0];
    for d := 1 to |idx|
      invariant linearIdx == Linear(dim[..d - 1], idx[..d]) % modulus
    {
      assert Front(dim[..d]) == dim[..d - 1] && Front(idx[..d + 1]) == idx[..d];
      WrappedStep(Linear(dim[..d - 1], idx[..d]), dim[d - 1], idx[d], modulus);
      linearIdx := (linearIdx * dim[d - 1] % modulus + idx[d]) % modulus;
    }
    assert dim[..|dim|] == dim && idx[..|idx|] == idx;
  }

  /** For an index in range nothing wraps if the extents' product fits the type. */
  lemma NoWrapInRange(modulus: nat, extents: seq<nat>, idx: seq<nat>)
    requires |extents| > 0 && InBox(extents, idx) && Product(extents) <= modulus
    ensures Linear(extents[1..], idx) < Product(extents)
    ensures Linear(extents[1..], idx) % modulus == Linear(extents[1..], idx)
  {
    assert extents == [extents[0]] + extents[1..];
    forall k | 0 <= k < |extents| - 1 ensures idx[1..][k] < extents[1..][k] {
      assert idx[k + 1] < extents[k + 1];
    }
    RangeOfLinear(extents[0], extents[1..], idx);
    Unwrapped(Linear(extents[1..], idx), modulus);
  }

  /** The intermediate values are positions as well, within the product of the outer extents. */
  lemma {:induction false} PrefixInRange(extents: seq<nat>, idx: seq<nat>, d: nat)
    requires 1 <= d <= |extents| && InBox(extents, idx)
    ensures Linear(extents[1..d], idx[..d]) < Product(extents[..d]) <= Product(extents)
    decreases |extents| - d
  {
    NoWrapInRange(Product(extents[..d]), extents[..d], idx[..d]);
    assert extents[..d][1..] == extents[1..d];
    if d == |extents| {
      assert extents[..d] == extents;
    } else {
      PrefixInRange(extents, idx, d + 1);
      assert Front(extents[..d + 1]) == extents[..d];
      MulMono(1, extents[d], Product(extents[..d]));
    }
  }

  lemma {:induction false} ProductCons(a: nat, v: seq<nat>)
    ensures Product([a] + v) == a * Product(v)
  {
    if |v| == 0 {
      assert [a] + v == [a] && Front([a]) == [];
      assert Product([a]) == a;
    } else {
      ProductCons(a, Front(v));
      assert Front([a] + v) == [a] + Front(v);
      Associate(a, Product(Front(v)), Last(v));
    }
  }

  /** Splitting off the slowest digit first gives the same digits. */
  lemma {:induction false} SlowestDigitFirst(inner: seq<nat>, l: nat)
    requires Positive(inner) && |inner| > 0
    ensures Product(inner) > 0
    ensures Digits(inner, l) == [l / Product(inner)] + Digits(inner[1..], l % Product(inner))
  {
    PositiveProduct(inner);
    if |inner| == 1 {
      assert Product(Front(inner)) == 1;
    } else {
      var w, front, product := Last(inner), Front(inner), Product(Front(inner));
      var q := l / w;
      SlowestDigitFirst(front, q);
      SplitQuotient(l, product, w);
      assert Front(inner[1..]) == front[1..] && Last(inner[1..]) == w;
    }
  }

  lemma SplitQuotient(l: nat, p: nat, w: nat)
    requires p > 0 && w > 0
    ensures p * w > 0 && l / (p * w) == l / w / p
    ensures l % (p * w) / w == l / w % p && l % (p * w) % w == l % w
  {
    var q, r := l / w, l % w;
    var a, b := q / p, q % p;
    assert l == w * q + r && q == p * a + b;
    MulStrict(b, p, w);
    Distribute(w, p * a, b);
    Associate(w, p, a);
    MulStrict(0, p, w);
    DivModUnique(l, p * w, a, w * b + r);
    DivModUnique(w * b + r, w, b, r);
  }

  /** The pitches: how many positions one step in each slower dimension skips. */
  method PitchExtents(modulus: nat, extents: seq<nat>) returns (pitch: array<nat>)
    requires |extents| >= 2 && Positive(extents[1..]) && Product(extents[1..]) < modulus
    ensures fresh(pitch) && pitch.Length == |extents| - 1
    ensures forall k :: 0 <= k < pitch.Length ==> pitch[k] == SuffixProduct(extents, k + 1)
  {
    var n := |extents|;
    pitch := new nat[n - 1];
    PitchStep(modulus, extents, n - 2);
    pitch[n - 2] := extents[n - 1];
    for d := 1 to n - 1
      invariant forall k :: n - 1 - d <= k < n - 1 ==> pitch[k] == SuffixProduct(extents, k + 1)
    {
      PitchStep(modulus, extents, n - 2 - d);
      pitch[n - 2 - d] := extents[n - 1 - d] * pitch[n - 1 - d] % modulus;
    }
  }

  function SuffixProduct(v: seq<nat>, from: nat): nat
    requires from <= |v|
  {
    Product(v[from..])
  }

  lemma PitchStep(modulus: nat, extents: seq<nat>, k: nat)
    requires k + 2 <= |extents| && Positive(extents[1..]) && Product(extents[1..]) < modulus
    ensures extents[k + 1] * SuffixProduct(extents, k + 2) == SuffixProduct(extents, k + 1)
    ensures 0 < SuffixProduct(extents, k + 1) < modulus
    ensures SuffixProduct(extents, k + 1) % modulus == SuffixProduct(extents, k + 1)
    ensures SuffixProduct(extents, |extents|) == 1
  {
    assert extents[k + 1..] == [extents[k + 1]] + extents[k + 2..];
    ProductCons(extents[k + 1], extents[k + 2..]);
    SuffixBelow(extents, k);
    Unwrapped(SuffixProduct(extents, k + 1), modulus);
  }

  lemma PositiveFrom(extents: seq<nat>, from: nat)
    requires 1 <= from <= |extents| && (Positive(extents) || Positive(extents[1..]))
    ensures Positive(extents[from..])
  {
  }

  lemma {:induction false} SuffixBelow(extents: seq<nat>, k: nat)
    requires k + 1 < |extents| && Positive(extents[1..])
    ensures 0 < Product(extents[k + 1..]) <= Product(extents[1..])
    decreases k
  {
    PositiveFrom(extents, k + 1);
    PositiveProduct(extents[k + 1..]);
    if k > 0 {
      SuffixBelow(extents, k - 1);
      assert extents[k..] == [extents[k]] + extents[k + 1..];
      ProductCons(extents[k], extents[k + 1..]);
      MulMono(1, extents[k], Product(extents[k + 1..]));
    }
  }

  /** The inverse computed with pitches from the slowest dimension on. */
  method MapToND(modulus: nat, extents: seq<nat>, linearIdx: nat) returns (result: array<nat>)
    requires |extents| >= 1 && linearIdx < modulus
    requires Positive(extents[1..]) && Product(extents[1..]) < modulus
    ensures fresh(result) && result[..] == Digits(extents[1..], linearIdx)
  {
    var n := |extents|;
    result := new nat[n];
    if n == 1 {
      result[0] := linearIdx;
      return;
    }
    var pitch := PitchExtents(modulus, extents);
    var rest := linearIdx;
    ghost var digits := Digits(extents[1..], linearIdx);
    assert result[..0] + digits == digits;
    for d := 0 to n - 1
      invariant fresh(result) && result.Length == n && result != pitch
      invariant forall k :: 0 <= k < pitch.Length ==> pitch[k] == SuffixProduct(extents, k + 1)
      invariant Positive(extents[d + 1..]) && result[..d] + Digits(extents[d + 1..], rest) == digits
    {
      DigitStep(extents, d, rest);
      ghost var before := result[..d];
      result[d] := rest / pitch[d];
      rest := rest - pitch[d] * result[d];
      assert result[..d + 1] == before + [result[d]];
    }
    result[n - 1] := rest;
    assert Digits(extents[n..], rest) == [rest];
    assert result[..] == result[..n - 1] + [rest];
  }

  lemma DigitStep(extents: seq<nat>, d: nat, rest: nat)
    requires d + 1 < |extents| && Positive(extents[d + 1..])
    ensures SuffixProduct(extents, d + 1) > 0 && Positive(extents[d + 2..])
    ensures SuffixProduct(extents, d + 1) * (rest / SuffixProduct(extents, d + 1)) <= rest
    ensures Digits(extents[d + 1..], rest) ==
      [rest / SuffixProduct(extents, d + 1)]
      + Digits(extents[d + 2..], rest - SuffixProduct(extents, d + 1) * (rest / SuffixProduct(extents, d + 1)))
  {
    SlowestDigitFirst(extents[d + 1..], rest);
    assert extents[d + 1..][1..] == extents[d + 2..];
    QuotientRemainder(rest, SuffixProduct(extents, d + 1));
  }

  /** `mapToND` undoes `linearize` on every index in range ... */
  lemma MapToNDOfLinearize(extents: seq<nat>, idx: seq<nat>)
    requires |extents| >= 1 && InBox(extents, idx)
    ensures Positive(extents[1..]) && Digits(extents[1..], Linear(extents[1..], idx)) == idx
    ensures Linear(extents[1..], idx) < Product(extents)
  {
    DigitsOfLinear(extents[1..], idx);
    NoWrapInRange(Product(extents), extents, idx);
  }

  /** ... and `linearize` undoes `mapToND` on every position, whose index is in range exactly when
      the position is. */
  lemma LinearizeOfMapToND(extents: seq<nat>, l: nat)
    requires |extents| >= 1 && Positive(extents[1..])
    ensures Linear(extents[1..], Digits(extents[1..], l)) == l
    ensures InBox(extents, Digits(extents[1..], l)) <==> l < Product(extents)
  {
    var inner := extents[1..];
    var idx := Digits(inner, l);
    LinearOfDigits(inner, l);
    RangeOfLinear(extents[0], inner, idx);
    assert extents == [extents[0]] + inner;
    assert forall k :: 0 < k < |idx| ==> idx[k] == idx[1..][k - 1] && extents[k] == inner[k - 1];
  }

  /** The index type holds the position of every index in range exactly if it holds the range. */
  lemma FitsExactly(modulus: nat, extents: seq<nat>)
    requires |extents| >= 1 && Positive(extents)
    ensures Product(extents) <= modulus <==>
            forall idx: seq<nat> :: InBox(extents, idx) ==> Linear(extents[1..], idx) < modulus
  {
    PositiveFrom(extents, 1);
    if Product(extents) <= modulus {
      forall idx: seq<nat> | InBox(extents, idx) ensures Linear(extents[1..], idx) < modulus {
        MapToNDOfLinearize(extents, idx);
      }
    } else {
      LinearizeOfMapToND(extents, modulus);
      assert InBox(extents, Digits(extents[1..], modulus));
    }
  }

  method ProductOf(modulus: nat, v: seq<nat>) returns (result: nat)
    requires |v| > 0 && v[0] < modulus
    ensures result == Product(v) % modulus
  {
    result := v[0];
    assert v[..1] == [v[0]] + [];
    ProductCons(v[0], []);
    Unwrapped(v[0], modulus);
    for i := 1 to |v|
      invariant result == Product(v[..i]) % modulus
    {
      assert Front(v[..i + 1]) == v[..i];
      ReducedFactor(Product(v[..i]), v[i], modulus);
      result := result * v[i] % modulus;
    }
    assert v[..|v|] == v;
  }

  // ---- Shrinking from the right ----

  /** The last `count` elements. */
  method RShrink(v: seq<nat>, count: nat) returns (result: array<nat>)
    requires count <= |v|
    ensures fresh(result) && result[..] == v[|v| - count..]
  {
    result := new nat[count];
    ghost var tail := v[|v| - count..];
    for i := 0 to count
      invariant result[count - i..] == tail[count - i..]
    {
      ghost var done := result[count - i..];
      result[count - 1 - i] := v[|v| - 1 - i];
      assert result[count - 1 - i..] == [tail[count - 1 - i]] + done;
    }
    assert result[..] == result[0..] && tail == tail[0..];
  }

  /** The position that the wrapping index expression denotes. */
  lemma RotatedPosition(n: nat, startIdx: nat, i: nat)
    requires i < n
    ensures (n + startIdx - i) % n == if i <= startIdx % n then startIdx % n - i else startIdx % n + n - i
  {
    var q, s := startIdx / n, startIdx % n;
    assert startIdx == n * q + s;
    Distribute(n, q, 1);
    if i <= s {
      DivModUnique(n + startIdx - i, n, q + 1, s - i);
    } else {
      DivModUnique(n + startIdx - i, n, q, s + n - i);
    }
  }

  /** The index in the rotated vector, i places before its last element, in an index type of
      `modulus` values. */
  function RotatedIndex(modulus: nat, n: nat, startIdx: nat, i: nat): (r: nat)
    requires 0 < n < modulus && i < n
    ensures r < n
  {
    (n + startIdx - i) % modulus % n
  }

  /** The start index counts modulo the dimension exactly if the sum fits, or the dimension divides
      the size of the type. */
  lemma RotationFitsExactly(modulus: nat, n: nat, startIdx: nat)
    requires 0 < n < modulus && startIdx < modulus
    ensures (forall i: nat :: i < n ==> RotatedIndex(modulus, n, startIdx, i) == (n + startIdx - i) % n) <==>
            n + startIdx < modulus || modulus % n == 0
  {
    forall i: nat | i < n && (n + startIdx < modulus || modulus % n == 0)
      ensures RotatedIndex(modulus, n, startIdx, i) == (n + startIdx - i) % n
    {
      RotationFits(modulus, n, startIdx, i);
    }
    if n + startIdx >= modulus && RotatedIndex(modulus, n, startIdx, 0) == (n + startIdx) % n {
      var over := n + startIdx - modulus;
      DivModUnique(n + startIdx, modulus, 1, over);
      Unwrapped(over, n);
      QuotientRemainder(n + startIdx, n);
      DivModUnique(modulus, n, (n + startIdx) / n, 0);
    }
  }

  lemma RotationFits(modulus: nat, n: nat, startIdx: nat, i: nat)
    requires 0 < n < modulus && startIdx < modulus && i < n && (n + startIdx < modulus || modulus % n == 0)
    ensures RotatedIndex(modulus, n, startIdx, i) == (n + startIdx - i) % n
  {
    var sum := n + startIdx - i;
    if sum < modulus {
      Unwrapped(sum, modulus);
    } else {
      DivModUnique(sum, modulus, 1, sum - modulus);
      Unwrapped(sum - modulus, n);
      QuotientRemainder(modulus, n);
      DivModUnique(sum, n, modulus / n, sum - modulus);
    }
  }

  /** The last `count` elements of the vector rotated so that it ends at `startIdx`, which counts
      modulo the dimension. */
  method RShrinkFrom(modulus: nat, v: seq<nat>, count: nat, startIdx: nat) returns (result: array<nat>)
    requires count <= |v| && 0 < |v| < modulus && startIdx < modulus
    ensures fresh(result) && result.Length == count
    ensures |v| + startIdx < modulus || modulus % |v| == 0 ==>
      var last := startIdx % |v|; result[..] == (v[last + 1..] + v[..last + 1])[|v| - count..]
  {
    result := new nat[count];
    ghost var last := startIdx % |v|;
    ghost var tail := (v[last + 1..] + v[..last + 1])[|v| - count..];
    ghost var fits := |v| + startIdx < modulus || modulus % |v| == 0;
    for i := 0 to count
      invariant fits ==> forall k :: count - i <= k < count ==> result[k] == tail[k]
    {
      if fits {
        RotationFits(modulus, |v|, startIdx, i);
        RotatedPosition(|v|, startIdx, i);
      }
      result[count - 1 - i] := v[RotatedIndex(modulus, |v|, startIdx, i)];
    }
  }
}
