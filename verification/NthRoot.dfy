/** The integer root by bisection, over an index type that may wrap around: sums, powers and the
    initial upper end alike. */
module NthRoot {
  import opened Arith
  import opened IntegerMath

  /** The loop's variables. */
  datatype Interval = Interval(l: nat, r: nat)

  predicate Done(t: IntType, s: Interval)
    requires t.Valid()
  {
    s.l == t.Wrap(s.r - 1)
  }

  function Probe(t: IntType, s: Interval): (m: nat)
    requires t.Valid()
  {
    t.Wrap(s.l + s.r) / 2
  }

  function Next(t: IntType, value: nat, n: int, s: Interval): Interval
    requires t.Valid()
  {
    if IntPowValue(t, Probe(t, s), n) <= value then Interval(Probe(t, s), s.r) else Interval(s.l, Probe(t, s))
  }

  function Start(t: IntType, value: nat): Interval
    requires t.Valid()
  {
    Interval(0, t.Wrap(value + 1))
  }

  /** The loop, entered at s, is left after exactly k rounds with the result root. */
  predicate Leaves(t: IntType, value: nat, n: int, s: Interval, k: nat, root: nat)
    requires t.Valid()
    decreases k
  {
    if Done(t, s) then k == 0 && root == s.l else k > 0 && Leaves(t, value, n, Next(t, value, n, s), k - 1, root)
  }

  ghost predicate Returns(t: IntType, value: nat, n: int, s: Interval, root: nat)
    requires t.Valid()
  {
    exists k :: Leaves(t, value, n, s, k, root)
  }

  ghost predicate Ends(t: IntType, value: nat, n: int)
    requires t.Valid()
  {
    exists root :: Returns(t, value, n, Start(t, value), root)
  }

  lemma NextRound(t: IntType, value: nat, n: int, s: Interval, k: nat, root: nat)
    requires t.Valid() && !Done(t, s) && Leaves(t, value, n, s, k, root)
    ensures k > 0 && Leaves(t, value, n, Next(t, value, n, s), k - 1, root)
    ensures t.Holds(Probe(t, s))
  {
  }

  /** The function itself, for whatever input its loop ends on. */
  method NthRootFloor(t: IntType, value: nat, n: int) returns (l: nat)
    requires t.Valid() && t.Holds(value) && t.Holds(n) && Ends(t, value, n)
    ensures Returns(t, value, n, Start(t, value), l)
  {
    ghost var root :| Returns(t, value, n, Start(t, value), root);
    ghost var k :| Leaves(t, value, n, Start(t, value), k, root);
    l := 0;
    var r: nat := t.Wrap(value + 1);
    while l != t.Wrap(r - 1)
      invariant t.Holds(l) && t.Holds(r) && Leaves(t, value, n, Interval(l, r), k, root)
      decreases k
    {
      NextRound(t, value, n, Interval(l, r), k, root);
      var m: nat := t.Wrap(l + r) / 2;
      var power := IntPow(t, m, n);
      if power <= value {
        l := m;
      } else {
        r := m;
      }
      k := k - 1;
    }
  }

  lemma {:induction false} OneResult(t: IntType, value: nat, n: int, s: Interval, j: nat, a: nat, k: nat, b: nat)
    requires t.Valid() && Leaves(t, value, n, s, j, a) && Leaves(t, value, n, s, k, b)
    ensures a == b && j == k
    decreases j
  {
    if !Done(t, s) {
      OneResult(t, value, n, Next(t, value, n, s), j - 1, a, k - 1, b);
    }
  }

  /** A loop that ends has one result. */
  lemma ResultIsUnique(t: IntType, value: nat, n: int, root: nat)
    requires t.Valid() && Returns(t, value, n, Start(t, value), root)
    ensures forall l :: Returns(t, value, n, Start(t, value), l) ==> l == root
  {
    var k :| Leaves(t, value, n, Start(t, value), k, root);
    forall l | Returns(t, value, n, Start(t, value), l) ensures l == root {
      var j :| Leaves(t, value, n, Start(t, value), j, l);
      OneResult(t, value, n, Start(t, value), j, l, k, root);
    }
  }

  // ---- Where no sum wraps, the loop is a bisection ----

  function Search(t: IntType, value: nat, n: int, l: nat, r: nat): (root: nat)
    requires t.Valid() && l < r && t.Holds(2 * r - 1)
    ensures l <= root < r
    decreases r - l
  {
    if l == r - 1 then l
    else
      var m := (l + r) / 2;
      if IntPowValue(t, m, n) <= value then Search(t, value, n, m, r) else Search(t, value, n, l, m)
  }

  lemma {:induction false} LoopIsSearch(t: IntType, value: nat, n: int, l: nat, r: nat) returns (k: nat)
    requires t.Valid() && l < r && t.Holds(2 * r - 1)
    ensures Leaves(t, value, n, Interval(l, r), k, Search(t, value, n, l, r))
    decreases r - l
  {
    WrapSmall(t, r - 1);
    WrapSmall(t, l + r);
    if l == r - 1 {
      k := 0;
    } else {
      var m := (l + r) / 2;
      if IntPowValue(t, m, n) <= value {
        k := LoopIsSearch(t, value, n, m, r);
      } else {
        k := LoopIsSearch(t, value, n, l, m);
      }
      k := k + 1;
    }
  }

  ghost predicate IsRoot(value: nat, n: nat, root: nat) {
    Pow(root, n) <= value < Pow(root + 1, n)
  }

  lemma NotBelow(value: nat, n: nat, a: nat, b: nat)
    requires value < Pow(a + 1, n) && Pow(b, n) <= value
    ensures b <= a
  {
    if a < b {
      PowMono(a + 1, b, n);
    }
  }

  lemma RootIsUnique(value: nat, n: nat, a: nat, b: nat)
    requires IsRoot(value, n, a) && IsRoot(value, n, b)
    ensures a == b
  {
    NotBelow(value, n, a, b);
    NotBelow(value, n, b, a);
  }

  /** A probe whose power is too large, but looks small enough after wrapping. */
  predicate Misleads(t: IntType, value: nat, n: nat, m: nat)
    requires t.Valid()
  {
    Pow(m, n) > value && t.Wrap(Pow(m, n)) <= value
  }

  /** The bisection between l and r meets such a probe. */
  predicate Misled(t: IntType, value: nat, n: nat, l: nat, r: nat)
    requires t.Valid() && l < r
    decreases r - l
  {
    l != r - 1 &&
    var m := (l + r) / 2;
    Misleads(t, value, n, m) || if Pow(m, n) <= value then Misled(t, value, n, m, r) else Misled(t, value, n, l, m)
  }

  lemma ProbeComparison(t: IntType, value: nat, n: nat, m: nat)
    requires t.Valid() && t.Holds(value)
    ensures IntPowValue(t, m, n) <= value <==> Pow(m, n) <= value || Misleads(t, value, n, m)
  {
    PowMono(0, m, n);
    if Pow(m, n) <= value {
      WrapSmall(t, Pow(m, n));
    }
  }

  /** The bisection finds the root exactly if no probe on its way misleads it. */
  lemma {:induction false} SearchIsRightExactly(t: IntType, value: nat, n: nat, l: nat, r: nat)
    requires t.Valid() && t.Holds(value) && l < r && t.Holds(2 * r - 1) && Pow(l, n) <= value < Pow(r, n)
    ensures IsRoot(value, n, Search(t, value, n, l, r)) <==> !Misled(t, value, n, l, r)
    decreases r - l
  {
    if l != r - 1 {
      var m := (l + r) / 2;
      ProbeComparison(t, value, n, m);
      if Misleads(t, value, n, m) {
        PowMono(m, Search(t, value, n, m, r), n);
      } else if Pow(m, n) <= value {
        SearchIsRightExactly(t, value, n, m, r);
      } else {
        SearchIsRightExactly(t, value, n, l, m);
      }
    }
  }

  lemma StartBrackets(value: nat, n: nat)
    requires n >= 1
    ensures Pow(0, n) <= value < Pow(value + 1, n)
  {
    assert Pow(0, n) == 0 * Pow(0, n - 1);
    PowGrows(value + 1, n);
  }

  /** Up to half the range the loop always ends, and its result is the floor of the root exactly
      if no probe misleads it. */
  lemma RootIsFloorExactly(t: IntType, value: nat, n: nat) returns (root: nat)
    requires t.Valid() && n >= 1 && t.Holds(2 * value + 1)
    ensures Returns(t, value, n, Start(t, value), root)
    ensures forall l :: Returns(t, value, n, Start(t, value), l) ==> l == root
    ensures IsRoot(value, n, root) <==> !Misled(t, value, n, 0, value + 1)
  {
    WrapSmall(t, value + 1);
    root := Search(t, value, n, 0, value + 1);
    var k := LoopIsSearch(t, value, n, 0, value + 1);
    StartBrackets(value, n);
    SearchIsRightExactly(t, value, n, 0, value + 1);
    ResultIsUnique(t, value, n, root);
  }

  lemma OneMoreRound(t: IntType, value: nat, n: int, s: Interval, k: nat, root: nat)
    requires t.Valid() && !Done(t, s) && Leaves(t, value, n, Next(t, value, n, s), k, root)
    ensures Leaves(t, value, n, s, k + 1, root)
  {
  }

  lemma FirstRound(t: IntType, value: nat, n: nat)
    requires t.Valid() && n >= 2 && t.Holds(value + 1) && value >= 5 && !Misleads(t, value, n, (value + 1) / 2)
    ensures Start(t, value) == Interval(0, value + 1) && !Done(t, Start(t, value))
    ensures Next(t, value, n, Start(t, value)) == Interval(0, (value + 1) / 2)
  {
    WrapSmall(t, value + 1);
    WrapSmall(t, value);
    FirstProbeRejected(value, n);
    ProbeComparison(t, value, n, (value + 1) / 2);
  }

  lemma MisledBelow(t: IntType, value: nat, n: nat)
    requires t.Valid() && n >= 2 && value >= 5 && !Misleads(t, value, n, (value + 1) / 2)
    ensures Misled(t, value, n, 0, value + 1) <==> Misled(t, value, n, 0, (value + 1) / 2)
  {
    FirstProbeRejected(value, n);
  }

  /** Beyond half the range, from degree two on: a first probe that does not mislead is rejected
      before a sum can wrap. The loop then ends, with the floor of the root exactly if no other
      probe misleads it either. */
  lemma LargeValues(t: IntType, value: nat, n: nat) returns (root: nat)
    requires t.Valid() && n >= 2 && t.Holds(value + 1) && value >= 5 && !Misleads(t, value, n, (value + 1) / 2)
    ensures Returns(t, value, n, Start(t, value), root)
    ensures forall l :: Returns(t, value, n, Start(t, value), l) ==> l == root
    ensures IsRoot(value, n, root) <==> !Misled(t, value, n, 0, value + 1)
  {
    var m := (value + 1) / 2;
    MisledBelow(t, value, n);
    FirstRound(t, value, n);
    root := Search(t, value, n, 0, m);
    var k := LoopIsSearch(t, value, n, 0, m);
    OneMoreRound(t, value, n, Start(t, value), k, root);
    StartBrackets(value, n);
    FirstProbeRejected(value, n);
    SearchIsRightExactly(t, value, n, 0, m);
    ResultIsUnique(t, value, n, root);
  }

  lemma FirstProbeRejected(value: nat, n: nat)
    requires value >= 5 && n >= 2
    ensures Pow((value + 1) / 2, n) > value
  {
    var m := (value + 1) / 2;
    PowGrows(m, n);
    MulMono(3, m, m);
  }

  // ---- Conditions a caller can check ----

  /** The largest power a search for n >= 2 can meet. */
  predicate ProbesFit(t: IntType, value: nat, n: nat) {
    n >= 2 ==> t.Holds(Pow(LargestProbe(value), n))
  }

  /** From five on the first probe is the largest. */
  function LargestProbe(value: nat): nat {
    if value >= 5 then (value + 1) / 2 else value / 2 + 1
  }

  /** What is left to search: from five on the first probe is rejected. */
  ghost predicate Narrowed(value: nat, n: nat, l: nat, r: nat) {
    && l < r <= value + 1 && Pow(l, n) <= value < Pow(r, n)
    && (value >= 5 && n >= 2 ==> (l == 0 && r == value + 1) || r <= (value + 1) / 2)
  }

  lemma ProbeIsSmall(value: nat, n: nat, l: nat, r: nat)
    requires n >= 2 && Narrowed(value, n, l, r) && l != r - 1
    ensures (l + r) / 2 <= LargestProbe(value)
  {
    if value < 5 && l >= 2 {
      PowGrows(l, n);
      MulMono(2, l, l);
      assert l * l <= 4;
      if l >= 3 {
        MulMono(3, l, l);
      }
    }
  }

  lemma ProbeNarrows(value: nat, n: nat, l: nat, r: nat)
    requires Narrowed(value, n, l, r) && l != r - 1
    ensures Pow((l + r) / 2, n) <= value ==> Narrowed(value, n, (l + r) / 2, r)
    ensures Pow((l + r) / 2, n) > value ==> Narrowed(value, n, l, (l + r) / 2)
  {
    if value >= 5 && n >= 2 {
      FirstProbeRejected(value, n);
    }
  }

  lemma ProbeDoesNotMislead(t: IntType, value: nat, n: nat, l: nat, r: nat)
    requires t.Valid() && n >= 1 && Narrowed(value, n, l, r) && l != r - 1
    requires ProbesFit(t, value, n) && t.Holds(value)
    ensures !Misleads(t, value, n, (l + r) / 2)
  {
    var m := (l + r) / 2;
    if n >= 2 {
      ProbeIsSmall(value, n, l, r);
      PowMono(m, LargestProbe(value), n);
    } else {
      FirstPow(m);
    }
    WrapSmall(t, Pow(m, n));
  }

  lemma {:induction false} FittingProbesDoNotMislead(t: IntType, value: nat, n: nat, l: nat, r: nat)
    requires t.Valid() && n >= 1 && Narrowed(value, n, l, r) && ProbesFit(t, value, n) && t.Holds(value)
    ensures !Misled(t, value, n, l, r)
    decreases r - l
  {
    if l != r - 1 {
      var m := (l + r) / 2;
      ProbeDoesNotMislead(t, value, n, l, r);
      ProbeNarrows(value, n, l, r);
      if Pow(m, n) <= value {
        FittingProbesDoNotMislead(t, value, n, m, r);
      } else {
        FittingProbesDoNotMislead(t, value, n, l, m);
      }
    }
  }

  /** If the power of the first probe fits the type, the result is the floor of the root; degree
      one needs room for the sums instead. */
  lemma FittingRootIsFloor(t: IntType, value: nat, n: nat) returns (root: nat)
    requires t.Valid() && n >= 1 && t.Holds(value + 1) && ProbesFit(t, value, n)
    requires n == 1 ==> t.Holds(2 * value + 1)
    ensures Returns(t, value, n, Start(t, value), root) && IsRoot(value, n, root)
    ensures forall l :: Returns(t, value, n, Start(t, value), l) ==> l == root
  {
    StartBrackets(value, n);
    FittingProbesDoNotMislead(t, value, n, 0, value + 1);
    if value >= 5 && n >= 2 {
      root := LargeValues(t, value, n);
    } else {
      root := RootIsFloorExactly(t, value, n);
    }
    ResultIsUnique(t, value, n, root);
  }

  // ---- Degrees up to one, and the end of the range ----

  lemma SmallDegreeAccepts(t: IntType, value: nat, n: int, m: nat)
    requires t.Valid() && t.Holds(value) && n <= 1 && m <= value && value > 0
    ensures IntPowValue(t, m, n) <= value
  {
    WrapSmall(t, 1);
    WrapSmall(t, m);
    FirstPow(m);
  }

  lemma {:induction false} SmallDegreeSearch(t: IntType, value: nat, n: int, l: nat)
    requires t.Valid() && n <= 1 && l <= value && t.Holds(2 * value + 1)
    ensures Search(t, value, n, l, value + 1) == value
    decreases value - l
  {
    if l < value {
      SmallDegreeAccepts(t, value, n, (l + value + 1) / 2);
      SmallDegreeSearch(t, value, n, (l + value + 1) / 2);
    }
  }

  lemma {:induction false} SumsKeepWrapping(t: IntType, value: nat, n: int, l: nat, k: nat, root: nat)
    requires t.Valid() && t.Unsigned? && n <= 1 && t.modulus % 2 == 0
    requires t.Holds(value + 1) && !t.Holds(2 * value + 1) && l != value
    ensures !Leaves(t, value, n, Interval(l, value + 1), k, root)
    decreases k
  {
    WrapSmall(t, value);
    if k > 0 {
      var m := Probe(t, Interval(l, value + 1));
      SmallDegreeAccepts(t, value, n, m);
      SumsKeepWrapping(t, value, n, m, k - 1, root);
    }
  }

  lemma SmallDegreeReturns(t: IntType, value: nat, n: int)
    requires t.Valid() && n <= 1 && t.Holds(2 * value + 1)
    ensures Returns(t, value, n, Start(t, value), value)
  {
    WrapSmall(t, value + 1);
    var k := LoopIsSearch(t, value, n, 0, value + 1);
    SmallDegreeSearch(t, value, n, 0);
  }

  lemma SmallDegreeNeverEnds(t: IntType, value: nat, n: int)
    requires t.Valid() && t.Unsigned? && n <= 1 && t.modulus % 2 == 0
    requires t.Holds(value + 1) && !t.Holds(2 * value + 1)
    ensures !Ends(t, value, n)
  {
    WrapSmall(t, value + 1);
    forall k, root ensures !Leaves(t, value, n, Start(t, value), k, root) {
      SumsKeepWrapping(t, value, n, 0, k, root);
    }
  }

  /** Up to degree one the loop returns the value itself, for the values for which it ends: those
      up to half the range. */
  lemma SmallDegreeEndsExactly(t: IntType, value: nat, n: int)
    requires t.Valid() && n <= 1 && t.Holds(value + 1) && (t.Unsigned? ==> t.modulus % 2 == 0)
    ensures Ends(t, value, n) <==> t.Holds(2 * value + 1)
    ensures Ends(t, value, n) ==> Returns(t, value, n, Start(t, value), value)
  {
    if t.Holds(2 * value + 1) {
      SmallDegreeReturns(t, value, n);
    } else {
      SmallDegreeNeverEnds(t, value, n);
    }
  }

  lemma {:induction false} StaysAtZero(t: IntType, value: nat, n: int, k: nat, root: nat)
    requires t.Valid() && t.Unsigned? && value == t.modulus - 1
    ensures !Leaves(t, value, n, Interval(0, 0), k, root)
    decreases k
  {
    DivModUnique(-1, t.modulus, -1, t.modulus - 1);
    if k > 0 {
      WrapSmall(t, 0);
      StaysAtZero(t, value, n, k - 1, root);
    }
  }

  /** For the largest value of the type the upper end wraps to zero and the loop does not end. */
  lemma LargestValueNeverEnds(t: IntType, value: nat, n: int)
    requires t.Valid() && t.Unsigned? && value == t.modulus - 1
    ensures !Ends(t, value, n)
  {
    DivModUnique(t.modulus, t.modulus, 1, 0);
    forall k, root ensures !Leaves(t, value, n, Start(t, value), k, root) {
      StaysAtZero(t, value, n, k, root);
    }
  }

  /** The square root of 131071 in 32 bits is wrong: the power of the first probe wraps to zero. */
  lemma WrappedProbeMisleads() returns (root: nat)
    ensures Returns(Unsigned(0x1_0000_0000), 131071, 2, Start(Unsigned(0x1_0000_0000), 131071), root)
    ensures !IsRoot(131071, 2, root)
  {
    assert Pow(65536, 2) == 65536 * Pow(65536, 1) && Pow(65536, 1) == 65536 * Pow(65536, 0);
    root := RootIsFloorExactly(Unsigned(0x1_0000_0000), 131071, 2);
  }

  /** One less is already safe. */
  lemma LargestSafeSquareRoot() returns (root: nat)
    ensures Returns(Unsigned(0x1_0000_0000), 131070, 2, Start(Unsigned(0x1_0000_0000), 131070), root)
    ensures IsRoot(131070, 2, root)
  {
    assert Pow(65535, 2) == 65535 * Pow(65535, 1) && Pow(65535, 1) == 65535 * Pow(65535, 0);
    root := FittingRootIsFloor(Unsigned(0x1_0000_0000), 131070, 2);
  }

  lemma {:induction false} SmallPowersDoNotMislead(t: IntType, value: nat, n: nat, l: nat, r: nat)
    requires t.Valid() && l < r && t.Holds(Pow(r, n))
    ensures !Misled(t, value, n, l, r)
    decreases r - l
  {
    if l != r - 1 {
      var m := (l + r) / 2;
      PowMono(m, r, n);
      WrapSmall(t, Pow(m, n));
      SmallPowersDoNotMislead(t, value, n, m, r);
      SmallPowersDoNotMislead(t, value, n, l, m);
    }
  }

  lemma SquareValue(t: IntType, m: nat)
    requires t.Valid()
    ensures IntPowValue(t, m, 2) == t.Wrap(m * m)
  {
    assert Pow(m, 2) == m * Pow(m, 1) && Pow(m, 1) == m * Pow(m, 0);
  }

  lemma AcceptRound(t: IntType, value: nat, l: nat, r: nat, w: nat, m: nat, q: nat, root: nat)
    requires t == Unsigned(0x1_0000_0000) && w <= 1 && 0 <= l + r - w * 0x1_0000_0000 - 2 * m <= 1
    requires l != r - 1 && t.Holds(r - 1) && t.Holds(m + m + 1)
    requires 0 <= m * m - q * 0x1_0000_0000 <= value < 0x1_0000_0000 && Returns(t, value, 2, Interval(m, r), root)
    ensures Returns(t, value, 2, Interval(l, r), root)
  {
    SquareValue(t, m);
    WrapSmall(t, r - 1);
    WrapsTo(t, l + r, w, l + r - w * 0x1_0000_0000);
    WrapsTo(t, m * m, q, m * m - q * 0x1_0000_0000);
    assert Next(t, value, 2, Interval(l, r)) == Interval(m, r);
    var k :| Leaves(t, value, 2, Interval(m, r), k, root);
    OneMoreRound(t, value, 2, Interval(l, r), k, root);
  }

  lemma WrapsTo(t: IntType, x: nat, q: nat, r: nat)
    requires t == Unsigned(0x1_0000_0000) && x == q * 0x1_0000_0000 + r && r < 0x1_0000_0000
    ensures t.Wrap(x) == r
  {
    DivModUnique(x, 0x1_0000_0000, q, r);
  }

  /** Between l and l + d the probes are rejected until what is left is small. */
  predicate Falls(value: nat, l: nat, d: nat) {
    d == 33825 || (d > 33825 && (l + d / 2) * (l + d / 2) % 0x1_0000_0000 > value && Falls(value, l, d / 2))
  }

  lemma Fall(value: nat, l: nat, d: nat, m: nat, q: nat)
    requires d > 33825 && m == l + d / 2 && value < m * m - q * 0x1_0000_0000 < 0x1_0000_0000
    requires Falls(value, l, d / 2)
    ensures Falls(value, l, d)
  {
    DivModUnique(m * m, 0x1_0000_0000, q, m * m - q * 0x1_0000_0000);
  }

  lemma RejectRound(t: IntType, value: nat, l: nat, r: nat, m: nat, root: nat)
    requires t == Unsigned(0x1_0000_0000) && (l + r) % 0x1_0000_0000 / 2 == m && l != r - 1 && t.Holds(r - 1)
    requires m * m % 0x1_0000_0000 > value && Returns(t, value, 2, Interval(l, m), root)
    ensures Returns(t, value, 2, Interval(l, r), root)
  {
    assert Pow(m, 2) == m * Pow(m, 1) && Pow(m, 1) == m * Pow(m, 0);
    WrapSmall(t, r - 1);
    var k :| Leaves(t, value, 2, Interval(l, m), k, root);
    OneMoreRound(t, value, 2, Interval(l, r), k, root);
  }

  lemma {:induction false} FallsLead(t: IntType, value: nat, l: nat, d: nat, root: nat)
    requires t == Unsigned(0x1_0000_0000) && l + l + d < t.modulus && Falls(value, l, d)
    requires Returns(t, value, 2, Interval(l, l + 33825), root)
    ensures Returns(t, value, 2, Interval(l, l + d), root)
    decreases d
  {
    if d != 33825 {
      FallsLead(t, value, l, d / 2, root);
      WrapSmall(t, l + l + d);
      RejectRound(t, value, l, l + d, l + d / 2, root);
    }
  }

  lemma UpperEndFalls(value: nat, l: nat)
    requires value == 2216779476 && l == 21470
    ensures Falls(value, l, 2216758007)
  {
    UpperEndFallsOn(value, l);
    Fall(value, l, 17318421, 8680680, 17544);
    Fall(value, l, 34636843, 17339891, 70005);
    Fall(value, l, 69273687, 34658313, 279675);
    Fall(value, l, 138547375, 69295157, 1118010);
    Fall(value, l, 277094750, 138568845, 4470656);
    Fall(value, l, 554189501, 277116220, 17879856);
    Fall(value, l, 1108379003, 554210971, 71513885);
    Fall(value, l, 2216758007, 1108400473, 286044461);
  }

  lemma UpperEndFallsOn(value: nat, l: nat)
    requires value == 2216779476 && l == 21470
    ensures Falls(value, l, 8659210)
  {
    Fall(value, l, 67650, 55295, 0);
    Fall(value, l, 135300, 89120, 1);
    Fall(value, l, 270600, 156770, 5);
    Fall(value, l, 541200, 292070, 19);
    Fall(value, l, 1082401, 562670, 73);
    Fall(value, l, 2164802, 1103871, 283);
    Fall(value, l, 4329605, 2186272, 1112);
    Fall(value, l, 8659210, 4351075, 4407);
  }

  lemma WrappedSumAccepted(t: IntType, value: nat, last: nat, root: nat)
    requires t == Unsigned(0x1_0000_0000) && value == 2216779476 && last == value + 1
    requires Returns(t, value, 2, Interval(21470, last), root)
    ensures Returns(t, value, 2, Interval(1939682042, last), root)
  {
    AcceptRound(t, value, 2078230759, last, 1, 21470, 0, root);
    AcceptRound(t, value, 1939682042, last, 0, 2078230759, 1005605582, root);
  }

  lemma WronglyAccepted(t: IntType, value: nat, last: nat, root: nat)
    requires t == Unsigned(0x1_0000_0000) && value == 2216779476 && last == value + 1
    requires Returns(t, value, 2, Interval(1939682042, last), root)
    ensures Returns(t, value, 2, Interval(0, last), root)
  {
    AcceptRound(t, value, 1662584607, last, 0, 1939682042, 875994196, root);
    AcceptRound(t, value, 1108389738, last, 0, 1662584607, 643587572, root);
    AcceptRound(t, value, 0, last, 0, 1108389738, 286038921, root);
  }

  /** A misled loop can find the root by chance: four probes are wrongly accepted, then a wrapped
      sum takes the lower end back below the root, and the upper end comes down. */
  lemma MisledLoopRecovers(t: IntType, value: nat, last: nat) returns (root: nat)
    requires t == Unsigned(0x1_0000_0000) && value == 2216779476 && last == value + 1
    ensures Misled(t, value, 2, 0, last) && IsRoot(value, 2, root)
    ensures Returns(t, value, 2, Start(t, value), root)
  {
    var l := 21470;
    root := RecoveredRoot(t, value, l, l + 33825);
    UpperEndFalls(value, l);
    FallsLead(t, value, l, last - l, root);
    WrappedSumAccepted(t, value, last, root);
    WronglyAccepted(t, value, last, root);
    WrapSmall(t, last);
    StrayProbe(t, value, 1108389738);
  }

  lemma StrayProbe(t: IntType, value: nat, m: nat)
    requires t == Unsigned(0x1_0000_0000) && value == 2216779476 && m == 1108389738
    ensures Misleads(t, value, 2, m)
  {
    assert Pow(m, 2) == m * Pow(m, 1) && Pow(m, 1) == m * Pow(m, 0);
  }

  lemma RecoveredRoot(t: IntType, value: nat, l: nat, r: nat) returns (root: nat)
    requires t == Unsigned(0x1_0000_0000) && l < r < 0x1_0000
    requires l * l <= value < r * r && t.Holds(value)
    ensures Returns(t, value, 2, Interval(l, r), root) && IsRoot(value, 2, root)
  {
    assert Pow(l, 2) == l * Pow(l, 1) && Pow(l, 1) == l * Pow(l, 0);
    assert Pow(r, 2) == r * Pow(r, 1) && Pow(r, 1) == r * Pow(r, 0);
    MulMono(r, 0xFFFF, r);
    root := Search(t, value, 2, l, r);
    var k := LoopIsSearch(t, value, 2, l, r);
    SmallPowersDoNotMislead(t, value, 2, l, r);
    SearchIsRightExactly(t, value, 2, l, r);
  }
}
