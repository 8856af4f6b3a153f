/** The warp reduction by shuffles with halving offsets. What `shflDown` returns for a source lane
    outside the warp is left open: `junk` may depend on all lanes, the offset and the lane. */
module WarpSum {
  import opened Arith
  import opened Sums

  type Junk = (seq<int>, nat, nat) -> int

  function ShuffleDown(value: seq<int>, offset: nat, lane: nat, junk: Junk): int {
    if lane + offset < |value| then value[lane + offset] else junk(value, offset, lane)
  }

  /** One synchronous exchange: every lane adds what it receives from `offset` lanes up. */
  function Exchanged(value: seq<int>, offset: nat, junk: Junk): (r: seq<int>)
    ensures |r| == |value|
  {
    seq(|value|, lane requires 0 <= lane < |value| => value[lane] + ShuffleDown(value, offset, lane, junk))
  }

  function Reduced(value: seq<int>, offset: nat, junk: Junk): (r: seq<int>)
    ensures |r| == |value|
    decreases offset
  {
    if offset == 0 then value else Reduced(Exchanged(value, offset, junk), offset / 2, junk)
  }

  /** The sum of the lanes at distance step from each other, from lane on. */
  function StrideSum(s: seq<int>, lane: nat, step: nat): int
    requires step > 0
    decreases |s| - lane
  {
    if lane >= |s| then 0 else s[lane] + StrideSum(s, lane + step, step)
  }

  lemma {:induction false} HalvedStride(s: seq<int>, lane: nat, half: nat)
    requires half > 0
    ensures StrideSum(s, lane, half) == StrideSum(s, lane, 2 * half) + StrideSum(s, lane + half, 2 * half)
    decreases |s| - lane
  {
    if lane < |s| {
      HalvedStride(s, lane + half, half);
    }
  }

  lemma {:induction false} UnitStride(s: seq<int>, lane: nat)
    requires lane <= |s|
    ensures StrideSum(s, lane, 1) == Seg(s, lane, |s|)
    decreases |s| - lane
  {
    if lane < |s| {
      UnitStride(s, lane + 1);
      SegSplit(s, lane, lane + 1, |s|);
      assert Seg(s, lane, lane + 1) == s[lane];
    }
  }

  /** With `width` partial sums left, each of the first `width` lanes holds the sum over the
      lanes congruent to it. */
  ghost predicate Folded(s: seq<int>, value: seq<int>, width: nat)
    requires width > 0
  {
    |value| == |s| && width <= |s| && forall lane :: 0 <= lane < width ==> value[lane] == StrideSum(s, lane, width)
  }

  lemma FoldOnce(s: seq<int>, value: seq<int>, half: nat, junk: Junk)
    requires half > 0 && Folded(s, value, 2 * half)
    ensures Folded(s, Exchanged(value, half, junk), half)
  {
    forall lane | 0 <= lane < half ensures Exchanged(value, half, junk)[lane] == StrideSum(s, lane, half) {
      HalvedStride(s, lane, half);
    }
  }

  lemma {:induction false} FoldAll(s: seq<int>, value: seq<int>, width: nat, junk: Junk)
    requires IsPow2(width) && Folded(s, value, width)
    ensures Reduced(value, width / 2, junk)[0] == Seg(s, 0, |s|)
    decreases width
  {
    if width == 1 {
      UnitStride(s, 0);
    } else {
      FoldOnce(s, value, width / 2, junk);
      FoldAll(s, Exchanged(value, width / 2, junk), width / 2, junk);
    }
  }

  /** For a power of two, lane 0 ends up with the sum of the warp, whatever the junk. */
  lemma LaneZeroHoldsSum(s: seq<int>, junk: Junk)
    requires IsPow2(|s|)
    ensures Reduced(s, |s| / 2, junk)[0] == Seg(s, 0, |s|)
  {
    forall lane | 0 <= lane < |s| ensures s[lane] == StrideSum(s, lane, |s|) {
      assert StrideSum(s, lane + |s|, |s|) == 0;
    }
    FoldAll(s, s, |s|, junk);
  }

  // ---- No other warp size works ----

  function OwnValue(value: seq<int>, offset: nat, lane: nat): int {
    if lane < |value| then value[lane] else 0
  }

  function Same(n: nat, c: int): (r: seq<int>)
    ensures |r| == n
  {
    seq(n, _ => c)
  }

  lemma {:induction false} EqualLanesDouble(n: nat, c: nat, offset: nat) returns (r: nat)
    requires n > 0 && IsPow2(c)
    ensures IsPow2(r) && Reduced(Same(n, c), offset, OwnValue)[0] == r
    decreases offset
  {
    r := c;
    if offset > 0 {
      assert Exchanged(Same(n, c), offset, OwnValue) == Same(n, 2 * c);
      DoublePow2(c);
      r := EqualLanesDouble(n, 2 * c, offset / 2);
    }
  }

  lemma {:induction false} SumOfSame(n: nat, k: nat)
    requires k <= n
    ensures Seg(Same(n, 1), 0, k) == k
  {
    if k > 0 {
      SumOfSame(n, k - 1);
    }
  }

  ghost predicate Correct(s: seq<int>, junk: Junk) {
    |s| > 0 ==> Reduced(s, |s| / 2, junk)[0] == Seg(s, 0, |s|)
  }

  /** The warp sizes for which the reduction is right on all inputs are the powers of two. */
  lemma RightExactlyForPowersOfTwo(size: nat)
    requires size > 0
    ensures IsPow2(size) <==> forall s: seq<int>, junk: Junk :: |s| == size ==> Correct(s, junk)
  {
    if IsPow2(size) {
      forall s: seq<int>, junk: Junk | |s| == size ensures Correct(s, junk) {
        LaneZeroHoldsSum(s, junk);
      }
    }
    if forall s: seq<int>, junk: Junk :: |s| == size ==> Correct(s, junk) {
      assert Correct(Same(size, 1), OwnValue);
      SumOfSame(size, size);
      var sum := EqualLanesDouble(size, 1, size / 2);
    }
  }

  // ---- The kernel ----

  /** The shuffle reads every lane's register before any of them changes. */
  method Shuffle(value: seq<int>, offset: nat, junk: Junk) returns (received: array<int>)
    ensures fresh(received) && received.Length == |value|
    ensures forall k :: 0 <= k < |value| ==> received[k] == ShuffleDown(value, offset, k, junk)
  {
    received := new int[|value|];
    for lane := 0 to |value|
      invariant forall k :: 0 <= k < lane ==> received[k] == ShuffleDown(value, offset, k, junk)
    {
      received[lane] := ShuffleDown(value, offset, lane, junk);
    }
  }

  /** The lanes add what they received, in any order. */
  method AddReceived(value: array<int>, received: array<int>)
    requires received.Length == value.Length && received != value
    modifies value
    ensures forall k :: 0 <= k < value.Length ==> value[k] == old(value[k]) + received[k]
  {
    var todo := Range(0, value.Length);
    while todo != {}
      invariant todo <= Range(0, value.Length)
      invariant forall k :: 0 <= k < value.Length ==> value[k] == old(value[k]) + if k in todo then 0 else received[k]
      decreases todo
    {
      var lane: nat :| lane in todo;
      value[lane] := value[lane] + received[lane];
      todo := todo - {lane};
    }
  }

  method Exchange(value: array<int>, offset: nat, junk: Junk)
    modifies value
    ensures value[..] == Exchanged(old(value[..]), offset, junk)
  {
    var received := Shuffle(value[..], offset, junk);
    AddReceived(value, received);
  }

  method ReduceWarp(input: array<int>, blockBase: nat, warpSize: nat, junk: Junk) returns (value: int)
    requires IsPow2(warpSize) && blockBase + warpSize <= input.Length
    ensures value == Seg(input[..], blockBase, blockBase + warpSize)
  {
    var lanes := new int[warpSize];
    for lane := 0 to warpSize
      invariant forall k :: 0 <= k < lane ==> lanes[k] == input[blockBase + k]
    {
      lanes[lane] := input[blockBase + lane];
    }
    ghost var s := input[blockBase..blockBase + warpSize];
    assert lanes[..] == s;
    var offset: nat := warpSize / 2;
    while offset > 0
      invariant lanes.Length == warpSize && input != lanes && fresh(lanes)
      invariant input[..] == old(input[..])
      invariant Reduced(lanes[..], offset, junk) == Reduced(s, warpSize / 2, junk)
    {
      Exchange(lanes, offset, junk);
      offset := offset / 2;
    }
    LaneZeroHoldsSum(s, junk);
    SegShift(s, input[..], blockBase, 0, warpSize);
    value := lanes[0];
    assert value == lanes[..][0] == Reduced(s, warpSize / 2, junk)[0];
    assert value == Seg(s, 0, warpSize);
    assert Seg(input[..], 0 + blockBase, warpSize + blockBase) == value;
  }

  lemma WarpInside(w: nat, warps: nat, warpSize: nat)
    requires w < warps && warpSize > 0
    ensures 0 <= w * warpSize && w * warpSize + warpSize <= warps * warpSize && w * warpSize / warpSize == w
  {
    MulNonNeg(w, warpSize);
    MulMono(w + 1, warps, warpSize);
    Distribute(warpSize, w, 1);
    DivModUnique(w * warpSize, warpSize, w, 0);
  }

  /** The sums of consecutive blocks of the input. */
  function BlockSums(input: seq<int>, warpSize: nat, warps: nat): (r: seq<int>)
    requires |input| == warps * warpSize && warpSize > 0
    ensures |r| == warps
  {
    seq(warps, w requires 0 <= w < warps =>
      WarpInside(w, warps, warpSize); Seg(input, w * warpSize, w * warpSize + warpSize))
  }

  method RunWarp(input: array<int>, out: array<int>, warpSize: nat, w: nat, junk: Junk)
    requires IsPow2(warpSize) && input.Length == out.Length * warpSize && out != input && w < out.Length
    modifies out
    ensures out[..] == old(out[..])[w := BlockSums(input[..], warpSize, out.Length)[w]]
  {
    WarpInside(w, out.Length, warpSize);
    var blockBase := w * warpSize;
    var value := ReduceWarp(input, blockBase, warpSize, junk);
    out[blockBase / warpSize] := value;
  }

  /** The warps of the grid take their blocks of the input in any order. */
  method WarpSumKernel(input: array<int>, out: array<int>, warpSize: nat, junk: Junk)
    requires IsPow2(warpSize) && input.Length == out.Length * warpSize && out != input
    modifies out
    ensures out[..] == BlockSums(input[..], warpSize, out.Length)
  {
    ghost var sums := BlockSums(input[..], warpSize, out.Length);
    var todo := Range(0, out.Length);
    while todo != {}
      invariant todo <= Range(0, out.Length) && input[..] == old(input[..])
      invariant forall w: nat :: w < out.Length && w !in todo ==> out[w] == sums[w]
      decreases todo
    {
      var w: nat :| w in todo;
      ghost var before := out[..];
      RunWarp(input, out, warpSize, w, junk);
      todo := todo - {w};
      assert forall k :: 0 <= k < out.Length ==> out[k] == before[w := sums[w]][k];
    }
  }
}
