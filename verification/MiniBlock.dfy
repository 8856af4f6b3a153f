/** Per-thread scan of a mini block held in registers (example/scan/src/scan_improved.hpp):
    the sequential in-place form of both sweeps. */
module MiniBlock {
  import opened Arith
  import opened Sums
  import opened Sweeps

  /** Everything outside the mini block keeps its value. */
  twostate predicate KeptOutside(block: array<int>, base: nat, n: nat)
    reads block
  {
    forall x :: 0 <= x < block.Length && !(base <= x < base + n) ==> block[x] == old(block[x])
  }

  /** Assigning inside the mini block updates its contents at one position. */
  lemma Assigned(before: seq<int>, block: array<int>, base: nat, n: nat, k: nat, v: int)
    requires base + n <= block.Length && k < n && |before| == block.Length
    requires block[..] == before[base + k := v]
    ensures block[base..base + n] == before[base..base + n][k := v]
  {
  }

  method Add(block: array<int>, base: nat, n: nat, left: nat, right: nat)
    requires base + n <= block.Length && left < right < n
    modifies block
    ensures block[base..base + n] == AddAt(old(block[base..base + n]), left, right)
    ensures KeptOutside(block, base, n)
  {
    ghost var before := block[..];
    block[base + right] := block[base + right] + block[base + left];
    Assigned(before, block, base, n, right, before[base + right] + before[base + left]);
  }

  method Exchange(block: array<int>, base: nat, n: nat, left: nat, right: nat)
    requires base + n <= block.Length && left < right < n
    modifies block
    ensures block[base..base + n] == ExchangeAt(old(block[base..base + n]), left, right)
    ensures KeptOutside(block, base, n)
  {
    ghost var before := block[..];
    var t := block[base + left];
    block[base + left] := block[base + right];
    Assigned(before, block, base, n, left, before[base + right]);
    before := block[..];
    block[base + right] := block[base + right] + t;
    Assigned(before, block, base, n, right, before[base + right] + t);
  }

  method UpSweepLevel(block: array<int>, base: nat, n: nat, d: nat, offset: nat)
    requires base + n <= block.Length && offset > 0 && n == 2 * offset * d
    modifies block
    ensures block[base..base + n] == UpLevel(old(block[base..base + n]), offset)
    ensures KeptOutside(block, base, n)
  {
    ghost var s := block[base..base + n];
    PartialEnds(s, UpLevel(s, offset), offset, d);
    var frameElem := 0;
    ghost var j := 0;
    while frameElem < 2 * d
      invariant frameElem == 2 * j && 0 <= j <= d
      invariant block[base..base + n] == Partial(s, UpLevel(s, offset), offset, Range(j, d))
      invariant KeptOutside(block, base, n)
    {
      UpItem(s, offset, d, j, Range(j, d));
      assert Range(j, d) - {j} == Range(j + 1, d);
      var left := offset * (frameElem + 1) - 1;
      var right := offset * (frameElem + 2) - 1;
      SlotExpressions(offset, frameElem, j);
      Add(block, base, n, left, right);
      frameElem, j := frameElem + 2, j + 1;
    }
    assert Range(j, d) == {};
  }

  method DownSweepLevel(block: array<int>, base: nat, n: nat, d: nat, offset: nat)
    requires base + n <= block.Length && offset > 0 && n == 2 * offset * d
    modifies block
    ensures block[base..base + n] == DownLevel(old(block[base..base + n]), offset)
    ensures KeptOutside(block, base, n)
  {
    ghost var s := block[base..base + n];
    PartialEnds(s, DownLevel(s, offset), offset, d);
    var frameElem := 0;
    ghost var j := 0;
    while frameElem < 2 * d
      invariant frameElem == 2 * j && 0 <= j <= d
      invariant block[base..base + n] == Partial(s, DownLevel(s, offset), offset, Range(j, d))
      invariant KeptOutside(block, base, n)
    {
      DownItem(s, offset, d, j, Range(j, d));
      assert Range(j, d) - {j} == Range(j + 1, d);
      var left := offset * (frameElem + 1) - 1;
      var right := offset * (frameElem + 2) - 1;
      SlotExpressions(offset, frameElem, j);
      Exchange(block, base, n, left, right);
      frameElem, j := frameElem + 2, j + 1;
    }
    assert Range(j, d) == {};
  }

  method UpSweep(block: array<int>, base: nat, n: nat)
    requires IsPow2(n) && base + n <= block.Length
    modifies block
    ensures UpInvariant(block[base..base + n], old(block[base..base + n]), n)
    ensures KeptOutside(block, base, n)
  {
    ghost var a := block[base..base + n];
    UpStart(a);
    var d, offset := n / 2, 1;
    while d > 0
      invariant offset > 0 && IsPow2(offset) && UpInvariant(block[base..base + n], a, offset)
      invariant if d > 0 then IsPow2(d) && n == 2 * offset * d else offset == n
      invariant KeptOutside(block, base, n)
      decreases d
    {
      UpStep(block[base..base + n], a, offset);
      UpSweepLevel(block, base, n, d, offset);
      LevelUp(n, offset, d);
      d, offset := d / 2, offset * 2;
    }
  }

  method DownSweep(block: array<int>, base: nat, n: nat, ghost a: seq<int>)
    requires IsPow2(n) && base + n <= block.Length
    requires DownInvariant(block[base..base + n], a, n)
    modifies block
    ensures block[base..base + n] == PrefixSums(Exclusive, a)
    ensures KeptOutside(block, base, n)
  {
    var d, offset := 1, n / 2;
    ghost var top := n;
    while d < n
      invariant d > 0 && top > 0 && IsPow2(top) && n == d * top && offset == top / 2
      invariant DownInvariant(block[base..base + n], a, top)
      invariant KeptOutside(block, base, n)
      decreases top
    {
      LevelDown(n, top, d);
      DownStep(block[base..base + n], a, offset);
      DownSweepLevel(block, base, n, d, offset);
      top := offset;
      d, offset := d * 2, offset / 2;
    }
    LastLevel(n, top, d);
    DownEnd(block[base..base + n], a);
  }

  /** Mutating exclusive scan of a mini block; returns the sum of its original contents. */
  method ScanMiniBlock(block: array<int>, base: nat, n: nat) returns (sum: int)
    requires IsPow2(n) && base + n <= block.Length
    modifies block
    ensures block[base..base + n] == PrefixSums(Exclusive, old(block[base..base + n]))
    ensures sum == Seg(old(block[base..base + n]), 0, n)
    ensures KeptOutside(block, base, n)
  {
    ghost var a := block[base..base + n];
    UpSweep(block, base, n);
    DownStart(block[base..base + n], a);
    sum := block[base + n - 1];
    ghost var swept := block[..];
    block[base + n - 1] := 0;
    Assigned(swept, block, base, n, n - 1, 0);
    DownSweep(block, base, n, a);
  }

  /** Adds the sum of everything before the mini block to each of its elements. */
  method AddIncrements(block: array<int>, base: nat, n: nat, blockSum: int)
    requires base + n <= block.Length
    modifies block
    ensures forall x :: base <= x < base + n ==> block[x] == old(block[x]) + blockSum
    ensures KeptOutside(block, base, n)
  {
    for i := 0 to n
      invariant forall x :: base <= x < base + n ==>
                  block[x] == old(block[x]) + if x < base + i then blockSum else 0
      invariant KeptOutside(block, base, n)
    {
      block[base + i] := block[base + i] + blockSum;
    }
  }
}
