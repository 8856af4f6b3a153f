/** The sweeps at the granularity of single shared-memory accesses: whatever interleaving
    the threads of a block follow between two barriers, the chunk ends up scanned. */
module RaceFreeSweeps {
  import opened Arith
  import opened Sums
  import opened Sweeps
  import opened Interleaving
  import opened SharedScan

  /** tmp[right] += tmp[left] */
  function UpProgram(kind: DeviceKind, offset: nat, j: nat): Program
    requires offset > 0
  {
    var left := ConflictFreeAccess(kind, LeftSlot(offset, j));
    var right := ConflictFreeAccess(kind, RightSlot(offset, j));
    [Load(0, right), Load(1, left), Store(right, [0, 1])]
  }

  /** t = tmp[left]; tmp[left] = tmp[right]; tmp[right] += t */
  function DownProgram(kind: DeviceKind, offset: nat, j: nat): Program
    requires offset > 0
  {
    var left := ConflictFreeAccess(kind, LeftSlot(offset, j));
    var right := ConflictFreeAccess(kind, RightSlot(offset, j));
    [Load(0, left), Load(1, right), Store(left, [1]), Load(2, right), Store(right, [2, 0])]
  }

  function Level(down: bool, kind: DeviceKind, offset: nat, d: nat): seq<Program>
    requires offset > 0
  {
    seq(d, j requires 0 <= j < d => if down then DownProgram(kind, offset, j) else UpProgram(kind, offset, j))
  }

  /** An item touches exactly its two padded slots. */
  lemma Footprint(down: bool, kind: DeviceKind, offset: nat, d: nat, j: nat)
    requires offset > 0 && j < d
    ensures forall k :: 0 <= k < |Level(down, kind, offset, d)[j]| ==>
              Level(down, kind, offset, d)[j][k].slot in {ConflictFreeAccess(kind, LeftSlot(offset, j)),
                                                          ConflictFreeAccess(kind, RightSlot(offset, j))}
  {
  }

  lemma PaddedApart(kind: DeviceKind, p: nat, q: nat)
    requires p != q
    ensures ConflictFreeAccess(kind, p) != ConflictFreeAccess(kind, q)
  {
  }

  /** Distinct items of a level touch disjoint slots, all of them inside the padded array. */
  lemma LevelWellFormed(down: bool, kind: DeviceKind, n: nat, offset: nat, d: nat, size: nat)
    requires offset > 0 && n == 2 * offset * d && Fits(kind, n, size)
    ensures WellFormed(Level(down, kind, offset, d), size)
  {
    var progs := Level(down, kind, offset, d);
    forall i | 0 <= i < d
      ensures InBounds(progs[i], size)
    {
      ItemSlots(n, offset, d, i);
      Footprint(down, kind, offset, d, i);
      PaddingIncreases(kind, n - 1, LeftSlot(offset, i));
      PaddingIncreases(kind, n - 1, RightSlot(offset, i));
    }
    forall i, j | 0 <= i < d && 0 <= j < d && i != j
      ensures Apart(progs[i], progs[j])
    {
      Footprint(down, kind, offset, d, i);
      Footprint(down, kind, offset, d, j);
      ItemSlots(n, offset, d, i);
      ItemSlots(n, offset, d, j);
      PaddedApart(kind, LeftSlot(offset, i), LeftSlot(offset, j));
      PaddedApart(kind, LeftSlot(offset, i), RightSlot(offset, j));
      PaddedApart(kind, RightSlot(offset, i), LeftSlot(offset, j));
      PaddedApart(kind, RightSlot(offset, i), RightSlot(offset, j));
    }
  }

  /** One item alone performs its up-sweep addition, */
  lemma SoloUp(p: Program, mem: seq<int>, l: nat, r: nat)
    requires p == [Load(0, r), Load(1, l), Store(r, [0, 1])] && l < |mem| && r < |mem|
    ensures InBounds(p, |mem|) && Solo(p, mem, |p|).0 == mem[r := mem[r] + mem[l]]
  {
    var r0: Registers := map[];
    var r1 := r0[0 := mem[r]];
    var r2 := r1[1 := mem[l]];
    SoloStep(p, mem, 0, mem, r0);
    SoloStep(p, mem, 1, mem, r1);
    SoloStep(p, mem, 2, mem, r2);
    SmallRegSums(r2, 0, 1);
  }

  lemma SoloDownLeft(p: Program, mem: seq<int>, l: nat, r: nat)
    requires p == [Load(0, l), Load(1, r), Store(l, [1]), Load(2, r), Store(r, [2, 0])]
    requires l < |mem| && r < |mem|
    ensures InBounds(p, |mem|) && Solo(p, mem, 3) == (mem[l := mem[r]], map[0 := mem[l], 1 := mem[r]])
  {
    var r0: Registers := map[];
    var r1 := r0[0 := mem[l]];
    var r2 := r1[1 := mem[r]];
    SoloStep(p, mem, 0, mem, r0);
    SoloStep(p, mem, 1, mem, r1);
    SmallRegSums(r2, 1, 1);
    SoloStep(p, mem, 2, mem, r2);
  }

  /** or its down-sweep exchange. */
  lemma SoloDown(p: Program, mem: seq<int>, l: nat, r: nat)
    requires p == [Load(0, l), Load(1, r), Store(l, [1]), Load(2, r), Store(r, [2, 0])]
    requires l < |mem| && r < |mem| && l != r
    ensures InBounds(p, |mem|) && Solo(p, mem, |p|).0 == mem[l := mem[r]][r := mem[r] + mem[l]]
  {
    SoloDownLeft(p, mem, l, r);
    var m, regs: Registers := mem[l := mem[r]], map[0 := mem[l], 1 := mem[r]];
    SoloStep(p, mem, 3, m, regs);
    regs := regs[2 := mem[r]];
    SmallRegSums(regs, 2, 0);
    SoloStep(p, mem, 4, m, regs);
  }

  /** The slot of an item with its value after the item ran alone. */
  lemma SoloSlots(down: bool, kind: DeviceKind, offset: nat, d: nat, j: nat, mem: seq<int>)
    requires offset > 0 && j < d && LeftSlot(offset, j) < RightSlot(offset, j)
    requires ConflictFreeAccess(kind, RightSlot(offset, j)) < |mem|
    ensures var l, r := ConflictFreeAccess(kind, LeftSlot(offset, j)), ConflictFreeAccess(kind, RightSlot(offset, j));
            var p := Level(down, kind, offset, d)[j];
            && l < r && InBounds(p, |mem|)
            && p[if down then 0 else 1].slot == l && p[if down then 1 else 0].slot == r
            && Solo(p, mem, |p|).0[r] == mem[r] + mem[l]
            && Solo(p, mem, |p|).0[l] == if down then mem[r] else mem[l]
  {
    var l, r := ConflictFreeAccess(kind, LeftSlot(offset, j)), ConflictFreeAccess(kind, RightSlot(offset, j));
    PaddingIncreases(kind, LeftSlot(offset, j), RightSlot(offset, j));
    if down {
      SoloDown(DownProgram(kind, offset, j), mem, l, r);
    } else {
      SoloUp(UpProgram(kind, offset, j), mem, l, r);
    }
  }

  /** Every interleaving of a level has the effect of the level. */
  lemma LevelOutcome(down: bool, kind: DeviceKind, n: nat, offset: nat, d: nat, mem: seq<int>, after: seq<int>)
    requires offset > 0 && n == 2 * offset * d && Fits(kind, n, |mem|)
    requires Outcome(Level(down, kind, offset, d), mem, after)
    ensures |after| == |mem|
    ensures View(after, kind, n)
         == if down then DownLevel(View(mem, kind, n), offset) else UpLevel(View(mem, kind, n), offset)
  {
    var progs, s := Level(down, kind, offset, d), View(mem, kind, n);
    OutcomeIsSolo(progs, mem, after);
    forall p | 0 <= p < n
      ensures View(after, kind, n)[p] == if down then DownLevel(s, offset)[p] else UpLevel(s, offset)[p]
    {
      LevelOutcomeAt(down, kind, n, offset, d, mem, after, p);
    }
  }

  lemma LevelOutcomeAt(down: bool, kind: DeviceKind, n: nat, offset: nat, d: nat, mem: seq<int>, after: seq<int>,
                       p: nat)
    requires offset > 0 && n == 2 * offset * d && Fits(kind, n, |mem|) && p < n
    requires Outcome(Level(down, kind, offset, d), mem, after) && |after| == |mem|
    ensures View(after, kind, n)[p]
         == if down then DownLevel(View(mem, kind, n), offset)[p] else UpLevel(View(mem, kind, n), offset)[p]
  {
    var j := Owner(p, offset);
    OwnerInRange(p, n, offset, d);
    ItemSlots(n, offset, d, j);
    ItemEffect(View(mem, kind, n), offset, d, j, p);
    PaddingIncreases(kind, n - 1, p);
    if p == LeftSlot(offset, j) || p == RightSlot(offset, j) {
      TouchedSlots(down, kind, n, offset, d, mem, after, j);
    } else {
      UntouchedSlot(down, kind, n, offset, d, mem, after, p);
    }
  }

  lemma TouchedSlots(down: bool, kind: DeviceKind, n: nat, offset: nat, d: nat, mem: seq<int>, after: seq<int>, j: nat)
    requires offset > 0 && n == 2 * offset * d && Fits(kind, n, |mem|) && j < d
    requires Outcome(Level(down, kind, offset, d), mem, after) && |after| == |mem|
    ensures LeftSlot(offset, j) < RightSlot(offset, j) < n
    ensures var l, r := ConflictFreeAccess(kind, LeftSlot(offset, j)), ConflictFreeAccess(kind, RightSlot(offset, j));
            && l < r < |mem| && after[r] == mem[r] + mem[l] && after[l] == if down then mem[r] else mem[l]
  {
    ItemSlots(n, offset, d, j);
    PaddingIncreases(kind, n - 1, RightSlot(offset, j));
    SoloSlots(down, kind, offset, d, j, mem);
    OutcomeIsSolo(Level(down, kind, offset, d), mem, after);
  }

  lemma UntouchedSlot(down: bool, kind: DeviceKind, n: nat, offset: nat, d: nat, mem: seq<int>, after: seq<int>, p: nat)
    requires offset > 0 && n == 2 * offset * d && Fits(kind, n, |mem|) && p < n
    requires p != LeftSlot(offset, Owner(p, offset)) && p != RightSlot(offset, Owner(p, offset))
    requires Outcome(Level(down, kind, offset, d), mem, after) && |after| == |mem|
    ensures ConflictFreeAccess(kind, p) < |mem|
    ensures after[ConflictFreeAccess(kind, p)] == mem[ConflictFreeAccess(kind, p)]
  {
    var progs, x := Level(down, kind, offset, d), ConflictFreeAccess(kind, p);
    PaddingIncreases(kind, n - 1, p);
    forall i | 0 <= i < d
      ensures !Touches(progs[i], x)
    {
      ItemSlots(n, offset, d, i);
      Footprint(down, kind, offset, d, i);
      PaddedApart(kind, LeftSlot(offset, i), p);
      PaddedApart(kind, RightSlot(offset, i), p);
    }
    OutcomeIsSolo(progs, mem, after);
  }

  lemma OwnerInRange(p: nat, n: nat, offset: nat, d: nat)
    requires offset > 0 && n == 2 * offset * d && p < n
    ensures Owner(p, offset) < d
  {
  }

  /** The level-by-level runs of both sweeps, every level with its own interleaving. */
  ghost predicate UpSweepRun(kind: DeviceKind, d: nat, offset: nat, mem: seq<int>, after: seq<int>)
    requires offset > 0
    decreases d
  {
    if d == 0 then after == mem
    else exists mid ::
      Outcome(Level(false, kind, offset, d), mem, mid) && UpSweepRun(kind, d / 2, 2 * offset, mid, after)
  }

  ghost predicate DownSweepRun(kind: DeviceKind, n: nat, d: nat, offset: nat, mem: seq<int>, after: seq<int>)
    requires d > 0 && (d < n ==> offset > 0)
    decreases offset
  {
    if d >= n then after == mem
    else exists mid :: Outcome(Level(true, kind, offset, d), mem, mid)
                       && (2 * d < n ==> offset / 2 > 0)
                       && DownSweepRun(kind, n, 2 * d, offset / 2, mid, after)
  }

  /** One chunk: up-sweep, saving and clearing the last slot, down-sweep. */
  ghost predicate ChunkRun(kind: DeviceKind, n: nat, mem: seq<int>, total: int, after: seq<int>)
    requires IsPow2(n) && Fits(kind, n, |mem|)
  {
    exists up ::
      && UpSweepRun(kind, n / 2, 1, mem, up) && |up| == |mem|
      && total == up[ConflictFreeAccess(kind, n - 1)]
      && DownSweepRun(kind, n, 1, n / 2, up[ConflictFreeAccess(kind, n - 1) := 0], after)
  }

  lemma {:induction false} UpSweepScans(kind: DeviceKind, n: nat, d: nat, offset: nat, mem: seq<int>, after: seq<int>,
                                        a: seq<int>)
    requires Fits(kind, n, |mem|) && offset > 0 && IsPow2(offset) && UpSweepRun(kind, d, offset, mem, after)
    requires if d > 0 then IsPow2(d) && n == 2 * offset * d else offset == n
    requires UpInvariant(View(mem, kind, n), a, offset)
    ensures |after| == |mem| && IsPow2(n) && n > 0 && UpInvariant(View(after, kind, n), a, n)
    decreases d
  {
    if d > 0 {
      var mid :| Outcome(Level(false, kind, offset, d), mem, mid) && UpSweepRun(kind, d / 2, 2 * offset, mid, after);
      LevelOutcome(false, kind, n, offset, d, mem, mid);
      UpStep(View(mem, kind, n), a, offset);
      LevelUp(n, offset, d);
      UpSweepScans(kind, n, d / 2, 2 * offset, mid, after, a);
    }
  }

  lemma {:induction false} DownSweepScans(kind: DeviceKind, n: nat, d: nat, top: nat, mem: seq<int>, after: seq<int>,
                                          a: seq<int>)
    requires Fits(kind, n, |mem|) && d > 0 && top > 0 && IsPow2(top) && n == d * top && (d < n ==> top / 2 > 0)
    requires DownSweepRun(kind, n, d, top / 2, mem, after)
    requires DownInvariant(View(mem, kind, n), a, top)
    ensures |after| == |mem| && View(after, kind, n) == PrefixSums(Exclusive, a)
    decreases top
  {
    if d >= n {
      LastLevel(n, top, d);
      DownEnd(View(mem, kind, n), a);
    } else {
      LevelDown(n, top, d);
      var offset := top / 2;
      var mid :| Outcome(Level(true, kind, offset, d), mem, mid) && (2 * d < n ==> offset / 2 > 0)
                 && DownSweepRun(kind, n, 2 * d, offset / 2, mid, after);
      LevelOutcome(true, kind, n, offset, d, mem, mid);
      DownStep(View(mem, kind, n), a, offset);
      DownSweepScans(kind, n, 2 * d, offset, mid, after, a);
    }
  }

  /** Saving and clearing the last slot of a padded, swept chunk. */
  lemma Cleared(kind: DeviceKind, n: nat, up: seq<int>, a: seq<int>)
    requires IsPow2(n) && n > 0 && Fits(kind, n, |up|) && UpInvariant(View(up, kind, n), a, n)
    ensures up[ConflictFreeAccess(kind, n - 1)] == Seg(a, 0, n)
    ensures DownInvariant(View(up[ConflictFreeAccess(kind, n - 1) := 0], kind, n), a, n)
  {
    var s := View(up, kind, n);
    assert |s| == n && |a| == n;
    DownStart(s, a);
    ViewWrite(up, kind, n, n - 1, 0);
  }

  /** For every power-of-two length, every device padding and every interleaving of the
      threads' accesses between barriers, the chunk becomes its exclusive prefix sum and the
      saved total is its sum. */
  lemma EveryInterleavingScans(kind: DeviceKind, n: nat, mem: seq<int>, total: int, after: seq<int>)
    requires IsPow2(n) && Fits(kind, n, |mem|) && ChunkRun(kind, n, mem, total, after)
    ensures |after| == |mem| && View(after, kind, n) == PrefixSums(Exclusive, View(mem, kind, n))
    ensures total == Seg(View(mem, kind, n), 0, n)
  {
    var a := View(mem, kind, n);
    var up :| && UpSweepRun(kind, n / 2, 1, mem, up) && |up| == |mem|
              && total == up[ConflictFreeAccess(kind, n - 1)]
              && DownSweepRun(kind, n, 1, n / 2, up[ConflictFreeAccess(kind, n - 1) := 0], after);
    UpStart(a);
    assert IsPow2(1);
    var d := n / 2;
    assert if d > 0 then IsPow2(d) && n == 2 * 1 * d else 1 == n;
    UpSweepScans(kind, n, d, 1, mem, up, a);
    Cleared(kind, n, up, a);
    DownSweepScans(kind, n, 1, n, up[ConflictFreeAccess(kind, n - 1) := 0], after, a);
  }

  lemma {:induction false} UpSweepRuns(kind: DeviceKind, n: nat, d: nat, offset: nat, mem: seq<int>)
    returns (after: seq<int>)
    requires Fits(kind, n, |mem|) && offset > 0
    requires if d > 0 then IsPow2(d) && n == 2 * offset * d else offset == n
    ensures UpSweepRun(kind, d, offset, mem, after) && |after| == |mem|
    decreases d
  {
    if d == 0 {
      after := mem;
    } else {
      LevelWellFormed(false, kind, n, offset, d, |mem|);
      OutcomeExistsUniquely(Level(false, kind, offset, d), mem);
      var mid :| Outcome(Level(false, kind, offset, d), mem, mid);
      LevelOutcome(false, kind, n, offset, d, mem, mid);
      LevelUp(n, offset, d);
      after := UpSweepRuns(kind, n, d / 2, 2 * offset, mid);
    }
  }

  lemma {:induction false} DownSweepRuns(kind: DeviceKind, n: nat, d: nat, top: nat, mem: seq<int>)
    returns (after: seq<int>)
    requires Fits(kind, n, |mem|) && d > 0 && top > 0 && IsPow2(top) && n == d * top && (d < n ==> top / 2 > 0)
    ensures DownSweepRun(kind, n, d, top / 2, mem, after)
    decreases top
  {
    if d >= n {
      after := mem;
    } else {
      LevelDown(n, top, d);
      LevelWellFormed(true, kind, n, top / 2, d, |mem|);
      OutcomeExistsUniquely(Level(true, kind, top / 2, d), mem);
      var mid :| Outcome(Level(true, kind, top / 2, d), mem, mid);
      LevelOutcome(true, kind, n, top / 2, d, mem, mid);
      if 2 * d < n {
        LevelDown(n, top / 2, 2 * d);
      }
      after := DownSweepRuns(kind, n, 2 * d, top / 2, mid);
    }
  }

  /** The statement above is not vacuous: every chunk has a run. */
  lemma ChunkRunExists(kind: DeviceKind, n: nat, mem: seq<int>)
    requires IsPow2(n) && Fits(kind, n, |mem|)
    ensures exists total, after :: ChunkRun(kind, n, mem, total, after)
  {
    var up := UpSweepRuns(kind, n, n / 2, 1, mem);
    var cleared := up[ConflictFreeAccess(kind, n - 1) := 0];
    var after := DownSweepRuns(kind, n, 1, n, cleared);
    assert ChunkRun(kind, n, mem, up[ConflictFreeAccess(kind, n - 1)], after);
  }
}
