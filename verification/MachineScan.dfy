/** The whole recursive scan of example/scan/src/scan.hpp on the machine of single accesses: every
    kernel it launches may interleave in any way, and the result is the prefix sum all the same. */
module MachineScan {
  import opened Arith
  import opened Sums
  import opened BlockScans
  import opened Interleaving
  import opened SharedScan
  import opened GridMachine
  import opened GridScan
  import RecursiveScan

  // ---- The increment kernel ----

  /** One SIMD pack: its elements are loaded, then the increment of its first element, then the
      sums are stored. The output starts the memory, the increments lie behind its n elements. */
  function PackProgram(chunk: nat, n: nat, first: nat, width: nat): Program
    requires chunk > 0
  {
    seq(2 * width + 1, k requires 0 <= k < 2 * width + 1 =>
      if k < width then Load(k, first + k)
      else if k == width then Load(width, n + ChunkOf(first, chunk))
      else Store(first + (k - width - 1), [k - width - 1, width]))
  }

  /** The first `packs` items take packs of `width`, the remaining elements are taken singly. */
  function ItemStart(width: nat, packs: nat, j: nat): nat {
    if j < packs then Base(j, width) else Base(packs, width) + (j - packs)
  }

  function ItemWidth(width: nat, packs: nat, j: nat): nat {
    if j < packs then width else 1
  }

  function IncrementItems(chunk: nat, n: nat, width: nat, packs: nat): seq<Program>
    requires chunk > 0 && Base(packs, width) <= n
  {
    var count := packs + (n - Base(packs, width));
    seq(count, j requires 0 <= j < count =>
      PackProgram(chunk, n, ItemStart(width, packs, j), ItemWidth(width, packs, j)))
  }

  lemma ItemsInOrder(width: nat, packs: nat, i: nat, j: nat)
    requires i < j
    ensures ItemStart(width, packs, i) + ItemWidth(width, packs, i) <= ItemStart(width, packs, j)
  {
    BaseMono(i, j, width);
    BaseMono(i, packs, width);
  }

  lemma ItemInside(n: nat, width: nat, packs: nat, j: nat)
    requires Base(packs, width) <= n && j < packs + (n - Base(packs, width))
    ensures ItemStart(width, packs, j) + ItemWidth(width, packs, j) <= n
  {
    BaseMono(j, packs, width);
  }

  lemma IncrementWellFormed(chunk: nat, n: nat, width: nat, packs: nat, size: nat)
    requires chunk > 0 && width > 0 && Base(packs, width) <= n && n + DivCeil(n, chunk) <= size
    ensures WellFormed(IncrementItems(chunk, n, width, packs), size)
  {
    var items: seq<Program> := IncrementItems(chunk, n, width, packs);
    RecursiveScan.ChunksInRange(n, chunk);
    forall i: nat, j: nat | i < |items| && j < |items| && i != j ensures Apart(items[i], items[j]) {
      ItemInside(n, width, packs, i);
      ItemInside(n, width, packs, j);
      if i < j { ItemsInOrder(width, packs, i, j); } else { ItemsInOrder(width, packs, j, i); }
    }
    forall i: nat | i < |items| ensures InBounds(items[i], size) {
      ItemInside(n, width, packs, i);
      assert ChunkOf(ItemStart(width, packs, i), chunk) < DivCeil(n, chunk);
    }
  }

  ghost predicate LoadedLanes(regs: Registers, mem: seq<int>, first: nat, lanes: nat) {
    first + lanes <= |mem| && forall i: nat :: i < lanes ==> i in regs && regs[i] == mem[first + i]
  }

  lemma {:induction false} PackLoads(p: Program, mem: seq<int>, chunk: nat, n: nat, first: nat, width: nat, k: nat)
    requires chunk > 0 && p == PackProgram(chunk, n, first, width) && InBounds(p, |mem|) && first + width <= |mem|
    requires k <= width
    ensures Solo(p, mem, k).0 == mem && LoadedLanes(Solo(p, mem, k).1, mem, first, k)
  {
    if k > 0 {
      PackLoads(p, mem, chunk, n, first, width, k - 1);
      var regs := Solo(p, mem, k - 1).1;
      assert p[k - 1] == Load(k - 1, first + (k - 1));
      SoloStep(p, mem, k - 1, mem, regs);
    }
  }

  lemma PackLoaded(p: Program, mem: seq<int>, chunk: nat, n: nat, first: nat, width: nat)
    requires chunk > 0 && p == PackProgram(chunk, n, first, width) && InBounds(p, |mem|) && first + width <= |mem|
    ensures n + ChunkOf(first, chunk) < |mem| && Solo(p, mem, width + 1).0 == mem
    ensures var regs := Solo(p, mem, width + 1).1;
            LoadedLanes(regs, mem, first, width) && width in regs && regs[width] == mem[n + ChunkOf(first, chunk)]
  {
    PackLoads(p, mem, chunk, n, first, width, width);
    var regs := Solo(p, mem, width).1;
    assert p[width] == Load(width, n + ChunkOf(first, chunk));
    SoloStep(p, mem, width, mem, regs);
  }

  function Added(mem: seq<int>, first: nat, lanes: nat, increment: int): (r: seq<int>)
    requires first + lanes <= |mem|
    ensures |r| == |mem|
  {
    seq(|mem|, i requires 0 <= i < |mem| => if first <= i < first + lanes then mem[i] + increment else mem[i])
  }

  lemma AddedNext(mem: seq<int>, first: nat, k: nat, increment: int)
    requires 0 < k && first + k <= |mem|
    ensures Added(mem, first, k, increment) ==
      Added(mem, first, k - 1, increment)[first + (k - 1) := mem[first + (k - 1)] + increment]
  {
  }

  lemma PackStoreStep(p: Program, mem: seq<int>, chunk: nat, n: nat, first: nat, width: nat, k: nat, at: nat,
                      regs: Registers)
    requires chunk > 0 && p == PackProgram(chunk, n, first, width) && InBounds(p, |mem|) && first + width <= |mem|
    requires 0 < k <= width && at == width + 1 + k && n + ChunkOf(first, chunk) < |mem|
    requires LoadedLanes(regs, mem, first, width) && width in regs && regs[width] == mem[n + ChunkOf(first, chunk)]
    requires Solo(p, mem, at - 1) == (Added(mem, first, k - 1, regs[width]), regs)
    ensures Solo(p, mem, at) == (Added(mem, first, k, regs[width]), regs)
  {
    assert p[at - 1] == Store(first + (k - 1), [k - 1, width]);
    SmallRegSums(regs, k - 1, width);
    SoloStep(p, mem, at - 1, Added(mem, first, k - 1, regs[width]), regs);
    AddedNext(mem, first, k, regs[width]);
  }

  lemma {:induction false} PackStores(p: Program, mem: seq<int>, chunk: nat, n: nat, first: nat, width: nat, k: nat,
                                      at: nat)
    requires chunk > 0 && p == PackProgram(chunk, n, first, width) && InBounds(p, |mem|) && first + width <= |mem|
    requires k <= width && at == width + 1 + k
    ensures n + ChunkOf(first, chunk) < |mem|
    ensures Solo(p, mem, at) == (Added(mem, first, k, mem[n + ChunkOf(first, chunk)]), Solo(p, mem, width + 1).1)
  {
    PackLoaded(p, mem, chunk, n, first, width);
    if k == 0 {
      assert Added(mem, first, 0, mem[n + ChunkOf(first, chunk)]) == mem;
    } else {
      PackStores(p, mem, chunk, n, first, width, k - 1, at - 1);
      PackStoreStep(p, mem, chunk, n, first, width, k, at, Solo(p, mem, width + 1).1);
    }
  }

  /** The item that handles element i. */
  function ItemOf(width: nat, packs: nat, i: nat): nat
    requires width > 0
  {
    if i < Base(packs, width) then ChunkOf(i, width) else packs + (i - Base(packs, width))
  }

  lemma ItemOfElement(chunk: nat, n: nat, width: nat, packs: nat, i: nat)
    requires chunk > 0 && width > 0 && chunk % width == 0 && Base(packs, width) <= n && i < n
    ensures var j := ItemOf(width, packs, i);
            && j < packs + (n - Base(packs, width))
            && ItemStart(width, packs, j) <= i < ItemStart(width, packs, j) + ItemWidth(width, packs, j)
            && ChunkOf(ItemStart(width, packs, j), chunk) == ChunkOf(i, chunk)
  {
    if i < Base(packs, width) {
      var j := ChunkOf(i, width);
      ChunkBounds(i, width, j);
      BaseMono(packs, j, width);
      RecursiveScan.PackInChunk(chunk, width, j, i);
    }
  }

  lemma PackTouches(p: Program, chunk: nat, n: nat, first: nat, width: nat, i: nat)
    requires chunk > 0 && p == PackProgram(chunk, n, first, width) && first <= i < first + width
    ensures Touches(p, i)
  {
    assert p[width + 1 + (i - first)].slot == i;
  }

  lemma PackEnds(p: Program, mem: seq<int>, chunk: nat, n: nat, first: nat, width: nat)
    requires chunk > 0 && p == PackProgram(chunk, n, first, width) && InBounds(p, |mem|) && first + width <= |mem|
    ensures n + ChunkOf(first, chunk) < |mem|
    ensures Solo(p, mem, |p|).0 == Added(mem, first, width, mem[n + ChunkOf(first, chunk)])
  {
    PackStores(p, mem, chunk, n, first, width, width, |p|);
  }

  lemma PackAlone(p: Program, mem: seq<int>, chunk: nat, n: nat, first: nat, width: nat, i: nat)
    requires chunk > 0 && p == PackProgram(chunk, n, first, width) && InBounds(p, |mem|)
    requires first <= i < first + width <= |mem|
    ensures n + ChunkOf(first, chunk) < |mem| && Touches(p, i)
    ensures Solo(p, mem, |p|).0[i] == mem[i] + mem[n + ChunkOf(first, chunk)]
  {
    PackTouches(p, chunk, n, first, width, i);
    PackEnds(p, mem, chunk, n, first, width);
  }

  /** Every interleaving of the packs adds to each element the increment of its own chunk. */
  lemma IncrementOutcome(chunk: nat, width: nat, packs: nat, s: seq<int>, blockSums: seq<int>, after: seq<int>, i: nat)
    requires chunk > 0 && width > 0 && chunk % width == 0 && Base(packs, width) <= |s|
    requires |blockSums| == DivCeil(|s|, chunk)
    requires Outcome(IncrementItems(chunk, |s|, width, packs), s + blockSums, after) && i < |s|
    ensures |after| == |s| + |blockSums| && ChunkOf(i, chunk) < |blockSums|
    ensures after[i] == s[i] + blockSums[ChunkOf(i, chunk)]
  {
    var mem, n, j := s + blockSums, |s|, ItemOf(width, packs, i);
    var items := IncrementItems(chunk, n, width, packs);
    OutcomeIsSolo(items, mem, after);
    RecursiveScan.ChunksInRange(n, chunk);
    ItemOfElement(chunk, n, width, packs, i);
    ItemInside(n, width, packs, j);
    PackAlone(items[j], mem, chunk, n, ItemStart(width, packs, j), ItemWidth(width, packs, j), i);
    OutcomeAt(items, mem, after, j, i);
  }

  // ---- The recursion ----

  /** Some run of the scan kernel turns s into r, saving the chunk sums if asked to; any number of
      blocks may take the chunks, and the buffers may lie anywhere in global memory, the output in
      place of the input or behind it. */
  ghost predicate KernelRun(scanType: ScanType, kind: DeviceKind, chunk: nat, s: seq<int>, r: seq<int>,
                            withSums: bool, sums: seq<int>) {
    exists l: Launch, dealt, shared, global, after ::
      LaunchRun(l, dealt, shared, global, after, scanType, kind, chunk, s, r, withSums, sums)
  }

  ghost predicate LaunchRun(l: Launch, dealt: seq<seq<nat>>, shared: seq<seq<int>>, global: seq<int>, after: seq<int>,
                            scanType: ScanType, kind: DeviceKind, chunk: nat, s: seq<int>, r: seq<int>,
                            withSums: bool, sums: seq<int>)
  {
    && l == Launch(scanType, kind, chunk, |s|, l.at, l.sumsAt, withSums) && l.Valid(|global|) && global[..|s|] == s
    && Dealt(l, dealt) && GridOutcome(Kernel(l, dealt), l.Shared(), shared, global, after) && |after| == |global|
    && r == after[l.at..l.at + |s|] && (withSums ==> sums == after[l.sumsAt..l.sumsAt + l.NumChunks()])
  }

  ghost predicate IncrementRun(chunk: nat, width: nat, s: seq<int>, blockSums: seq<int>, r: seq<int>) {
    && chunk > 0
    && exists packs: nat, after: seq<int> ::
      && Base(packs, width) <= |s| <= |after|
      && Outcome(IncrementItems(chunk, |s|, width, packs), s + blockSums, after) && r == after[..|s|]
  }

  /** Some run of the recursive scan turns s into r. The sums are always fewer than the elements
      (KernelRunScans, DivCeilShrinks); saying so only makes the recursion well-founded. */
  ghost predicate ScanRun(scanType: ScanType, kind: DeviceKind, chunk: nat, width: nat, s: seq<int>, r: seq<int>)
    requires IsPow2(chunk) && chunk > 1
    decreases |s|
  {
    if DivCeil(|s|, chunk) <= 1 then KernelRun(scanType, kind, chunk, s, r, false, [])
    else
      exists mid: seq<int>, sums: seq<int>, scanned: seq<int> ::
        && KernelRun(scanType, kind, chunk, s, mid, true, sums)
        && |sums| < |s| && ScanRun(Exclusive, kind, chunk, width, sums, scanned)
        && IncrementRun(chunk, width, mid, scanned, r)
  }

  /** Every launch counts: any dealing of the chunks, any placement of the buffers in which the
      output is the input or lies behind it and the sums behind both, any complete schedule. */
  lemma EveryLaunchIsRun(l: Launch, dealt: seq<seq<nat>>, shared: seq<seq<int>>, global: seq<int>,
                         schedule: seq<Action>)
    requires IsPow2(l.chunk) && (l.at == 0 || l.at >= l.n) && l.at + l.n <= l.sumsAt && l.at + l.n <= |global|
    requires l.withSums ==> l.sumsAt + l.NumChunks() <= |global|
    requires Dealt(l, dealt) && |shared| == |dealt| && forall b :: 0 <= b < |shared| ==> |shared[b]| == l.Shared()
    ensures Starts(Kernel(l, dealt), l.Shared(), shared, global)
    ensures var g := RunGrid(Kernel(l, dealt), l.Shared(), shared, global, schedule);
            Complete(Kernel(l, dealt), g) ==>
              KernelRun(l.scanType, l.kind, l.chunk, global[..l.n], g.global[l.at..l.at + l.n], l.withSums,
                        if l.withSums then g.global[l.sumsAt..l.sumsAt + l.NumChunks()] else [])
  {
    KernelRaceFree(l, dealt, |global|);
    var g := RunGrid(Kernel(l, dealt), l.Shared(), shared, global, schedule);
    if Complete(Kernel(l, dealt), g) {
      CompleteRunIsOutcome(Kernel(l, dealt), l.Shared(), shared, global, schedule);
      var r := g.global[l.at..l.at + l.n];
      var sums := if l.withSums then g.global[l.sumsAt..l.sumsAt + l.NumChunks()] else [];
      assert LaunchRun(l, dealt, shared, global, g.global, l.scanType, l.kind, l.chunk, global[..l.n], r, l.withSums,
                       sums);
    }
  }

  /** So does every schedule of the increments, and every number of packs. */
  lemma EveryIncrementIsRun(chunk: nat, width: nat, packs: nat, s: seq<int>, blockSums: seq<int>, schedule: seq<nat>)
    requires chunk > 0 && width > 0 && Base(packs, width) <= |s| && |blockSums| == DivCeil(|s|, chunk)
    ensures WellFormed(IncrementItems(chunk, |s|, width, packs), |s + blockSums|)
    ensures var items := IncrementItems(chunk, |s|, width, packs);
            var m := Run(items, s + blockSums, schedule);
            (forall i :: 0 <= i < |items| ==> m.items[i].pc == |items[i]|) ==>
              IncrementRun(chunk, width, s, blockSums, m.mem[..|s|])
  {
    var items, mem := IncrementItems(chunk, |s|, width, packs), s + blockSums;
    IncrementWellFormed(chunk, |s|, width, packs, |mem|);
    var m := Run(items, mem, schedule);
    if forall i :: 0 <= i < |items| ==> m.items[i].pc == |items[i]| {
      FinishedRunIsOutcome(items, mem, schedule);
    }
  }

  /** And the recursion is put together from any such runs. */
  lemma RunsCompose(scanType: ScanType, kind: DeviceKind, chunk: nat, width: nat, s: seq<int>, mid: seq<int>,
                    sums: seq<int>, scanned: seq<int>, r: seq<int>)
    requires IsPow2(chunk) && chunk > 1
    ensures DivCeil(|s|, chunk) <= 1 && KernelRun(scanType, kind, chunk, s, r, false, []) ==>
      ScanRun(scanType, kind, chunk, width, s, r)
    ensures (
      && DivCeil(|s|, chunk) > 1 && KernelRun(scanType, kind, chunk, s, mid, true, sums)
      && ScanRun(Exclusive, kind, chunk, width, sums, scanned)
      && IncrementRun(chunk, width, mid, scanned, r)) ==>
      ScanRun(scanType, kind, chunk, width, s, r)
  {
    if DivCeil(|s|, chunk) > 1 && KernelRun(scanType, kind, chunk, s, mid, true, sums) {
      KernelRunScans(scanType, kind, chunk, s, mid, true, sums);
      DivCeilShrinks(|s|, chunk);
    }
  }

  lemma KernelRunScans(scanType: ScanType, kind: DeviceKind, chunk: nat, s: seq<int>, r: seq<int>, withSums: bool,
                       sums: seq<int>)
    requires KernelRun(scanType, kind, chunk, s, r, withSums, sums)
    ensures chunk > 0 && r == BlockScan(scanType, s, chunk) && (withSums ==> sums == ChunkSums(s, chunk))
  {
    var l: Launch, dealt, shared, global, after :|
      LaunchRun(l, dealt, shared, global, after, scanType, kind, chunk, s, r, withSums, sums);
    EveryGridInterleaving(l, dealt, shared, global, after);
  }

  /** Whatever way the accesses of all kernels interleave, the recursive scan leaves the prefix sum. */
  lemma {:induction false} EveryScanRun(scanType: ScanType, kind: DeviceKind, chunk: nat, width: nat, s: seq<int>,
                                        r: seq<int>)
    requires IsPow2(chunk) && chunk > 1 && width > 0 && chunk % width == 0
    requires ScanRun(scanType, kind, chunk, width, s, r)
    ensures r == PrefixSums(scanType, s)
    decreases |s|
  {
    if DivCeil(|s|, chunk) <= 1 {
      KernelRunScans(scanType, kind, chunk, s, r, false, []);
      SingleChunk(scanType, s, chunk);
    } else {
      var mid: seq<int>, sums: seq<int>, scanned: seq<int> :|
        && KernelRun(scanType, kind, chunk, s, mid, true, sums)
        && |sums| < |s| && ScanRun(Exclusive, kind, chunk, width, sums, scanned)
        && IncrementRun(chunk, width, mid, scanned, r);
      KernelRunScans(scanType, kind, chunk, s, mid, true, sums);
      EveryScanRun(Exclusive, kind, chunk, width, sums, scanned);
      IncrementsCombine(scanType, chunk, width, s, mid, scanned, r);
    }
  }

  lemma IncrementsCombine(scanType: ScanType, chunk: nat, width: nat, s: seq<int>, mid: seq<int>, scanned: seq<int>,
                          r: seq<int>)
    requires chunk > 0 && width > 0 && chunk % width == 0 && mid == BlockScan(scanType, s, chunk)
    requires scanned == PrefixSums(Exclusive, ChunkSums(s, chunk)) && IncrementRun(chunk, width, mid, scanned, r)
    ensures r == PrefixSums(scanType, s)
  {
    var packs: nat, after: seq<int> :|
      && Base(packs, width) <= |mid| <= |after|
      && Outcome(IncrementItems(chunk, |mid|, width, packs), mid + scanned, after) && r == after[..|mid|];
    forall i: nat | i < |s|
      ensures ChunkOf(i, chunk) < |scanned| && r[i] == mid[i] + scanned[ChunkOf(i, chunk)]
    {
      IncrementOutcome(chunk, width, packs, mid, scanned, after, i);
    }
    RecursiveScan.Combine(scanType, s, chunk, scanned, r);
  }

  // ---- Such runs exist ----

  lemma OneChunkEach(l: Launch, dealt: seq<seq<nat>>)
    requires IsPow2(l.chunk) && |dealt| == l.NumChunks() && forall c :: 0 <= c < |dealt| ==> dealt[c] == [c]
    ensures Dealt(l, dealt)
  {
    forall c | 0 <= c < l.NumChunks() ensures Taken(dealt, c) {
      assert c in dealt[c];
    }
  }

  lemma KernelRunExists(scanType: ScanType, kind: DeviceKind, chunk: nat, s: seq<int>, inPlace: bool, withSums: bool)
    returns (r: seq<int>, sums: seq<int>)
    requires IsPow2(chunk)
    ensures KernelRun(scanType, kind, chunk, s, r, withSums, sums)
  {
    var n := |s|;
    var at := if inPlace then 0 else n;
    var l := Launch(scanType, kind, chunk, n, at, at + n, withSums);
    var global := s + seq(n + l.NumChunks(), _ => 0);
    var dealt := seq(l.NumChunks(), c requires 0 <= c < l.NumChunks() => [c]);
    OneChunkEach(l, dealt);
    var shared := seq(l.NumChunks(), _ => seq(l.Shared(), _ => 0));
    assert global[..n] == s;
    var after := KernelRuns(l, dealt, shared, global);
    EveryGridInterleaving(l, dealt, shared, global, after);
    r := after[at..at + n];
    sums := if withSums then after[l.sumsAt..l.sumsAt + l.NumChunks()] else [];
    assert LaunchRun(l, dealt, shared, global, after, scanType, kind, chunk, s, r, withSums, sums);
  }

  lemma IncrementRunExists(chunk: nat, width: nat, packs: nat, s: seq<int>, blockSums: seq<int>) returns (r: seq<int>)
    requires chunk > 0 && width > 0 && Base(packs, width) <= |s| && |blockSums| == DivCeil(|s|, chunk)
    ensures IncrementRun(chunk, width, s, blockSums, r)
  {
    var mem, items := s + blockSums, IncrementItems(chunk, |s|, width, packs);
    IncrementWellFormed(chunk, |s|, width, packs, |mem|);
    OutcomeExistsUniquely(items, mem);
    var after :| Outcome(items, mem, after);
    OutcomeIsSolo(items, mem, after);
    r := after[..|s|];
  }

  /** Every input has a run. */
  lemma {:induction false} ScanRunExists(scanType: ScanType, kind: DeviceKind, chunk: nat, width: nat, s: seq<int>,
                                         inPlace: bool)
    returns (r: seq<int>)
    requires IsPow2(chunk) && chunk > 1 && width > 0 && chunk % width == 0
    ensures ScanRun(scanType, kind, chunk, width, s, r)
    decreases |s|
  {
    if DivCeil(|s|, chunk) <= 1 {
      var sums;
      r, sums := KernelRunExists(scanType, kind, chunk, s, inPlace, false);
      KernelRunWithoutSums(scanType, kind, chunk, s, r, sums);
    } else {
      var mid, sums := KernelRunExists(scanType, kind, chunk, s, inPlace, true);
      KernelRunScans(scanType, kind, chunk, s, mid, true, sums);
      DivCeilShrinks(|s|, chunk);
      var scanned := ScanRunExists(Exclusive, kind, chunk, width, sums, inPlace);
      EveryScanRun(Exclusive, kind, chunk, width, sums, scanned);
      r := IncrementRunExists(chunk, width, 0, mid, scanned);
      RunsCompose(scanType, kind, chunk, width, s, mid, sums, scanned, r);
    }
  }

  lemma KernelRunWithoutSums(scanType: ScanType, kind: DeviceKind, chunk: nat, s: seq<int>, r: seq<int>, sums: seq<int>)
    requires KernelRun(scanType, kind, chunk, s, r, false, sums)
    ensures KernelRun(scanType, kind, chunk, s, r, false, [])
  {
    var l: Launch, dealt, shared, global, after :|
      LaunchRun(l, dealt, shared, global, after, scanType, kind, chunk, s, r, false, sums);
    assert LaunchRun(l, dealt, shared, global, after, scanType, kind, chunk, s, r, false, []);
  }
}
