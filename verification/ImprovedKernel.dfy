/** Scan_ScanBlocksKernel of example/scan/src/scan_improved.hpp: every thread scans mini
    blocks in registers, the mini-block sums are scanned in shared memory, and the scanned
    sums are added back. Full chunks are moved in packs of four elements. */
module ImprovedKernel {
  import opened Arith
  import opened Sums
  import opened BlockScans
  import opened SharedScan
  import opened ScanKernel
  import MiniBlock

  /** Registers per mini block; without banked memory, 32768 bytes of 4-byte elements. */
  function MaximumMiniBlockSize(kind: DeviceKind): nat {
    if kind == CpuOrUnknown then 32768 / 4 else 8
  }

  function MiniBlockSize(kind: DeviceKind, elsPerThread: nat): nat {
    if MaximumMiniBlockSize(kind) < elsPerThread then MaximumMiniBlockSize(kind) else elsPerThread
  }

  /** A chunk split into mini blocks of m elements, q of them per thread. */
  datatype Tiling = Tiling(threads: nat, q: nat, m: nat) {
    function ElsPerThread(): nat { Base(q, m) }

    function MiniBlocks(): nat { Base(threads, q) }

    function Chunk(): nat { Base(threads, ElsPerThread()) }

    ghost predicate Valid() {
      IsPow2(m) && m > 0 && q > 0 && IsPow2(MiniBlocks())
    }

    /** Positions of thread t's elements and mini blocks. */
    lemma ThreadBounds(t: nat)
      requires t < threads
      ensures Base(t, ElsPerThread()) + ElsPerThread() <= Chunk()
      ensures Base(t, q) + q <= MiniBlocks()
    {
      BaseMono(t, threads, ElsPerThread());
      BaseMono(t, threads, q);
    }

    /** Mini block k of thread t is mini block Base(t, q) + k of the chunk. */
    lemma MiniBlockAt(t: nat, k: nat)
      requires m > 0
      ensures Base(t, ElsPerThread()) + Base(k, m) == Base(Base(t, q) + k, m)
      ensures (Base(t, ElsPerThread()) + Base(k, m)) / m == Base(t, q) + k
    {
      BaseNested(t, q, m, k);
      DivModUnique(Base(Base(t, q) + k, m), m, Base(t, q) + k, 0);
    }

    lemma ElsPositive()
      requires q > 0 && m > 0
      ensures ElsPerThread() > 0
    {
    }

    lemma NextMiniBlock(k: nat)
      requires m > 0 && Base(k, m) < ElsPerThread()
      ensures k < q && Base(k + 1, m) == Base(k, m) + m <= ElsPerThread()
    {
      BaseMono(q, k, m);
      Distribute(m, k, 1);
      BaseMono(k + 1, q, m);
    }

    lemma ChunkInMiniBlocks()
      requires m > 0
      ensures Chunk() == Base(MiniBlocks(), m) && DivCeil(Chunk(), m) == MiniBlocks()
    {
      BaseNested(threads, q, m, 0);
      if MiniBlocks() > 0 {
        Distribute(m, MiniBlocks(), -1);
      }
      DivCeilUnique(Chunk(), m, MiniBlocks());
    }
  }

  lemma BaseNested(t: nat, q: nat, m: nat, k: nat)
    ensures Base(t, Base(q, m)) + Base(k, m) == Base(Base(t, q) + k, m)
  {
  }

  lemma MiniBlockScanned(regs: seq<int>, a: seq<int>, m: nat, b: nat)
    requires m > 0 && Base(b, m) + m <= |a| && |regs| == |a|
    requires regs[Base(b, m)..Base(b, m) + m] == PrefixSums(Exclusive, a[Base(b, m)..Base(b, m) + m])
    ensures forall x :: Base(b, m) <= x < Base(b, m) + m ==> regs[x] == BlockScan(Exclusive, a, m)[x]
  {
    var y := Base(b, m);
    forall x | y <= x < y + m
      ensures regs[x] == BlockScan(Exclusive, a, m)[x]
    {
      ChunkBounds(x, m, b);
      SegShift(a[y..y + m], a, y, 0, x - y);
      assert regs[x] == regs[y..y + m][x - y];
    }
  }

  lemma MiniBlockSum(a: seq<int>, m: nat, b: nat)
    requires m > 0 && Base(b, m) + m <= |a|
    ensures b < DivCeil(|a|, m)
    ensures Seg(a[Base(b, m)..Base(b, m) + m], 0, m) == ChunkSums(a, m)[b]
  {
    var y := Base(b, m);
    ChunkInRange(|a|, m, b);
    SegShift(a[y..y + m], a, y, 0, m);
  }

  /** One mini block, starting at y: scanned in registers, its sum stored in shared memory. */
  method ScanOneMiniBlock(kind: DeviceKind, count: nat, m: nat, b: nat, y: nat, regMem: array<int>, tmp: array<int>,
                          ghost a: seq<int>)
    requires IsPow2(m) && m > 0 && b < count && y == Base(b, m) && regMem != tmp && Fits(kind, count, tmp.Length)
    requires |a| == regMem.Length && y + m <= |a| && count == DivCeil(|a|, m)
    requires forall x :: y <= x < y + m ==> regMem[x] == a[x]
    modifies regMem, tmp
    ensures regMem[..] == Overwrite(old(regMem[..]), BlockScan(Exclusive, a, m), y, y + m)
    ensures View(tmp[..], kind, count) == Overwrite(View(old(tmp[..]), kind, count), ChunkSums(a, m), b, b + 1)
  {
    assert regMem[y..y + m] == a[y..y + m];
    MiniBlockSum(a, m, b);
    var sum := MiniBlock.ScanMiniBlock(regMem, y, m);
    MiniBlockScanned(regMem[..], a, m, b);
    Write(tmp, kind, count, b, sum);
  }

  /** Mini block k of thread t, whose elements start at f. */
  method ScanAtOffset(kind: DeviceKind, g: Tiling, t: nat, ghost k: nat, f: nat, miniBlockOffset: nat,
                      regMem: array<int>, tmp: array<int>, ghost a: seq<int>)
    requires g.Valid() && t < g.threads && k < g.q && f == Base(t, g.ElsPerThread()) && miniBlockOffset == Base(k, g.m)
    requires regMem != tmp && |a| == regMem.Length == g.Chunk() && Fits(kind, g.MiniBlocks(), tmp.Length)
    requires forall x :: f + miniBlockOffset <= x < f + miniBlockOffset + g.m && x < |a| ==> regMem[x] == a[x]
    modifies regMem, tmp
    ensures regMem[..] == Overwrite(old(regMem[..]), BlockScan(Exclusive, a, g.m), f + miniBlockOffset,
                                    f + miniBlockOffset + g.m)
    ensures |ChunkSums(a, g.m)| == g.MiniBlocks()
    ensures View(tmp[..], kind, g.MiniBlocks())
         == Overwrite(View(old(tmp[..]), kind, g.MiniBlocks()), ChunkSums(a, g.m), Base(t, g.q) + k,
                      Base(t, g.q) + k + 1)
  {
    g.ThreadBounds(t);
    g.ChunkInMiniBlocks();
    g.MiniBlockAt(t, k);
    BaseMono(k, g.q, g.m);
    var y := f + miniBlockOffset;
    ScanOneMiniBlock(kind, g.MiniBlocks(), g.m, y / g.m, y, regMem, tmp, a);
  }

  /** All mini blocks of thread t, one after another. */
  method ScanThreadMiniBlocks(kind: DeviceKind, g: Tiling, t: nat, f: nat, regMem: array<int>, tmp: array<int>,
                              ghost a: seq<int>)
    requires g.Valid() && t < g.threads && f == Base(t, g.ElsPerThread())
    requires regMem != tmp && |a| == regMem.Length == g.Chunk() && Fits(kind, g.MiniBlocks(), tmp.Length)
    requires forall x :: f <= x < f + g.ElsPerThread() && x < |a| ==> regMem[x] == a[x]
    modifies regMem, tmp
    ensures regMem[..] == Overwrite(old(regMem[..]), BlockScan(Exclusive, a, g.m), f, f + g.ElsPerThread())
    ensures |ChunkSums(a, g.m)| == g.MiniBlocks()
    ensures View(tmp[..], kind, g.MiniBlocks())
         == Overwrite(View(old(tmp[..]), kind, g.MiniBlocks()), ChunkSums(a, g.m), Base(t, g.q), Base(t, g.q) + g.q)
  {
    g.ChunkInMiniBlocks();
    var miniBlockOffset := 0;
    ghost var k, b0 := 0, Base(t, g.q);
    ghost var before, sums := View(tmp[..], kind, g.MiniBlocks()), ChunkSums(a, g.m);
    ghost var regs, scanned := regMem[..], BlockScan(Exclusive, a, g.m);
    while miniBlockOffset < g.ElsPerThread()
      invariant 0 <= k <= g.q && miniBlockOffset == Base(k, g.m) <= g.ElsPerThread()
      invariant regMem[..] == Overwrite(regs, scanned, f, f + miniBlockOffset)
      invariant View(tmp[..], kind, g.MiniBlocks()) == Overwrite(before, sums, b0, b0 + k)
      decreases g.q - k
    {
      g.NextMiniBlock(k);
      OverwriteJoin(regs, scanned, f, f + miniBlockOffset, f + miniBlockOffset + g.m);
      OverwriteJoin(before, sums, b0, b0 + k, b0 + k + 1);
      forall x | f + miniBlockOffset <= x < f + miniBlockOffset + g.m && x < |a|
        ensures regMem[x] == a[x]
      {
        assert regMem[x] == regMem[..][x] == regs[x];
      }
      ScanAtOffset(kind, g, t, k, f, miniBlockOffset, regMem, tmp, a);
      miniBlockOffset, k := miniBlockOffset + g.m, k + 1;
    }
    BaseMono(k, g.q, g.m);
  }

  /** Moves a thread's elements of the chunk into its registers, in packs of four if `wide`. */
  method LoadThread(ghost s: seq<int>, chunk: nat, base: nat, f: nat, elsPerThread: nat, wide: bool,
                    input: array<int>, regMem: array<int>)
    requires input != regMem && |s| == input.Length && regMem.Length == chunk && f + elsPerThread <= chunk
    requires wide ==> elsPerThread % 4 == 0 && base + f + elsPerThread <= |s|
    requires forall i :: base <= i < base + chunk && i < |s| ==> input[i] == s[i]
    modifies regMem
    ensures regMem[..] == Overwrite(old(regMem[..]), LoadedChunk(s, base, chunk), f, f + elsPerThread)
  {
    ghost var regs := regMem[..];
    var i := 0;
    while i < elsPerThread
      invariant 0 <= i <= elsPerThread && (wide ==> i % 4 == 0)
      invariant regMem[..] == Overwrite(regs, LoadedChunk(s, base, chunk), f, f + i)
    {
      if wide {
        forall lane | 0 <= lane < 4 {
          regMem[f + i + lane] := input[base + f + i + lane];
        }
        i := i + 4;
      } else {
        regMem[f + i] := if base + f + i < input.Length then input[base + f + i] else 0;
        i := i + 1;
      }
    }
  }

  /** What the write-back stores for elements lo, ..., hi - 1 of a chunk that starts at `base`:
      `full` is the chunk's exclusive scan, `target` the result. */
  ghost predicate Writes(scanType: ScanType, s: seq<int>, full: seq<int>, target: seq<int>, base: nat, lo: nat,
                         hi: nat) {
    && |s| == |target| && base <= lo && hi <= base + |full|
    && forall i :: lo <= i < hi && i < |s| ==>
         target[i] == full[i - base] + if scanType == Inclusive then s[i] else 0
  }

  /** Stores one pack of `width` registers. */
  method StorePack(scanType: ScanType, ghost s: seq<int>, ghost full: seq<int>, ghost target: seq<int>,
                   base: nat, first: nat, width: nat, input: array<int>, output: array<int>, regMem: array<int>)
    requires output != regMem && |s| == input.Length == output.Length && regMem.Length == |full|
    requires first + width <= |s| && Writes(scanType, s, full, target, base, first, first + width)
    requires forall i :: first <= i < first + width ==> input[i] == s[i]
    requires forall x :: first - base <= x < first - base + width ==> regMem[x] == full[x]
    modifies output
    ensures output[..] == Overwrite(old(output[..]), target, first, first + width)
  {
    assert forall i :: first <= i < first + width ==>
      target[i] == regMem[i - base] + if scanType == Inclusive then input[i] else 0;
    forall i | first <= i < first + width {
      output[i] := match scanType case Exclusive => regMem[i - base] case Inclusive => input[i] + regMem[i - base];
    }
  }

  /** Writes a thread's registers to the output, in packs of four if `wide`. */
  method StoreThread(scanType: ScanType, ghost s: seq<int>, ghost full: seq<int>, ghost target: seq<int>,
                     base: nat, first: nat, elsPerThread: nat, wide: bool,
                     input: array<int>, output: array<int>, regMem: array<int>)
    requires output != regMem && |s| == input.Length == output.Length && regMem.Length == |full|
    requires wide ==> elsPerThread % 4 == 0 && first + elsPerThread <= |s|
    requires Writes(scanType, s, full, target, base, first, first + elsPerThread)
    requires forall i :: first <= i < first + elsPerThread && i < |s| ==> input[i] == s[i]
    requires forall x :: first - base <= x < first - base + elsPerThread && base + x < |s| ==> regMem[x] == full[x]
    modifies output
    ensures output[..] == Overwrite(old(output[..]), target, first, first + elsPerThread)
  {
    ghost var before := output[..];
    var i := 0;
    while i < elsPerThread
      invariant 0 <= i <= elsPerThread && (wide ==> i % 4 == 0)
      invariant forall k :: first + i <= k < first + elsPerThread && k < |s| ==> input[k] == s[k]
      invariant output[..] == Overwrite(before, target, first, first + i)
    {
      var width := if wide then 4 else 1;
      OverwriteJoin(before, target, first, first + i, first + i + width);
      if wide || first + i < input.Length {
        StorePack(scanType, s, full, target, base, first + i, width, input, output, regMem);
      }
      i := i + width;
    }
  }

  /** Load phase of the block: threads in any order load and scan their mini blocks. */
  method LoadPhase(ghost s: seq<int>, kind: DeviceKind, g: Tiling, base: nat, wide: bool,
                   input: array<int>, regMem: array<int>, tmp: array<int>)
    requires g.Valid() && input != regMem && input != tmp && regMem != tmp
    requires |s| == input.Length && regMem.Length == g.Chunk() && Fits(kind, g.MiniBlocks(), tmp.Length)
    requires wide ==> g.ElsPerThread() % 4 == 0 && base + g.Chunk() <= |s|
    requires forall i :: base <= i < base + g.Chunk() && i < |s| ==> input[i] == s[i]
    modifies regMem, tmp
    ensures regMem[..] == BlockScan(Exclusive, LoadedChunk(s, base, g.Chunk()), g.m)
    ensures View(tmp[..], kind, g.MiniBlocks()) == ChunkSums(LoadedChunk(s, base, g.Chunk()), g.m)
  {
    ghost var a := LoadedChunk(s, base, g.Chunk());
    ghost var regs, scanned := regMem[..], BlockScan(Exclusive, a, g.m);
    ghost var view, sums := View(tmp[..], kind, g.MiniBlocks()), ChunkSums(a, g.m);
    g.ChunkInMiniBlocks();
    g.ElsPositive();
    OwnersStart(regs, scanned, g.ElsPerThread(), g.threads);
    OwnersStart(view, sums, g.q, g.threads);
    var todo := Range(0, g.threads);
    while todo != {}
      invariant todo <= Range(0, g.threads)
      invariant regMem[..] == ByOwner(regs, scanned, g.ElsPerThread(), todo)
      invariant View(tmp[..], kind, g.MiniBlocks()) == ByOwner(view, sums, g.q, todo)
      decreases todo
    {
      var thread: nat :| thread in todo;
      OwnerDone(regs, scanned, g.ElsPerThread(), todo, thread);
      OwnerDone(view, sums, g.q, todo, thread);
      LoadAndScanThread(s, kind, g, base, wide, thread, input, regMem, tmp);
      todo := todo - {thread};
    }
  }

  method LoadAndScanThread(ghost s: seq<int>, kind: DeviceKind, g: Tiling, base: nat, wide: bool, t: nat,
                           input: array<int>, regMem: array<int>, tmp: array<int>)
    requires g.Valid() && input != regMem && input != tmp && regMem != tmp && t < g.threads
    requires |s| == input.Length && regMem.Length == g.Chunk() && Fits(kind, g.MiniBlocks(), tmp.Length)
    requires wide ==> g.ElsPerThread() % 4 == 0 && base + g.Chunk() <= |s|
    requires forall i :: base <= i < base + g.Chunk() && i < |s| ==> input[i] == s[i]
    modifies regMem, tmp
    ensures var a, f := LoadedChunk(s, base, g.Chunk()), Base(t, g.ElsPerThread());
            && regMem[..] == Overwrite(old(regMem[..]), BlockScan(Exclusive, a, g.m), f, f + g.ElsPerThread())
            && |ChunkSums(a, g.m)| == g.MiniBlocks()
            && View(tmp[..], kind, g.MiniBlocks())
            == Overwrite(View(old(tmp[..]), kind, g.MiniBlocks()), ChunkSums(a, g.m), Base(t, g.q), Base(t, g.q) + g.q)
  {
    g.ThreadBounds(t);
    var f := Base(t, g.ElsPerThread());
    ghost var a, regs := LoadedChunk(s, base, g.Chunk()), regMem[..];
    LoadThread(s, g.Chunk(), base, f, g.ElsPerThread(), wide, input, regMem);
    forall x | f <= x < f + g.ElsPerThread() && x < |a|
      ensures regMem[x] == a[x]
    {
      assert regMem[x] == regMem[..][x];
    }
    ScanThreadMiniBlocks(kind, g, t, f, regMem, tmp, a);
  }

  /** Adds the scanned mini-block sums to the thread's registers. A mini block that starts past
      the end of the input gets nothing added; none of its elements is ever written back. */
  method AddThreadIncrements(kind: DeviceKind, g: Tiling, base: nat, n: nat, t: nat, f: nat,
                             regMem: array<int>, tmp: array<int>, ghost a: seq<int>)
    requires g.Valid() && t < g.threads && f == Base(t, g.ElsPerThread())
    requires regMem != tmp && |a| == regMem.Length == g.Chunk() && Fits(kind, g.MiniBlocks(), tmp.Length)
    requires View(tmp[..], kind, g.MiniBlocks()) == PrefixSums(Exclusive, ChunkSums(a, g.m))
    requires forall x :: f <= x < f + g.ElsPerThread() && x < |a| ==> regMem[x] == BlockScan(Exclusive, a, g.m)[x]
    modifies regMem
    ensures forall x :: f <= x < f + g.ElsPerThread() && base + x < n && x < |a| ==>
      regMem[x] == PrefixSums(Exclusive, a)[x]
    ensures forall x :: 0 <= x < |a| && !(f <= x < f + g.ElsPerThread()) ==> regMem[x] == old(regMem[x])
  {
    ghost var k, scanned, full := 0, BlockScan(Exclusive, a, g.m), PrefixSums(Exclusive, a);
    var miniBlockOffset := 0;
    while miniBlockOffset < g.ElsPerThread()
      invariant 0 <= k <= g.q && miniBlockOffset == Base(k, g.m) <= g.ElsPerThread()
      invariant forall x :: f <= x < f + miniBlockOffset && base + x < n && x < |a| ==> regMem[x] == full[x]
      invariant forall x :: f + miniBlockOffset <= x < f + g.ElsPerThread() && x < |a| ==> regMem[x] == scanned[x]
      invariant forall x :: 0 <= x < |a| && !(f <= x < f + g.ElsPerThread()) ==> regMem[x] == old(regMem[x])
      decreases g.q - k
    {
      g.NextMiniBlock(k);
      AddAtOffset(kind, g, base, n, t, k, f, miniBlockOffset, regMem, tmp, a);
      miniBlockOffset, k := miniBlockOffset + g.m, k + 1;
    }
  }

  method AddAtOffset(kind: DeviceKind, g: Tiling, base: nat, n: nat, t: nat, ghost k: nat, f: nat, miniBlockOffset: nat,
                     regMem: array<int>, tmp: array<int>, ghost a: seq<int>)
    requires g.Valid() && t < g.threads && k < g.q && f == Base(t, g.ElsPerThread()) && miniBlockOffset == Base(k, g.m)
    requires regMem != tmp && |a| == regMem.Length == g.Chunk() && Fits(kind, g.MiniBlocks(), tmp.Length)
    requires View(tmp[..], kind, g.MiniBlocks()) == PrefixSums(Exclusive, ChunkSums(a, g.m))
    requires forall x :: f + miniBlockOffset <= x < f + miniBlockOffset + g.m && x < |a| ==>
               regMem[x] == BlockScan(Exclusive, a, g.m)[x]
    modifies regMem
    ensures forall x :: f + miniBlockOffset <= x < f + miniBlockOffset + g.m && base + x < n && x < |a| ==>
              regMem[x] == PrefixSums(Exclusive, a)[x]
    ensures forall x :: 0 <= x < |a| && !(f + miniBlockOffset <= x < f + miniBlockOffset + g.m) ==>
              regMem[x] == old(regMem[x])
  {
    g.ThreadBounds(t);
    g.ChunkInMiniBlocks();
    g.MiniBlockAt(t, k);
    BaseMono(k, g.q, g.m);
    var y := f + miniBlockOffset;
    var blockSum := 0;
    if base + y < n {
      blockSum := Read(tmp, kind, g.MiniBlocks(), y / g.m);
    }
    forall x | y <= x < y + g.m && base + y < n
      ensures BlockScan(Exclusive, a, g.m)[x] + blockSum == PrefixSums(Exclusive, a)[x]
    {
      ChunkBounds(x, g.m, y / g.m);
      TwoLevels(Exclusive, a, g.m, x);
    }
    MiniBlock.AddIncrements(regMem, y, g.m, blockSum);
  }

  /** Write-back of one thread: add the increments, then store. */
  method WriteThread(scanType: ScanType, ghost s: seq<int>, ghost target: seq<int>, kind: DeviceKind, g: Tiling,
                     base: nat, wide: bool, t: nat, f: nat,
                     input: array<int>, output: array<int>, regMem: array<int>, tmp: array<int>, ghost a: seq<int>)
    requires g.Valid() && t < g.threads && f == Base(t, g.ElsPerThread())
    requires regMem != tmp && regMem != input && output != regMem && output != tmp
    requires |s| == input.Length == output.Length && |a| == regMem.Length == g.Chunk()
    requires Fits(kind, g.MiniBlocks(), tmp.Length)
    requires wide ==> g.ElsPerThread() % 4 == 0 && base + g.Chunk() <= |s|
    requires View(tmp[..], kind, g.MiniBlocks()) == PrefixSums(Exclusive, ChunkSums(a, g.m))
    requires forall x :: f <= x < f + g.ElsPerThread() && x < |a| ==> regMem[x] == BlockScan(Exclusive, a, g.m)[x]
    requires Writes(scanType, s, PrefixSums(Exclusive, a), target, base, base + f, base + f + g.ElsPerThread())
    requires forall i :: base + f <= i < base + f + g.ElsPerThread() && i < |s| ==> input[i] == s[i]
    modifies output, regMem
    ensures output[..] == Overwrite(old(output[..]), target, base + f, base + f + g.ElsPerThread())
    ensures forall x :: 0 <= x < |a| && !(f <= x < f + g.ElsPerThread()) ==> regMem[x] == old(regMem[x])
  {
    g.ThreadBounds(t);
    AddThreadIncrements(kind, g, base, output.Length, t, f, regMem, tmp, a);
    StoreThread(scanType, s, PrefixSums(Exclusive, a), target, base, base + f, g.ElsPerThread(), wide, input, output,
                regMem);
  }

  /** Write-back phase of the block: threads in any order. */
  method WritePhase(scanType: ScanType, ghost s: seq<int>, ghost target: seq<int>, kind: DeviceKind, g: Tiling,
                    base: nat, wide: bool,
                    input: array<int>, output: array<int>, regMem: array<int>, tmp: array<int>, ghost a: seq<int>)
    requires g.Valid() && regMem != tmp && regMem != input && output != regMem && output != tmp
    requires |s| == input.Length == output.Length && |a| == regMem.Length == g.Chunk()
    requires Fits(kind, g.MiniBlocks(), tmp.Length)
    requires wide ==> g.ElsPerThread() % 4 == 0 && base + g.Chunk() <= |s|
    requires View(tmp[..], kind, g.MiniBlocks()) == PrefixSums(Exclusive, ChunkSums(a, g.m))
    requires regMem[..] == BlockScan(Exclusive, a, g.m)
    requires Writes(scanType, s, PrefixSums(Exclusive, a), target, base, base, base + g.Chunk())
    requires forall i :: base <= i < base + g.Chunk() && i < |s| ==> input[i] == s[i]
    modifies output, regMem
    ensures output[..] == Overwrite(old(output[..]), target, base, base + g.Chunk())
  {
    g.ElsPositive();
    ghost var size, before, scanned := g.ElsPerThread(), output[..], BlockScan(Exclusive, a, g.m);
    WindowEnds(before, target, base, size, g.threads);
    var todo := Range(0, g.threads);
    while todo != {}
      invariant todo <= Range(0, g.threads)
      invariant forall x :: 0 <= x < |a| && ChunkOf(x, size) in todo ==> regMem[x] == scanned[x]
      invariant forall i :: base <= i < base + |a| && i < |s| && ChunkOf(i - base, size) in todo ==> input[i] == s[i]
      invariant output[..] == InWindow(before, target, base, |a|, size, todo)
      decreases todo
    {
      var thread: nat :| thread in todo;
      g.ThreadBounds(thread);
      OwnedBlock(size, thread, |a|);
      WindowDone(before, target, base, |a|, size, todo, thread);
      WriteThread(scanType, s, target, kind, g, base, wide, thread, Base(thread, g.ElsPerThread()), input, output,
                  regMem, tmp, a);
      todo := todo - {thread};
    }
  }

  lemma MiniBlocksOfEls(kind: DeviceKind, els: nat)
    requires IsPow2(els) && els > 0
    ensures var m := MiniBlockSize(kind, els); IsPow2(m) && 0 < m <= els && els / m > 0 && Base(els / m, m) == els
  {
    assert IsPow2(8);
    assert IsPow2(8192) by { assert IsPow2(64) && IsPow2(1024); }
    Pow2Divides(MiniBlockSize(kind, els), els);
  }

  /** The split the kernel computes from its chunk and thread count covers the chunk exactly. */
  lemma Configured(kind: DeviceKind, chunk: nat, threads: nat)
    requires IsPow2(chunk) && IsPow2(threads) && 0 < threads <= chunk
    ensures var els := chunk / threads;
            && els > 0 && MiniBlockSize(kind, els) > 0
            && var g := Tiling(threads, els / MiniBlockSize(kind, els), MiniBlockSize(kind, els));
               g.Valid() && g.ElsPerThread() == els && g.Chunk() == chunk && g.MiniBlocks() == chunk / g.m
               && var largest := if kind == CpuOrUnknown then 8192 else 8; g.m == if els < largest then els else largest
  {
    Pow2Divides(threads, chunk);
    var els := chunk / threads;
    assert els > 0;
    MiniBlocksOfEls(kind, els);
    var m := MiniBlockSize(kind, els);
    assert m <= chunk by { MulMono(1, threads, els); }
    Pow2Divides(m, chunk);
    Regrouped(chunk, threads, els, els / m, m);
  }

  lemma Regrouped(chunk: nat, threads: nat, els: nat, q: nat, m: nat)
    requires m > 0 && q * m == els && threads * els == chunk
    ensures threads * q == chunk / m
  {
    Associate(threads, q, m);
    DivModUnique(chunk, m, threads * q, 0);
  }

  method Configure(kind: DeviceKind, chunk: nat, threads: nat) returns (g: Tiling)
    requires IsPow2(chunk) && IsPow2(threads) && 0 < threads <= chunk
    ensures g.Valid() && g.Chunk() == chunk && g.ElsPerThread() == chunk / threads
    ensures g.threads == threads && g.m == MiniBlockSize(kind, g.ElsPerThread())
  {
    Configured(kind, chunk, threads);
    var elsPerThread := chunk / threads;
    var miniBlockSize := MiniBlockSize(kind, elsPerThread);
    g := Tiling(threads, elsPerThread / miniBlockSize, miniBlockSize);
  }

  /** Packs of four are moved only if the whole chunk lies inside the input. */
  lemma WidePathInBounds(n: nat, chunk: nat, numChunks: nat, c: nat)
    requires chunk > 0 && numChunks == DivCeil(n, chunk) && c < numChunks
    ensures (n - 1) % chunk + 1 == chunk || c != numChunks - 1 <==> Base(c, chunk) + chunk <= n
  {
    ChunkInRange(n, chunk, c);
    if c == numChunks - 1 {
      DivModUnique(n - 1, chunk, c, n - 1 - Base(c, chunk));
    }
  }

  lemma ChunkWrites(scanType: ScanType, s: seq<int>, chunk: nat, c: nat)
    requires chunk > 0
    ensures Writes(scanType, s, PrefixSums(Exclusive, LoadedChunk(s, Base(c, chunk), chunk)),
                   BlockScan(scanType, s, chunk),
                   Base(c, chunk), Base(c, chunk), Base(c, chunk) + chunk)
  {
    forall i | Base(c, chunk) <= i < Base(c, chunk) + chunk && i < |s|
      ensures BlockScan(scanType, s, chunk)[i]
           == PrefixSums(Exclusive, LoadedChunk(s, Base(c, chunk), chunk))[i - Base(c, chunk)]
            + if scanType == Inclusive then s[i] else 0
    {
      WrittenValue(scanType, s, chunk, c, i);
    }
  }

  /** One chunk of the improved kernel. */
  method ScanChunk(scanType: ScanType, ghost s: seq<int>, kind: DeviceKind, chunk: nat, threads: nat, c: nat,
                   input: array<int>, output: array<int>)
    returns (total: int)
    requires IsPow2(chunk) && IsPow2(threads) && 0 < threads <= chunk
    requires |s| == input.Length == output.Length && c < DivCeil(|s|, chunk)
    requires forall i :: Base(c, chunk) <= i < Base(c, chunk) + chunk && i < |s| ==> input[i] == s[i]
    modifies output
    ensures output[..] == Overwrite(old(output[..]), BlockScan(scanType, s, chunk), Base(c, chunk),
                                    Base(c, chunk) + chunk)
    ensures total == ChunkSums(s, chunk)[c]
  {
    var g := Configure(kind, chunk, threads);
    var numElements, numChunks := input.Length, DivCeil(input.Length, chunk);
    var validElementsInLastFrame := (numElements - 1) % chunk + 1;
    var lastFrameFull := validElementsInLastFrame == chunk;
    var isLastFrame := c == numChunks - 1;
    var guarded := (!lastFrameFull && isLastFrame) || g.ElsPerThread() % 4 != 0;
    WidePathInBounds(numElements, chunk, numChunks, c);
    ChunkWrites(scanType, s, chunk, c);
    LoadedTotal(s, chunk, c);
    total := ScanTiledChunk(scanType, s, BlockScan(scanType, s, chunk), kind, g, Base(c, chunk), !guarded, input,
                            output);
  }

  /** The three phases of a chunk, for any valid split. */
  method ScanTiledChunk(scanType: ScanType, ghost s: seq<int>, ghost target: seq<int>, kind: DeviceKind, g: Tiling,
                        base: nat, wide: bool, input: array<int>, output: array<int>)
    returns (total: int)
    requires IsPow2(g.m) && g.m > 0 && g.q > 0 && IsPow2(Base(g.threads, g.q))
    requires |s| == input.Length == output.Length
    requires wide ==> g.ElsPerThread() % 4 == 0 && base + g.Chunk() <= |s|
    requires Writes(scanType, s, PrefixSums(Exclusive, LoadedChunk(s, base, g.Chunk())), target, base, base,
                    base + g.Chunk())
    requires forall i :: base <= i < base + g.Chunk() && i < |s| ==> input[i] == s[i]
    modifies output
    ensures output[..] == Overwrite(old(output[..]), target, base, base + g.Chunk())
    ensures total == Seg(LoadedChunk(s, base, g.Chunk()), 0, g.Chunk())
  {
    ghost var a := LoadedChunk(s, base, g.Chunk());
    g.ChunkInMiniBlocks();
    ChunkSumsTotal(a, g.m);
    var regMem := new int[g.Chunk()];
    var tmp := new int[ConflictFreeAccess(kind, g.MiniBlocks() - 1) + 1];
    LoadPhase(s, kind, g, base, wide, input, regMem, tmp);
    total := ScanShared(tmp, kind, g.MiniBlocks());
    WritePhase(scanType, s, target, kind, g, base, wide, input, output, regMem, tmp, a);
  }
}
