/** The host side of both scan variants: scan all chunks, scan the chunk sums recursively,
    add the scanned sums to the chunks. */
module RecursiveScan {
  import opened Arith
  import opened Sums
  import opened BlockScans
  import opened SharedScan
  import ScanKernel
  import ImprovedKernel

  /** scan.hpp, or scan_improved.hpp with the number of threads of a block. */
  datatype Variant = Basic | Improved(threads: nat) {
    ghost predicate Valid(chunk: nat) {
      && IsPow2(chunk) && chunk > 1
      && (Improved? ==> IsPow2(threads) && 0 < threads <= chunk)
    }
  }

  /** The grid: blocks take chunks in any order. `sums` is absent when there is one chunk. */
  method ScanBlocks(variant: Variant, scanType: ScanType, kind: DeviceKind, chunk: nat,
                    input: array<int>, output: array<int>, sums: array?<int>)
    requires variant.Valid(chunk) && input.Length == output.Length && sums != input && sums != output
    requires sums != null ==> sums.Length == DivCeil(input.Length, chunk)
    modifies output, sums
    ensures output[..] == BlockScan(scanType, old(input[..]), chunk)
    ensures sums != null ==> sums[..] == ChunkSums(old(input[..]), chunk)
  {
    var numChunks := DivCeil(input.Length, chunk);
    ghost var s, before := input[..], output[..];
    ghost var target, totals := BlockScan(scanType, s, chunk), ChunkSums(s, chunk);
    OwnersStart(before, target, chunk, numChunks);
    var todo := Range(0, numChunks);
    while todo != {}
      invariant todo <= Range(0, numChunks)
      invariant forall i :: 0 <= i < |s| && ChunkOf(i, chunk) in todo ==> input[i] == s[i]
      invariant output[..] == ByOwner(before, target, chunk, todo)
      invariant sums != null ==> forall c: nat :: c < numChunks && c !in todo ==> sums[c] == totals[c]
      decreases todo
    {
      var chunkIdx: nat :| chunkIdx in todo;
      OwnedBlock(chunk, chunkIdx, |s|);
      OwnerDone(before, target, chunk, todo, chunkIdx);
      var total;
      match variant {
        case Basic => total := ScanKernel.ScanChunk(scanType, s, kind, chunk, chunkIdx, input, output);
        case Improved(threads) =>
          total := ImprovedKernel.ScanChunk(scanType, s, kind, chunk, threads, chunkIdx, input, output);
      }
      if sums != null {
        sums[chunkIdx] := total;
      }
      todo := todo - {chunkIdx};
    }
  }

  /** One SIMD pack: all its elements get the increment of the pack's first element. */
  method AddPack(chunk: nat, first: nat, width: nat, blockSums: array<int>, output: array<int>,
                 ghost incremented: seq<int>)
    requires chunk > 0 && blockSums != output && |incremented| == output.Length && first + width <= output.Length
    requires ChunkOf(first, chunk) < blockSums.Length
    requires forall i :: first <= i < first + width ==> incremented[i] == output[i] + blockSums[ChunkOf(first, chunk)]
    modifies output
    ensures output[..] == Overwrite(old(output[..]), incremented, first, first + width)
  {
    var increment := blockSums[ChunkOf(first, chunk)];
    forall i | first <= i < first + width {
      output[i] := output[i] + increment;
    }
  }

  /** Packs that start at a multiple of their width, a divisor of the chunk, do not straddle chunks. */
  lemma PackInChunk(chunk: nat, width: nat, j: nat, i: nat)
    requires chunk > 0 && width > 0 && chunk % width == 0
    requires Base(j, width) <= i < Base(j, width) + width
    ensures ChunkOf(i, chunk) == ChunkOf(Base(j, width), chunk)
  {
    var c, q := ChunkOf(Base(j, width), chunk), chunk / width;
    assert chunk == width * q + chunk % width;
    DivNonNeg(chunk, width);
    ChunkBounds(Base(j, width), chunk, c);
    ChunkInPacks(c, q, width, j);
    ChunkBounds(i, chunk, c);
  }

  lemma ChunkInPacks(c: nat, q: nat, width: nat, j: nat)
    requires width > 0 && Base(c, Base(q, width)) <= Base(j, width) < Base(c, Base(q, width)) + Base(q, width)
    ensures Base(j, width) + width <= Base(c, Base(q, width)) + Base(q, width)
  {
    Associate(c, q, width);
    Distribute(width, Base(c, q), q);
    BaseMono(Base(c, q) + q, j, width);
    BaseMono(j, Base(c, q) + q, width);
  }

  /** Adds to every element the scanned sum of its chunk. The first elements are handled in
      packs of `width`, as many as all workers can take in equal numbers; the rest singly. */
  method AddIncrements(chunk: nat, width: nat, packsPerCall: nat, workers: nat, blockSums: array<int>,
                       output: array<int>)
    requires chunk > 0 && width > 0 && packsPerCall > 0 && workers > 0 && chunk % width == 0
    requires blockSums != output && blockSums.Length == DivCeil(output.Length, chunk)
    modifies output
    ensures forall i :: 0 <= i < output.Length ==>
              ChunkOf(i, chunk) < blockSums.Length && output[i] == old(output[i]) + blockSums[ChunkOf(i, chunk)]
  {
    var n := output.Length;
    ghost var s := output[..];
    ChunksInRange(n, chunk);
    ghost var incremented := Incremented(s, blockSums[..], chunk);
    var perCall := width * packsPerCall;
    var loops := n / perCall / workers;
    var packs := loops * packsPerCall * workers;
    PacksFit(n, width, packsPerCall, workers);
    var todo := Range(0, packs);
    WindowEnds(s, incremented, 0, width, packs);
    while todo != {}
      invariant todo <= Range(0, packs)
      invariant output[..] == InWindow(s, incremented, 0, Base(packs, width), width, todo)
      decreases todo
    {
      var pack: nat :| pack in todo;
      BaseMono(pack, packs, width);
      WindowDone(s, incremented, 0, Base(packs, width), width, todo, pack);
      OwnedBlock(width, pack, n);
      forall i | Base(pack, width) <= i < Base(pack, width) + width
        ensures incremented[i] == output[i] + blockSums[ChunkOf(Base(pack, width), chunk)]
      {
        PackInChunk(chunk, width, pack, i);
        assert output[i] == output[..][i];
      }
      AddPack(chunk, Base(pack, width), width, blockSums, output, incremented);
      todo := todo - {pack};
    }
    AddRemainder(chunk, Base(packs, width), blockSums, output, s, incremented);
    forall i | 0 <= i < n
      ensures output[i] == s[i] + blockSums[ChunkOf(i, chunk)]
    {
      assert output[i] == output[..][i];
    }
  }

  function Incremented(s: seq<int>, blockSums: seq<int>, chunk: nat): (r: seq<int>)
    requires chunk > 0 && |blockSums| == DivCeil(|s|, chunk)
    ensures |r| == |s|
  {
    ChunksInRange(|s|, chunk);
    seq(|s|, i requires 0 <= i < |s| => s[i] + blockSums[ChunkOf(i, chunk)])
  }

  method AddRemainder(chunk: nat, begin: nat, blockSums: array<int>, output: array<int>, ghost s: seq<int>,
                      ghost incremented: seq<int>)
    requires chunk > 0 && blockSums != output && begin <= output.Length == |s| == |incremented|
    requires forall i :: 0 <= i < |s| ==>
               ChunkOf(i, chunk) < blockSums.Length && incremented[i] == s[i] + blockSums[ChunkOf(i, chunk)]
    requires output[..] == Overwrite(s, incremented, 0, begin)
    modifies output
    ensures output[..] == incremented
  {
    var todo := Range(begin, output.Length);
    while todo != {}
      invariant todo <= Range(begin, output.Length)
      invariant forall i: nat :: i < |s| ==> output[i] == if i in todo then s[i] else incremented[i]
      decreases todo
    {
      var i: nat :| i in todo;
      AddPack(chunk, i, 1, blockSums, output, incremented);
      todo := todo - {i};
    }
  }

  lemma ChunksInRange(n: nat, chunk: nat)
    requires chunk > 0
    ensures forall i :: 0 <= i < n ==> ChunkOf(i, chunk) < DivCeil(n, chunk)
  {
    forall i | 0 <= i < n
      ensures ChunkOf(i, chunk) < DivCeil(n, chunk)
    {
      ChunkBounds(i, chunk, ChunkOf(i, chunk));
      ChunkInRange(n, chunk, ChunkOf(i, chunk));
    }
  }

  /** The packs handed out in equal numbers end inside the data. */
  lemma PacksFit(n: nat, width: nat, packsPerCall: nat, workers: nat)
    requires width > 0 && packsPerCall > 0 && workers > 0
    ensures width * packsPerCall > 0
    ensures var loops := n / (width * packsPerCall) / workers;
            && loops >= 0 && loops * packsPerCall * workers >= 0
            && Base(loops * packsPerCall * workers, width) <= n
  {
    MulMono(1, packsPerCall, width);
    var perCall := width * packsPerCall;
    var calls := n / perCall;
    DivNonNeg(n, perCall);
    DivNonNeg(calls, workers);
    var loops := calls / workers;
    assert calls == workers * loops + calls % workers;
    assert n == perCall * calls + n % perCall;
    MulNonNeg(loops, packsPerCall);
    MulNonNeg(loops * packsPerCall, workers);
    MulMono(workers * loops, calls, perCall);
    assert loops * packsPerCall * workers * width == (workers * loops) * perCall by {
      Associate(workers * loops, width, packsPerCall);
      Associate(loops, packsPerCall, workers);
      Associate(loops, workers, packsPerCall);
      Associate(loops * workers, packsPerCall, width);
    }
  }

  /** The chunk scans with the scanned chunk sums added are the prefix sums. */
  lemma Combine(scanType: ScanType, s: seq<int>, chunk: nat, blockSums: seq<int>, result: seq<int>)
    requires chunk > 0 && |result| == |s| && blockSums == PrefixSums(Exclusive, ChunkSums(s, chunk))
    requires forall i :: 0 <= i < |s| ==>
               ChunkOf(i, chunk) < |blockSums| &&
               result[i] == BlockScan(scanType, s, chunk)[i] + blockSums[ChunkOf(i, chunk)]
    ensures result == PrefixSums(scanType, s)
  {
    forall i | 0 <= i < |s|
      ensures result[i] == PrefixSums(scanType, s)[i]
    {
      TwoLevels(scanType, s, chunk, i);
    }
  }

  /** The scan of an input of any length, in place or not. */
  method Scan(variant: Variant, scanType: ScanType, kind: DeviceKind, chunk: nat,
              width: nat, packsPerCall: nat, workers: nat, input: array<int>, output: array<int>)
    requires IsPow2(chunk) && chunk > 1 && input.Length == output.Length
    requires variant.Improved? ==> IsPow2(variant.threads) && 0 < variant.threads <= chunk
    requires width > 0 && packsPerCall > 0 && workers > 0 && chunk % width == 0
    modifies output
    ensures output[..] == PrefixSums(scanType, old(input[..]))
    decreases input.Length
  {
    ghost var s := input[..];
    var numChunks := DivCeil(input.Length, chunk);
    if numChunks > 1 {
      var increments, blockSums := new int[numChunks], new int[numChunks];
      ScanBlocks(variant, scanType, kind, chunk, input, output, increments);
      DivCeilShrinks(input.Length, chunk);
      Scan(variant, Exclusive, kind, chunk, width, packsPerCall, workers, increments, blockSums);
      AddIncrements(chunk, width, packsPerCall, workers, blockSums, output);
      Combine(scanType, s, chunk, blockSums[..], output[..]);
    } else {
      ScanBlocks(variant, scanType, kind, chunk, input, output, null);
      SingleChunk(scanType, s, chunk);
    }
  }
}
