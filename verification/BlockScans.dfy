/** Scanning a sequence chunk by chunk, and how chunk scans, the exclusive scan of the chunk
    sums and the increments combine to the full prefix sum. */
module BlockScans {
  import opened Arith
  import opened Sums

  /** First index of chunk c, and the chunk that holds index i. */
  function Base(c: nat, chunk: nat): nat {
    MulNonNeg(c, chunk);
    c * chunk
  }

  lemma BaseMono(c: nat, d: nat, chunk: nat)
    ensures c <= d ==> Base(c, chunk) <= Base(d, chunk)
    ensures c < d ==> Base(c, chunk) + chunk <= Base(d, chunk)
  {
    if c < d {
      Distribute(chunk, c, 1);
      MulMono(c + 1, d, chunk);
    }
  }

  function ChunkOf(i: nat, chunk: nat): nat
    requires chunk > 0
  {
    DivNonNeg(i, chunk);
    i / chunk
  }

  lemma ChunkBounds(i: nat, chunk: nat, c: nat)
    requires chunk > 0
    ensures ChunkOf(i, chunk) == c <==> Base(c, chunk) <= i < Base(c, chunk) + chunk
  {
    var q := ChunkOf(i, chunk);
    assert i == chunk * q + i % chunk;
    if Base(c, chunk) <= i < Base(c, chunk) + chunk {
      DivModUnique(i, chunk, c, i - chunk * c);
    }
  }

  /** Chunk c starts inside a sequence of n elements exactly if it is one of the
      divCeil(n, chunk) chunks, and all chunks but the last are full. */
  lemma ChunkInRange(n: nat, chunk: nat, c: nat)
    requires chunk > 0
    ensures Base(c, chunk) < n <==> c < DivCeil(n, chunk)
    ensures c + 1 < DivCeil(n, chunk) ==> Base(c, chunk) + chunk < n
    ensures c + 1 == DivCeil(n, chunk) ==> Base(c, chunk) + chunk >= n
    ensures Base(c + 1, chunk) == Base(c, chunk) + chunk
  {
    var q := DivCeil(n, chunk);
    Distribute(chunk, c, 1);
    BaseMono(q, c, chunk);
    if q > 0 {
      BaseMono(c, q - 1, chunk);
      BaseMono(c + 1, q - 1, chunk);
    }
  }

  function End(n: nat, chunk: nat, c: nat): nat {
    if Base(c, chunk) + chunk < n then Base(c, chunk) + chunk else n
  }

  /** s with the elements lo, ..., hi - 1 taken from t. */
  function Overwrite(s: seq<int>, t: seq<int>, lo: nat, hi: nat): (r: seq<int>)
    requires |s| == |t|
    ensures |r| == |s|
  {
    seq(|s|, i requires 0 <= i < |s| => if lo <= i < hi then t[i] else s[i])
  }

  lemma OverwriteJoin(s: seq<int>, t: seq<int>, lo: nat, mid: nat, hi: nat)
    requires |s| == |t| && lo <= mid <= hi
    ensures Overwrite(Overwrite(s, t, lo, mid), t, mid, hi) == Overwrite(s, t, lo, hi)
  {
  }

  /** s with the blocks of the given size that are not in `todo` taken from t. */
  function ByOwner(s: seq<int>, t: seq<int>, size: nat, todo: set<nat>): (r: seq<int>)
    requires |s| == |t| && size > 0
    ensures |r| == |s|
  {
    seq(|s|, i requires 0 <= i < |s| => if ChunkOf(i, size) in todo then s[i] else t[i])
  }

  lemma OwnerDone(s: seq<int>, t: seq<int>, size: nat, todo: set<nat>, j: nat)
    requires |s| == |t| && size > 0
    ensures Overwrite(ByOwner(s, t, size, todo), t, Base(j, size), Base(j, size) + size) ==
      ByOwner(s, t, size, todo - {j})
  {
    forall i | 0 <= i < |s|
      ensures Overwrite(ByOwner(s, t, size, todo), t, Base(j, size), Base(j, size) + size)[i]
           == ByOwner(s, t, size, todo - {j})[i]
    {
      ChunkBounds(i, size, j);
    }
  }

  lemma OwnedBlock(size: nat, j: nat, n: nat)
    requires size > 0
    ensures forall i :: 0 <= i < n ==> (ChunkOf(i, size) == j <==> Base(j, size) <= i < Base(j, size) + size)
  {
    forall i | 0 <= i < n
      ensures ChunkOf(i, size) == j <==> Base(j, size) <= i < Base(j, size) + size
    {
      ChunkBounds(i, size, j);
    }
  }

  /** Like ByOwner, for a window of n elements that starts at `base`. */
  function InWindow(s: seq<int>, t: seq<int>, base: nat, n: nat, size: nat, todo: set<nat>): (r: seq<int>)
    requires |s| == |t| && size > 0
    ensures |r| == |s|
  {
    seq(|s|, i requires 0 <= i < |s| =>
      if base <= i < base + n && ChunkOf(i - base, size) !in todo then t[i] else s[i])
  }

  lemma WindowDone(s: seq<int>, t: seq<int>, base: nat, n: nat, size: nat, todo: set<nat>, j: nat)
    requires |s| == |t| && size > 0 && Base(j, size) + size <= n
    ensures Overwrite(InWindow(s, t, base, n, size, todo), t, base + Base(j, size), base + Base(j, size) + size)
         == InWindow(s, t, base, n, size, todo - {j})
  {
    OwnedBlock(size, j, n);
  }

  lemma WindowEnds(s: seq<int>, t: seq<int>, base: nat, size: nat, count: nat)
    requires |s| == |t| && size > 0
    ensures InWindow(s, t, base, Base(count, size), size, Range(0, count)) == s
    ensures InWindow(s, t, base, Base(count, size), size, {}) == Overwrite(s, t, base, base + Base(count, size))
  {
    forall x: nat | x < Base(count, size)
      ensures ChunkOf(x, size) < count
    {
      ChunkBounds(x, size, ChunkOf(x, size));
      BaseMono(count, ChunkOf(x, size), size);
    }
  }

  lemma OwnersStart(s: seq<int>, t: seq<int>, size: nat, count: nat)
    requires |s| == |t| <= Base(count, size) && size > 0
    ensures ByOwner(s, t, size, Range(0, count)) == s && ByOwner(s, t, size, {}) == t
  {
    forall i | 0 <= i < |s|
      ensures ChunkOf(i, size) < count
    {
      ChunkBounds(i, size, ChunkOf(i, size));
      BaseMono(count, ChunkOf(i, size), size);
    }
  }

  /** Every chunk scanned on its own. */
  function BlockScan(kind: ScanType, s: seq<int>, chunk: nat): (r: seq<int>)
    requires chunk > 0
    ensures |r| == |s|
  {
    seq(|s|, i requires 0 <= i < |s| =>
      Seg(s, Base(ChunkOf(i, chunk), chunk), if kind == Inclusive then i + 1 else i))
  }

  function ChunkSums(s: seq<int>, chunk: nat): (r: seq<int>)
    requires chunk > 0
    ensures |r| == DivCeil(|s|, chunk)
  {
    seq(DivCeil(|s|, chunk), c requires 0 <= c < DivCeil(|s|, chunk) => Seg(s, Base(c, chunk), End(|s|, chunk, c)))
  }

  ghost predicate SameChunk(s: seq<int>, t: seq<int>, chunk: nat, c: nat) {
    |s| == |t| && forall i :: Base(c, chunk) <= i < End(|s|, chunk, c) ==> s[i] == t[i]
  }

  /** Scan and sum of a chunk depend on that chunk only. */
  lemma ElementIsLocal(kind: ScanType, s: seq<int>, t: seq<int>, chunk: nat, c: nat, i: nat)
    requires chunk > 0 && SameChunk(s, t, chunk, c) && Base(c, chunk) <= i < End(|s|, chunk, c)
    ensures BlockScan(kind, s, chunk)[i] == BlockScan(kind, t, chunk)[i]
  {
    ChunkBounds(i, chunk, c);
    SegShift(s, t, 0, Base(c, chunk), if kind == Inclusive then i + 1 else i);
  }

  lemma SumIsLocal(s: seq<int>, t: seq<int>, chunk: nat, c: nat)
    requires chunk > 0 && SameChunk(s, t, chunk, c) && c < DivCeil(|s|, chunk)
    ensures ChunkSums(s, chunk)[c] == ChunkSums(t, chunk)[c]
  {
    ChunkInRange(|s|, chunk, c);
    SegShift(s, t, 0, Base(c, chunk), End(|s|, chunk, c));
  }

  /** A chunk as the kernels load it: missing elements of the last chunk become zero. */
  function LoadedChunk(s: seq<int>, base: nat, chunk: nat): (r: seq<int>)
    ensures |r| == chunk
  {
    seq(chunk, k requires 0 <= k < chunk => if base + k < |s| then s[base + k] else 0)
  }

  lemma LoadedSeg(s: seq<int>, base: nat, chunk: nat, k: nat)
    requires k <= chunk && base + k <= |s|
    ensures Seg(LoadedChunk(s, base, chunk), 0, k) == Seg(s, base, base + k)
  {
  }

  /** The value written for an element: its exclusive in-chunk sum, plus itself if inclusive. */
  lemma WrittenValue(scanType: ScanType, s: seq<int>, chunk: nat, c: nat, i: nat)
    requires Base(c, chunk) <= i < Base(c, chunk) + chunk && i < |s|
    ensures BlockScan(scanType, s, chunk)[i]
         == PrefixSums(Exclusive, LoadedChunk(s, Base(c, chunk), chunk))[i - Base(c, chunk)]
          + if scanType == Inclusive then s[i] else 0
  {
    ChunkBounds(i, chunk, c);
    LoadedSeg(s, Base(c, chunk), chunk, i - Base(c, chunk));
  }

  lemma LoadedTotal(s: seq<int>, chunk: nat, c: nat)
    requires chunk > 0 && c < DivCeil(|s|, chunk)
    ensures Seg(LoadedChunk(s, Base(c, chunk), chunk), 0, chunk) == ChunkSums(s, chunk)[c]
  {
    var base := Base(c, chunk);
    var a, k := LoadedChunk(s, base, chunk), End(|s|, chunk, c) - base;
    ChunkInRange(|s|, chunk, c);
    SegSplit(a, 0, k, chunk);
    SegZero(a, k, chunk);
    LoadedSeg(s, base, chunk, k);
  }

  /** The sums of the first c chunks add up to the sum of everything before chunk c. */
  lemma {:induction false} ChunkSumsPrefix(s: seq<int>, chunk: nat, c: nat)
    requires chunk > 0 && c < DivCeil(|s|, chunk)
    ensures Base(c, chunk) <= |s| && Seg(ChunkSums(s, chunk), 0, c) == Seg(s, 0, Base(c, chunk))
  {
    ChunkInRange(|s|, chunk, c);
    if c > 0 {
      ChunkInRange(|s|, chunk, c - 1);
      ChunkSumsPrefix(s, chunk, c - 1);
      SegSplit(s, 0, Base(c - 1, chunk), Base(c, chunk));
    }
  }

  /** A chunk scan plus the scanned sum of all earlier chunks is the full prefix sum. */
  lemma TwoLevels(kind: ScanType, s: seq<int>, chunk: nat, i: nat)
    requires chunk > 0 && i < |s|
    ensures ChunkOf(i, chunk) < DivCeil(|s|, chunk)
    ensures BlockScan(kind, s, chunk)[i] + PrefixSums(Exclusive, ChunkSums(s, chunk))[ChunkOf(i, chunk)]
         == PrefixSums(kind, s)[i]
  {
    var c := ChunkOf(i, chunk);
    ChunkBounds(i, chunk, c);
    ChunkInRange(|s|, chunk, c);
    ChunkSumsPrefix(s, chunk, c);
    SegSplit(s, 0, Base(c, chunk), if kind == Inclusive then i + 1 else i);
  }

  /** With at most one chunk the chunk scan is the prefix sum. */
  lemma SingleChunk(kind: ScanType, s: seq<int>, chunk: nat)
    requires chunk > 0 && DivCeil(|s|, chunk) <= 1
    ensures BlockScan(kind, s, chunk) == PrefixSums(kind, s)
  {
    forall i | 0 <= i < |s|
      ensures BlockScan(kind, s, chunk)[i] == PrefixSums(kind, s)[i]
    {
      TwoLevels(kind, s, chunk, i);
    }
  }

  /** All chunk sums together are the total. */
  lemma {:induction false} ChunkSumsTotal(s: seq<int>, chunk: nat)
    requires chunk > 0
    ensures Seg(ChunkSums(s, chunk), 0, DivCeil(|s|, chunk)) == Seg(s, 0, |s|)
  {
    var q := DivCeil(|s|, chunk);
    if q > 0 {
      ChunkInRange(|s|, chunk, q - 1);
      ChunkSumsPrefix(s, chunk, q - 1);
      SegSplit(s, 0, Base(q - 1, chunk), |s|);
    }
  }
}
