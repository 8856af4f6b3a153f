/** One chunk of Scan_ScanBlocksKernel of example/scan/src/scan.hpp: load, scan in shared memory,
    write back, with the work items of every phase in arbitrary order. The output buffer may be
    the input buffer. The loop over chunks is in RecursiveScan. */
module ScanKernel {
  import opened Arith
  import opened Sums
  import opened BlockScans
  import opened SharedScan

  method CopyToShared(ghost s: seq<int>, kind: DeviceKind, chunk: nat, base: nat, input: array<int>, tmp: array<int>)
    requires input != tmp && |s| == input.Length && Fits(kind, chunk, tmp.Length)
    requires forall i :: base <= i < base + chunk && i < |s| ==> input[i] == s[i]
    modifies tmp
    ensures View(tmp[..], kind, chunk) == LoadedChunk(s, base, chunk)
  {
    ghost var loaded := LoadedChunk(s, base, chunk);
    var todo := Range(0, chunk);
    while todo != {}
      invariant forall k: nat :: k < chunk && k !in todo ==> View(tmp[..], kind, chunk)[k] == loaded[k]
      invariant todo <= Range(0, chunk)
      decreases todo
    {
      var idxInChunk: nat :| idxInChunk in todo;
      var value := if base + idxInChunk < input.Length then input[base + idxInChunk] else 0;
      assert value == loaded[idxInChunk];
      Write(tmp, kind, chunk, idxInChunk, value);
      todo := todo - {idxInChunk};
    }
    assert todo == {};
  }

  /** The work item of one element; elements past the end of the input are skipped. */
  method WriteElement(scanType: ScanType, ghost s: seq<int>, kind: DeviceKind, chunk: nat, c: nat, idxInChunk: nat,
                      input: array<int>, output: array<int>, tmp: array<int>)
    requires idxInChunk < chunk && tmp != output && |s| == input.Length == output.Length
    requires Fits(kind, chunk, tmp.Length)
    requires View(tmp[..], kind, chunk) == PrefixSums(Exclusive, LoadedChunk(s, Base(c, chunk), chunk))
    requires Base(c, chunk) + idxInChunk < |s| ==> input[Base(c, chunk) + idxInChunk] == s[Base(c, chunk) + idxInChunk]
    modifies output
    ensures output[..] == Overwrite(old(output[..]), BlockScan(scanType, s, chunk),
                                    Base(c, chunk) + idxInChunk, Base(c, chunk) + idxInChunk + 1)
  {
    var i := Base(c, chunk) + idxInChunk;
    if i < input.Length {
      var value := Read(tmp, kind, chunk, idxInChunk);
      WrittenValue(scanType, s, chunk, c, i);
      match scanType {
        case Exclusive => output[i] := value;
        case Inclusive => output[i] := input[i] + value;
      }
    }
  }

  method WriteBack(scanType: ScanType, ghost s: seq<int>, kind: DeviceKind, chunk: nat, c: nat,
                   input: array<int>, output: array<int>, tmp: array<int>)
    requires chunk > 0 && tmp != output && |s| == input.Length == output.Length
    requires Fits(kind, chunk, tmp.Length)
    requires View(tmp[..], kind, chunk) == PrefixSums(Exclusive, LoadedChunk(s, Base(c, chunk), chunk))
    requires forall i :: Base(c, chunk) <= i < Base(c, chunk) + chunk && i < |s| ==> input[i] == s[i]
    modifies output
    ensures output[..] == Overwrite(old(output[..]), BlockScan(scanType, s, chunk), Base(c, chunk),
                                    Base(c, chunk) + chunk)
  {
    ghost var base, before, target := Base(c, chunk), output[..], BlockScan(scanType, s, chunk);
    WindowEnds(before, target, base, 1, chunk);
    var todo := Range(0, chunk);
    while todo != {}
      invariant todo <= Range(0, chunk)
      invariant forall i :: base <= i < base + chunk && i < |s| && ChunkOf(i - base, 1) in todo ==> input[i] == s[i]
      invariant output[..] == InWindow(before, target, base, chunk, 1, todo)
      decreases todo
    {
      var idxInChunk: nat :| idxInChunk in todo;
      OwnedBlock(1, idxInChunk, chunk);
      WindowDone(before, target, base, chunk, 1, todo, idxInChunk);
      WriteElement(scanType, s, kind, chunk, c, idxInChunk, input, output, tmp);
      todo := todo - {idxInChunk};
    }
  }

  /** One chunk: load, scan in shared memory, write back. Returns the chunk sum. */
  method ScanChunk(scanType: ScanType, ghost s: seq<int>, kind: DeviceKind, chunk: nat, c: nat,
                   input: array<int>, output: array<int>)
    returns (total: int)
    requires IsPow2(chunk) && chunk > 0 && |s| == input.Length == output.Length && c < DivCeil(|s|, chunk)
    requires forall i :: Base(c, chunk) <= i < Base(c, chunk) + chunk && i < |s| ==> input[i] == s[i]
    modifies output
    ensures output[..] == Overwrite(old(output[..]), BlockScan(scanType, s, chunk), Base(c, chunk),
                                    Base(c, chunk) + chunk)
    ensures total == ChunkSums(s, chunk)[c]
  {
    var tmp := new int[ConflictFreeAccess(kind, chunk)];
    CopyToShared(s, kind, chunk, Base(c, chunk), input, tmp);
    total := ScanShared(tmp, kind, chunk);
    LoadedTotal(s, chunk, c);
    WriteBack(scanType, s, kind, chunk, c, input, output, tmp);
  }
}
