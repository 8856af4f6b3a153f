/** The block-wide sweeps in padded shared memory (example/scan/src/scan.hpp and
    example/scan/src/scan_improved.hpp). The work items of a level are handed to the threads
    of the block in an arbitrary order; barriers separate the levels. */
module SharedScan {
  import opened Arith
  import opened Sums
  import opened Sweeps

  datatype DeviceKind = NvidiaGpu | AmdGpu | IntelGpu | CpuOrUnknown

  const NUM_NVIDIA_BANKS: nat := 32
  const NUM_AMD_BANKS: nat := 32
  const NUM_INTEL_BANKS: nat := 16

  /** Padded position of logical slot n: one unused slot after every bank row. */
  function ConflictFreeAccess(kind: DeviceKind, n: nat): nat {
    match kind
    case NvidiaGpu => n + n / NUM_NVIDIA_BANKS
    case AmdGpu => n + n / NUM_AMD_BANKS
    case IntelGpu => n + n / NUM_INTEL_BANKS
    case CpuOrUnknown => n
  }

  /** Padding keeps distinct slots distinct and in order. */
  lemma PaddingIncreases(kind: DeviceKind, m: nat, n: nat)
    ensures m < n <==> ConflictFreeAccess(kind, m) < ConflictFreeAccess(kind, n)
  {
  }

  /** The banks of a device's shared memory; none are modelled for a CPU. */
  function Banks(kind: DeviceKind): nat {
    match kind
    case NvidiaGpu => NUM_NVIDIA_BANKS
    case AmdGpu => NUM_AMD_BANKS
    case IntelGpu => NUM_INTEL_BANKS
    case CpuOrUnknown => 0
  }

  /** Every bank row is followed by one unused slot. */
  lemma PaddedRow(kind: DeviceKind, row: nat, column: nat)
    requires column < Banks(kind)
    ensures ConflictFreeAccess(kind, row * Banks(kind) + column) == row * (Banks(kind) + 1) + column
  {
    DivModUnique(row * Banks(kind) + column, Banks(kind), row, column);
  }

  /** What the padding is for: the same column of two rows lies in different banks, unless the rows
      are a multiple of the number of banks apart. */
  lemma SameColumnOtherBank(kind: DeviceKind, banks: nat, row: nat, other: nat, column: nat)
    requires banks == Banks(kind) && column < banks
    ensures ConflictFreeAccess(kind, row * banks + column) % banks == (row + column) % banks
    ensures 0 < other - row < banks ==>
      ConflictFreeAccess(kind, row * banks + column) % banks != ConflictFreeAccess(kind, other * banks + column) % banks
  {
    PaddedRow(kind, row, column);
    PaddedRow(kind, other, column);
    BankOf(banks, row, column);
    BankOf(banks, other, column);
    if 0 < other - row < banks {
      DifferentBanks(banks, row + column, other + column);
    }
  }

  lemma BankOf(banks: nat, row: nat, column: nat)
    requires column < banks
    ensures (row * (banks + 1) + column) % banks == (row + column) % banks
  {
    var q, r := (row + column) / banks, (row + column) % banks;
    assert row + column == banks * q + r;
    Distribute(row, banks, 1);
    Distribute(banks, row, q);
    DivModUnique(row * (banks + 1) + column, banks, row + q, r);
  }

  lemma DifferentBanks(banks: nat, a: nat, b: nat)
    requires 0 < b - a < banks
    ensures a % banks != b % banks
  {
    if a % banks == b % banks {
      assert a == banks * (a / banks) + a % banks && b == banks * (b / banks) + b % banks;
      var d := b / banks - a / banks;
      assert b - a == banks * d by { Distribute(banks, b / banks, -(a / banks)); }
      if d >= 1 {
        MulMono(1, d, banks);
      } else {
        MulMono(d, 0, banks);
      }
      assert false;
    }
  }

  predicate Fits(kind: DeviceKind, n: nat, size: nat) {
    n > 0 ==> ConflictFreeAccess(kind, n - 1) < size
  }

  /** The n logical slots of a padded memory. */
  function View(mem: seq<int>, kind: DeviceKind, n: nat): (s: seq<int>)
    requires Fits(kind, n, |mem|)
    ensures |s| == n
  {
    seq(n, p requires 0 <= p < n => PaddingIncreases(kind, n - 1, p); mem[ConflictFreeAccess(kind, p)])
  }

  lemma ViewWrite(mem: seq<int>, kind: DeviceKind, n: nat, p: nat, v: int)
    requires Fits(kind, n, |mem|) && p < n
    ensures ConflictFreeAccess(kind, p) < |mem|
    ensures View(mem[ConflictFreeAccess(kind, p) := v], kind, n) == View(mem, kind, n)[p := v]
  {
    PaddingIncreases(kind, n - 1, p);
    var after := View(mem[ConflictFreeAccess(kind, p) := v], kind, n);
    forall q | 0 <= q < n
      ensures after[q] == View(mem, kind, n)[p := v][q]
    {
      PaddingIncreases(kind, p, q);
      PaddingIncreases(kind, q, p);
      PaddingIncreases(kind, n - 1, q);
    }
  }

  /** tmp[conflictFreeAccess(p)] as read and written by a work item. */
  method Read(tmp: array<int>, kind: DeviceKind, n: nat, p: nat) returns (v: int)
    requires Fits(kind, n, tmp.Length) && p < n
    ensures v == View(tmp[..], kind, n)[p]
  {
    PaddingIncreases(kind, n - 1, p);
    v := tmp[ConflictFreeAccess(kind, p)];
  }

  method Write(tmp: array<int>, kind: DeviceKind, n: nat, p: nat, v: int)
    requires Fits(kind, n, tmp.Length) && p < n
    modifies tmp
    ensures View(tmp[..], kind, n) == View(old(tmp[..]), kind, n)[p := v]
  {
    ghost var before := tmp[..];
    ViewWrite(before, kind, n, p, v);
    tmp[ConflictFreeAccess(kind, p)] := v;
    assert tmp[..] == before[ConflictFreeAccess(kind, p) := v];
  }

  method Add(tmp: array<int>, kind: DeviceKind, n: nat, left: nat, right: nat)
    requires Fits(kind, n, tmp.Length) && left < right < n
    modifies tmp
    ensures View(tmp[..], kind, n) == AddAt(View(old(tmp[..]), kind, n), left, right)
  {
    var addend := Read(tmp, kind, n, left);
    var value := Read(tmp, kind, n, right);
    Write(tmp, kind, n, right, value + addend);
  }

  method Exchange(tmp: array<int>, kind: DeviceKind, n: nat, left: nat, right: nat)
    requires Fits(kind, n, tmp.Length) && left < right < n
    modifies tmp
    ensures View(tmp[..], kind, n) == ExchangeAt(View(old(tmp[..]), kind, n), left, right)
  {
    var t := Read(tmp, kind, n, left);
    var value := Read(tmp, kind, n, right);
    Write(tmp, kind, n, left, value);
    value := Read(tmp, kind, n, right);
    Write(tmp, kind, n, right, value + t);
  }

  method UpSweepLevel(tmp: array<int>, kind: DeviceKind, n: nat, d: nat, offset: nat)
    requires Fits(kind, n, tmp.Length) && offset > 0 && n == 2 * offset * d
    modifies tmp
    ensures View(tmp[..], kind, n) == UpLevel(View(old(tmp[..]), kind, n), offset)
  {
    ghost var s := View(tmp[..], kind, n);
    PartialEnds(s, UpLevel(s, offset), offset, d);
    var todo := Range(0, d);
    while todo != {}
      invariant todo <= Range(0, d)
      invariant View(tmp[..], kind, n) == Partial(s, UpLevel(s, offset), offset, todo)
      decreases todo
    {
      var item: nat :| item in todo;
      var idxInChunk := 2 * item;
      UpItem(s, offset, d, item, todo);
      var left := offset * (idxInChunk + 1) - 1;
      var right := offset * (idxInChunk + 2) - 1;
      SlotExpressions(offset, idxInChunk, item);
      Add(tmp, kind, n, left, right);
      todo := todo - {item};
    }
  }

  method DownSweepLevel(tmp: array<int>, kind: DeviceKind, n: nat, d: nat, offset: nat)
    requires Fits(kind, n, tmp.Length) && offset > 0 && n == 2 * offset * d
    modifies tmp
    ensures View(tmp[..], kind, n) == DownLevel(View(old(tmp[..]), kind, n), offset)
  {
    ghost var s := View(tmp[..], kind, n);
    PartialEnds(s, DownLevel(s, offset), offset, d);
    var todo := Range(0, d);
    while todo != {}
      invariant todo <= Range(0, d)
      invariant View(tmp[..], kind, n) == Partial(s, DownLevel(s, offset), offset, todo)
      decreases todo
    {
      var item: nat :| item in todo;
      var idxInChunk := 2 * item;
      DownItem(s, offset, d, item, todo);
      var left := offset * (idxInChunk + 1) - 1;
      var right := offset * (idxInChunk + 2) - 1;
      SlotExpressions(offset, idxInChunk, item);
      Exchange(tmp, kind, n, left, right);
      todo := todo - {item};
    }
  }

  method UpSweep(tmp: array<int>, kind: DeviceKind, n: nat)
    requires Fits(kind, n, tmp.Length) && IsPow2(n)
    modifies tmp
    ensures UpInvariant(View(tmp[..], kind, n), View(old(tmp[..]), kind, n), n)
  {
    ghost var a := View(tmp[..], kind, n);
    UpStart(a);
    var d, offset := n / 2, 1;
    while d > 0
      invariant offset > 0 && IsPow2(offset) && UpInvariant(View(tmp[..], kind, n), a, offset)
      invariant if d > 0 then IsPow2(d) && n == 2 * offset * d else offset == n
      decreases d
    {
      UpStep(View(tmp[..], kind, n), a, offset);
      UpSweepLevel(tmp, kind, n, d, offset);
      LevelUp(n, offset, d);
      d, offset := d / 2, offset * 2;
    }
  }

  method DownSweep(tmp: array<int>, kind: DeviceKind, n: nat, ghost a: seq<int>)
    requires Fits(kind, n, tmp.Length) && IsPow2(n)
    requires DownInvariant(View(tmp[..], kind, n), a, n)
    modifies tmp
    ensures View(tmp[..], kind, n) == PrefixSums(Exclusive, a)
  {
    var d, offset := 1, n / 2;
    ghost var top := n;
    while d < n
      invariant d > 0 && top > 0 && IsPow2(top) && n == d * top && offset == top / 2
      invariant DownInvariant(View(tmp[..], kind, n), a, top)
      decreases top
    {
      LevelDown(n, top, d);
      DownStep(View(tmp[..], kind, n), a, offset);
      DownSweepLevel(tmp, kind, n, d, offset);
      top := offset;
      d, offset := d * 2, offset / 2;
    }
    LastLevel(n, top, d);
    DownEnd(View(tmp[..], kind, n), a);
  }

  /** One thread saves the last slot as block sum and clears it. */
  method SaveAndClear(tmp: array<int>, kind: DeviceKind, n: nat) returns (total: int)
    requires Fits(kind, n, tmp.Length) && n > 0
    modifies tmp
    ensures total == View(old(tmp[..]), kind, n)[n - 1]
    ensures View(tmp[..], kind, n) == View(old(tmp[..]), kind, n)[n - 1 := 0]
  {
    total := Read(tmp, kind, n, n - 1);
    Write(tmp, kind, n, n - 1, 0);
  }

  /** Exclusive scan of the n logical slots; returns what the kernel stores as block sum. */
  method ScanShared(tmp: array<int>, kind: DeviceKind, n: nat) returns (total: int)
    requires Fits(kind, n, tmp.Length) && IsPow2(n)
    modifies tmp
    ensures View(tmp[..], kind, n) == PrefixSums(Exclusive, View(old(tmp[..]), kind, n))
    ensures total == Seg(View(old(tmp[..]), kind, n), 0, n)
  {
    ghost var a := View(tmp[..], kind, n);
    UpSweep(tmp, kind, n);
    ghost var swept := tmp[..];
    total := SaveAndClear(tmp, kind, n);
    DownStart(View(swept, kind, n), a);
    DownSweep(tmp, kind, n, a);
  }
}
