/** Scan_ScanBlocksKernel of example/scan/src/scan.hpp as a grid of thread blocks: every access to
    global and shared memory is a step of its own, and blocks and threads interleave freely up to
    the barriers. The input starts the global memory; the output is the input, or lies behind it,
    and the chunk sums lie behind both. */
module GridScan {
  import opened Arith
  import opened Sums
  import opened BlockScans
  import opened Sweeps
  import opened Interleaving
  import opened SharedScan
  import opened RaceFreeSweeps
  import opened GridMachine

  datatype Launch = Launch(scanType: ScanType, kind: DeviceKind, chunk: nat, n: nat, at: nat, sumsAt: nat,
                           withSums: bool) {
    ghost predicate Valid(global: nat) {
      && IsPow2(chunk) && (at == 0 || at >= n) && n <= sumsAt && at + n <= sumsAt && at + n <= global
      && (withSums ==> sumsAt + NumChunks() <= global)
    }

    function NumChunks(): nat
      requires IsPow2(chunk)
    {
      DivCeil(n, chunk)
    }

    /** Size of a block's shared memory; global memory is addressed behind it. */
    function Shared(): nat {
      ConflictFreeAccess(kind, chunk)
    }

    function Slot(k: nat): nat {
      ConflictFreeAccess(kind, k)
    }

    function Width(c: nat): (w: nat)
      requires IsPow2(chunk) && c < NumChunks()
      ensures w <= chunk && Base(c, chunk) + w <= n && (w < chunk ==> Base(c, chunk) + w == n)
    {
      ChunkInRange(n, chunk, c);
      End(n, chunk, c) - Base(c, chunk)
    }
  }

  // ---- The phases of a block ----

  function CopyItem(l: Launch, c: nat, k: nat): Program {
    if Base(c, l.chunk) + k < l.n then [Load(0, l.Shared() + Base(c, l.chunk) + k), Store(l.Slot(k), [0])]
    else [Store(l.Slot(k), [])]
  }

  function Copy(l: Launch, c: nat): seq<Program> {
    seq(l.chunk, k requires 0 <= k < l.chunk => CopyItem(l, c, k))
  }

  function UpPhases(kind: DeviceKind, d: nat, offset: nat): Phases
    requires offset > 0
    decreases d
  {
    if d == 0 then [] else [Level(false, kind, offset, d)] + UpPhases(kind, d / 2, 2 * offset)
  }

  function DownPhases(kind: DeviceKind, n: nat, d: nat, offset: nat): Phases
    requires d > 0
    decreases offset
  {
    if d >= n || offset == 0 then [] else [Level(true, kind, offset, d)] + DownPhases(kind, n, 2 * d, offset / 2)
  }

  /** One thread saves the total and clears the last slot. */
  function SaveAndClearItem(l: Launch, c: nat): Program
    requires l.chunk > 0
  {
    [Load(0, l.Slot(l.chunk - 1))]
    + (if l.withSums then [Store(l.Shared() + l.sumsAt + c, [0])] else [])
    + [Store(l.Slot(l.chunk - 1), [])]
  }

  function WriteItem(l: Launch, c: nat, k: nat): Program {
    var i := Base(c, l.chunk) + k;
    WriteProgram(l.scanType, l.Slot(k), l.Shared() + i, l.Shared() + l.at + i)
  }

  function Write(l: Launch, c: nat): seq<Program>
    requires IsPow2(l.chunk) && c < l.NumChunks()
  {
    seq(l.Width(c), k requires 0 <= k < l.Width(c) => WriteItem(l, c, k))
  }

  function BlockPhases(l: Launch, c: nat): Phases
    requires IsPow2(l.chunk) && c < l.NumChunks()
  {
    [Copy(l, c)] + UpPhases(l.kind, l.chunk / 2, 1) + [[SaveAndClearItem(l, c)]]
    + DownPhases(l.kind, l.chunk, 1, l.chunk / 2) + [Write(l, c)]
  }

  /** One item for every index a loop of the kernel runs over. */
  lemma OneItemPerIndex(l: Launch, c: nat, down: bool, offset: nat, d: nat)
    requires IsPow2(l.chunk) && c < l.NumChunks() && offset > 0
    ensures |Copy(l, c)| == l.chunk && |Level(down, l.kind, offset, d)| == d
    ensures |Write(l, c)| == if (c + 1) * l.chunk <= l.n then l.chunk else l.n - c * l.chunk
  {
    Distribute(l.chunk, c, 1);
  }

  ghost predicate InRange(l: Launch, cs: seq<nat>)
    requires IsPow2(l.chunk)
  {
    forall j :: 0 <= j < |cs| ==> cs[j] < l.NumChunks()
  }

  /** A block takes its chunks one after another, in the same shared memory: a barrier ends each. */
  ghost function ListPhases(l: Launch, cs: seq<nat>): Phases
    requires IsPow2(l.chunk) && InRange(l, cs)
  {
    if cs == [] then [] else BlockPhases(l, cs[0]) + ListPhases(l, cs[1..])
  }

  /** Every chunk goes to one block, once. */
  ghost predicate Dealt(l: Launch, dealt: seq<seq<nat>>)
    requires IsPow2(l.chunk)
  {
    && (forall b :: 0 <= b < |dealt| ==> InRange(l, dealt[b]) && Distinct(dealt[b]))
    && (forall b, d :: 0 <= b < |dealt| && 0 <= d < |dealt| && b != d ==> NoneShared(dealt[b], dealt[d]))
    && forall c :: 0 <= c < l.NumChunks() ==> Taken(dealt, c)
  }

  ghost predicate Taken(dealt: seq<seq<nat>>, c: nat) {
    exists b :: 0 <= b < |dealt| && c in dealt[b]
  }

  ghost predicate Distinct(cs: seq<nat>) {
    forall i, j :: 0 <= i < j < |cs| ==> cs[i] != cs[j]
  }

  ghost predicate NoneShared(cs: seq<nat>, ds: seq<nat>) {
    forall i, j :: 0 <= i < |cs| && 0 <= j < |ds| ==> cs[i] != ds[j]
  }

  /** Any lists of chunks are a dealing in which no chunk occurs twice and `place` tells where each
      chunk is. */
  lemma AnyListsAreDealt(l: Launch, dealt: seq<seq<nat>>, place: seq<(nat, nat)>)
    requires IsPow2(l.chunk) && |place| == l.NumChunks()
    requires forall b, j :: 0 <= b < |dealt| && 0 <= j < |dealt[b]| ==> dealt[b][j] < l.NumChunks()
    requires forall b, i, d, j ::
      (0 <= b < |dealt| && 0 <= d < |dealt| && 0 <= i < |dealt[b]| && 0 <= j < |dealt[d]| && (b != d || i != j)) ==>
        dealt[b][i] != dealt[d][j]
    requires forall c :: 0 <= c < |place| ==>
      place[c].0 < |dealt| && place[c].1 < |dealt[place[c].0]| && dealt[place[c].0][place[c].1] == c
    ensures Dealt(l, dealt)
  {
    forall c | 0 <= c < l.NumChunks() ensures Taken(dealt, c) {
      assert c in dealt[place[c].0];
    }
  }

  /** The kernel, for any number of blocks and any dealing of the chunks. */
  ghost function Kernel(l: Launch, dealt: seq<seq<nat>>): seq<Phases>
    requires IsPow2(l.chunk) && Dealt(l, dealt)
  {
    seq(|dealt|, b requires 0 <= b < |dealt| => ListPhases(l, dealt[b]))
  }

  // ---- Footprints ----

  /** What block c may access: its shared memory, its chunk of input and output, its sum. */
  predicate Foot(l: Launch, c: nat, x: nat) {
    var base, s := Base(c, l.chunk), l.Shared();
    || x < s
    || (s + base <= x < s + base + l.chunk && x < s + l.n)
    || (s + l.at + base <= x < s + l.at + base + l.chunk && x < s + l.at + l.n)
    || (l.withSums && x == s + l.sumsAt + c)
  }

  ghost predicate Inside(progs: seq<Program>, l: Launch, c: nat) {
    forall i, k :: 0 <= i < |progs| && 0 <= k < |progs[i]| ==> Foot(l, c, progs[i][k].slot)
  }

  lemma SlotsFit(l: Launch, k: nat)
    requires k < l.chunk
    ensures l.Slot(k) < l.Shared() && Fits(l.kind, l.chunk, l.Shared())
  {
    PaddingIncreases(l.kind, k, l.chunk);
    PaddingIncreases(l.kind, l.chunk - 1, l.chunk);
  }

  lemma FootInSpace(l: Launch, c: nat, x: nat, global: nat)
    requires l.Valid(global) && c < l.NumChunks() && Foot(l, c, x)
    ensures x < l.Shared() + global
  {
  }

  lemma CopyWellFormed(l: Launch, c: nat, global: nat)
    requires l.Valid(global) && c < l.NumChunks()
    ensures Inside(Copy(l, c), l, c) && WellFormed(Copy(l, c), l.Shared() + global)
  {
    var progs: seq<Program> := Copy(l, c);
    forall i: nat, k: nat | i < |progs| && k < |progs[i]|
      ensures Foot(l, c, progs[i][k].slot) && progs[i][k].slot < l.Shared() + global
    {
      SlotsFit(l, i);
      FootInSpace(l, c, progs[i][k].slot, global);
    }
    forall i, j | 0 <= i < |progs| && 0 <= j < |progs| && i != j ensures Apart(progs[i], progs[j]) {
      SlotsFit(l, i);
      SlotsFit(l, j);
      PaddedApart(l.kind, i, j);
    }
  }

  lemma WriteWellFormed(l: Launch, c: nat, global: nat)
    requires l.Valid(global) && c < l.NumChunks()
    ensures Inside(Write(l, c), l, c) && WellFormed(Write(l, c), l.Shared() + global)
  {
    var progs: seq<Program> := Write(l, c);
    forall i: nat, k: nat | i < |progs| && k < |progs[i]|
      ensures Foot(l, c, progs[i][k].slot) && progs[i][k].slot < l.Shared() + global
    {
      SlotsFit(l, i);
      FootInSpace(l, c, progs[i][k].slot, global);
    }
    forall i, j | 0 <= i < |progs| && 0 <= j < |progs| && i != j ensures Apart(progs[i], progs[j]) {
      SlotsFit(l, i);
      SlotsFit(l, j);
    }
  }

  lemma SaveWellFormed(l: Launch, c: nat, global: nat)
    requires l.Valid(global) && c < l.NumChunks()
    ensures Inside([SaveAndClearItem(l, c)], l, c) && WellFormed([SaveAndClearItem(l, c)], l.Shared() + global)
  {
    SlotsFit(l, l.chunk - 1);
  }

  lemma LevelInside(down: bool, l: Launch, c: nat, offset: nat, d: nat, global: nat)
    requires offset > 0 && l.chunk == 2 * offset * d && l.chunk > 0
    ensures Inside(Level(down, l.kind, offset, d), l, c)
    ensures WellFormed(Level(down, l.kind, offset, d), l.Shared() + global)
  {
    SlotsFit(l, 0);
    LevelWellFormed(down, l.kind, l.chunk, offset, d, l.Shared());
    LevelWellFormed(down, l.kind, l.chunk, offset, d, l.Shared() + global);
    var progs: seq<Program> := Level(down, l.kind, offset, d);
    forall i: nat, k: nat | i < |progs| && k < |progs[i]| ensures Foot(l, c, progs[i][k].slot) {
      assert InBounds(progs[i], l.Shared());
    }
  }

  /** A list of phases in which nothing goes wrong. */
  ghost predicate Sane(phases: Phases, l: Launch, c: nat, global: nat) {
    forall p :: 0 <= p < |phases| ==> Inside(phases[p], l, c) && WellFormed(phases[p], l.Shared() + global)
  }

  lemma {:induction false} UpPhasesSane(l: Launch, c: nat, d: nat, offset: nat, global: nat)
    requires offset > 0 && l.chunk > 0
    requires if d > 0 then IsPow2(d) && l.chunk == 2 * offset * d else offset == l.chunk
    ensures Sane(UpPhases(l.kind, d, offset), l, c, global)
    decreases d
  {
    if d > 0 {
      LevelInside(false, l, c, offset, d, global);
      LevelUp(l.chunk, offset, d);
      UpPhasesSane(l, c, d / 2, 2 * offset, global);
    }
  }

  lemma {:induction false} DownPhasesSane(l: Launch, c: nat, d: nat, top: nat, global: nat)
    requires d > 0 && top > 0 && IsPow2(top) && l.chunk == d * top && (d < l.chunk ==> top / 2 > 0)
    ensures Sane(DownPhases(l.kind, l.chunk, d, top / 2), l, c, global)
    decreases top
  {
    if d < l.chunk {
      LevelDown(l.chunk, top, d);
      LevelInside(true, l, c, top / 2, d, global);
      if 2 * d < l.chunk {
        LevelDown(l.chunk, top / 2, 2 * d);
      }
      DownPhasesSane(l, c, 2 * d, top / 2, global);
    }
  }

  lemma BlockPhasesSane(l: Launch, c: nat, global: nat)
    requires l.Valid(global) && c < l.NumChunks()
    ensures Sane(BlockPhases(l, c), l, c, global)
  {
    CopyWellFormed(l, c, global);
    FirstUpLevel(l.chunk);
    UpPhasesSane(l, c, l.chunk / 2, 1, global);
    SaveWellFormed(l, c, global);
    DownPhasesSane(l, c, 1, l.chunk, global);
    WriteWellFormed(l, c, global);
  }

  lemma FirstUpLevel(chunk: nat)
    requires IsPow2(chunk)
    ensures chunk > 0 && if chunk / 2 > 0 then IsPow2(chunk / 2) && chunk == 2 * 1 * (chunk / 2) else chunk == 1
  {
  }

  lemma AccessInFoot(l: Launch, c: nat, phases: Phases, global: nat, x: nat)
    requires Sane(phases, l, c, global) && Accesses(phases, x)
    ensures Foot(l, c, x)
  {
    var p: nat, i: nat :| p < |phases| && i < |phases[p]| && Touches(phases[p][i], x);
    assert Inside(phases[p], l, c);
    var k: nat :| k < |phases[p][i]| && phases[p][i][k].slot == x;
    assert Foot(l, c, phases[p][i][k].slot);
  }

  lemma StoreIsAccess(phases: Phases, x: nat)
    requires StoresTo(phases, x)
    ensures Accesses(phases, x)
  {
    var p: nat, i: nat, k: nat :|
      p < |phases| && i < |phases[p]| && k < |phases[p][i]| && phases[p][i][k].Store? && phases[p][i][k].slot == x;
    assert Touches(phases[p][i], x);
  }

  /** Different blocks meet nowhere in global memory. */
  lemma FeetApart(l: Launch, c: nat, d: nat, x: nat, global: nat)
    requires l.Valid(global) && c < l.NumChunks() && d < l.NumChunks() && c != d && x >= l.Shared()
    ensures !(Foot(l, c, x) && Foot(l, d, x))
  {
    BaseMono(c, d, l.chunk);
    BaseMono(d, c, l.chunk);
  }

  lemma AccessOfEither(a: Phases, b: Phases, x: nat)
    ensures Accesses(a + b, x) <==> Accesses(a, x) || Accesses(b, x)
  {
    if Accesses(a, x) {
      var p: nat, i: nat :| p < |a| && i < |a[p]| && Touches(a[p][i], x);
      assert (a + b)[p] == a[p];
    }
    if Accesses(b, x) {
      var p: nat, i: nat :| p < |b| && i < |b[p]| && Touches(b[p][i], x);
      assert (a + b)[|a| + p] == b[p];
    }
  }

  lemma {:induction false} ListAccess(l: Launch, cs: seq<nat>, global: nat, x: nat) returns (j: nat)
    requires l.Valid(global) && InRange(l, cs) && Accesses(ListPhases(l, cs), x)
    ensures j < |cs| && Foot(l, cs[j], x)
    decreases |cs|
  {
    AccessOfEither(BlockPhases(l, cs[0]), ListPhases(l, cs[1..]), x);
    if Accesses(BlockPhases(l, cs[0]), x) {
      BlockPhasesSane(l, cs[0], global);
      AccessInFoot(l, cs[0], BlockPhases(l, cs[0]), global, x);
      j := 0;
    } else {
      j := ListAccess(l, cs[1..], global, x);
      j := j + 1;
    }
  }

  lemma {:induction false} ListWellFormed(l: Launch, cs: seq<nat>, global: nat)
    requires l.Valid(global) && InRange(l, cs)
    ensures OnlyShared(ListPhases(l, cs), l.Shared() + global)
    decreases |cs|
  {
    if cs != [] {
      BlockPhasesSane(l, cs[0], global);
      ListWellFormed(l, cs[1..], global);
    }
  }

  lemma ListsApart(l: Launch, cs: seq<nat>, ds: seq<nat>, global: nat, x: nat)
    requires l.Valid(global) && InRange(l, cs) && InRange(l, ds) && NoneShared(cs, ds) && x >= l.Shared()
    ensures !(StoresTo(ListPhases(l, cs), x) && Accesses(ListPhases(l, ds), x))
  {
    if StoresTo(ListPhases(l, cs), x) && Accesses(ListPhases(l, ds), x) {
      StoreIsAccess(ListPhases(l, cs), x);
      var i := ListAccess(l, cs, global, x);
      var j := ListAccess(l, ds, global, x);
      FeetApart(l, cs[i], ds[j], x, global);
    }
  }

  lemma KernelRaceFree(l: Launch, dealt: seq<seq<nat>>, global: nat)
    requires l.Valid(global) && Dealt(l, dealt)
    ensures RaceFree(Kernel(l, dealt), l.Shared(), global)
  {
    var kernel := Kernel(l, dealt);
    forall b, p | 0 <= b < |kernel| && 0 <= p < |kernel[b]|
      ensures WellFormed(kernel[b][p], l.Shared() + global)
    {
      ListWellFormed(l, dealt[b], global);
    }
    forall b, d, x: nat | 0 <= b < |kernel| && 0 <= d < |kernel| && b != d && x >= l.Shared()
      ensures !(StoresTo(kernel[b], x) && Accesses(kernel[d], x))
    {
      ListsApart(l, dealt[b], dealt[d], global, x);
    }
  }

  // ---- What the phases of a block leave ----

  lemma {:induction false} ChainSplit(a: Phases, b: Phases, mem: seq<int>, after: seq<int>) returns (mid: seq<int>)
    requires Chain(a + b, mem, after)
    ensures Chain(a, mem, mid) && Chain(b, mid, after)
    decreases |a|
  {
    if |a| == 0 {
      assert a + b == b;
      mid := mem;
    } else {
      assert (a + b)[1..] == a[1..] + b && (a + b)[0] == a[0];
      var first :| Outcome((a + b)[0], mem, first) && Chain((a + b)[1..], first, after);
      mid := ChainSplit(a[1..], b, first, after);
      assert Outcome(a[0], mem, first) && Chain(a[1..], first, mid);
    }
  }

  lemma OnePhase(progs: seq<Program>, mem: seq<int>, after: seq<int>)
    requires Chain([progs], mem, after)
    ensures Outcome(progs, mem, after)
  {
    var mid :| Outcome([progs][0], mem, mid) && Chain([progs][1..], mid, after);
    assert [progs][1..] == [];
  }

  lemma {:induction false} UpChain(kind: DeviceKind, d: nat, offset: nat, mem: seq<int>, after: seq<int>)
    requires offset > 0 && Chain(UpPhases(kind, d, offset), mem, after)
    ensures UpSweepRun(kind, d, offset, mem, after)
    decreases d
  {
    if d > 0 {
      var phases := UpPhases(kind, d, offset);
      var mid :| Outcome(phases[0], mem, mid) && Chain(phases[1..], mid, after);
      assert phases[1..] == UpPhases(kind, d / 2, 2 * offset);
      UpChain(kind, d / 2, 2 * offset, mid, after);
    }
  }

  lemma {:induction false} DownChain(kind: DeviceKind, n: nat, d: nat, top: nat, mem: seq<int>, after: seq<int>)
    requires d > 0 && top > 0 && IsPow2(top) && n == d * top && (d < n ==> top / 2 > 0)
    requires Chain(DownPhases(kind, n, d, top / 2), mem, after)
    ensures DownSweepRun(kind, n, d, top / 2, mem, after)
    decreases top
  {
    if d < n {
      LevelDown(n, top, d);
      if 2 * d < n {
        LevelDown(n, top / 2, 2 * d);
      }
      var offset := top / 2;
      var phases := DownPhases(kind, n, d, offset);
      var mid :| Outcome(phases[0], mem, mid) && Chain(phases[1..], mid, after);
      assert phases[1..] == DownPhases(kind, n, 2 * d, offset / 2);
      DownChain(kind, n, 2 * d, offset, mid, after);
    }
  }

  /** Global memory is left alone by phases that only work in shared memory. */
  ghost predicate OnlyShared(phases: Phases, size: nat) {
    forall p :: 0 <= p < |phases| ==> WellFormed(phases[p], size)
  }

  lemma {:induction false} GlobalKept(phases: Phases, size: nat, mem: seq<int>, after: seq<int>)
    requires Chain(phases, mem, after) && OnlyShared(phases, size) && size <= |mem|
    ensures |after| == |mem| && after[size..] == mem[size..]
    decreases |phases|
  {
    if |phases| > 0 {
      var mid :| Outcome(phases[0], mem, mid) && Chain(phases[1..], mid, after);
      OutcomeIsSolo(phases[0], mem, mid);
      forall x | size <= x < |mem| ensures mid[x] == mem[x] {
        forall i | 0 <= i < |phases[0]| ensures !Stores(phases[0][i], x) {
          assert InBounds(phases[0][i], size);
        }
        OutcomeUnstored(phases[0], mem, mid, x);
      }
      assert mid[size..] == mem[size..];
      GlobalKept(phases[1..], size, mid, after);
    }
  }

  lemma {:induction false} UpOnlyShared(kind: DeviceKind, n: nat, size: nat, d: nat, offset: nat)
    requires offset > 0 && n > 0 && Fits(kind, n, size)
    requires if d > 0 then IsPow2(d) && n == 2 * offset * d else offset == n
    ensures OnlyShared(UpPhases(kind, d, offset), size)
    decreases d
  {
    if d > 0 {
      LevelWellFormed(false, kind, n, offset, d, size);
      LevelUp(n, offset, d);
      UpOnlyShared(kind, n, size, d / 2, 2 * offset);
    }
  }

  lemma {:induction false} DownOnlyShared(kind: DeviceKind, n: nat, size: nat, d: nat, top: nat)
    requires d > 0 && top > 0 && IsPow2(top) && n == d * top && (d < n ==> top / 2 > 0) && Fits(kind, n, size)
    ensures OnlyShared(DownPhases(kind, n, d, top / 2), size)
    decreases top
  {
    if d < n {
      LevelDown(n, top, d);
      LevelWellFormed(true, kind, n, top / 2, d, size);
      if 2 * d < n {
        LevelDown(n, top / 2, 2 * d);
      }
      DownOnlyShared(kind, n, size, 2 * d, top / 2);
    }
  }

  lemma SoloCopy(p: Program, mem: seq<int>, from: nat, to: nat)
    requires p == [Load(0, from), Store(to, [0])] && from < |mem| && to < |mem|
    ensures InBounds(p, |mem|) && Solo(p, mem, |p|).0 == mem[to := mem[from]]
  {
    var r0: Registers := map[];
    var r1 := r0[0 := mem[from]];
    SoloStep(p, mem, 0, mem, r0);
    SmallRegSums(r1, 0, 0);
    SoloStep(p, mem, 1, mem, r1);
  }

  lemma {:induction false} SoloAdd(p: Program, mem: seq<int>, a: nat, b: nat, to: nat)
    requires p == [Load(0, a), Load(1, b), Store(to, [0, 1])] && a < |mem| && b < |mem| && to < |mem|
    ensures InBounds(p, |mem|) && Solo(p, mem, |p|).0 == mem[to := mem[a] + mem[b]]
  {
    var r0: Registers := map[];
    var r1 := r0[0 := mem[a]];
    var r2 := r1[1 := mem[b]];
    SoloStep(p, mem, 0, mem, r0);
    SoloStep(p, mem, 1, mem, r1);
    SoloStep(p, mem, 2, mem, r2);
    SmallRegSums(r2, 0, 1);
  }

  lemma {:induction false} SoloClear(p: Program, mem: seq<int>, to: nat)
    requires p == [Store(to, [])] && to < |mem|
    ensures InBounds(p, |mem|) && Solo(p, mem, |p|).0 == mem[to := 0]
  {
    SoloStep(p, mem, 0, mem, map[]);
  }

  lemma CopyKeepsGlobal(l: Launch, c: nat, mem: seq<int>, after: seq<int>)
    requires IsPow2(l.chunk) && l.Shared() <= |mem| && c < l.NumChunks() && Outcome(Copy(l, c), mem, after)
    ensures |after| == |mem| && after[l.Shared()..] == mem[l.Shared()..]
  {
    var progs, s := Copy(l, c), l.Shared();
    OutcomeIsSolo(progs, mem, after);
    forall x | s <= x < |mem| ensures after[x] == mem[x] {
      forall i: nat | i < |progs| ensures !Stores(progs[i], x) {
        SlotsFit(l, i);
      }
      OutcomeUnstored(progs, mem, after, x);
    }
  }

  /** The copy phase loads the chunk, padded with zeros, and leaves global memory alone. */
  lemma CopyOutcome(l: Launch, c: nat, mem: seq<int>, after: seq<int>)
    requires l.Shared() <= |mem| && l.Valid(|mem| - l.Shared()) && c < l.NumChunks() && Outcome(Copy(l, c), mem, after)
    ensures |after| == |mem| && after[l.Shared()..] == mem[l.Shared()..] && Fits(l.kind, l.chunk, |mem|)
    ensures View(after, l.kind, l.chunk) == LoadedChunk(mem[l.Shared()..][..l.n], Base(c, l.chunk), l.chunk)
  {
    CopyKeepsGlobal(l, c, mem, after);
    SlotsFit(l, 0);
    var input := mem[l.Shared()..][..l.n];
    forall k: nat | k < l.chunk
      ensures View(after, l.kind, l.chunk)[k] == LoadedChunk(input, Base(c, l.chunk), l.chunk)[k]
    {
      CopiedItem(l, c, mem, after, k);
    }
  }

  lemma CopiedItem(l: Launch, c: nat, mem: seq<int>, after: seq<int>, k: nat)
    requires l.Shared() <= |mem| && l.Valid(|mem| - l.Shared()) && c < l.NumChunks() && Outcome(Copy(l, c), mem, after)
    requires k < l.chunk
    ensures l.Slot(k) < |mem| == |after|
    ensures after[l.Slot(k)] ==
      if Base(c, l.chunk) + k < l.n then mem[l.Shared() + Base(c, l.chunk) + k] else 0
  {
    SlotsFit(l, k);
    var p, from := CopyItem(l, c, k), l.Shared() + Base(c, l.chunk) + k;
    assert p[|p| - 1].slot == l.Slot(k) && Touches(p, l.Slot(k));
    OutcomeAt(Copy(l, c), mem, after, k, l.Slot(k));
    if Base(c, l.chunk) + k < l.n {
      SoloCopy(p, mem, from, l.Slot(k));
    } else {
      SoloClear(p, mem, l.Slot(k));
    }
  }

  lemma SoloSave(p: Program, mem: seq<int>, last: nat, sum: nat)
    requires p == [Load(0, last), Store(sum, [0]), Store(last, [])] && last < |mem| && sum < |mem| && sum != last
    ensures InBounds(p, |mem|) && Solo(p, mem, |p|).0 == mem[sum := mem[last]][last := 0]
  {
    var r0: Registers := map[];
    var r1 := r0[0 := mem[last]];
    SoloStep(p, mem, 0, mem, r0);
    SmallRegSums(r1, 0, 0);
    SoloStep(p, mem, 1, mem, r1);
    SoloStep(p, mem, 2, mem[sum := mem[last]], r1);
  }

  lemma SoloLoadAndClear(p: Program, mem: seq<int>, last: nat)
    requires p == [Load(0, last), Store(last, [])] && last < |mem|
    ensures InBounds(p, |mem|) && Solo(p, mem, |p|).0 == mem[last := 0]
  {
    var r0: Registers := map[];
    SoloStep(p, mem, 0, mem, r0);
    SoloStep(p, mem, 1, mem, r0[0 := mem[last]]);
  }

  lemma SingleItemAt(progs: seq<Program>, mem: seq<int>, after: seq<int>, x: nat)
    requires |progs| == 1 && Outcome(progs, mem, after) && x < |mem|
    ensures |after| == |mem| && InBounds(progs[0], |mem|) && after[x] == Solo(progs[0], mem, |progs[0]|).0[x]
  {
    if Touches(progs[0], x) {
      OutcomeAt(progs, mem, after, 0, x);
    } else {
      OutcomeUnstored(progs, mem, after, x);
      SoloUnstored(progs[0], mem, |progs[0]|, x);
    }
  }

  /** A phase of one item leaves what that item leaves. */
  lemma SingleItem(progs: seq<Program>, mem: seq<int>, after: seq<int>)
    requires |progs| == 1 && Outcome(progs, mem, after)
    ensures |after| == |mem| && InBounds(progs[0], |mem|) && after == Solo(progs[0], mem, |progs[0]|).0
  {
    OutcomeIsSolo(progs, mem, after);
    forall x | 0 <= x < |mem| ensures after[x] == Solo(progs[0], mem, |progs[0]|).0[x] {
      SingleItemAt(progs, mem, after, x);
    }
  }

  /** What saving and clearing leaves. */
  function Saved(l: Launch, c: nat, mem: seq<int>): seq<int>
    requires l.chunk > 0 && l.Slot(l.chunk - 1) < l.Shared() <= |mem|
    requires l.withSums ==> l.Shared() + l.sumsAt + c < |mem|
  {
    var last := l.Slot(l.chunk - 1);
    (if l.withSums then mem[l.Shared() + l.sumsAt + c := mem[last]] else mem)[last := 0]
  }

  lemma SaveOutcome(l: Launch, c: nat, mem: seq<int>, after: seq<int>)
    requires l.Shared() <= |mem| && l.Valid(|mem| - l.Shared()) && c < l.NumChunks()
    requires Outcome([SaveAndClearItem(l, c)], mem, after)
    ensures l.Slot(l.chunk - 1) < l.Shared() && (l.withSums ==> l.Shared() + l.sumsAt + c < |mem|)
    ensures after == Saved(l, c, mem)
  {
    var last, p := l.Slot(l.chunk - 1), SaveAndClearItem(l, c);
    SlotsFit(l, l.chunk - 1);
    SingleItem([p], mem, after);
    if l.withSums {
      assert p == [Load(0, last), Store(l.Shared() + l.sumsAt + c, [0]), Store(last, [])];
      SoloSave(p, mem, last, l.Shared() + l.sumsAt + c);
    } else {
      assert p == [Load(0, last), Store(last, [])];
      SoloLoadAndClear(p, mem, last);
    }
  }

  function WriteProgram(scanType: ScanType, slot: nat, input: nat, to: nat): Program {
    match scanType
    case Exclusive => [Load(0, slot), Store(to, [0])]
    case Inclusive => [Load(0, input), Load(1, slot), Store(to, [0, 1])]
  }

  lemma WriteAlone(scanType: ScanType, p: Program, mem: seq<int>, slot: nat, input: nat, to: nat)
    requires p == WriteProgram(scanType, slot, input, to) && slot < |mem| && input < |mem| && to < |mem|
    ensures InBounds(p, |mem|) && Touches(p, to)
    ensures Solo(p, mem, |p|).0[to] == mem[slot] + if scanType == Inclusive then mem[input] else 0
  {
    assert p[|p| - 1].slot == to;
    match scanType
    case Exclusive => SoloCopy(p, mem, slot, to);
    case Inclusive => SoloAdd(p, mem, input, slot, to);
  }

  /** The write phase stores each element's result. */
  lemma WriteOutcome(l: Launch, c: nat, mem: seq<int>, after: seq<int>, k: nat)
    requires l.Shared() <= |mem| && l.Valid(|mem| - l.Shared()) && c < l.NumChunks() && Outcome(Write(l, c), mem, after)
    requires k < l.Width(c)
    ensures |after| == |mem| && l.Slot(k) < |mem| && l.Shared() + l.at + Base(c, l.chunk) + k < |mem|
    ensures after[l.Shared() + l.at + Base(c, l.chunk) + k] ==
      mem[l.Slot(k)] + if l.scanType == Inclusive then mem[l.Shared() + Base(c, l.chunk) + k] else 0
  {
    var progs := Write(l, c);
    var input, to := l.Shared() + Base(c, l.chunk) + k, l.Shared() + l.at + Base(c, l.chunk) + k;
    SlotsFit(l, k);
    WriteAlone(l.scanType, progs[k], mem, l.Slot(k), input, to);
    OutcomeAt(progs, mem, after, k, to);
  }

  lemma WriteKeepsSum(l: Launch, c: nat, mem: seq<int>, after: seq<int>)
    requires l.Shared() <= |mem| && l.Valid(|mem| - l.Shared()) && c < l.NumChunks() && Outcome(Write(l, c), mem, after)
    requires l.withSums
    ensures |after| == |mem| && l.Shared() + l.sumsAt + c < |mem|
    ensures after[l.Shared() + l.sumsAt + c] == mem[l.Shared() + l.sumsAt + c]
  {
    OutcomeUnstored(Write(l, c), mem, after, l.Shared() + l.sumsAt + c);
  }

  // ---- A block alone, and the grid ----

  /** The memories between the phases of a block that runs alone. */
  lemma BlockChain(l: Launch, c: nat, mem: seq<int>, end: seq<int>)
    returns (copied: seq<int>, up: seq<int>, saved: seq<int>, down: seq<int>)
    requires IsPow2(l.chunk) && c < l.NumChunks() && Chain(BlockPhases(l, c), mem, end)
    ensures Outcome(Copy(l, c), mem, copied) && Chain(UpPhases(l.kind, l.chunk / 2, 1), copied, up)
    ensures Outcome([SaveAndClearItem(l, c)], up, saved)
    ensures Chain(DownPhases(l.kind, l.chunk, 1, l.chunk / 2), saved, down) && Outcome(Write(l, c), down, end)
  {
    var ups, downs := UpPhases(l.kind, l.chunk / 2, 1), DownPhases(l.kind, l.chunk, 1, l.chunk / 2);
    var save := [SaveAndClearItem(l, c)];
    down := ChainSplit([Copy(l, c)] + ups + [save] + downs, [Write(l, c)], mem, end);
    saved := ChainSplit([Copy(l, c)] + ups + [save], downs, mem, down);
    up := ChainSplit([Copy(l, c)] + ups, [save], mem, saved);
    copied := ChainSplit([Copy(l, c)], ups, mem, up);
    OnePhase(Copy(l, c), mem, copied);
    OnePhase(save, up, saved);
    OnePhase(Write(l, c), down, end);
  }

  lemma UpAlone(l: Launch, copied: seq<int>, up: seq<int>)
    requires IsPow2(l.chunk) && l.Shared() <= |copied| && Fits(l.kind, l.chunk, |copied|)
    requires Chain(UpPhases(l.kind, l.chunk / 2, 1), copied, up)
    ensures |up| == |copied| && up[l.Shared()..] == copied[l.Shared()..]
    ensures UpInvariant(View(up, l.kind, l.chunk), View(copied, l.kind, l.chunk), l.chunk)
  {
    var n, view := l.chunk, View(copied, l.kind, l.chunk);
    FirstUpLevel(n);
    SlotsFit(l, n - 1);
    UpStart(view);
    UpChain(l.kind, n / 2, 1, copied, up);
    UpSweepScans(l.kind, n, n / 2, 1, copied, up, view);
    UpOnlyShared(l.kind, n, l.Shared(), n / 2, 1);
    GlobalKept(UpPhases(l.kind, n / 2, 1), l.Shared(), copied, up);
  }

  lemma DownAlone(l: Launch, saved: seq<int>, down: seq<int>, a: seq<int>)
    requires IsPow2(l.chunk) && l.Shared() <= |saved| && Fits(l.kind, l.chunk, |saved|)
    requires DownInvariant(View(saved, l.kind, l.chunk), a, l.chunk)
    requires Chain(DownPhases(l.kind, l.chunk, 1, l.chunk / 2), saved, down)
    ensures |down| == |saved| && down[l.Shared()..] == saved[l.Shared()..]
    ensures View(down, l.kind, l.chunk) == PrefixSums(Exclusive, a)
  {
    var n := l.chunk;
    FirstUpLevel(n);
    SlotsFit(l, n - 1);
    DownChain(l.kind, n, 1, n, saved, down);
    DownSweepScans(l.kind, n, 1, n, saved, down, a);
    DownOnlyShared(l.kind, n, l.Shared(), 1, n);
    GlobalKept(DownPhases(l.kind, n, 1, n / 2), l.Shared(), saved, down);
  }

  lemma SaveEffect(l: Launch, c: nat, up: seq<int>, saved: seq<int>)
    requires l.Shared() <= |up| && l.Valid(|up| - l.Shared()) && c < l.NumChunks() && Fits(l.kind, l.chunk, |up|)
    requires Outcome([SaveAndClearItem(l, c)], up, saved)
    ensures |saved| == |up| && l.Slot(l.chunk - 1) < |up| && (l.withSums ==> l.sumsAt + c < |up| - l.Shared())
    ensures View(saved, l.kind, l.chunk) == View(up[l.Slot(l.chunk - 1) := 0], l.kind, l.chunk)
    ensures saved[l.Shared()..] ==
      if l.withSums then up[l.Shared()..][l.sumsAt + c := up[l.Slot(l.chunk - 1)]] else up[l.Shared()..]
  {
    SaveOutcome(l, c, up, saved);
    SavedView(l, c, up);
  }

  /** Between copying and writing back the block scans its chunk in shared memory. */
  lemma SweepsAlone(l: Launch, c: nat, copied: seq<int>, up: seq<int>, saved: seq<int>, down: seq<int>)
    requires l.Shared() <= |copied| && l.Valid(|copied| - l.Shared()) && c < l.NumChunks()
    requires Fits(l.kind, l.chunk, |copied|)
    requires Chain(UpPhases(l.kind, l.chunk / 2, 1), copied, up) && Outcome([SaveAndClearItem(l, c)], up, saved)
    requires Chain(DownPhases(l.kind, l.chunk, 1, l.chunk / 2), saved, down)
    ensures |down| == |copied| && (l.withSums ==> l.sumsAt + c < |copied| - l.Shared())
    ensures View(down, l.kind, l.chunk) == PrefixSums(Exclusive, View(copied, l.kind, l.chunk))
    ensures down[l.Shared()..] ==
      if l.withSums then copied[l.Shared()..][l.sumsAt + c := Seg(View(copied, l.kind, l.chunk), 0, l.chunk)]
      else copied[l.Shared()..]
  {
    var a := View(copied, l.kind, l.chunk);
    UpAlone(l, copied, up);
    SaveEffect(l, c, up, saved);
    Cleared(l.kind, l.chunk, up, a);
    DownAlone(l, saved, down, a);
  }

  lemma SavedView(l: Launch, c: nat, up: seq<int>)
    requires l.chunk > 0 && l.Slot(l.chunk - 1) < l.Shared() <= |up| && Fits(l.kind, l.chunk, |up|)
    requires l.withSums ==> l.Shared() + l.sumsAt + c < |up|
    ensures View(Saved(l, c, up), l.kind, l.chunk) == View(up[l.Slot(l.chunk - 1) := 0], l.kind, l.chunk)
    ensures Saved(l, c, up)[l.Shared()..] ==
      if l.withSums then up[l.Shared()..][l.sumsAt + c := up[l.Slot(l.chunk - 1)]] else up[l.Shared()..]
  {
    forall k | 0 <= k < l.chunk
      ensures View(Saved(l, c, up), l.kind, l.chunk)[k] == View(up[l.Slot(l.chunk - 1) := 0], l.kind, l.chunk)[k]
    {
      SlotsFit(l, k);
    }
  }

  /** Global memory as a block finds it when it writes back. */
  function WithSum(l: Launch, c: nat, global: seq<int>): seq<int>
    requires IsPow2(l.chunk) && c < l.NumChunks() && l.n <= |global| && (l.withSums ==> l.sumsAt + c < |global|)
  {
    if l.withSums then global[l.sumsAt + c := ChunkSums(global[..l.n], l.chunk)[c]] else global
  }

  /** A block that runs alone has its chunk scanned in shared memory when it writes back. */
  lemma BlockBeforeWrite(l: Launch, c: nat, shared: seq<int>, global: seq<int>, end: seq<int>) returns (down: seq<int>)
    requires |shared| == l.Shared() && l.Valid(|global|) && c < l.NumChunks()
    requires Chain(BlockPhases(l, c), shared + global, end)
    ensures Outcome(Write(l, c), down, end) && BeforeWrite(l, c, global, down)
  {
    var mem := shared + global;
    assert mem[l.Shared()..] == global;
    var copied, up, saved;
    copied, up, saved, down := BlockChain(l, c, mem, end);
    CopyOutcome(l, c, mem, copied);
    SweepsAlone(l, c, copied, up, saved, down);
    OutcomeIsSolo(Write(l, c), down, end);
    LoadedTotal(global[..l.n], l.chunk, c);
  }

  /** What the write phase starts from. */
  ghost predicate BeforeWrite(l: Launch, c: nat, global: seq<int>, down: seq<int>) {
    && l.Valid(|global|) && c < l.NumChunks() && |down| == l.Shared() + |global| && Fits(l.kind, l.chunk, |down|)
    && View(down, l.kind, l.chunk) == PrefixSums(Exclusive, LoadedChunk(global[..l.n], Base(c, l.chunk), l.chunk))
    && down[l.Shared()..] == WithSum(l, c, global)
  }

  lemma InputBeforeWrite(l: Launch, c: nat, global: seq<int>, down: seq<int>, k: nat)
    requires BeforeWrite(l, c, global, down) && k < l.Width(c)
    ensures l.Slot(k) < |down| && down[l.Shared() + Base(c, l.chunk) + k] == global[Base(c, l.chunk) + k]
    ensures down[l.Slot(k)] == PrefixSums(Exclusive, LoadedChunk(global[..l.n], Base(c, l.chunk), l.chunk))[k]
  {
    SlotsFit(l, k);
    var i := Base(c, l.chunk) + k;
    assert down[l.Slot(k)] == View(down, l.kind, l.chunk)[k];
    assert down[l.Shared() + i] == down[l.Shared()..][i];
  }

  /** The write phase leaves the elements of the chunk scanned, */
  lemma BlockElement(l: Launch, c: nat, global: seq<int>, down: seq<int>, end: seq<int>, k: nat)
    requires BeforeWrite(l, c, global, down) && Outcome(Write(l, c), down, end) && k < l.Width(c)
    ensures |end| == |down|
    ensures end[l.Shared() + l.at + Base(c, l.chunk) + k] ==
      BlockScan(l.scanType, global[..l.n], l.chunk)[Base(c, l.chunk) + k]
  {
    InputBeforeWrite(l, c, global, down, k);
    WriteOutcome(l, c, down, end, k);
    WrittenValue(l.scanType, global[..l.n], l.chunk, c, Base(c, l.chunk) + k);
  }

  /** and the sum of the chunk saved. */
  lemma BlockSum(l: Launch, c: nat, global: seq<int>, down: seq<int>, end: seq<int>)
    requires BeforeWrite(l, c, global, down) && Outcome(Write(l, c), down, end) && l.withSums
    ensures |end| == |down|
    ensures end[l.Shared() + l.sumsAt + c] == ChunkSums(global[..l.n], l.chunk)[c]
  {
    WriteKeepsSum(l, c, down, end);
    assert down[l.Shared() + l.sumsAt + c] == down[l.Shared()..][l.sumsAt + c];
  }

  lemma WritesAreAccesses(l: Launch, c: nat, k: nat)
    requires IsPow2(l.chunk) && c < l.NumChunks() && k < l.Width(c)
    ensures Accesses(BlockPhases(l, c), l.Shared() + l.at + Base(c, l.chunk) + k)
  {
    var phases := BlockPhases(l, c);
    var p := WriteItem(l, c, k);
    assert phases[|phases| - 1] == Write(l, c) && Write(l, c)[k] == p;
    assert Touches(p, p[|p| - 1].slot);
  }

  lemma SumIsAccess(l: Launch, c: nat)
    requires IsPow2(l.chunk) && c < l.NumChunks() && l.withSums
    ensures Accesses(BlockPhases(l, c), l.Shared() + l.sumsAt + c)
  {
    var phases, ups := BlockPhases(l, c), UpPhases(l.kind, l.chunk / 2, 1);
    var p := SaveAndClearItem(l, c);
    assert phases[1 + |ups|] == [p] && [p][0] == p;
    assert Touches(p, p[1].slot);
  }

  lemma {:induction false} AccessInList(l: Launch, cs: seq<nat>, j: nat, x: nat)
    requires IsPow2(l.chunk) && InRange(l, cs) && j < |cs| && Accesses(BlockPhases(l, cs[j]), x)
    ensures Accesses(ListPhases(l, cs), x)
    decreases j
  {
    AccessOfEither(BlockPhases(l, cs[0]), ListPhases(l, cs[1..]), x);
    if j > 0 {
      AccessInList(l, cs[1..], j - 1, x);
    }
  }

  /** Element i of the output holds the scan of its chunk of the input in `global`. */
  ghost predicate ElementDone(l: Launch, i: nat, global: seq<int>, mem: seq<int>) {
    && l.Valid(|global|) && i < l.n && |mem| == l.Shared() + |global|
    && mem[l.Shared() + l.at + i] == BlockScan(l.scanType, global[..l.n], l.chunk)[i]
  }

  ghost predicate SumDone(l: Launch, c: nat, global: seq<int>, mem: seq<int>) {
    && l.Valid(|global|) && c < l.NumChunks() && |mem| == l.Shared() + |global|
    && (l.withSums ==> mem[l.Shared() + l.sumsAt + c] == ChunkSums(global[..l.n], l.chunk)[c])
  }

  ghost predicate ChunkDone(l: Launch, c: nat, global: seq<int>, mem: seq<int>) {
    && SumDone(l, c, global, mem)
    && forall i :: Base(c, l.chunk) <= i < End(l.n, l.chunk, c) ==> ElementDone(l, i, global, mem)
  }

  lemma OneElementDone(l: Launch, c: nat, global: seq<int>, down: seq<int>, end: seq<int>, i: nat)
    requires BeforeWrite(l, c, global, down) && Outcome(Write(l, c), down, end)
    requires Base(c, l.chunk) <= i < End(l.n, l.chunk, c)
    ensures ElementDone(l, i, global, end)
  {
    BlockElement(l, c, global, down, end, i - Base(c, l.chunk));
  }

  lemma OneSumDone(l: Launch, c: nat, global: seq<int>, down: seq<int>, end: seq<int>)
    requires BeforeWrite(l, c, global, down) && Outcome(Write(l, c), down, end)
    ensures SumDone(l, c, global, end)
  {
    OutcomeIsSolo(Write(l, c), down, end);
    if l.withSums {
      BlockSum(l, c, global, down, end);
    }
  }

  lemma OneChunkDone(l: Launch, c: nat, shared: seq<int>, global: seq<int>, end: seq<int>)
    requires |shared| == l.Shared() && l.Valid(|global|) && c < l.NumChunks()
    requires Chain(BlockPhases(l, c), shared + global, end)
    ensures ChunkDone(l, c, global, end)
  {
    var down := BlockBeforeWrite(l, c, shared, global, end);
    OneSumDone(l, c, global, down, end);
    forall i | Base(c, l.chunk) <= i < End(l.n, l.chunk, c) ensures ElementDone(l, i, global, end) {
      OneElementDone(l, c, global, down, end, i);
    }
  }

  /** What a chunk's phases look at in global memory is still as it was at first. */
  ghost predicate Untouched(l: Launch, c: nat, global: seq<int>, mem: seq<int>) {
    && |mem| == l.Shared() + |global|
    && forall x: nat :: x < |global| && Foot(l, c, l.Shared() + x) ==> mem[l.Shared() + x] == global[x]
  }

  lemma UntouchedIsSame(l: Launch, c: nat, global: seq<int>, mem: seq<int>, now: seq<int>)
    requires l.Valid(|global|) && c < l.NumChunks() && Untouched(l, c, global, mem) && now == mem[l.Shared()..]
    ensures SameChunk(now[..l.n], global[..l.n], l.chunk, c)
  {
    forall i | Base(c, l.chunk) <= i < End(l.n, l.chunk, c) ensures now[..l.n][i] == global[..l.n][i] {
      assert Foot(l, c, l.Shared() + i);
    }
  }

  lemma DoneForSame(l: Launch, c: nat, now: seq<int>, global: seq<int>, end: seq<int>)
    requires l.Valid(|global|) && |now| == |global| && SameChunk(now[..l.n], global[..l.n], l.chunk, c)
    requires ChunkDone(l, c, now, end)
    ensures ChunkDone(l, c, global, end)
  {
    SumIsLocal(now[..l.n], global[..l.n], l.chunk, c);
    forall i | Base(c, l.chunk) <= i < End(l.n, l.chunk, c) ensures ElementDone(l, i, global, end) {
      assert ElementDone(l, i, now, end);
      ElementIsLocal(l.scanType, now[..l.n], global[..l.n], l.chunk, c, i);
    }
  }

  lemma UntouchedChunkDone(l: Launch, c: nat, global: seq<int>, mem: seq<int>, end: seq<int>)
    requires l.Valid(|global|) && c < l.NumChunks() && Untouched(l, c, global, mem)
    requires Chain(BlockPhases(l, c), mem, end)
    ensures ChunkDone(l, c, global, end)
  {
    var now := mem[l.Shared()..];
    assert mem == mem[..l.Shared()] + now;
    OneChunkDone(l, c, mem[..l.Shared()], now, end);
    UntouchedIsSame(l, c, global, mem, now);
    DoneForSame(l, c, now, global, end);
  }

  lemma StoresLater(phases: Phases, x: nat)
    requires |phases| > 0 && StoresTo(phases[1..], x)
    ensures StoresTo(phases, x)
  {
    var p: nat, i: nat, k: nat :| p < |phases[1..]| && i < |phases[1..][p]| && k < |phases[1..][p][i]| &&
      phases[1..][p][i][k].Store? && phases[1..][p][i][k].slot == x;
    assert phases[p + 1] == phases[1..][p];
  }

  lemma {:induction false} ChainUnstored(phases: Phases, mem: seq<int>, after: seq<int>, x: nat)
    requires Chain(phases, mem, after) && x < |mem| && !StoresTo(phases, x)
    ensures |after| == |mem| && after[x] == mem[x]
    decreases |phases|
  {
    if |phases| > 0 {
      var mid :| Outcome(phases[0], mem, mid) && Chain(phases[1..], mid, after);
      OutcomeUnstored(phases[0], mem, mid, x);
      if StoresTo(phases[1..], x) {
        StoresLater(phases, x);
      }
      ChainUnstored(phases[1..], mid, after, x);
    }
  }

  /** The phases of other chunks keep what belongs to chunk c. */
  lemma OthersKeepFoot(l: Launch, cs: seq<nat>, c: nat, mem: seq<int>, after: seq<int>, global: nat, x: nat)
    requires l.Valid(global) && InRange(l, cs) && c < l.NumChunks() && c !in cs && |mem| == l.Shared() + global
    requires Chain(ListPhases(l, cs), mem, after) && x >= l.Shared() && Foot(l, c, x)
    ensures |after| == |mem| && x < |mem| && after[x] == mem[x]
  {
    FootInSpace(l, c, x, global);
    if StoresTo(ListPhases(l, cs), x) {
      StoreIsAccess(ListPhases(l, cs), x);
      var j := ListAccess(l, cs, global, x);
      FeetApart(l, c, cs[j], x, global);
      assert false;
    }
    ChainUnstored(ListPhases(l, cs), mem, after, x);
  }

  lemma OneChunkList(l: Launch, c: nat)
    requires IsPow2(l.chunk) && c < l.NumChunks()
    ensures ListPhases(l, [c]) == BlockPhases(l, c)
  {
    assert [c][1..] == [];
    assert BlockPhases(l, c) + [] == BlockPhases(l, c);
  }

  lemma StillUntouched(l: Launch, c: nat, d: nat, global: seq<int>, mem: seq<int>, mid: seq<int>)
    requires l.Valid(|global|) && c < l.NumChunks() && d < l.NumChunks() && c != d
    requires Untouched(l, d, global, mem) && Chain(BlockPhases(l, c), mem, mid)
    ensures Untouched(l, d, global, mid)
  {
    OneChunkList(l, c);
    BlockPhasesSane(l, c, |global|);
    ChainLength(BlockPhases(l, c), mem, mid);
    forall x: nat | x < |global| && Foot(l, d, l.Shared() + x) ensures mid[l.Shared() + x] == global[x] {
      OthersKeepFoot(l, [c], d, mem, mid, |global|, l.Shared() + x);
    }
  }

  lemma {:induction false} ChainLength(phases: Phases, mem: seq<int>, after: seq<int>)
    requires Chain(phases, mem, after)
    ensures |after| == |mem|
    decreases |phases|
  {
    if |phases| > 0 {
      var mid :| Outcome(phases[0], mem, mid) && Chain(phases[1..], mid, after);
      OutcomeIsSolo(phases[0], mem, mid);
      ChainLength(phases[1..], mid, after);
    }
  }

  lemma ElementStays(l: Launch, c: nat, cs: seq<nat>, global: seq<int>, mid: seq<int>, end: seq<int>, i: nat)
    requires ElementDone(l, i, global, mid) && Base(c, l.chunk) <= i < Base(c, l.chunk) + l.chunk
    requires c < l.NumChunks() && InRange(l, cs) && c !in cs && Chain(ListPhases(l, cs), mid, end)
    ensures ElementDone(l, i, global, end)
  {
    OthersKeepFoot(l, cs, c, mid, end, |global|, l.Shared() + l.at + i);
  }

  lemma SumStays(l: Launch, c: nat, cs: seq<nat>, global: seq<int>, mid: seq<int>, end: seq<int>)
    requires SumDone(l, c, global, mid) && InRange(l, cs) && c !in cs && Chain(ListPhases(l, cs), mid, end)
    ensures SumDone(l, c, global, end)
  {
    ChainLength(ListPhases(l, cs), mid, end);
    if l.withSums {
      OthersKeepFoot(l, cs, c, mid, end, |global|, l.Shared() + l.sumsAt + c);
    }
  }

  lemma StaysDone(l: Launch, c: nat, cs: seq<nat>, global: seq<int>, mid: seq<int>, end: seq<int>)
    requires ChunkDone(l, c, global, mid) && InRange(l, cs) && c !in cs && Chain(ListPhases(l, cs), mid, end)
    ensures ChunkDone(l, c, global, end)
  {
    SumStays(l, c, cs, global, mid, end);
    forall i | Base(c, l.chunk) <= i < End(l.n, l.chunk, c) ensures ElementDone(l, i, global, end) {
      ElementStays(l, c, cs, global, mid, end, i);
    }
  }

  lemma RestUntouched(l: Launch, cs: seq<nat>, global: seq<int>, mem: seq<int>, mid: seq<int>)
    requires l.Valid(|global|) && InRange(l, cs) && Distinct(cs) && cs != []
    requires forall i :: 0 <= i < |cs| ==> Untouched(l, cs[i], global, mem)
    requires Chain(BlockPhases(l, cs[0]), mem, mid)
    ensures forall i :: 0 <= i < |cs[1..]| ==> Untouched(l, cs[1..][i], global, mid)
  {
    forall i | 0 <= i < |cs[1..]| ensures Untouched(l, cs[1..][i], global, mid) {
      StillUntouched(l, cs[0], cs[i + 1], global, mem, mid);
    }
  }

  /** A block that runs alone does each of its chunks, whatever shared memory holds in between. */
  lemma {:induction false} ListDone(l: Launch, cs: seq<nat>, global: seq<int>, mem: seq<int>, end: seq<int>, j: nat)
    requires l.Valid(|global|) && InRange(l, cs) && Distinct(cs) && j < |cs|
    requires forall i :: 0 <= i < |cs| ==> Untouched(l, cs[i], global, mem)
    requires Chain(ListPhases(l, cs), mem, end)
    ensures ChunkDone(l, cs[j], global, end)
    decreases |cs|
  {
    var rest := cs[1..];
    var mid := ChainSplit(BlockPhases(l, cs[0]), ListPhases(l, rest), mem, end);
    if j == 0 {
      UntouchedChunkDone(l, cs[0], global, mem, mid);
      StaysDone(l, cs[0], rest, global, mid, end);
    } else {
      RestUntouched(l, cs, global, mem, mid);
      ListDone(l, rest, global, mid, end, j - 1);
    }
  }

  /** Every interleaving of the accesses of all threads of all blocks leaves the output with every
      chunk of the input scanned, and the chunk sums where they are asked for; with the output in
      place of the input or behind it, for both scan types, every device padding, and any number
      of blocks among which the chunks are dealt out. */
  lemma EveryGridInterleaving(
    l: Launch, dealt: seq<seq<nat>>, shared: seq<seq<int>>, global: seq<int>, after: seq<int>)
    requires l.Valid(|global|) && Dealt(l, dealt)
    requires GridOutcome(Kernel(l, dealt), l.Shared(), shared, global, after)
    ensures |after| == |global| && after[l.at..l.at + l.n] == BlockScan(l.scanType, global[..l.n], l.chunk)
    ensures l.withSums ==> after[l.sumsAt..l.sumsAt + l.NumChunks()] == ChunkSums(global[..l.n], l.chunk)
  {
    BlocksAreIsolated(Kernel(l, dealt), l.Shared(), shared, global, after);
    forall i | 0 <= i < l.n ensures after[l.at + i] == BlockScan(l.scanType, global[..l.n], l.chunk)[i] {
      GridElement(l, dealt, shared, global, after, i);
    }
    forall c | 0 <= c < l.NumChunks() && l.withSums
      ensures after[l.sumsAt + c] == ChunkSums(global[..l.n], l.chunk)[c]
    {
      GridSum(l, dealt, shared, global, after, c);
    }
  }

  /** What the block that gets chunk c leaves if alone, and what the grid makes of it. */
  lemma BlockEnd(l: Launch, dealt: seq<seq<nat>>, shared: seq<seq<int>>, global: seq<int>, after: seq<int>, c: nat)
    returns (end: seq<int>)
    requires l.Valid(|global|) && Dealt(l, dealt) && c < l.NumChunks()
    requires GridOutcome(Kernel(l, dealt), l.Shared(), shared, global, after)
    ensures |after| == |global| && ChunkDone(l, c, global, end)
    ensures AgreesGlobally(BlockPhases(l, c), l.Shared(), end, after)
  {
    BlocksAreIsolated(Kernel(l, dealt), l.Shared(), shared, global, after);
    assert Taken(dealt, c);
    var b :| 0 <= b < |dealt| && c in dealt[b];
    var j :| 0 <= j < |dealt[b]| && dealt[b][j] == c;
    var phases := ListPhases(l, dealt[b]);
    assert phases == Kernel(l, dealt)[b] && EndsAlone(phases, shared[b], global, after);
    end :| Chain(phases, shared[b] + global, end) && AgreesGlobally(phases, |shared[b]|, end, after);
    ListDone(l, dealt[b], global, shared[b] + global, end, j);
    ListAgrees(l, dealt[b], j, end, after);
  }

  lemma ListAgrees(l: Launch, cs: seq<nat>, j: nat, end: seq<int>, after: seq<int>)
    requires IsPow2(l.chunk) && InRange(l, cs) && j < |cs|
    requires AgreesGlobally(ListPhases(l, cs), l.Shared(), end, after)
    ensures AgreesGlobally(BlockPhases(l, cs[j]), l.Shared(), end, after)
  {
    forall x: nat | x < |after| && Accesses(BlockPhases(l, cs[j]), l.Shared() + x)
      ensures after[x] == end[l.Shared() + x]
    {
      AccessInList(l, cs, j, l.Shared() + x);
    }
  }

  lemma AgreesAt(phases: Phases, size: nat, mem: seq<int>, global: seq<int>, x: nat, slot: nat)
    requires AgreesGlobally(phases, size, mem, global) && slot == size + x && x < |global| && Accesses(phases, slot)
    ensures slot < |mem| && global[x] == mem[slot]
  {
  }

  lemma GridElement(
    l: Launch, dealt: seq<seq<nat>>, shared: seq<seq<int>>, global: seq<int>, after: seq<int>, i: nat)
    requires l.Valid(|global|) && Dealt(l, dealt) && i < l.n
    requires GridOutcome(Kernel(l, dealt), l.Shared(), shared, global, after)
    ensures |after| == |global| && after[l.at + i] == BlockScan(l.scanType, global[..l.n], l.chunk)[i]
  {
    var c := ChunkOf(i, l.chunk);
    ChunkBounds(i, l.chunk, c);
    ChunkInRange(l.n, l.chunk, c);
    var end := BlockEnd(l, dealt, shared, global, after, c);
    WritesAreAccesses(l, c, i - Base(c, l.chunk));
    assert ElementDone(l, i, global, end);
    ElementInGrid(l, c, i, global, end, after);
  }

  lemma ElementInGrid(l: Launch, c: nat, i: nat, global: seq<int>, end: seq<int>, after: seq<int>)
    requires ElementDone(l, i, global, end) && c < l.NumChunks() && |after| == |global|
    requires AgreesGlobally(BlockPhases(l, c), l.Shared(), end, after)
    requires Accesses(BlockPhases(l, c), l.Shared() + l.at + i)
    ensures after[l.at + i] == BlockScan(l.scanType, global[..l.n], l.chunk)[i]
  {
    AgreesAt(BlockPhases(l, c), l.Shared(), end, after, l.at + i, l.Shared() + l.at + i);
  }

  lemma SumInGrid(l: Launch, c: nat, global: seq<int>, end: seq<int>, after: seq<int>)
    requires SumDone(l, c, global, end) && l.withSums && |after| == |global|
    requires AgreesGlobally(BlockPhases(l, c), l.Shared(), end, after)
    ensures after[l.sumsAt + c] == ChunkSums(global[..l.n], l.chunk)[c]
  {
    SumIsAccess(l, c);
    AgreesAt(BlockPhases(l, c), l.Shared(), end, after, l.sumsAt + c, l.Shared() + l.sumsAt + c);
  }

  lemma GridSum(l: Launch, dealt: seq<seq<nat>>, shared: seq<seq<int>>, global: seq<int>, after: seq<int>, c: nat)
    requires l.Valid(|global|) && Dealt(l, dealt) && l.withSums && c < l.NumChunks()
    requires GridOutcome(Kernel(l, dealt), l.Shared(), shared, global, after)
    ensures |after| == |global| && after[l.sumsAt + c] == ChunkSums(global[..l.n], l.chunk)[c]
  {
    var end := BlockEnd(l, dealt, shared, global, after, c);
    SumInGrid(l, c, global, end, after);
  }

  /** The kernel can always run to its end, however the chunks are dealt out and whatever the
      shared memories hold at first. */
  lemma KernelRuns(l: Launch, dealt: seq<seq<nat>>, shared: seq<seq<int>>, global: seq<int>) returns (after: seq<int>)
    requires l.Valid(|global|) && Dealt(l, dealt) && |shared| == |dealt|
    requires forall b :: 0 <= b < |shared| ==> |shared[b]| == l.Shared()
    ensures GridOutcome(Kernel(l, dealt), l.Shared(), shared, global, after)
  {
    KernelRaceFree(l, dealt, |global|);
    after := GridOutcomeExists(Kernel(l, dealt), l.Shared(), shared, global);
  }
}
