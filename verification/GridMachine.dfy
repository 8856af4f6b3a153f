/** A grid of thread blocks: every block runs a sequence of phases separated by barriers of its
    own, each phase a set of work items. All blocks and all items of a block's current phase
    interleave freely, access by access. A block addresses its shared memory first and the global
    memory behind it. */
module GridMachine {
  import opened Interleaving

  type Phases = seq<seq<Program>>

  datatype Block = Block(phase: nat, items: seq<Item>)

  datatype Grid = Grid(global: seq<int>, shared: seq<seq<int>>, blocks: seq<Block>)

  /** Item i of block c performs its next access, or block c passes the barrier. */
  datatype Action = Move(c: nat, i: nat) | Pass(c: nat)

  ghost predicate Accesses(phases: Phases, slot: nat) {
    exists p, i :: 0 <= p < |phases| && 0 <= i < |phases[p]| && Touches(phases[p][i], slot)
  }

  ghost predicate StoresTo(phases: Phases, slot: nat) {
    exists p, i, k :: 0 <= p < |phases| && 0 <= i < |phases[p]| && 0 <= k < |phases[p][i]| &&
      phases[p][i][k].Store? && phases[p][i][k].slot == slot
  }

  /** Items of a phase do not conflict, and blocks do not conflict in global memory. */
  ghost predicate RaceFree(kernel: seq<Phases>, size: nat, global: nat) {
    && (forall c, p :: 0 <= c < |kernel| && 0 <= p < |kernel[c]| ==> WellFormed(kernel[c][p], size + global))
    && forall c, d, x: nat :: 0 <= c < |kernel| && 0 <= d < |kernel| && c != d && x >= size ==>
      !(StoresTo(kernel[c], x) && Accesses(kernel[d], x))
  }

  ghost predicate Shaped(kernel: seq<Phases>, size: nat, g: Grid) {
    && |g.shared| == |g.blocks| == |kernel|
    && (forall c :: 0 <= c < |kernel| ==> |g.shared[c]| == size)
    && forall c :: 0 <= c < |kernel| ==> InPhase(kernel[c], g.blocks[c])
  }

  predicate InPhase(phases: Phases, b: Block) {
    b.phase <= |phases| && (b.phase < |phases| ==> |b.items| == |phases[b.phase]|)
  }

  /** What block c sees. */
  function Space(g: Grid, c: nat): seq<int>
    requires c < |g.shared|
  {
    g.shared[c] + g.global
  }

  function Fresh(progs: seq<Program>): seq<Item> {
    seq(|progs|, _ => Item(0, map[]))
  }

  function Begin(kernel: seq<Phases>, shared: seq<seq<int>>, global: seq<int>): Grid {
    Grid(global, shared, seq(|kernel|, c requires 0 <= c < |kernel| =>
      Block(0, if |kernel[c]| > 0 then Fresh(kernel[c][0]) else [])))
  }

  ghost predicate CanMove(kernel: seq<Phases>, g: Grid, c: nat, i: nat)
    requires |g.blocks| == |kernel|
  {
    && c < |kernel| && g.blocks[c].phase < |kernel[c]| && i < |kernel[c][g.blocks[c].phase]|
    && i < |g.blocks[c].items| && g.blocks[c].items[i].pc < |kernel[c][g.blocks[c].phase][i]|
  }

  ghost predicate CanPass(kernel: seq<Phases>, g: Grid, c: nat)
    requires |g.blocks| == |kernel|
  {
    && c < |kernel| && g.blocks[c].phase < |kernel[c]|
    && (var progs, items := kernel[c][g.blocks[c].phase], g.blocks[c].items;
        |items| == |progs| && forall i :: 0 <= i < |progs| ==> items[i].pc == |progs[i]|)
  }

  ghost function AfterMove(kernel: seq<Phases>, size: nat, g: Grid, c: nat, i: nat): Grid
    requires Shaped(kernel, size, g) && RaceFree(kernel, size, |g.global|) && CanMove(kernel, g, c, i)
  {
    var b := g.blocks[c];
    var item := b.items[i];
    assert WellFormed(kernel[c][b.phase], size + |g.global|);
    var op := kernel[c][b.phase][i][item.pc];
    var space := ExecMem(op, Space(g, c), item.regs);
    var moved := Item(item.pc + 1, ExecRegs(op, Space(g, c), item.regs));
    Grid(space[size..], g.shared[c := space[..size]], g.blocks[c := Block(b.phase, b.items[i := moved])])
  }

  ghost function AfterPass(kernel: seq<Phases>, g: Grid, c: nat): Grid
    requires |g.blocks| == |kernel| && CanPass(kernel, g, c)
  {
    var next := g.blocks[c].phase + 1;
    g.(blocks := g.blocks[c := Block(next, if next < |kernel[c]| then Fresh(kernel[c][next]) else [])])
  }

  /** A schedule names any actions; those not possible when their turn comes have no effect. */
  ghost function Act(kernel: seq<Phases>, size: nat, g: Grid, a: Action): (r: Grid)
    requires Shaped(kernel, size, g) && RaceFree(kernel, size, |g.global|)
    ensures Shaped(kernel, size, r) && |r.global| == |g.global|
  {
    match a
    case Move(c, i) => if CanMove(kernel, g, c, i) then AfterMove(kernel, size, g, c, i) else g
    case Pass(c) => if CanPass(kernel, g, c) then AfterPass(kernel, g, c) else g
  }

  ghost predicate Starts(kernel: seq<Phases>, size: nat, shared: seq<seq<int>>, global: seq<int>) {
    && |shared| == |kernel| && (forall c :: 0 <= c < |shared| ==> |shared[c]| == size)
    && RaceFree(kernel, size, |global|)
  }

  ghost function RunGrid(kernel: seq<Phases>, size: nat, shared: seq<seq<int>>, global: seq<int>,
                         schedule: seq<Action>): (g: Grid)
    requires Starts(kernel, size, shared, global)
    ensures Shaped(kernel, size, g) && |g.global| == |global|
  {
    if |schedule| == 0 then Begin(kernel, shared, global)
    else Act(kernel, size, RunGrid(kernel, size, shared, global, schedule[..|schedule| - 1]), schedule[|schedule| - 1])
  }

  // ---- No thread waits for another, except at a barrier of its block ----

  /** After any schedule, any item of a block's phase that has not finished can perform its next
      access, to its block's shared memory or to the global one. */
  lemma AnyItemCanGoOn(kernel: seq<Phases>, size: nat, shared: seq<seq<int>>, global: seq<int>,
                       schedule: seq<Action>, c: nat, i: nat)
    requires Starts(kernel, size, shared, global) && c < |kernel|
    requires var b := RunGrid(kernel, size, shared, global, schedule).blocks[c];
             b.phase < |kernel[c]| && i < |kernel[c][b.phase]| && b.items[i].pc < |kernel[c][b.phase][i]|
    ensures var g, h := RunGrid(kernel, size, shared, global, schedule),
                        RunGrid(kernel, size, shared, global, schedule + [Move(c, i)]);
            var b, d := g.blocks[c], h.blocks[c];
            && h.blocks == g.blocks[c := d] && d.phase == b.phase && d.items == b.items[i := d.items[i]]
            && d.items[i].pc == b.items[i].pc + 1
            && h.shared == g.shared[c := h.shared[c]]
            && Performs(kernel[c][b.phase][i][b.items[i].pc], Space(g, c), b.items[i].regs,
                        Space(h, c), d.items[i].regs)
  {
    var g, a := RunGrid(kernel, size, shared, global, schedule), Move(c, i);
    assert (schedule + [a])[..|schedule|] == schedule;
    assert WellFormed(kernel[c][g.blocks[c].phase], size + |global|);
    assert CanMove(kernel, g, c, i);
    SpaceAfterMove(kernel, size, g, c, i);
  }

  /** A block enters its next phase exactly by an action of its own, once all items have finished. */
  lemma BarrierOpensExactly(kernel: seq<Phases>, size: nat, shared: seq<seq<int>>, global: seq<int>,
                            schedule: seq<Action>, a: Action, c: nat)
    requires Starts(kernel, size, shared, global) && c < |kernel|
    ensures var b := RunGrid(kernel, size, shared, global, schedule).blocks[c];
            var d := RunGrid(kernel, size, shared, global, schedule + [a]).blocks[c];
            && b.phase <= d.phase <= b.phase + 1
            && (d.phase > b.phase <==>
                a == Pass(c) && b.phase < |kernel[c]| && AllFinished(kernel[c][b.phase], b.items))
            && (b.phase < d.phase < |kernel[c]| ==> d.items == Fresh(kernel[c][d.phase]))
  {
    assert (schedule + [a])[..|schedule|] == schedule;
  }

  ghost predicate AllFinished(progs: seq<Program>, items: seq<Item>) {
    |items| == |progs| && forall i :: 0 <= i < |progs| ==> items[i].pc == |progs[i]|
  }

  // ---- Every block runs as if it were alone ----

  /** A block alone: each phase leaves some outcome of its items. */
  ghost predicate Chain(phases: Phases, mem: seq<int>, after: seq<int>)
    decreases |phases|
  {
    if |phases| == 0 then after == mem
    else exists mid :: Outcome(phases[0], mem, mid) && Chain(phases[1..], mid, after)
  }

  lemma {:induction false} ChainSnoc(phases: Phases, progs: seq<Program>, mem: seq<int>, mid: seq<int>, after: seq<int>)
    requires Chain(phases, mem, mid) && Outcome(progs, mid, after)
    ensures Chain(phases + [progs], mem, after)
    decreases |phases|
  {
    var longer := phases + [progs];
    if |phases| == 0 {
      assert longer[0] == progs && longer[1..] == [];
      assert Chain([], after, after);
    } else {
      var first :| Outcome(phases[0], mem, first) && Chain(phases[1..], first, mid);
      ChainSnoc(phases[1..], progs, first, mid, after);
      assert longer[1..] == phases[1..] + [progs];
    }
  }

  /** Block c has come through its earlier phases as it would alone, `start` is the memory in which
      it entered the current phase, and `schedule` are its own moves since. */
  ghost predicate AloneSoFar(phases: Phases, b: Block, mem: seq<int>, space: seq<int>, start: seq<int>,
                             schedule: seq<nat>) {
    && b.phase <= |phases| && |mem| == |space| == |start|
    && (forall p :: 0 <= p < |phases| ==> WellFormed(phases[p], |mem|))
    && Chain(phases[..b.phase], mem, start)
    && if b.phase == |phases| then Agree(phases, space, start)
       else
         var m := Run(phases[b.phase], start, schedule);
         b.items == m.items && Agree(phases, space, m.mem)
  }

  /** The memories agree wherever the block ever looks. */
  ghost predicate Agree(phases: Phases, a: seq<int>, b: seq<int>) {
    |a| == |b| && forall x: nat :: x < |a| && Accesses(phases, x) ==> a[x] == b[x]
  }

  ghost predicate BlockAlone(phases: Phases, b: Block, mem: seq<int>, space: seq<int>) {
    exists start: seq<int>, schedule: seq<nat> :: AloneSoFar(phases, b, mem, space, start, schedule)
  }

  lemma AccessOf(phases: Phases, p: nat, i: nat, k: nat)
    requires p < |phases| && i < |phases[p]| && k < |phases[p][i]|
    ensures Accesses(phases, phases[p][i][k].slot)
    ensures phases[p][i][k].Store? ==> StoresTo(phases, phases[p][i][k].slot)
  {
    assert Touches(phases[p][i], phases[p][i][k].slot);
  }

  lemma AgreementStep(phases: Phases, op: Op, regs: Registers, a: seq<int>, b: seq<int>)
    requires Agree(phases, a, b) && op.slot < |a| && Accesses(phases, op.slot)
    ensures ExecRegs(op, a, regs) == ExecRegs(op, b, regs)
    ensures Agree(phases, ExecMem(op, a, regs), ExecMem(op, b, regs))
  {
  }

  lemma OwnMove(phases: Phases, b: Block, mem: seq<int>, space: seq<int>, i: nat)
    requires BlockAlone(phases, b, mem, space) && b.phase < |phases| && i < |phases[b.phase]| == |b.items|
    requires b.items[i].pc < |phases[b.phase][i]|
    requires phases[b.phase][i][b.items[i].pc].slot < |space|
    ensures var op: Op, item: Item := phases[b.phase][i][b.items[i].pc], b.items[i];
            var moved := Item(item.pc + 1, ExecRegs(op, space, item.regs));
            BlockAlone(phases, Block(b.phase, b.items[i := moved]), mem, ExecMem(op, space, item.regs))
  {
    var start: seq<int>, schedule: seq<nat> :| AloneSoFar(phases, b, mem, space, start, schedule);
    var progs, m := phases[b.phase], Run(phases[b.phase], start, schedule);
    var op: Op, item: Item := progs[i][b.items[i].pc], b.items[i];
    AccessOf(phases, b.phase, i, item.pc);
    AgreementStep(phases, op, item.regs, space, m.mem);
    var longer := schedule + [i];
    assert longer[..|longer| - 1] == schedule;
    assert Run(progs, start, longer) == Step(progs, m, i);
    var moved := Item(item.pc + 1, ExecRegs(op, space, item.regs));
    assert AloneSoFar(phases, Block(b.phase, b.items[i := moved]), mem, ExecMem(op, space, item.regs), start, longer);
  }

  lemma OwnPass(phases: Phases, b: Block, mem: seq<int>, space: seq<int>)
    requires BlockAlone(phases, b, mem, space) && b.phase < |phases| && |b.items| == |phases[b.phase]|
    requires forall i :: 0 <= i < |b.items| ==> b.items[i].pc == |phases[b.phase][i]|
    ensures var next := b.phase + 1;
            BlockAlone(phases, Block(next, if next < |phases| then Fresh(phases[next]) else []), mem, space)
  {
    var start: seq<int>, schedule: seq<nat> :| AloneSoFar(phases, b, mem, space, start, schedule);
    var progs, m, next := phases[b.phase], Run(phases[b.phase], start, schedule), b.phase + 1;
    assert Outcome(progs, start, m.mem);
    ChainSnoc(phases[..b.phase], progs, mem, start, m.mem);
    assert phases[..next] == phases[..b.phase] + [progs];
    var after := Block(next, if next < |phases| then Fresh(phases[next]) else []);
    if next < |phases| {
      assert Run(phases[next], m.mem, []) == Start(phases[next], m.mem);
    }
    assert AloneSoFar(phases, after, mem, space, m.mem, []);
  }

  lemma OthersMove(phases: Phases, b: Block, mem: seq<int>, space: seq<int>, later: seq<int>)
    requires BlockAlone(phases, b, mem, space) && Agree(phases, later, space)
    ensures BlockAlone(phases, b, mem, later)
  {
    var start: seq<int>, schedule: seq<nat> :| AloneSoFar(phases, b, mem, space, start, schedule);
    assert AloneSoFar(phases, b, mem, later, start, schedule);
  }

  /** What every schedule keeps. */
  ghost predicate AllAlone(kernel: seq<Phases>, size: nat, shared: seq<seq<int>>, global: seq<int>, g: Grid)
    requires Starts(kernel, size, shared, global)
  {
    && Shaped(kernel, size, g) && |g.global| == |global|
    && (forall c :: 0 <= c < |kernel| ==> BlockAlone(kernel[c], g.blocks[c], shared[c] + global, Space(g, c)))
    && forall x: nat :: x < |global| && (forall c :: 0 <= c < |kernel| ==> !StoresTo(kernel[c], size + x)) ==>
      g.global[x] == global[x]
  }

  lemma BeginsAlone(kernel: seq<Phases>, size: nat, shared: seq<seq<int>>, global: seq<int>)
    requires Starts(kernel, size, shared, global)
    ensures AllAlone(kernel, size, shared, global, Begin(kernel, shared, global))
  {
    var g := Begin(kernel, shared, global);
    forall c | 0 <= c < |kernel|
      ensures BlockAlone(kernel[c], g.blocks[c], shared[c] + global, Space(g, c))
    {
      var mem := shared[c] + global;
      assert kernel[c][..0] == [] && Chain([], mem, mem);
      if |kernel[c]| > 0 {
        assert Run(kernel[c][0], mem, []) == Interleaving.Start(kernel[c][0], mem);
      }
      assert AloneSoFar(kernel[c], g.blocks[c], mem, Space(g, c), mem, []);
    }
  }

  /** A store of one block changes nothing that another block ever looks at. */
  lemma MoveKeepsOthers(kernel: seq<Phases>, size: nat, g: Grid, c: nat, i: nat, d: nat)
    requires Shaped(kernel, size, g) && RaceFree(kernel, size, |g.global|) && CanMove(kernel, g, c, i)
    requires d < |kernel| && d != c
    ensures Agree(kernel[d], Space(AfterMove(kernel, size, g, c, i), d), Space(g, d))
  {
    var b := g.blocks[c];
    assert WellFormed(kernel[c][b.phase], size + |g.global|);
    var k := b.items[i].pc;
    var op := kernel[c][b.phase][i][k];
    AccessOf(kernel[c], b.phase, i, k);
    assert op.Store? && op.slot >= size ==> !Accesses(kernel[d], op.slot);
    assert AfterMove(kernel, size, g, c, i).shared[d] == g.shared[d];
  }

  lemma SpaceAfterMove(kernel: seq<Phases>, size: nat, g: Grid, c: nat, i: nat)
    requires Shaped(kernel, size, g) && RaceFree(kernel, size, |g.global|) && CanMove(kernel, g, c, i)
    ensures var b := g.blocks[c];
            kernel[c][b.phase][i][b.items[i].pc].slot < size + |g.global| &&
            Space(AfterMove(kernel, size, g, c, i), c) ==
            ExecMem(kernel[c][b.phase][i][b.items[i].pc], Space(g, c), b.items[i].regs)
  {
    assert WellFormed(kernel[c][g.blocks[c].phase], size + |g.global|);
  }

  lemma MoveKeepsBlock(kernel: seq<Phases>, size: nat, g: Grid, c: nat, i: nat, d: nat, mem: seq<int>)
    requires Shaped(kernel, size, g) && RaceFree(kernel, size, |g.global|) && CanMove(kernel, g, c, i)
    requires d < |kernel| && BlockAlone(kernel[d], g.blocks[d], mem, Space(g, d))
    ensures var r := AfterMove(kernel, size, g, c, i);
            BlockAlone(kernel[d], r.blocks[d], mem, Space(r, d))
  {
    if d == c {
      SpaceAfterMove(kernel, size, g, c, i);
      OwnMove(kernel[c], g.blocks[c], mem, Space(g, c), i);
    } else {
      MoveKeepsOthers(kernel, size, g, c, i, d);
      OthersMove(kernel[d], g.blocks[d], mem, Space(g, d), Space(AfterMove(kernel, size, g, c, i), d));
    }
  }

  lemma MoveKeepsAlone(kernel: seq<Phases>, size: nat, shared: seq<seq<int>>, global: seq<int>, g: Grid, c: nat, i: nat)
    requires Starts(kernel, size, shared, global) && AllAlone(kernel, size, shared, global, g)
    requires CanMove(kernel, g, c, i)
    ensures AllAlone(kernel, size, shared, global, AfterMove(kernel, size, g, c, i))
  {
    var r := AfterMove(kernel, size, g, c, i);
    assert Act(kernel, size, g, Move(c, i)) == r;
    forall d | 0 <= d < |kernel|
      ensures BlockAlone(kernel[d], r.blocks[d], shared[d] + global, Space(r, d))
    {
      MoveKeepsBlock(kernel, size, g, c, i, d, shared[d] + global);
    }
    forall x: nat | x < |global| && (forall d :: 0 <= d < |kernel| ==> !StoresTo(kernel[d], size + x))
      ensures r.global[x] == global[x]
    {
      MoveKeepsUnstored(kernel, size, g, c, i, x);
    }
  }

  lemma MoveKeepsUnstored(kernel: seq<Phases>, size: nat, g: Grid, c: nat, i: nat, x: nat)
    requires Shaped(kernel, size, g) && RaceFree(kernel, size, |g.global|) && CanMove(kernel, g, c, i)
    requires x < |g.global| && !StoresTo(kernel[c], size + x)
    ensures AfterMove(kernel, size, g, c, i).global[x] == g.global[x]
  {
    var b := g.blocks[c];
    assert WellFormed(kernel[c][b.phase], size + |g.global|);
    AccessOf(kernel[c], b.phase, i, b.items[i].pc);
    var space := ExecMem(kernel[c][b.phase][i][b.items[i].pc], Space(g, c), b.items[i].regs);
    assert space[size..][x] == space[size + x];
  }

  lemma PassKeepsAlone(kernel: seq<Phases>, size: nat, shared: seq<seq<int>>, global: seq<int>, g: Grid, c: nat)
    requires Starts(kernel, size, shared, global) && AllAlone(kernel, size, shared, global, g)
    requires CanPass(kernel, g, c)
    ensures AllAlone(kernel, size, shared, global, AfterPass(kernel, g, c))
  {
    var r := AfterPass(kernel, g, c);
    forall d | 0 <= d < |kernel|
      ensures BlockAlone(kernel[d], r.blocks[d], shared[d] + global, Space(r, d))
    {
      assert Space(r, d) == Space(g, d);
      if d == c {
        OwnPass(kernel[c], g.blocks[c], shared[c] + global, Space(g, c));
      }
    }
  }

  lemma {:induction false} RunKeepsAlone(kernel: seq<Phases>, size: nat, shared: seq<seq<int>>, global: seq<int>,
                                         schedule: seq<Action>)
    requires Starts(kernel, size, shared, global)
    ensures AllAlone(kernel, size, shared, global, RunGrid(kernel, size, shared, global, schedule))
    decreases |schedule|
  {
    if |schedule| == 0 {
      BeginsAlone(kernel, size, shared, global);
    } else {
      var before := schedule[..|schedule| - 1];
      RunKeepsAlone(kernel, size, shared, global, before);
      var g := RunGrid(kernel, size, shared, global, before);
      match schedule[|schedule| - 1]
      case Move(c, i) =>
        if CanMove(kernel, g, c, i) { MoveKeepsAlone(kernel, size, shared, global, g, c, i); }
      case Pass(c) =>
        if CanPass(kernel, g, c) { PassKeepsAlone(kernel, size, shared, global, g, c); }
    }
  }

  ghost predicate Complete(kernel: seq<Phases>, g: Grid) {
    |g.blocks| == |kernel| && forall c :: 0 <= c < |kernel| ==> g.blocks[c].phase == |kernel[c]|
  }

  /** `after` is a global memory that some complete run of the grid can leave. */
  ghost predicate GridOutcome(kernel: seq<Phases>, size: nat, shared: seq<seq<int>>, global: seq<int>,
                              after: seq<int>) {
    && Starts(kernel, size, shared, global)
    && exists schedule ::
      Complete(kernel, RunGrid(kernel, size, shared, global, schedule)) &&
      RunGrid(kernel, size, shared, global, schedule).global == after
  }

  /** Every interleaving of all blocks leaves, where a block looks, what that block leaves when
      running alone on the initial memory, phase by phase; nothing else changes. */
  lemma BlocksAreIsolated(kernel: seq<Phases>, size: nat, shared: seq<seq<int>>, global: seq<int>, after: seq<int>)
    requires GridOutcome(kernel, size, shared, global, after)
    ensures |after| == |global|
    ensures forall c :: 0 <= c < |kernel| ==> EndsAlone(kernel[c], shared[c], global, after)
    ensures forall x: nat :: x < |global| && (forall c :: 0 <= c < |kernel| ==> !StoresTo(kernel[c], size + x)) ==>
              after[x] == global[x]
  {
    var schedule :| Complete(kernel, RunGrid(kernel, size, shared, global, schedule)) &&
      RunGrid(kernel, size, shared, global, schedule).global == after;
    RunKeepsAlone(kernel, size, shared, global, schedule);
    var g := RunGrid(kernel, size, shared, global, schedule);
    forall c | 0 <= c < |kernel|
      ensures EndsAlone(kernel[c], shared[c], global, after)
    {
      var start: seq<int>, moves: seq<nat> :|
        AloneSoFar(kernel[c], g.blocks[c], shared[c] + global, Space(g, c), start, moves);
      assert kernel[c][..|kernel[c]|] == kernel[c];
      assert AgreesGlobally(kernel[c], |shared[c]|, start, after);
    }
  }

  ghost predicate AgreesGlobally(phases: Phases, size: nat, mem: seq<int>, global: seq<int>) {
    && |mem| == size + |global|
    && forall x: nat :: x < |global| && Accesses(phases, size + x) ==> global[x] == mem[size + x]
  }

  ghost predicate EndsAlone(phases: Phases, shared: seq<int>, global: seq<int>, after: seq<int>) {
    exists end :: Chain(phases, shared + global, end) && AgreesGlobally(phases, |shared|, end, after)
  }

  // ---- Complete runs exist ----

  function Left(progs: seq<Program>, items: seq<Item>): int
    requires |items| == |progs|
  {
    if |progs| == 0 then 0
    else Left(progs[..|progs| - 1], items[..|progs| - 1]) + |progs[|progs| - 1]| - items[|progs| - 1].pc
  }

  ghost predicate Started(progs: seq<Program>, items: seq<Item>) {
    |items| == |progs| && forall i :: 0 <= i < |progs| ==> items[i].pc <= |progs[i]|
  }

  lemma {:induction false} LeftAfterMove(progs: seq<Program>, items: seq<Item>, i: nat, regs: Registers)
    requires Started(progs, items) && i < |progs|
    ensures Left(progs, items[i := Item(items[i].pc + 1, regs)]) == Left(progs, items) - 1
  {
    var n := |progs| - 1;
    var moved := items[i := Item(items[i].pc + 1, regs)];
    if i == n {
      assert moved[..n] == items[..n];
    } else {
      LeftAfterMove(progs[..n], items[..n], i, regs);
      assert moved[..n] == items[..n][i := Item(items[i].pc + 1, regs)];
    }
  }

  lemma {:induction false} LeftIsNat(progs: seq<Program>, items: seq<Item>)
    requires Started(progs, items)
    ensures Left(progs, items) >= 0
  {
    var n := |progs| - 1;
    if n >= 0 {
      LeftIsNat(progs[..n], items[..n]);
    }
  }

  ghost predicate BlockStarted(phases: Phases, b: Block) {
    InPhase(phases, b) && (b.phase < |phases| ==> Started(phases[b.phase], b.items))
  }

  ghost function LeftInPhase(phases: Phases, b: Block): int
    requires InPhase(phases, b)
  {
    if b.phase < |phases| then Left(phases[b.phase], b.items) else 0
  }

  ghost predicate Advances(kernel: seq<Phases>, g: Grid, r: Grid, c: nat)
    requires |g.blocks| == |r.blocks| == |kernel| && c < |kernel|
  {
    && InPhase(kernel[c], g.blocks[c]) && BlockStarted(kernel[c], r.blocks[c])
    && (r.blocks[c].phase > g.blocks[c].phase ||
        (r.blocks[c].phase == g.blocks[c].phase &&
         LeftInPhase(kernel[c], r.blocks[c]) < LeftInPhase(kernel[c], g.blocks[c])))
    && forall d :: 0 <= d < |kernel| && d != c ==> r.blocks[d] == g.blocks[d]
  }

  lemma MoveAdvances(kernel: seq<Phases>, size: nat, g: Grid, c: nat, i: nat)
    requires Shaped(kernel, size, g) && RaceFree(kernel, size, |g.global|) && CanMove(kernel, g, c, i)
    requires BlockStarted(kernel[c], g.blocks[c])
    ensures Advances(kernel, g, AfterMove(kernel, size, g, c, i), c)
  {
    var b := g.blocks[c];
    LeftAfterMove(kernel[c][b.phase], b.items, i, AfterMove(kernel, size, g, c, i).blocks[c].items[i].regs);
  }

  lemma PassAdvances(kernel: seq<Phases>, size: nat, g: Grid, c: nat)
    requires Shaped(kernel, size, g) && CanPass(kernel, g, c)
    ensures Advances(kernel, g, AfterPass(kernel, g, c), c)
  {
  }

  /** A block that is not at its end can do something, and then has less to do. */
  lemma BlockAdvances(kernel: seq<Phases>, size: nat, g: Grid, c: nat) returns (a: Action)
    requires Shaped(kernel, size, g) && RaceFree(kernel, size, |g.global|) && c < |kernel|
    requires BlockStarted(kernel[c], g.blocks[c]) && g.blocks[c].phase < |kernel[c]|
    ensures Advances(kernel, g, Act(kernel, size, g, a), c)
  {
    if i: nat :| CanMove(kernel, g, c, i) {
      a := Move(c, i);
      MoveAdvances(kernel, size, g, c, i);
    } else {
      a := Pass(c);
      var progs, items := kernel[c][g.blocks[c].phase], g.blocks[c].items;
      forall i | 0 <= i < |progs| ensures items[i].pc == |progs[i]| {
        assert !CanMove(kernel, g, c, i);
      }
      PassAdvances(kernel, size, g, c);
    }
  }

  lemma {:induction false} AlwaysStarted(kernel: seq<Phases>, size: nat, shared: seq<seq<int>>, global: seq<int>,
                                         schedule: seq<Action>, c: nat)
    requires Starts(kernel, size, shared, global) && c < |kernel|
    ensures BlockStarted(kernel[c], RunGrid(kernel, size, shared, global, schedule).blocks[c])
    decreases |schedule|
  {
    if |schedule| > 0 {
      AlwaysStarted(kernel, size, shared, global, schedule[..|schedule| - 1], c);
    }
  }

  /** Block c can always be driven to its end, the others standing still. */
  lemma {:induction false} FinishBlock(kernel: seq<Phases>, size: nat, shared: seq<seq<int>>, global: seq<int>,
                                       c: nat, schedule: seq<Action>)
    returns (longer: seq<Action>)
    requires Starts(kernel, size, shared, global) && c < |kernel|
    requires BlockStarted(kernel[c], RunGrid(kernel, size, shared, global, schedule).blocks[c])
    ensures var g, r := RunGrid(kernel, size, shared, global, schedule), RunGrid(kernel, size, shared, global, longer);
            && r.blocks[c].phase == |kernel[c]|
            && forall d :: 0 <= d < |kernel| && d != c ==> r.blocks[d] == g.blocks[d]
    ensures schedule <= longer
    decreases |kernel[c]| - RunGrid(kernel, size, shared, global, schedule).blocks[c].phase,
              LeftInPhase(kernel[c], RunGrid(kernel, size, shared, global, schedule).blocks[c])
  {
    var g := RunGrid(kernel, size, shared, global, schedule);
    longer := schedule;
    if g.blocks[c].phase < |kernel[c]| {
      var a := BlockAdvances(kernel, size, g, c);
      LeftIsNat(kernel[c][g.blocks[c].phase], g.blocks[c].items);
      var next := schedule + [a];
      assert next[..|next| - 1] == schedule;
      longer := FinishBlock(kernel, size, shared, global, c, next);
    }
  }

  lemma {:induction false} FinishBlocks(kernel: seq<Phases>, size: nat, shared: seq<seq<int>>, global: seq<int>,
                                        schedule: seq<Action>, n: nat)
    returns (longer: seq<Action>)
    requires Starts(kernel, size, shared, global) && n <= |kernel|
    ensures schedule <= longer
    ensures var g := RunGrid(kernel, size, shared, global, longer);
            forall c :: 0 <= c < n ==> g.blocks[c].phase == |kernel[c]|
  {
    longer := schedule;
    if n > 0 {
      var before := FinishBlocks(kernel, size, shared, global, schedule, n - 1);
      AlwaysStarted(kernel, size, shared, global, before, n - 1);
      longer := FinishBlock(kernel, size, shared, global, n - 1, before);
    }
  }

  /** Whatever happened so far, a grid without races can run to its end. */
  lemma EveryRunCanFinish(kernel: seq<Phases>, size: nat, shared: seq<seq<int>>, global: seq<int>,
                          schedule: seq<Action>)
    returns (longer: seq<Action>)
    requires Starts(kernel, size, shared, global)
    ensures schedule <= longer && Complete(kernel, RunGrid(kernel, size, shared, global, longer))
  {
    longer := FinishBlocks(kernel, size, shared, global, schedule, |kernel|);
  }

  /** Every schedule after which all blocks are at their end leaves an outcome. */
  lemma CompleteRunIsOutcome(kernel: seq<Phases>, size: nat, shared: seq<seq<int>>, global: seq<int>,
                             schedule: seq<Action>)
    requires Starts(kernel, size, shared, global)
    requires forall c :: 0 <= c < |kernel| ==>
      RunGrid(kernel, size, shared, global, schedule).blocks[c].phase == |kernel[c]|
    ensures GridOutcome(kernel, size, shared, global, RunGrid(kernel, size, shared, global, schedule).global)
  {
    assert Complete(kernel, RunGrid(kernel, size, shared, global, schedule));
  }

  /** A grid without races can always run to its end. */
  lemma GridOutcomeExists(kernel: seq<Phases>, size: nat, shared: seq<seq<int>>, global: seq<int>)
    returns (after: seq<int>)
    requires Starts(kernel, size, shared, global)
    ensures GridOutcome(kernel, size, shared, global, after)
  {
    var schedule := EveryRunCanFinish(kernel, size, shared, global, []);
    after := RunGrid(kernel, size, shared, global, schedule).global;
  }
}
