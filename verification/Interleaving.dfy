/** Work items between two barriers as straight-line programs of single loads and stores.
    Items without conflicting accesses leave the same memory under every interleaving of their
    operations: the memory each of them would leave when running alone. */
module Interleaving {

  /** `Load` copies a slot into a register of the item, `Store` writes the sum of registers. */
  datatype Op = Load(reg: nat, slot: nat) | Store(slot: nat, regs: seq<nat>)

  type Program = seq<Op>

  type Registers = map<nat, int>

  /** One work item's progress: the index of its next operation and its registers. */
  datatype Item = Item(pc: nat, regs: Registers)

  datatype Machine = Machine(mem: seq<int>, items: seq<Item>)

  function RegSum(regs: Registers, names: seq<nat>): int {
    if |names| == 0 then 0
    else
      var last := names[|names| - 1];
      RegSum(regs, names[..|names| - 1]) + (if last in regs then regs[last] else 0)
  }

  lemma SmallRegSums(regs: Registers, x: nat, y: nat)
    requires x in regs && y in regs
    ensures RegSum(regs, [x]) == regs[x]
    ensures RegSum(regs, [x, y]) == regs[x] + regs[y]
  {
    assert [x, y][..1] == [x] && [x][..0] == [];
  }

  ghost predicate InBounds(p: Program, size: nat) {
    forall k :: 0 <= k < |p| ==> p[k].slot < size
  }

  ghost predicate Touches(p: Program, slot: nat) {
    exists k :: 0 <= k < |p| && p[k].slot == slot
  }

  /** No conflict: where both access a slot, neither stores to it. */
  ghost predicate Apart(p: Program, q: Program) {
    forall k, l :: 0 <= k < |p| && 0 <= l < |q| && (p[k].Store? || q[l].Store?) ==> p[k].slot != q[l].slot
  }

  ghost predicate Disjoint(progs: seq<Program>) {
    forall i, j :: 0 <= i < |progs| && 0 <= j < |progs| && i != j ==> Apart(progs[i], progs[j])
  }

  ghost predicate WellFormed(progs: seq<Program>, size: nat) {
    && Disjoint(progs)
    && forall i :: 0 <= i < |progs| ==> InBounds(progs[i], size)
  }

  function ExecMem(op: Op, mem: seq<int>, regs: Registers): (m: seq<int>)
    requires op.slot < |mem|
    ensures |m| == |mem|
  {
    match op
    case Load(_, _) => mem
    case Store(slot, names) => mem[slot := RegSum(regs, names)]
  }

  function ExecRegs(op: Op, mem: seq<int>, regs: Registers): Registers
    requires op.slot < |mem|
  {
    match op
    case Load(reg, slot) => regs[reg := mem[slot]]
    case Store(_, _) => regs
  }

  /** The first k operations of one item, run alone. */
  function Solo(p: Program, mem: seq<int>, k: nat): (r: (seq<int>, Registers))
    requires k <= |p| && InBounds(p, |mem|)
    ensures |r.0| == |mem|
  {
    if k == 0 then (mem, map[])
    else
      var (m, regs) := Solo(p, mem, k - 1);
      (ExecMem(p[k - 1], m, regs), ExecRegs(p[k - 1], m, regs))
  }

  lemma SoloStep(p: Program, mem: seq<int>, k: nat, m: seq<int>, regs: Registers)
    requires k < |p| && InBounds(p, |mem|) && |m| == |mem| && Solo(p, mem, k) == (m, regs)
    ensures p[k].Load? ==> Solo(p, mem, k + 1) == (m, regs[p[k].reg := m[p[k].slot]])
    ensures p[k].Store? ==> Solo(p, mem, k + 1) == (m[p[k].slot := RegSum(regs, p[k].regs)], regs)
  {
  }

  function Start(progs: seq<Program>, mem: seq<int>): Machine {
    Machine(mem, seq(|progs|, _ => Item(0, map[])))
  }

  /** Item i performs its next operation; an item that has finished stays put. */
  function Step(progs: seq<Program>, c: Machine, i: nat): (r: Machine)
    requires |c.items| == |progs| && WellFormed(progs, |c.mem|)
    ensures |r.items| == |progs| && |r.mem| == |c.mem|
  {
    if i < |progs| && c.items[i].pc < |progs[i]| then
      var op := progs[i][c.items[i].pc];
      Machine(ExecMem(op, c.mem, c.items[i].regs),
              c.items[i := Item(c.items[i].pc + 1, ExecRegs(op, c.mem, c.items[i].regs))])
    else c
  }

  /** A schedule names, operation by operation, the item that moves. */
  function Run(progs: seq<Program>, mem: seq<int>, schedule: seq<nat>): (r: Machine)
    requires WellFormed(progs, |mem|)
    ensures |r.items| == |progs| && |r.mem| == |mem|
  {
    if |schedule| == 0 then Start(progs, mem)
    else Step(progs, Run(progs, mem, schedule[..|schedule| - 1]), schedule[|schedule| - 1])
  }

  /** What an access does to the memory and to the item's registers. */
  ghost predicate Performs(op: Op, mem: seq<int>, regs: Registers, after: seq<int>, now: Registers) {
    op.slot < |mem| &&
    match op
    case Load(reg, slot) => after == mem && now == regs[reg := mem[slot]]
    case Store(slot, names) => after == mem[slot := RegSum(regs, names)] && now == regs
  }

  /** After any schedule, any item that has not finished can perform its next access. */
  lemma AnyItemCanGoOn(progs: seq<Program>, mem: seq<int>, schedule: seq<nat>, i: nat)
    requires WellFormed(progs, |mem|) && i < |progs|
    requires Run(progs, mem, schedule).items[i].pc < |progs[i]|
    ensures var a, b := Run(progs, mem, schedule), Run(progs, mem, schedule + [i]);
            && b.items == a.items[i := b.items[i]] && b.items[i].pc == a.items[i].pc + 1
            && Performs(progs[i][a.items[i].pc], a.mem, a.items[i].regs, b.mem, b.items[i].regs)
  {
    assert (schedule + [i])[..|schedule|] == schedule;
    assert InBounds(progs[i], |mem|);
  }

  /** Item p, k operations in, has seen exactly what it would have seen alone. */
  ghost predicate AsAlone(p: Program, mem: seq<int>, now: seq<int>, item: Item)
    requires InBounds(p, |mem|) && |now| == |mem|
  {
    && item.pc <= |p|
    && item.regs == Solo(p, mem, item.pc).1
    && forall k :: 0 <= k < |p| ==> now[p[k].slot] == Solo(p, mem, item.pc).0[p[k].slot]
  }

  ghost predicate UntouchedKept(progs: seq<Program>, mem: seq<int>, now: seq<int>)
    requires |now| == |mem|
  {
    forall x :: 0 <= x < |mem| && (forall i :: 0 <= i < |progs| ==> !Touches(progs[i], x)) ==> now[x] == mem[x]
  }

  /** What every schedule keeps. */
  ghost predicate Isolated(progs: seq<Program>, mem: seq<int>, c: Machine)
    requires WellFormed(progs, |mem|)
  {
    && |c.items| == |progs| && |c.mem| == |mem|
    && (forall i :: 0 <= i < |progs| ==> AsAlone(progs[i], mem, c.mem, c.items[i]))
    && UntouchedKept(progs, mem, c.mem)
  }

  lemma OwnStep(p: Program, mem: seq<int>, now: seq<int>, item: Item)
    requires InBounds(p, |mem|) && |now| == |mem|
    requires AsAlone(p, mem, now, item) && item.pc < |p|
    ensures AsAlone(p, mem, ExecMem(p[item.pc], now, item.regs),
                    Item(item.pc + 1, ExecRegs(p[item.pc], now, item.regs)))
  {
    var k := item.pc;
    var (m, regs) := Solo(p, mem, k);
    assert Solo(p, mem, k + 1) == (ExecMem(p[k], m, regs), ExecRegs(p[k], m, regs));
    assert now[p[k].slot] == m[p[k].slot];
  }

  lemma OtherStep(p: Program, q: Program, mem: seq<int>, now: seq<int>, item: Item, op: Op, regs: Registers)
    requires InBounds(p, |mem|) && |now| == |mem| && op.slot < |mem|
    requires AsAlone(p, mem, now, item) && Apart(p, q) && op in q
    ensures AsAlone(p, mem, ExecMem(op, now, regs), item)
  {
  }

  lemma StepIsolated(progs: seq<Program>, mem: seq<int>, c: Machine, i: nat)
    requires WellFormed(progs, |mem|) && Isolated(progs, mem, c)
    ensures Isolated(progs, mem, Step(progs, c, i))
  {
    if i < |progs| && c.items[i].pc < |progs[i]| {
      var op, regs := progs[i][c.items[i].pc], c.items[i].regs;
      var r := Step(progs, c, i);
      assert Touches(progs[i], op.slot);
      forall j | 0 <= j < |progs|
        ensures AsAlone(progs[j], mem, r.mem, r.items[j])
      {
        if j == i {
          OwnStep(progs[i], mem, c.mem, c.items[i]);
        } else {
          OtherStep(progs[j], progs[i], mem, c.mem, c.items[j], op, regs);
        }
      }
    }
  }

  lemma {:induction false} RunIsolated(progs: seq<Program>, mem: seq<int>, schedule: seq<nat>)
    requires WellFormed(progs, |mem|)
    ensures Isolated(progs, mem, Run(progs, mem, schedule))
  {
    if |schedule| > 0 {
      RunIsolated(progs, mem, schedule[..|schedule| - 1]);
      StepIsolated(progs, mem, Run(progs, mem, schedule[..|schedule| - 1]), schedule[|schedule| - 1]);
    }
  }

  ghost predicate Finished(progs: seq<Program>, c: Machine) {
    && |c.items| == |progs|
    && forall i :: 0 <= i < |progs| ==> c.items[i].pc == |progs[i]|
  }

  /** `after` is a memory that some complete interleaving of the phase can leave. */
  ghost predicate Outcome(progs: seq<Program>, mem: seq<int>, after: seq<int>) {
    && WellFormed(progs, |mem|)
    && exists schedule ::
      Finished(progs, Run(progs, mem, schedule)) && Run(progs, mem, schedule).mem == after
  }

  /** Every schedule that lets all items finish leaves such a memory. */
  lemma FinishedRunIsOutcome(progs: seq<Program>, mem: seq<int>, schedule: seq<nat>)
    requires WellFormed(progs, |mem|)
    requires forall i :: 0 <= i < |progs| ==> Run(progs, mem, schedule).items[i].pc == |progs[i]|
    ensures Outcome(progs, mem, Run(progs, mem, schedule).mem)
  {
    assert Finished(progs, Run(progs, mem, schedule));
  }

  /** Race freedom: the outcome does not depend on the interleaving. */
  lemma OutcomeIsSolo(progs: seq<Program>, mem: seq<int>, after: seq<int>)
    requires Outcome(progs, mem, after)
    ensures |after| == |mem|
    ensures forall i, k :: 0 <= i < |progs| && 0 <= k < |progs[i]| ==>
              after[progs[i][k].slot] == Solo(progs[i], mem, |progs[i]|).0[progs[i][k].slot]
    ensures forall x :: 0 <= x < |mem| && (forall i :: 0 <= i < |progs| ==> !Touches(progs[i], x))
              ==> after[x] == mem[x]
  {
    var schedule :| Finished(progs, Run(progs, mem, schedule)) && Run(progs, mem, schedule).mem == after;
    RunIsolated(progs, mem, schedule);
  }

  lemma OutcomeAt(progs: seq<Program>, mem: seq<int>, after: seq<int>, i: nat, x: nat)
    requires Outcome(progs, mem, after) && i < |progs| && Touches(progs[i], x)
    ensures x < |mem| == |after| && after[x] == Solo(progs[i], mem, |progs[i]|).0[x]
  {
    OutcomeIsSolo(progs, mem, after);
    var k :| 0 <= k < |progs[i]| && progs[i][k].slot == x;
  }

  ghost predicate Stores(p: Program, slot: nat) {
    exists k :: 0 <= k < |p| && p[k].Store? && p[k].slot == slot
  }

  lemma {:induction false} SoloUnstored(p: Program, mem: seq<int>, k: nat, x: nat)
    requires k <= |p| && InBounds(p, |mem|) && x < |mem| && !Stores(p, x)
    ensures Solo(p, mem, k).0[x] == mem[x]
  {
    if k > 0 {
      SoloUnstored(p, mem, k - 1, x);
    }
  }

  /** A slot that no item stores to keeps its value. */
  lemma OutcomeUnstored(progs: seq<Program>, mem: seq<int>, after: seq<int>, x: nat)
    requires Outcome(progs, mem, after) && x < |mem|
    requires forall i :: 0 <= i < |progs| ==> !Stores(progs[i], x)
    ensures |after| == |mem| && after[x] == mem[x]
  {
    OutcomeIsSolo(progs, mem, after);
    if i: nat :| i < |progs| && Touches(progs[i], x) {
      OutcomeAt(progs, mem, after, i, x);
      SoloUnstored(progs[i], mem, |progs[i]|, x);
    }
  }

  /** The schedule that runs the items one after another, as a sequential backend does. */
  lemma {:induction false} SequentialPrefix(progs: seq<Program>, mem: seq<int>, i: nat, k: nat, schedule: seq<nat>)
    returns (longer: seq<nat>)
    requires WellFormed(progs, |mem|) && i < |progs| && k <= |progs[i]|
    requires var c := Run(progs, mem, schedule);
             c.items[i].pc == k && forall j :: 0 <= j < i ==> c.items[j].pc == |progs[j]|
    requires forall j :: i < j < |progs| ==> Run(progs, mem, schedule).items[j].pc == 0
    ensures var c := Run(progs, mem, longer);
            forall j :: 0 <= j < |progs| ==> c.items[j].pc == if j <= i then |progs[j]| else 0
    decreases |progs[i]| - k
  {
    if k == |progs[i]| {
      longer := schedule;
    } else {
      var next := schedule + [i];
      assert next[..|next| - 1] == schedule;
      longer := SequentialPrefix(progs, mem, i, k + 1, next);
    }
  }

  lemma {:induction false} SequentialSchedule(progs: seq<Program>, mem: seq<int>, n: nat)
    returns (schedule: seq<nat>)
    requires WellFormed(progs, |mem|) && n <= |progs|
    ensures var c := Run(progs, mem, schedule);
            forall j :: 0 <= j < |progs| ==> c.items[j].pc == if j < n then |progs[j]| else 0
  {
    if n == 0 {
      schedule := [];
    } else {
      schedule := SequentialSchedule(progs, mem, n - 1);
      schedule := SequentialPrefix(progs, mem, n - 1, 0, schedule);
    }
  }

  /** Every phase has an outcome, and by race freedom exactly one. */
  lemma OutcomeExistsUniquely(progs: seq<Program>, mem: seq<int>)
    requires WellFormed(progs, |mem|)
    ensures exists after :: Outcome(progs, mem, after)
    ensures forall a, b :: Outcome(progs, mem, a) && Outcome(progs, mem, b) ==> a == b
  {
    var schedule := SequentialSchedule(progs, mem, |progs|);
    assert Outcome(progs, mem, Run(progs, mem, schedule).mem);
    forall a, b | Outcome(progs, mem, a) && Outcome(progs, mem, b)
      ensures a == b
    {
      OutcomeIsSolo(progs, mem, a);
      OutcomeIsSolo(progs, mem, b);
      forall x | 0 <= x < |mem|
        ensures a[x] == b[x]
      {
        if i :| 0 <= i < |progs| && Touches(progs[i], x) {
          var k :| 0 <= k < |progs[i]| && progs[i][k].slot == x;
        }
      }
    }
  }
}
