/** How an index range is dealt out to the threads of a thread space: the contract every kernel
    relies on when it asks for its share of a range. Range, stride and threads are vectors of the
    same dimension. */
module IdxMap {
  import opened Arith
  import opened VecIndex

  datatype Layout = Strided | Contiguous

  datatype Share = Share(begin: seq<int>, distance: seq<nat>, stride: seq<nat>, numThreads: seq<nat>) {
    ghost predicate Valid() {
      && |begin| == |distance| == |stride| == |numThreads| >= 1
      && Positive(stride) && Positive(numThreads)
    }

    /** Steps of the stride that fit into the range, dimension by dimension. */
    function Extents(): (e: seq<nat>)
      requires Valid()
      ensures |e| == |begin|
    {
      seq(|begin|, d requires 0 <= d < |begin| => DivCeil(distance[d], stride[d]))
    }

    function Total(): nat
      requires Valid()
    {
      Product(Extents())
    }

    function Workers(): nat {
      Product(numThreads)
    }

    function Slot(thread: seq<nat>): nat
      requires Valid() && |thread| == |numThreads|
    {
      Linear(numThreads[1..], thread)
    }

    /** The element at a linear position of the range. */
    function At(position: nat): (x: seq<int>)
      requires Valid() && Positive(Extents()[1..])
    {
      Placed(begin, stride, Digits(Extents()[1..], position))
    }
  }

  function Placed(begin: seq<int>, stride: seq<nat>, steps: seq<nat>): (x: seq<int>)
    requires |begin| == |stride| == |steps|
    ensures |x| == |begin|
  {
    seq(|begin|, d requires 0 <= d < |begin| => begin[d] + steps[d] * stride[d])
  }

  function Min(a: nat, b: nat): nat {
    if a <= b then a else b
  }

  /** First position of a slot in the contiguous layout: the first `total % workers` slots get
      one element more than the others. */
  function Lo(total: nat, workers: nat, slot: nat): nat
    requires workers > 0
  {
    slot * (total / workers) + Min(slot, total % workers)
  }

  function Term(start: nat, step: nat, k: nat): nat {
    start + k * step
  }

  /** How many of start, start + step, ... lie below end. */
  function Count(start: nat, step: nat, end: nat): nat
    requires step > 0
  {
    if start < end then DivCeil(end - start, step) else 0
  }

  lemma CountBelow(start: nat, step: nat, end: nat, k: nat)
    requires step > 0
    ensures k < Count(start, step, end) <==> Term(start, step, k) < end
    ensures Term(start, step, k + 1) == Term(start, step, k) + step
  {
    if start < end {
      var count := DivCeil(end - start, step);
      if k < count {
        MulMono(k, count - 1, step);
      } else {
        MulMono(count, k, step);
      }
    } else {
      MulNonNeg(k, step);
    }
    Distribute(step, k, 1);
  }

  function First(s: Share, layout: Layout, thread: seq<nat>): nat
    requires s.Valid() && |thread| == |s.numThreads| && s.Workers() > 0
  {
    match layout
    case Strided => s.Slot(thread)
    case Contiguous => Lo(s.Total(), s.Workers(), s.Slot(thread))
  }

  function Stride(s: Share, layout: Layout): nat {
    if layout.Strided? then s.Workers() else 1
  }

  function End(s: Share, layout: Layout, thread: seq<nat>): nat
    requires s.Valid() && |thread| == |s.numThreads| && s.Workers() > 0
  {
    match layout
    case Strided => s.Total()
    case Contiguous => Min(Lo(s.Total(), s.Workers(), s.Slot(thread) + 1), s.Total())
  }

  /** The k-th element that a thread of the thread space is handed is x. */
  ghost predicate Hands(s: Share, layout: Layout, thread: seq<nat>, k: nat, x: seq<int>)
    requires s.Valid() && s.Workers() > 0
  {
    && InBox(s.numThreads, thread)
    && k < Count(First(s, layout, thread), Stride(s, layout), End(s, layout, thread))
    && Positive(s.Extents()[1..])
    && x == s.At(Term(First(s, layout, thread), Stride(s, layout), k))
  }

  /** The elements of the range: begin plus multiples of the stride, within the distance. */
  ghost predicate InRange(s: Share, x: seq<int>)
    requires s.Valid()
  {
    |x| == |s.begin| && forall d :: 0 <= d < |x| ==> OnLattice(x[d] - s.begin[d], s.distance[d], s.stride[d])
  }

  predicate OnLattice(offset: int, distance: nat, stride: nat)
    requires stride > 0
  {
    0 <= offset < distance && offset % stride == 0
  }

  // ---- Positions of the range and its elements ----

  /** The number of strides in an offset of the lattice. */
  function StepOf(offset: int, distance: nat, stride: nat): (steps: nat)
    requires stride > 0 && OnLattice(offset, distance, stride)
    ensures steps < DivCeil(distance, stride) && steps * stride == offset
  {
    var q := DivCeil(distance, stride);
    QuotientRemainder(offset, stride);
    assert offset / stride < q by {
      if offset / stride >= q {
        MulMono(q, offset / stride, stride);
      }
    }
    offset / stride
  }

  lemma StepsOnLattice(steps: nat, distance: nat, stride: nat)
    requires stride > 0 && steps < DivCeil(distance, stride)
    ensures OnLattice(steps * stride, distance, stride) && StepOf(steps * stride, distance, stride) == steps
  {
    DivModUnique(steps * stride, stride, steps, 0);
    MulNonNeg(steps, stride);
    MulMono(steps, DivCeil(distance, stride) - 1, stride);
  }

  /** How many strides x is away from the beginning, per dimension. */
  function Steps(s: Share, x: seq<int>): (r: seq<nat>)
    requires s.Valid() && InRange(s, x)
    ensures InBox(s.Extents(), r)
    ensures Placed(s.begin, s.stride, r) == x
  {
    var r := seq(|x|, d requires 0 <= d < |x| && OnLattice(x[d] - s.begin[d], s.distance[d], s.stride[d]) =>
      StepOf(x[d] - s.begin[d], s.distance[d], s.stride[d]));
    r
  }

  /** Every element of the range has one position ... */
  lemma PositionOf(s: Share, x: seq<int>) returns (position: nat)
    requires s.Valid() && InRange(s, x)
    ensures position < s.Total() && Positive(s.Extents()[1..]) && s.At(position) == x
  {
    var e, steps := s.Extents(), Steps(s, x);
    position := Linear(e[1..], steps);
    MapToNDOfLinearize(e, steps);
  }

  lemma PlacedInRange(s: Share, steps: seq<nat>)
    requires s.Valid() && InBox(s.Extents(), steps)
    ensures InRange(s, Placed(s.begin, s.stride, steps))
    ensures Steps(s, Placed(s.begin, s.stride, steps)) == steps
  {
    var x := Placed(s.begin, s.stride, steps);
    forall d | 0 <= d < |x|
      ensures OnLattice(x[d] - s.begin[d], s.distance[d], s.stride[d])
      ensures StepOf(x[d] - s.begin[d], s.distance[d], s.stride[d]) == steps[d]
    {
      assert x[d] == s.begin[d] + steps[d] * s.stride[d] && steps[d] < s.Extents()[d];
      StepsOnLattice(steps[d], s.distance[d], s.stride[d]);
    }
  }

  /** ... and every position holds an element of the range, different positions different ones. */
  lemma ElementAt(s: Share, position: nat)
    requires s.Valid() && position < s.Total()
    ensures Positive(s.Extents()[1..]) && InRange(s, s.At(position))
    ensures Linear(s.Extents()[1..], Steps(s, s.At(position))) == position
  {
    var e := s.Extents();
    PositiveFactors(e);
    PositiveFrom(e, 1);
    LinearizeOfMapToND(e, position);
    PlacedInRange(s, Digits(e[1..], position));
  }

  // ---- Slots of the contiguous layout ----

  lemma LoMono(total: nat, workers: nat, a: nat, b: nat)
    requires workers > 0 && a <= b
    ensures Lo(total, workers, a) <= Lo(total, workers, b)
  {
    MulMono(a, b, total / workers);
  }

  lemma LoEnds(total: nat, workers: nat)
    requires workers > 0
    ensures Lo(total, workers, 0) == 0 && Lo(total, workers, workers) == total
  {
  }

  lemma {:induction false} SlotOf(total: nat, workers: nat, position: nat, hi: nat) returns (slot: nat)
    requires workers > 0 && position < Lo(total, workers, hi)
    ensures slot < hi && Lo(total, workers, slot) <= position < Lo(total, workers, slot + 1)
    decreases hi
  {
    LoEnds(total, workers);
    if position >= Lo(total, workers, hi - 1) {
      slot := hi - 1;
    } else {
      slot := SlotOf(total, workers, position, hi - 1);
    }
  }

  /** Length of a slot's share in the contiguous layout: the remainder goes to the first slots, one
      element each. */
  function ShareLength(total: nat, workers: nat, slot: nat): (r: nat)
    requires workers > 0
    ensures r == total / workers + if slot < total % workers then 1 else 0
  {
    DivNonNeg(total, workers);
    total / workers + if slot < total % workers then 1 else 0
  }

  /** The lengths of the shares of all lower slots. */
  function LengthsBelow(total: nat, workers: nat, slot: nat): nat
    requires workers > 0
  {
    if slot == 0 then 0 else LengthsBelow(total, workers, slot - 1) + ShareLength(total, workers, slot - 1)
  }

  lemma {:induction false} SharesAreConsecutive(total: nat, workers: nat, slot: nat)
    requires workers > 0
    ensures Lo(total, workers, slot) == LengthsBelow(total, workers, slot)
    ensures Lo(total, workers, slot + 1) == Lo(total, workers, slot) + ShareLength(total, workers, slot)
  {
    Distribute(total / workers, slot, 1);
    if slot > 0 {
      SharesAreConsecutive(total, workers, slot - 1);
    }
  }

  // ---- Every element goes to exactly one thread, once ----

  lemma WorkersPositive(s: Share)
    requires s.Valid()
    ensures s.Workers() > 0 && Positive(s.numThreads[1..])
  {
    PositiveProduct(s.numThreads);
    PositiveFrom(s.numThreads, 1);
  }

  lemma ThreadOf(s: Share, slot: nat) returns (thread: seq<nat>)
    requires s.Valid() && slot < s.Workers()
    ensures InBox(s.numThreads, thread) && s.Slot(thread) == slot
  {
    WorkersPositive(s);
    LinearizeOfMapToND(s.numThreads, slot);
    thread := Digits(s.numThreads[1..], slot);
  }

  lemma SlotInRange(s: Share, thread: seq<nat>)
    requires s.Valid() && InBox(s.numThreads, thread)
    ensures s.Slot(thread) < s.Workers()
    ensures Positive(s.numThreads[1..]) && thread == Digits(s.numThreads[1..], s.Slot(thread))
  {
    MapToNDOfLinearize(s.numThreads, thread);
  }

  lemma OwnerOfPosition(s: Share, layout: Layout, position: nat) returns (thread: seq<nat>, k: nat)
    requires s.Valid() && s.Workers() > 0 && position < s.Total()
    ensures InBox(s.numThreads, thread)
    ensures k < Count(First(s, layout, thread), Stride(s, layout), End(s, layout, thread))
    ensures Term(First(s, layout, thread), Stride(s, layout), k) == position
  {
    match layout
    case Strided =>
      var slot;
      slot, k := ResidueOf(s.Workers(), s.Total(), position);
      thread := ThreadOf(s, slot);
    case Contiguous =>
      var slot;
      slot, k := BlockOf(s.Workers(), s.Total(), position);
      thread := ThreadOf(s, slot);
  }

  lemma ResidueOf(workers: nat, total: nat, position: nat) returns (slot: nat, k: nat)
    requires workers > 0 && position < total
    ensures slot < workers && k < Count(slot, workers, total) && Term(slot, workers, k) == position
  {
    QuotientRemainder(position, workers);
    slot, k := position % workers, position / workers;
    CountBelow(slot, workers, total, k);
  }

  lemma BlockOf(workers: nat, total: nat, position: nat) returns (slot: nat, k: nat)
    requires workers > 0 && position < total
    ensures slot < workers
    ensures k < Count(Lo(total, workers, slot), 1, Min(Lo(total, workers, slot + 1), total))
    ensures Term(Lo(total, workers, slot), 1, k) == position
  {
    LoEnds(total, workers);
    slot := SlotOf(total, workers, position, workers);
    k := position - Lo(total, workers, slot);
    CountBelow(Lo(total, workers, slot), 1, Min(Lo(total, workers, slot + 1), total), k);
  }

  lemma SamePositionSameOwner(s: Share, layout: Layout, t1: seq<nat>, k1: nat, t2: seq<nat>, k2: nat)
    requires s.Valid() && s.Workers() > 0 && InBox(s.numThreads, t1) && InBox(s.numThreads, t2)
    requires k1 < Count(First(s, layout, t1), Stride(s, layout), End(s, layout, t1))
    requires k2 < Count(First(s, layout, t2), Stride(s, layout), End(s, layout, t2))
    requires Term(First(s, layout, t1), Stride(s, layout), k1) == Term(First(s, layout, t2), Stride(s, layout), k2)
    ensures t1 == t2 && k1 == k2
  {
    SlotInRange(s, t1);
    SlotInRange(s, t2);
    match layout
    case Strided =>
      SameResidue(s.Workers(), s.Slot(t1), k1, s.Slot(t2), k2);
    case Contiguous =>
      CountBelow(First(s, layout, t1), 1, End(s, layout, t1), k1);
      CountBelow(First(s, layout, t2), 1, End(s, layout, t2), k2);
      SameBlock(s.Total(), s.Workers(), s.Slot(t1), s.Slot(t2), Term(First(s, layout, t1), 1, k1));
  }

  lemma SameResidue(workers: nat, a: nat, k: nat, b: nat, l: nat)
    requires a < workers && b < workers && Term(a, workers, k) == Term(b, workers, l)
    ensures a == b && k == l
  {
    DivModUnique(Term(a, workers, k), workers, k, a);
    DivModUnique(Term(a, workers, k), workers, l, b);
  }

  lemma SameBlock(total: nat, workers: nat, a: nat, b: nat, position: nat)
    requires workers > 0
    requires Lo(total, workers, a) <= position < Lo(total, workers, a + 1)
    requires Lo(total, workers, b) <= position < Lo(total, workers, b + 1)
    ensures a == b
  {
    if a < b {
      LoMono(total, workers, a + 1, b);
    } else if b < a {
      LoMono(total, workers, b + 1, a);
    }
  }

  lemma HandedPosition(s: Share, layout: Layout, thread: seq<nat>, k: nat, x: seq<int>)
    requires s.Valid() && s.Workers() > 0 && Hands(s, layout, thread, k, x)
    ensures InRange(s, x)
    ensures Term(First(s, layout, thread), Stride(s, layout), k) == Linear(s.Extents()[1..], Steps(s, x))
  {
    CountBelow(First(s, layout, thread), Stride(s, layout), End(s, layout, thread), k);
    ElementAt(s, Term(First(s, layout, thread), Stride(s, layout), k));
  }

  /** The threads together are handed exactly the elements of the range, and no element is
      handed out twice. */
  lemma DealtOutExactlyOnce(s: Share, layout: Layout, x: seq<int>)
    requires |s.begin| == |s.distance| == |s.stride| == |s.numThreads| >= 1
    requires Positive(s.stride) && Positive(s.numThreads)
    ensures s.Workers() > 0
    ensures InRange(s, x) <==> exists thread, k :: Hands(s, layout, thread, k, x)
    ensures forall t1, k1, t2, k2 :: Hands(s, layout, t1, k1, x) && Hands(s, layout, t2, k2, x) ==> t1 == t2 && k1 == k2
  {
    WorkersPositive(s);
    if InRange(s, x) {
      var position := PositionOf(s, x);
      var thread, k := OwnerOfPosition(s, layout, position);
      assert Hands(s, layout, thread, k, x);
    }
    forall thread, k | Hands(s, layout, thread, k, x) ensures InRange(s, x) {
      HandedPosition(s, layout, thread, k, x);
    }
    forall t1, k1, t2, k2 | Hands(s, layout, t1, k1, x) && Hands(s, layout, t2, k2, x)
      ensures t1 == t2 && k1 == k2
    {
      HandedPosition(s, layout, t1, k1, x);
      HandedPosition(s, layout, t2, k2, x);
      SamePositionSameOwner(s, layout, t1, k1, t2, k2);
    }
  }

  lemma CountOf(start: nat, step: nat, end: nat, q: nat)
    requires step > 0 && end <= Term(start, step, q) && (q == 0 || Term(start, step, q - 1) < end)
    ensures Count(start, step, end) == q
  {
    CountBelow(start, step, end, q);
    if q > 0 {
      CountBelow(start, step, end, q - 1);
    }
  }

  /** Where the threads divide the elements, all threads are handed equally many: a loop that takes
      several elements per check of the end does not run past it. */
  lemma EqualShares(s: Share, layout: Layout, thread: seq<nat>, q: nat)
    requires s.Valid() && InBox(s.numThreads, thread) && s.Total() == q * s.Workers()
    ensures s.Workers() > 0
    ensures Count(First(s, layout, thread), Stride(s, layout), End(s, layout, thread)) == q
  {
    WorkersPositive(s);
    SlotInRange(s, thread);
    match layout
    case Strided => StridedShare(s.Workers(), s.Slot(thread), q);
    case Contiguous => ContiguousShare(s.Workers(), s.Slot(thread), q);
  }

  lemma StridedShare(workers: nat, slot: nat, q: nat)
    requires slot < workers
    ensures Count(slot, workers, q * workers) == q
  {
    if q > 0 {
      Distribute(workers, q, -1);
    }
    CountOf(slot, workers, q * workers, q);
  }

  lemma ContiguousShare(workers: nat, slot: nat, q: nat)
    requires slot < workers
    ensures Count(Lo(q * workers, workers, slot), 1, Min(Lo(q * workers, workers, slot + 1), q * workers)) == q
  {
    DivModUnique(q * workers, workers, q, 0);
    Distribute(q, slot, 1);
    MulMono(slot + 1, workers, q);
    CountOf(slot * q, 1, slot * q + q, q);
  }

  /** With as many elements as threads every thread is handed exactly one, the same each time it
      asks: what lets the scan kernel keep a thread's elements in registers between two loops. */
  lemma OneElementEach(s: Share, layout: Layout, thread: seq<nat>)
    requires s.Valid() && InBox(s.numThreads, thread) && s.Total() == s.Workers()
    ensures s.Workers() > 0
    ensures Count(First(s, layout, thread), Stride(s, layout), End(s, layout, thread)) == 1
    ensures Term(First(s, layout, thread), Stride(s, layout), 0) == s.Slot(thread)
  {
    EqualShares(s, layout, thread, 1);
    DivModUnique(s.Workers(), s.Workers(), 1, 0);
    SlotInRange(s, thread);
  }

  /** Dereferencing the iterator. */
  method Element(s: Share, modulus: nat, position: nat) returns (x: seq<int>)
    requires s.Valid() && position < s.Total() < modulus
    ensures Positive(s.Extents()[1..]) && x == s.At(position)
  {
    ElementAt(s, position);
    InnerBelowTotal(s);
    var steps := MapToND(modulus, s.Extents(), position);
    x := Placed(s.begin, s.stride, steps[..]);
  }

  /** A thread's walk does not wrap before it is over, in an index type of `modulus` values. */
  predicate WalkFits(s: Share, layout: Layout, modulus: nat, thread: seq<nat>)
    requires s.Valid() && |thread| == |s.numThreads| && s.Workers() > 0
  {
    var count := Count(First(s, layout, thread), Stride(s, layout), End(s, layout, thread));
    count == 0 || Term(First(s, layout, thread), Stride(s, layout), count) < modulus
  }

  lemma LastTerm(start: nat, step: nat, end: nat, position: nat, k: nat)
    requires step > 0 && k < Count(start, step, end) && Term(start, step, k) == position && position + step >= end
    ensures Count(start, step, end) == k + 1 && Term(start, step, k + 1) == position + step
  {
    CountBelow(start, step, end, k);
    CountOf(start, step, end, k + 1);
  }

  /** The walks of all threads fit exactly if the range and one more stride fit, where the stride
      is the number of threads; contiguous walks always fit. */
  lemma WalksFitExactly(s: Share, layout: Layout, modulus: nat)
    requires s.Valid() && s.Workers() > 0 && s.Total() < modulus
    ensures (forall thread :: InBox(s.numThreads, thread) ==> WalkFits(s, layout, modulus, thread)) <==>
            layout.Contiguous? || s.Total() == 0 || s.Total() + s.Workers() <= modulus
  {
    forall thread | InBox(s.numThreads, thread)
      ensures layout.Contiguous? || s.Total() == 0 || s.Total() + s.Workers() <= modulus ==>
              WalkFits(s, layout, modulus, thread)
    {
      var first, stride, end := First(s, layout, thread), Stride(s, layout), End(s, layout, thread);
      var count := Count(first, stride, end);
      if count > 0 {
        CountBelow(first, stride, end, count - 1);
      }
    }
    if layout.Strided? && s.Total() > 0 {
      var thread, k := OwnerOfPosition(s, layout, s.Total() - 1);
      LastTerm(First(s, layout, thread), s.Workers(), s.Total(), s.Total() - 1, k);
    }
  }

  /** A walk that does not fit goes on after its share is over. */
  lemma WalkOverruns(s: Share, layout: Layout, modulus: nat, thread: seq<nat>)
    requires s.Valid() && s.Workers() > 0 && s.Total() < modulus && s.Workers() < modulus
    requires InBox(s.numThreads, thread) && !WalkFits(s, layout, modulus, thread)
    ensures var first, stride, end := First(s, layout, thread), Stride(s, layout), End(s, layout, thread);
            Term(first, stride, Count(first, stride, end)) % modulus < end
  {
    var first, stride, end := First(s, layout, thread), Stride(s, layout), End(s, layout, thread);
    var count := Count(first, stride, end);
    CountBelow(first, stride, end, count - 1);
    var past := Term(first, stride, count);
    DivModUnique(past, modulus, 1, past - modulus);
  }

  /** The k-th position of a thread's walk in the index type: the walk is not over before. */
  ghost predicate Visits(s: Share, layout: Layout, modulus: nat, thread: seq<nat>, k: nat, position: nat)
    requires s.Valid() && s.Workers() > 0 && modulus > 0
  {
    && InBox(s.numThreads, thread)
    && (forall j :: 0 <= j <= k ==>
      GoesOn(First(s, layout, thread), Stride(s, layout), End(s, layout, thread), modulus, j))
    && position == Term(First(s, layout, thread), Stride(s, layout), k) % modulus
  }

  predicate GoesOn(first: nat, stride: nat, end: nat, modulus: nat, j: nat)
    requires modulus > 0
  {
    Term(first, stride, j) % modulus < end
  }

  lemma BeforeItsEnd(first: nat, stride: nat, end: nat, modulus: nat, j: nat)
    requires stride > 0 && end < modulus && j < Count(first, stride, end)
    ensures GoesOn(first, stride, end, modulus, j) && Term(first, stride, j) % modulus == Term(first, stride, j)
  {
    CountBelow(first, stride, end, j);
    Unwrapped(Term(first, stride, j), modulus);
  }

  lemma ShareVisited(s: Share, layout: Layout, modulus: nat, thread: seq<nat>, k: nat)
    requires s.Valid() && s.Workers() > 0 && s.Total() < modulus && InBox(s.numThreads, thread)
    requires k < Count(First(s, layout, thread), Stride(s, layout), End(s, layout, thread))
    ensures Visits(s, layout, modulus, thread, k, Term(First(s, layout, thread), Stride(s, layout), k))
  {
    forall j | 0 <= j <= k
      ensures GoesOn(First(s, layout, thread), Stride(s, layout), End(s, layout, thread), modulus, j)
      ensures Term(First(s, layout, thread), Stride(s, layout), j) % modulus ==
              Term(First(s, layout, thread), Stride(s, layout), j)
    {
      BeforeItsEnd(First(s, layout, thread), Stride(s, layout), End(s, layout, thread), modulus, j);
    }
  }

  lemma FirstFits(s: Share, layout: Layout, modulus: nat, thread: seq<nat>)
    requires s.Valid() && s.Workers() > 0 && s.Total() < modulus && s.Workers() <= modulus
    requires InBox(s.numThreads, thread)
    ensures First(s, layout, thread) < modulus
  {
    SlotInRange(s, thread);
    if layout.Contiguous? {
      LoMono(s.Total(), s.Workers(), s.Slot(thread), s.Workers());
      LoEnds(s.Total(), s.Workers());
    }
  }

  /** A walk that fits is over after the thread's share. */
  lemma FittingWalkEnds(s: Share, layout: Layout, modulus: nat, thread: seq<nat>, k: nat, position: nat)
    requires s.Valid() && s.Workers() > 0 && s.Total() < modulus && s.Workers() <= modulus
    requires Visits(s, layout, modulus, thread, k, position) && WalkFits(s, layout, modulus, thread)
    ensures k < Count(First(s, layout, thread), Stride(s, layout), End(s, layout, thread))
    ensures position == Term(First(s, layout, thread), Stride(s, layout), k)
  {
    var first, stride, end := First(s, layout, thread), Stride(s, layout), End(s, layout, thread);
    var count := Count(first, stride, end);
    ghost var goesOn := GoesOn(first, stride, end, modulus, count);
    if k >= count {
      FirstFits(s, layout, modulus, thread);
      CountBelow(first, stride, end, count);
      Unwrapped(Term(first, stride, count), modulus);
      assert false;
    }
    BeforeItsEnd(first, stride, end, modulus, k);
  }

  ghost predicate VisitedOnce(s: Share, layout: Layout, modulus: nat, position: nat)
    requires s.Valid() && s.Workers() > 0 && modulus > 0
  {
    forall t1, k1, t2, k2 ::
      Visits(s, layout, modulus, t1, k1, position) && Visits(s, layout, modulus, t2, k2, position) ==>
        t1 == t2 && k1 == k2
  }

  lemma FittingWalksVisitOnce(s: Share, layout: Layout, modulus: nat, position: nat)
    requires s.Valid() && s.Workers() > 0 && s.Total() < modulus && s.Workers() <= modulus
    requires forall thread :: InBox(s.numThreads, thread) ==> WalkFits(s, layout, modulus, thread)
    ensures VisitedOnce(s, layout, modulus, position)
  {
    forall t1, k1, t2, k2 |
      Visits(s, layout, modulus, t1, k1, position) && Visits(s, layout, modulus, t2, k2, position)
      ensures t1 == t2 && k1 == k2
    {
      FittingWalkEnds(s, layout, modulus, t1, k1, position);
      FittingWalkEnds(s, layout, modulus, t2, k2, position);
      SamePositionSameOwner(s, layout, t1, k1, t2, k2);
    }
  }

  /** A walk that does not fit visits a position that belongs to some share already. */
  lemma OverrunVisitsTwice(s: Share, layout: Layout, modulus: nat, thread: seq<nat>) returns (position: nat)
    requires s.Valid() && s.Workers() > 0 && s.Total() < modulus && s.Workers() < modulus
    requires InBox(s.numThreads, thread) && !WalkFits(s, layout, modulus, thread)
    ensures !VisitedOnce(s, layout, modulus, position)
  {
    var first, stride, end := First(s, layout, thread), Stride(s, layout), End(s, layout, thread);
    var count := Count(first, stride, end);
    WalkOverruns(s, layout, modulus, thread);
    position := Term(first, stride, count) % modulus;
    forall j | 0 <= j <= count ensures GoesOn(first, stride, end, modulus, j) {
      if j < count {
        BeforeItsEnd(first, stride, end, modulus, j);
      }
    }
    assert Visits(s, layout, modulus, thread, count, position);
    var owner, k := OwnerOfPosition(s, layout, position);
    ShareVisited(s, layout, modulus, owner, k);
  }

  /** In the index type every position of the range is visited, */
  lemma EveryPositionVisited(s: Share, layout: Layout, modulus: nat, position: nat) returns (thread: seq<nat>, k: nat)
    requires s.Valid() && s.Workers() > 0 && position < s.Total() < modulus
    ensures Visits(s, layout, modulus, thread, k, position)
  {
    thread, k := OwnerOfPosition(s, layout, position);
    ShareVisited(s, layout, modulus, thread, k);
  }

  /** and none is visited twice exactly if the range and one more stride fit. */
  lemma VisitedOnceExactly(s: Share, layout: Layout, modulus: nat)
    requires s.Valid() && s.Workers() > 0 && s.Total() < modulus && s.Workers() < modulus
    ensures (forall position :: VisitedOnce(s, layout, modulus, position)) <==>
            layout.Contiguous? || s.Total() == 0 || s.Total() + s.Workers() <= modulus
  {
    WalksFitExactly(s, layout, modulus);
    if thread :| InBox(s.numThreads, thread) && !WalkFits(s, layout, modulus, thread) {
      var position := OverrunVisitsTwice(s, layout, modulus, thread);
    } else {
      forall position ensures VisitedOnce(s, layout, modulus, position) {
        FittingWalksVisitOnce(s, layout, modulus, position);
      }
    }
  }

  /** The elements at consecutive positions behind the shares of the lower slots; the first slots
      get one element more. */
  ghost predicate IsContiguousShare(s: Share, slot: nat, elements: seq<seq<int>>)
    requires s.Valid() && s.Workers() > 0
  {
    var total, workers := Product(s.Extents()), Product(s.numThreads);
    && (|elements| > 0 ==> Positive(s.Extents()[1..]))
    && |elements| == total / workers + (if slot < total % workers then 1 else 0)
    && forall k: nat :: k < |elements| ==> elements[k] == s.At(LengthsBelow(total, workers, slot) + k)
  }

  /** The elements at all positions that leave the slot modulo the number of threads. */
  ghost predicate IsStridedShare(s: Share, slot: nat, elements: seq<seq<int>>)
    requires s.Valid() && s.Workers() > 0
  {
    var total, workers := Product(s.Extents()), Product(s.numThreads);
    && (|elements| > 0 ==> Positive(s.Extents()[1..]))
    && (forall k: nat :: k < |elements| <==> slot + k * workers < total)
    && forall k: nat :: k < |elements| ==> elements[k] == s.At(slot + k * workers)
  }

  lemma ContiguousPositions(s: Share, thread: seq<nat>, k: nat)
    requires s.Valid() && InBox(s.numThreads, thread)
    ensures s.Workers() > 0
    ensures Count(First(s, Contiguous, thread), 1, End(s, Contiguous, thread)) ==
      ShareLength(s.Total(), s.Workers(), s.Slot(thread))
    ensures Term(First(s, Contiguous, thread), 1, k) == LengthsBelow(s.Total(), s.Workers(), s.Slot(thread)) + k
  {
    WorkersPositive(s);
    SlotInRange(s, thread);
    var total, workers, slot := s.Total(), s.Workers(), s.Slot(thread);
    SharesAreConsecutive(total, workers, slot);
    LoMono(total, workers, slot + 1, workers);
    LoEnds(total, workers);
    CountOf(Lo(total, workers, slot), 1, Lo(total, workers, slot + 1), ShareLength(total, workers, slot));
  }

  ghost predicate Walked(s: Share, layout: Layout, thread: seq<nat>, elements: seq<seq<int>>)
    requires s.Valid() && |thread| == |s.numThreads| && s.Workers() > 0
  {
    && |elements| == Count(First(s, layout, thread), Stride(s, layout), End(s, layout, thread))
    && forall k :: 0 <= k < |elements| ==> Hands(s, layout, thread, k, elements[k])
  }

  lemma ContiguousShareDealt(s: Share, thread: seq<nat>, elements: seq<seq<int>>)
    requires s.Valid() && InBox(s.numThreads, thread) && s.Workers() > 0 && Walked(s, Contiguous, thread, elements)
    ensures IsContiguousShare(s, Linear(s.numThreads[1..], thread), elements)
  {
    ContiguousPositions(s, thread, 0);
    assert |elements| > 0 ==> Hands(s, Contiguous, thread, 0, elements[0]);
    forall k: nat | k < |elements|
      ensures elements[k] == s.At(LengthsBelow(s.Total(), s.Workers(), s.Slot(thread)) + k)
    {
      ContiguousPositions(s, thread, k);
      assert Hands(s, Contiguous, thread, k, elements[k]);
    }
  }

  lemma StridedShareDealt(s: Share, thread: seq<nat>, elements: seq<seq<int>>)
    requires s.Valid() && InBox(s.numThreads, thread) && s.Workers() > 0 && Walked(s, Strided, thread, elements)
    ensures IsStridedShare(s, Linear(s.numThreads[1..], thread), elements)
  {
    var slot, workers := s.Slot(thread), s.Workers();
    forall k: nat ensures k < |elements| <==> slot + k * workers < s.Total() {
      CountBelow(slot, workers, s.Total(), k);
    }
    assert |elements| > 0 ==> Hands(s, Strided, thread, 0, elements[0]);
    forall k: nat | k < |elements| ensures elements[k] == s.At(slot + k * workers) {
      assert Hands(s, Strided, thread, k, elements[k]);
    }
  }

  /** Where a thread's walk begins, how far apart its positions are and where it ends. */
  method Begin(s: Share, layout: Layout, modulus: nat, thread: seq<nat>) returns (current: nat, stride: nat, end: nat)
    requires s.Valid() && InBox(s.numThreads, thread) && 0 < s.Workers() < modulus && s.Total() < modulus
    ensures current == First(s, layout, thread) && stride == Stride(s, layout) && end == End(s, layout, thread)
    ensures end <= s.Total()
  {
    SlotInRange(s, thread);
    NoWrapInRange(modulus, s.numThreads, thread);
    FirstCoordinate(s.numThreads, thread);
    var slot := Linearize(modulus, s.numThreads[1..], thread);
    current := slot;
    stride := s.Workers();
    end := s.Total();
    if layout.Contiguous? {
      current := Lo(s.Total(), s.Workers(), slot);
      stride := 1;
      end := Min(Lo(s.Total(), s.Workers(), slot + 1), s.Total());
    }
  }

  /** A thread's walk through its share. */
  method Deal(s: Share, layout: Layout, modulus: nat, thread: seq<nat>) returns (elements: seq<seq<int>>)
    requires |s.begin| == |s.distance| == |s.stride| == |s.numThreads| >= 1
    requires Positive(s.stride) && Positive(s.numThreads)
    requires InBox(s.numThreads, thread)
    requires 0 < s.Workers() < modulus && s.Total() < modulus && WalkFits(s, layout, modulus, thread)
    ensures |elements| == Count(First(s, layout, thread), Stride(s, layout), End(s, layout, thread))
    ensures forall k :: 0 <= k < |elements| ==> Hands(s, layout, thread, k, elements[k])
    ensures |elements| > 0 ==> Positive(s.Extents()[1..])
    ensures layout.Contiguous? ==>
      var total, workers, slot := Product(s.Extents()), Product(s.numThreads), Linear(s.numThreads[1..], thread);
      && |elements| == total / workers + (if slot < total % workers then 1 else 0)
      && forall k: nat :: k < |elements| ==> elements[k] == s.At(LengthsBelow(total, workers, slot) + k)
    ensures layout.Strided? ==>
      var total, workers, slot := Product(s.Extents()), Product(s.numThreads), Linear(s.numThreads[1..], thread);
      && (forall k: nat :: k < |elements| <==> slot + k * workers < total)
      && forall k: nat :: k < |elements| ==> elements[k] == s.At(slot + k * workers)
  {
    var current, stride, end := Begin(s, layout, modulus, thread);
    ghost var first, count := current, Count(current, stride, end);
    CountBelow(first, stride, end, 0);
    elements := [];
    while current < end
      invariant current == Term(first, stride, |elements|)
      invariant |elements| <= count
      invariant forall k :: 0 <= k < |elements| ==> Hands(s, layout, thread, k, elements[k])
      decreases count - |elements|
    {
      CountBelow(first, stride, end, |elements|);
      NextFits(first, stride, end, modulus, |elements|);
      var x := Element(s, modulus, current);
      elements := elements + [x];
      current := (current + stride) % modulus;
    }
    CountBelow(first, stride, end, |elements|);
    if layout.Contiguous? {
      ContiguousShareDealt(s, thread, elements);
    } else {
      StridedShareDealt(s, thread, elements);
    }
  }

  lemma NextFits(first: nat, stride: nat, end: nat, modulus: nat, k: nat)
    requires stride > 0 && k < Count(first, stride, end) && Term(first, stride, Count(first, stride, end)) < modulus
    ensures (Term(first, stride, k) + stride) % modulus == Term(first, stride, k + 1)
  {
    CountBelow(first, stride, end, k);
    MulMono(k + 1, Count(first, stride, end), stride);
    Unwrapped(Term(first, stride, k + 1), modulus);
  }

  lemma FirstCoordinate(extents: seq<nat>, idx: seq<nat>)
    requires |extents| > 0 && InBox(extents, idx)
    ensures idx[0] < Product(extents)
  {
    PrefixInRange(extents, idx, 1);
  }

  lemma InnerBelowTotal(s: Share)
    requires s.Valid() && s.Total() > 0
    ensures Product(s.Extents()[1..]) <= s.Total()
  {
    var e := s.Extents();
    PositiveFactors(e);
    assert e == [e[0]] + e[1..];
    ProductCons(e[0], e[1..]);
    MulMono(1, e[0], Product(e[1..]));
  }
}
