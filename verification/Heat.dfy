/** The tiled heat-equation stencil with double buffering, over exact reals: grid, kernels and
    time loop, against the naive whole-grid step. Indices are (y, x). */
module Heat {
  import opened Arith

  function Times(a: real, b: real): (r: real)
    ensures r == a * b
    ensures a > 0.0 && b > 0.0 ==> r > 0.0
  {
    a * b
  }

  datatype Problem = Problem(side: nat, chunk: nat, dx: real, dy: real, dt: real, exact: (real, real, real) -> real) {
    ghost predicate Valid() {
      chunk > 0 && side % chunk == 0 && dx > 0.0 && dy > 0.0
    }

    function Width(): nat {
      side + 2
    }

    function RX(): real
      requires dx > 0.0
    {
      dt / Times(dx, dx)
    }

    function RY(): real
      requires dy > 0.0
    {
      dt / Times(dy, dy)
    }

    /** The exact solution at a node, at the time of a step. */
    function ExactAt(y: nat, x: nat, step: nat): (r: real)
      ensures r == exact(x as real * dx, y as real * dy, step as real * dt)
    {
      exact(x as real * dx, y as real * dy, step as real * dt)
    }

    predicate Interior(y: int, x: int) {
      0 < y <= side && 0 < x <= side
    }
  }

  function Stencil(center: real, left: real, right: real, up: real, down: real, rX: real, rY: real): real {
    center * (1.0 - 2.0 * rX - 2.0 * rY) + left * rX + right * rX + up * rY + down * rY
  }

  /** One explicit step of u_t == u_xx + u_yy: forward difference in time, second-order central
      differences in x and y. */
  function EulerStep(p: Problem, center: real, left: real, right: real, up: real, down: real): real
    requires p.dx > 0.0 && p.dy > 0.0
  {
    center + p.dt * ((left - 2.0 * center + right) / Times(p.dx, p.dx) + (up - 2.0 * center + down) / Times(p.dy, p.dy))
  }

  /** The kernel's weights are those of the explicit scheme. */
  lemma StencilIsEulerStep(p: Problem, c: real, l: real, r: real, u: real, d: real)
    requires p.dx > 0.0 && p.dy > 0.0
    ensures Stencil(c, l, r, u, d, p.RX(), p.RY()) == EulerStep(p, c, l, r, u, d)
  {
    QuotientTimes(p.dt, Times(p.dx, p.dx), l - 2.0 * c + r);
    QuotientTimes(p.dt, Times(p.dy, p.dy), u - 2.0 * c + d);
  }

  lemma QuotientTimes(dt: real, h: real, v: real)
    requires h > 0.0
    ensures dt / h * v == dt * (v / h)
  {
  }

  /** The value of a cell after k steps of the whole grid: edges follow the exact solution, every
      other cell the explicit scheme over the previous grid. */
  ghost function Naive(p: Problem, k: nat, y: nat, x: nat): real
    requires p.Valid()
    decreases k
  {
    if k == 0 || !p.Interior(y, x) then p.ExactAt(y, x, k)
    else EulerStep(p, Naive(p, k - 1, y, x), Naive(p, k - 1, y, x - 1), Naive(p, k - 1, y, x + 1),
                   Naive(p, k - 1, y - 1, x), Naive(p, k - 1, y + 1, x))
  }

  ghost predicate IsGrid(p: Problem, u: array2<real>) {
    u.Length0 == u.Length1 == p.Width()
  }

  /** The buffer holds the grid after k steps. */
  ghost predicate HoldsStep(p: Problem, u: array2<real>, k: nat)
    requires p.Valid() && IsGrid(p, u)
    reads u
  {
    forall y: nat, x: nat :: y < p.Width() && x < p.Width() ==> u[y, x] == Naive(p, k, y, x)
  }

  ghost function StencilAt(p: Problem, u: array2<real>, y: nat, x: nat): real
    requires p.Valid() && IsGrid(p, u) && p.Interior(y, x)
    reads u
  {
    Stencil(u[y, x], u[y, x - 1], u[y, x + 1], u[y - 1, x], u[y + 1, x], p.RX(), p.RY())
  }

  /** v is the exact solution at node (y, x) and the given time. */
  ghost predicate IsExact(p: Problem, v: real, y: nat, x: nat, time: real) {
    v == p.exact(x as real * p.dx, y as real * p.dy, time)
  }

  lemma ExactValue(p: Problem, y: nat, x: nat, step: nat)
    ensures IsExact(p, p.ExactAt(y, x, step), y, x, step as real * p.dt)
  {
  }

  lemma ZeroTimes(zero: real, dt: real)
    requires zero == 0.0
    ensures zero * dt == 0.0
  {
  }

  lemma ExactStart(p: Problem, y: nat, x: nat, step: nat)
    requires step == 0
    ensures IsExact(p, p.ExactAt(y, x, step), y, x, 0.0)
  {
    ExactValue(p, y, x, step);
    ZeroTimes(step as real, p.dt);
  }

  /** A buffer that holds a step has the exact solution on its edges. */
  lemma EdgesAreExact(p: Problem, u: array2<real>, k: nat)
    requires p.Valid() && IsGrid(p, u) && HoldsStep(p, u, k)
    ensures forall y: nat, x: nat :: y < p.Width() && x < p.Width() && !p.Interior(y, x) ==>
      u[y, x] == p.exact(x as real * p.dx, y as real * p.dy, k as real * p.dt)
  {
    forall y: nat, x: nat | y < p.Width() && x < p.Width() && !p.Interior(y, x)
      ensures u[y, x] == p.exact(x as real * p.dx, y as real * p.dy, k as real * p.dt)
    {
      ExactValue(p, y, x, k);
    }
  }

  // ---- Tiles ----

  function Cells(height: nat, width: nat): (s: set<(nat, nat)>)
    ensures forall y: nat, x: nat :: (y, x) in s <==> y < height && x < width
  {
    set y: nat, x: nat | 0 <= y < height && 0 <= x < width :: (y, x)
  }

  /** First coordinate of the tile that a core cell v belongs to. */
  function StartOf(v: nat, chunk: nat): (start: nat)
    requires chunk > 0
  {
    assert v % chunk <= v by { DivNonNeg(v, chunk); MulNonNeg(chunk, v / chunk); }
    v - v % chunk
  }

  lemma StartOfIsUnique(v: nat, start: nat, chunk: nat)
    requires chunk > 0 && start % chunk == 0
    ensures StartOf(v, chunk) == start <==> start <= v < start + chunk
    ensures StartOf(v, chunk) % chunk == 0
  {
    assert v == chunk * (v / chunk) + v % chunk && start == chunk * (start / chunk);
    DivModUnique(StartOf(v, chunk), chunk, v / chunk, 0);
    if start <= v < start + chunk {
      DivModUnique(v, chunk, start / chunk, v - start);
    }
  }

  lemma TileInside(side: nat, start: nat, chunk: nat)
    requires chunk > 0 && start % chunk == 0 && side % chunk == 0 && start < side
    ensures start + chunk <= side
  {
    assert start == chunk * (start / chunk) && side == chunk * (side / chunk);
    if start / chunk >= side / chunk {
      MulMono(side / chunk, start / chunk, chunk);
    }
    MulMono(start / chunk + 1, side / chunk, chunk);
    Distribute(chunk, start / chunk, 1);
  }

  /** The first corners of all tiles. */
  function Tiles(side: nat, chunk: nat): (s: set<(nat, nat)>)
    requires chunk > 0
    ensures forall y: nat, x: nat :: (y, x) in s <==> y < side && x < side && y % chunk == 0 && x % chunk == 0
  {
    set t | t in Cells(side, side) && t.0 % chunk == 0 && t.1 % chunk == 0
  }

  predicate InTile(p: Problem, t: (nat, nat), y: nat, x: nat) {
    t.0 < y <= t.0 + p.chunk && t.1 < x <= t.1 + p.chunk
  }

  function TileOf(p: Problem, y: nat, x: nat): (nat, nat)
    requires p.chunk > 0 && p.Interior(y, x)
  {
    (StartOf(y - 1, p.chunk), StartOf(x - 1, p.chunk))
  }

  lemma TileOfIsUnique(p: Problem, t: (nat, nat), y: nat, x: nat)
    requires p.Valid() && t in Tiles(p.side, p.chunk)
    ensures InTile(p, t, y, x) ==> p.Interior(y, x)
    ensures p.Interior(y, x) ==> (InTile(p, t, y, x) <==> TileOf(p, y, x) == t)
    ensures p.Interior(y, x) ==> TileOf(p, y, x) in Tiles(p.side, p.chunk)
  {
    TileInside(p.side, t.0, p.chunk);
    TileInside(p.side, t.1, p.chunk);
    if p.Interior(y, x) {
      StartOfIsUnique(y - 1, t.0, p.chunk);
      StartOfIsUnique(x - 1, t.1, p.chunk);
    }
  }

  // ---- The stencil kernel ----

  /** First phase: the threads of a block copy tile and halo, in any order. */
  method LoadTile(p: Problem, curr: array2<real>, sdata: array2<real>, t: (nat, nat))
    requires p.Valid() && IsGrid(p, curr) && sdata != curr
    requires sdata.Length0 == sdata.Length1 == p.chunk + 2
    requires t.0 + p.chunk <= p.side && t.1 + p.chunk <= p.side
    modifies sdata
    ensures forall y, x :: 0 <= y < p.chunk + 2 && 0 <= x < p.chunk + 2 ==> sdata[y, x] == curr[t.0 + y, t.1 + x]
  {
    var todo := Cells(p.chunk + 2, p.chunk + 2);
    while todo != {}
      invariant todo <= Cells(p.chunk + 2, p.chunk + 2)
      invariant forall y: nat, x: nat :: y < p.chunk + 2 && x < p.chunk + 2 && (y, x) !in todo ==>
        sdata[y, x] == curr[t.0 + y, t.1 + x]
      decreases todo
    {
      var idx: (nat, nat) :| idx in todo;
      sdata[idx.0, idx.1] := curr[t.0 + idx.0, t.1 + idx.1];
      todo := todo - {idx};
    }
  }

  /** One thread's cell of the second phase, from the tile alone. */
  method StepCell(p: Problem, curr: array2<real>, next: array2<real>, sdata: array2<real>, t: (nat, nat),
                  core: (nat, nat))
    requires p.Valid() && IsGrid(p, curr) && IsGrid(p, next) && next != curr && next != sdata
    requires sdata.Length0 == sdata.Length1 == p.chunk + 2 && core in Cells(p.chunk, p.chunk)
    requires t.0 + p.chunk <= p.side && t.1 + p.chunk <= p.side
    requires forall y, x :: 0 <= y < p.chunk + 2 && 0 <= x < p.chunk + 2 ==> sdata[y, x] == curr[t.0 + y, t.1 + x]
    modifies next
    ensures forall y: nat, x: nat :: y < p.Width() && x < p.Width() ==>
      next[y, x] == if y == t.0 + core.0 + 1 && x == t.1 + core.1 + 1 then StencilAt(p, curr, y, x) else old(next[y, x])
  {
    var rX, rY := p.RX(), p.RY();
    var y, x := core.0 + 1, core.1 + 1;
    var value := Stencil(sdata[y, x], sdata[y, x - 1], sdata[y, x + 1], sdata[y - 1, x], sdata[y + 1, x], rX, rY);
    assert value == StencilAt(p, curr, t.0 + y, t.1 + x);
    next[t.0 + y, t.1 + x] := value;
  }

  /** Second phase: the core cells of the tile, in any order. */
  method ComputeTile(p: Problem, curr: array2<real>, next: array2<real>, sdata: array2<real>, t: (nat, nat))
    requires p.Valid() && IsGrid(p, curr) && IsGrid(p, next) && next != curr && next != sdata
    requires sdata.Length0 == sdata.Length1 == p.chunk + 2
    requires t.0 + p.chunk <= p.side && t.1 + p.chunk <= p.side
    requires forall y, x :: 0 <= y < p.chunk + 2 && 0 <= x < p.chunk + 2 ==> sdata[y, x] == curr[t.0 + y, t.1 + x]
    modifies next
    ensures forall y: nat, x: nat :: y < p.Width() && x < p.Width() ==>
      next[y, x] == if InTile(p, t, y, x) then StencilAt(p, curr, y, x) else old(next[y, x])
  {
    var todo := Cells(p.chunk, p.chunk);
    while todo != {}
      invariant todo <= Cells(p.chunk, p.chunk)
      invariant forall y: nat, x: nat :: y < p.Width() && x < p.Width() ==>
        next[y, x] ==
          if InTile(p, t, y, x) && (y - t.0 - 1, x - t.1 - 1) !in todo
          then StencilAt(p, curr, y, x) else old(next[y, x])
      decreases todo
    {
      var core: (nat, nat) :| core in todo;
      StepCell(p, curr, next, sdata, t, core);
      todo := todo - {core};
    }
  }

  /** The cell is stepped by the block of tile t. */
  predicate BelongsTo(p: Problem, t: (nat, nat), y: nat, x: nat)
    requires p.chunk > 0
  {
    p.Interior(y, x) && TileOf(p, y, x) == t
  }

  /** One block: a barrier separates the two phases. */
  method RunBlock(p: Problem, curr: array2<real>, next: array2<real>, t: (nat, nat))
    requires p.Valid() && IsGrid(p, curr) && IsGrid(p, next) && next != curr && t in Tiles(p.side, p.chunk)
    modifies next
    ensures forall y: nat, x: nat :: y < p.Width() && x < p.Width() ==>
      next[y, x] == if BelongsTo(p, t, y, x) then StencilAt(p, curr, y, x) else old(next[y, x])
  {
    TileInside(p.side, t.0, p.chunk);
    TileInside(p.side, t.1, p.chunk);
    var sdata := new real[p.chunk + 2, p.chunk + 2];
    LoadTile(p, curr, sdata, t);
    ComputeTile(p, curr, next, sdata, t);
    forall y: nat, x: nat | y < p.Width() && x < p.Width() ensures InTile(p, t, y, x) <==> BelongsTo(p, t, y, x) {
      TileOfIsUnique(p, t, y, x);
    }
  }

  ghost predicate Stepped(p: Problem, todo: set<(nat, nat)>, y: nat, x: nat)
    requires p.chunk > 0
  {
    p.Interior(y, x) && TileOf(p, y, x) !in todo
  }

  /** The blocks take the tiles in any order. */
  method StencilKernel(p: Problem, curr: array2<real>, next: array2<real>)
    requires p.Valid() && IsGrid(p, curr) && IsGrid(p, next) && next != curr
    modifies next
    ensures forall y: nat, x: nat :: y < p.Width() && x < p.Width() ==>
      next[y, x] == if p.Interior(y, x) then StencilAt(p, curr, y, x) else old(next[y, x])
  {
    var todo := Tiles(p.side, p.chunk);
    EveryCellHasTile(p);
    while todo != {}
      invariant todo <= Tiles(p.side, p.chunk)
      invariant forall y: nat, x: nat :: y < p.Width() && x < p.Width() ==>
        next[y, x] == if Stepped(p, todo, y, x) then StencilAt(p, curr, y, x) else old(next[y, x])
      decreases todo
    {
      var t: (nat, nat) :| t in todo;
      RunBlock(p, curr, next, t);
      todo := todo - {t};
    }
  }

  lemma EveryCellHasTile(p: Problem)
    requires p.Valid()
    ensures forall y: nat, x: nat :: !Stepped(p, Tiles(p.side, p.chunk), y, x)
  {
    forall y: nat, x: nat | p.Interior(y, x) ensures TileOf(p, y, x) in Tiles(p.side, p.chunk) {
      StartOfIsUnique(y - 1, 0, p.chunk);
      StartOfIsUnique(x - 1, 0, p.chunk);
    }
  }

  // ---- The boundary kernel ----

  /** The cells it writes in a grid of ny by nx nodes: first and last row, then both ends of the
      rows between, where the last column is taken to be that of the last row's number. Index
      differences are those of an unsigned type of `modulus` values. */
  predicate Written(modulus: nat, ny: nat, nx: nat, y: int, x: int)
    requires modulus > 0
  {
    var last := (ny - 1) % modulus;
    (0 <= x < nx && (y == 0 || y == last)) || (1 <= y < 1 + (last - 1) % modulus && (x == 0 || x == last))
  }

  predicate Edge(ny: nat, nx: nat, y: int, x: int) {
    0 <= y < ny && 0 <= x < nx && (y == 0 || y == ny - 1 || x == 0 || x == nx - 1)
  }

  method BoundaryKernel(p: Problem, u: array2<real>, ny: nat, nx: nat, step: nat, ghost modulus: nat)
    requires p.Valid() && 2 <= ny < modulus
    requires u.Length0 >= ny && u.Length1 >= nx && (ny > 2 ==> u.Length1 >= ny)
    modifies u
    ensures forall y: nat, x: nat :: y < u.Length0 && x < u.Length1 ==>
      if Written(modulus, ny, nx, y, x)
      then u[y, x] == p.exact(x as real * p.dx, y as real * p.dy, step as real * p.dt) == p.ExactAt(y, x, step)
      else u[y, x] == old(u[y, x])
  {
    var xs := Range(0, nx);
    while xs != {}
      invariant xs <= Range(0, nx)
      invariant forall y: nat, x: nat :: y < u.Length0 && x < u.Length1 ==>
        u[y, x] == if x < nx && x !in xs && (y == 0 || y == ny - 1) then p.ExactAt(y, x, step) else old(u[y, x])
      decreases xs
    {
      var x: nat :| x in xs;
      u[0, x] := p.ExactAt(0, x, step);
      u[ny - 1, x] := p.ExactAt(ny - 1, x, step);
      xs := xs - {x};
    }
    NoWrap(modulus, ny);
    var ys := Range(1, ny - 1);
    while ys != {}
      invariant ys <= Range(1, ny - 1)
      invariant forall y: nat, x: nat :: y < u.Length0 && x < u.Length1 ==>
        u[y, x] == if Written(modulus, ny, nx, y, x) && y !in ys then p.ExactAt(y, x, step) else old(u[y, x])
      decreases ys
    {
      var y: nat :| y in ys;
      u[y, 0] := p.ExactAt(y, 0, step);
      u[y, ny - 1] := p.ExactAt(y, ny - 1, step);
      ys := ys - {y};
    }
    forall y: nat, x: nat | y < u.Length0 && x < u.Length1 && Written(modulus, ny, nx, y, x)
      ensures u[y, x] == p.exact(x as real * p.dx, y as real * p.dy, step as real * p.dt)
    {
      ExactValue(p, y, x, step);
    }
  }

  lemma NoWrap(modulus: nat, ny: nat)
    requires 2 <= ny < modulus
    ensures (ny - 1) % modulus == ny - 1 && (ny - 2) % modulus == ny - 2
  {
    Unwrapped(ny - 1, modulus);
    Unwrapped(ny - 2, modulus);
  }

  predicate CoversEdge(modulus: nat, ny: nat, nx: nat, y: int, x: int)
    requires modulus > 0
  {
    Written(modulus, ny, nx, y, x) <==> Edge(ny, nx, y, x)
  }

  /** The kernel covers exactly the edge of the grid if and only if the grid has two rows, or is
      square with more. */
  lemma CoversEdgeExactly(modulus: nat, ny: nat, nx: nat)
    requires 3 <= modulus && ny < modulus && nx < modulus
    ensures (forall y, x :: CoversEdge(modulus, ny, nx, y, x)) <==> ny >= 2 && (ny == nx || ny == 2)
  {
    if ny >= 2 && (ny == nx || ny == 2) {
      forall y, x ensures CoversEdge(modulus, ny, nx, y, x) {
        NoWrap(modulus, ny);
      }
    } else if ny >= 2 {
      NoWrap(modulus, ny);
      assert !CoversEdge(modulus, ny, nx, 1, ny - 1);
    } else if ny == 1 {
      OneRowLeavesGrid(modulus, nx, 1);
      assert !CoversEdge(modulus, ny, nx, 1, 0);
    } else {
      assert (-1) % modulus == modulus - 1;
      NoWrap(modulus, modulus - 1);
      assert !CoversEdge(modulus, ny, nx, 1, 0);
    }
  }

  lemma WritesOutsideInterior(p: Problem, modulus: nat)
    requires p.Width() < modulus
    ensures forall y: nat, x: nat :: y < p.Width() && x < p.Width() ==>
      (Written(modulus, p.Width(), p.Width(), y, x) <==> !p.Interior(y, x))
  {
    var w := p.Width();
    CoversEdgeExactly(modulus, w, w);
    assert forall y, x :: CoversEdge(modulus, w, w, y, x);
    forall y: nat, x: nat | y < w && x < w
      ensures Written(modulus, w, w, y, x) <==> !p.Interior(y, x)
    {
      assert CoversEdge(modulus, w, w, y, x);
    }
  }

  /** A grid of one row: the range of the rows between wraps, and every row number of the index
      type outside the grid is written. */
  lemma OneRowLeavesGrid(modulus: nat, nx: nat, y: nat)
    requires 1 <= y < modulus
    ensures Written(modulus, 1, nx, y, 0) && !Edge(1, nx, y, 0)
  {
    assert (-1) % modulus == modulus - 1;
  }

  // ---- Initial values and the time loop ----

  method InitializeBuffer(p: Problem, u: array2<real>)
    requires p.Valid() && IsGrid(p, u)
    modifies u
    ensures HoldsStep(p, u, 0)
    ensures forall y: nat, x: nat :: y < p.Width() && x < p.Width() ==>
      u[y, x] == p.exact(x as real * p.dx, y as real * p.dy, 0.0)
  {
    for j := 0 to u.Length0
      invariant forall y: nat, x: nat :: y < j && x < p.Width() ==> u[y, x] == p.ExactAt(y, x, 0)
    {
      for i := 0 to u.Length1
        invariant forall y: nat, x: nat :: y < j && x < p.Width() ==> u[y, x] == p.ExactAt(y, x, 0)
        invariant forall x: nat :: x < i ==> u[j, x] == p.ExactAt(j, x, 0)
      {
        u[j, i] := p.ExactAt(j, i, 0);
      }
    }
    forall y: nat, x: nat | y < p.Width() && x < p.Width()
      ensures u[y, x] == p.exact(x as real * p.dx, y as real * p.dy, 0.0)
    {
      ExactStart(p, y, x, 0);
    }
  }

  method OneStep(p: Problem, curr: array2<real>, next: array2<real>, step: nat)
    requires p.Valid() && IsGrid(p, curr) && IsGrid(p, next) && next != curr
    requires step > 0 && HoldsStep(p, curr, step - 1)
    modifies next
    ensures HoldsStep(p, next, step)
  {
    StencilKernel(p, curr, next);
    forall y: nat, x: nat | p.Interior(y, x)
      ensures next[y, x] == Naive(p, step, y, x)
    {
      StencilIsEulerStep(p, curr[y, x], curr[y, x - 1], curr[y, x + 1], curr[y - 1, x], curr[y + 1, x]);
    }
    ghost var modulus := p.Width() + 1;
    BoundaryKernel(p, next, p.Width(), p.Width(), step, modulus);
    WritesOutsideInterior(p, modulus);
  }

  /** Double buffering: after every swap the current buffer holds the whole next grid, whatever
      the other buffer was left with. */
  method Simulate(p: Problem, numTimeSteps: nat) returns (uCurr: array2<real>)
    requires p.chunk > 0 && p.side % p.chunk == 0 && p.dx > 0.0 && p.dy > 0.0
    ensures IsGrid(p, uCurr)
    ensures forall y: nat, x: nat :: y < p.Width() && x < p.Width() ==> uCurr[y, x] == Naive(p, numTimeSteps, y, x)
    ensures forall y: nat, x: nat :: y < p.Width() && x < p.Width() && !p.Interior(y, x) ==>
      uCurr[y, x] == p.exact(x as real * p.dx, y as real * p.dy, numTimeSteps as real * p.dt)
  {
    uCurr := new real[p.Width(), p.Width()];
    var uNext := new real[p.Width(), p.Width()];
    InitializeBuffer(p, uCurr);
    for step := 1 to numTimeSteps + 1
      invariant fresh(uCurr) && fresh(uNext) && uCurr != uNext
      invariant IsGrid(p, uCurr) && IsGrid(p, uNext) && HoldsStep(p, uCurr, step - 1)
    {
      OneStep(p, uCurr, uNext, step);
      uCurr, uNext := uNext, uCurr;
    }
    EdgesAreExact(p, uCurr, numTimeSteps);
  }

  // ---- What the stability check is for ----

  predicate Within(lo: real, hi: real, v: real) {
    lo <= v <= hi
  }

  lemma ProductSign(a: real, b: real)
    ensures a >= 0.0 && b >= 0.0 ==> a * b >= 0.0
    ensures a > 0.0 && b > 0.0 ==> a * b > 0.0
  {
  }

  /** A weighted average is not below all of its inputs. */
  lemma StencilNotBelow(lo: real, c: real, l: real, r: real, u: real, d: real, rX: real, rY: real)
    requires rX >= 0.0 && rY >= 0.0 && 2.0 * rX + 2.0 * rY <= 1.0
    requires lo <= c && lo <= l && lo <= r && lo <= u && lo <= d
    ensures lo <= Stencil(c, l, r, u, d, rX, rY)
  {
    ProductSign(c - lo, 1.0 - 2.0 * rX - 2.0 * rY);
    ProductSign(l - lo, rX);
    ProductSign(r - lo, rX);
    ProductSign(u - lo, rY);
    ProductSign(d - lo, rY);
    assert Stencil(c, l, r, u, d, rX, rY) - lo == Stencil(c - lo, l - lo, r - lo, u - lo, d - lo, rX, rY);
  }

  /** A stencil step with non-negative weights stays within the bounds of its inputs. */
  lemma StencilWithin(lo: real, hi: real, c: real, l: real, r: real, u: real, d: real, rX: real, rY: real)
    requires rX >= 0.0 && rY >= 0.0 && 2.0 * rX + 2.0 * rY <= 1.0
    requires AllWithin(lo, hi, c, l, r, u, d)
    ensures Within(lo, hi, Stencil(c, l, r, u, d, rX, rY))
  {
    StencilNotBelow(lo, c, l, r, u, d, rX, rY);
    StencilNotBelow(-hi, -c, -l, -r, -u, -d, rX, rY);
    assert Stencil(-c, -l, -r, -u, -d, rX, rY) == -Stencil(c, l, r, u, d, rX, rY);
  }

  /** The step keeps all bounds exactly when its five weights are non-negative. */
  lemma BoundsKeptExactlyWhenStable(rX: real, rY: real)
    ensures rX >= 0.0 && rY >= 0.0 && 2.0 * rX + 2.0 * rY <= 1.0 <==>
            forall c, l, r, u, d :: KeepsUnitBounds(c, l, r, u, d, rX, rY)
  {
    if rX < 0.0 {
      assert !KeepsUnitBounds(0.0, 1.0, 0.0, 0.0, 0.0, rX, rY);
    } else if rY < 0.0 {
      assert !KeepsUnitBounds(0.0, 0.0, 0.0, 1.0, 0.0, rX, rY);
    } else if 2.0 * rX + 2.0 * rY > 1.0 {
      assert !KeepsUnitBounds(1.0, 0.0, 0.0, 0.0, 0.0, rX, rY);
    } else {
      forall c, l, r, u, d ensures KeepsUnitBounds(c, l, r, u, d, rX, rY) {
        if AllWithin(0.0, 1.0, c, l, r, u, d) {
          StencilWithin(0.0, 1.0, c, l, r, u, d, rX, rY);
        }
      }
    }
  }

  predicate AllWithin(lo: real, hi: real, c: real, l: real, r: real, u: real, d: real) {
    Within(lo, hi, c) && Within(lo, hi, l) && Within(lo, hi, r) && Within(lo, hi, u) && Within(lo, hi, d)
  }

  predicate KeepsUnitBounds(c: real, l: real, r: real, u: real, d: real, rX: real, rY: real) {
    AllWithin(0.0, 1.0, c, l, r, u, d) ==> Within(0.0, 1.0, Stencil(c, l, r, u, d, rX, rY))
  }

  /** The data that enters the scheme up to step k lies within the bounds: the initial grid, and
      the edges at every step. */
  ghost predicate DataWithin(p: Problem, k: nat, lo: real, hi: real) {
    forall j: nat, y: nat, x: nat ::
      j <= k && y < p.Width() && x < p.Width() && (j == 0 || !p.Interior(y, x)) ==> Within(lo, hi, p.ExactAt(y, x, j))
  }

  /** The discrete maximum principle: with non-negative weights no cell ever leaves the range of
      initial and boundary values. */
  lemma {:induction false} MaximumPrinciple(p: Problem, k: nat, y: nat, x: nat, lo: real, hi: real)
    requires p.Valid() && p.RX() >= 0.0 && p.RY() >= 0.0 && 2.0 * p.RX() + 2.0 * p.RY() <= 1.0
    requires DataWithin(p, k, lo, hi) && y < p.Width() && x < p.Width()
    ensures Within(lo, hi, Naive(p, k, y, x))
    decreases k
  {
    if k > 0 && p.Interior(y, x) {
      assert DataWithin(p, k - 1, lo, hi);
      MaximumPrinciple(p, k - 1, y, x, lo, hi);
      MaximumPrinciple(p, k - 1, y, x - 1, lo, hi);
      MaximumPrinciple(p, k - 1, y, x + 1, lo, hi);
      MaximumPrinciple(p, k - 1, y - 1, x, lo, hi);
      MaximumPrinciple(p, k - 1, y + 1, x, lo, hi);
      var c, l, r := Naive(p, k - 1, y, x), Naive(p, k - 1, y, x - 1), Naive(p, k - 1, y, x + 1);
      var u, d := Naive(p, k - 1, y - 1, x), Naive(p, k - 1, y + 1, x);
      StencilIsEulerStep(p, c, l, r, u, d);
      StencilWithin(lo, hi, c, l, r, u, d, p.RX(), p.RY());
    }
  }

  ghost predicate ExactWithin(p: Problem, y: nat, x: nat, step: nat, lo: real, hi: real) {
    lo <= p.exact(x as real * p.dx, y as real * p.dy, step as real * p.dt) <= hi
  }

  /** The data lies within the bounds of the exact solution on the initial grid and on its edges. */
  lemma ExactBoundsData(p: Problem, k: nat, lo: real, hi: real)
    requires forall j: nat, y: nat, x: nat ::
      (j <= k && y <= p.side + 1 && x <= p.side + 1
       && (j == 0 || y == 0 || x == 0 || y == p.side + 1 || x == p.side + 1)) ==>
        ExactWithin(p, y, x, j, lo, hi)
    ensures DataWithin(p, k, lo, hi)
  {
    forall j: nat, y: nat, x: nat |
      j <= k && y < p.Width() && x < p.Width() && (j == 0 || !p.Interior(y, x))
      ensures Within(lo, hi, p.ExactAt(y, x, j))
    {
      ExactValue(p, y, x, j);
      assert ExactWithin(p, y, x, j, lo, hi);
    }
  }

  lemma {:induction false} RowBounds(p: Problem, j: nat, y: nat, width: nat) returns (lo: real, hi: real)
    ensures forall x: nat :: x < width ==> Within(lo, hi, p.ExactAt(y, x, j))
  {
    lo, hi := 0.0, 0.0;
    if width > 0 {
      var v := p.ExactAt(y, width - 1, j);
      lo, hi := RowBounds(p, j, y, width - 1);
      lo, hi := if v < lo then v else lo, if v > hi then v else hi;
    }
  }

  lemma {:induction false} GridBounds(p: Problem, j: nat, height: nat) returns (lo: real, hi: real)
    ensures forall y: nat, x: nat :: y < height && x < p.Width() ==> Within(lo, hi, p.ExactAt(y, x, j))
  {
    lo, hi := 0.0, 0.0;
    if height > 0 {
      var lo1, hi1 := RowBounds(p, j, height - 1, p.Width());
      lo, hi := GridBounds(p, j, height - 1);
      lo, hi := if lo1 < lo then lo1 else lo, if hi1 > hi then hi1 else hi;
    }
  }

  /** Whatever the exact solution, the finitely many values that enter have bounds. */
  lemma {:induction false} DataHasBounds(p: Problem, k: nat) returns (lo: real, hi: real)
    ensures DataWithin(p, k, lo, hi)
  {
    var lo1, hi1 := GridBounds(p, k, p.Width());
    lo, hi := lo1, hi1;
    if k > 0 {
      lo, hi := DataHasBounds(p, k - 1);
      lo, hi := if lo1 < lo then lo1 else lo, if hi1 > hi then hi1 else hi;
    }
  }

  /** The harmonic form of the check is the sum of the neighbours' weights. */
  lemma HarmonicSum(a: real, b: real, dt: real)
    requires a > 0.0 && b > 0.0
    ensures a * b / (a + b) > 0.0
    ensures 2.0 * dt / (a * b / (a + b)) == 2.0 * (dt / a) + 2.0 * (dt / b)
  {
  }

  /** r as the program computes it. */
  function CheckedValue(dx: real, dy: real, dt: real): (r: real)
    requires dx > 0.0 && dy > 0.0
    ensures r == 2.0 * (dt / Times(dx, dx)) + 2.0 * (dt / Times(dy, dy))
  {
    HarmonicSum(Times(dx, dx), Times(dy, dy), dt);
    2.0 * dt / (Times(dx, dx) * Times(dy, dy) / (Times(dx, dx) + Times(dy, dy)))
  }

  predicate Accepted(p: Problem)
    requires p.dx > 0.0 && p.dy > 0.0
  {
    CheckedValue(p.dx, p.dy, p.dt) <= 1.0
  }

  /** Forward in time, the check accepts exactly the steps that keep all bounds. */
  lemma AcceptsExactlyStable(p: Problem)
    requires p.Valid() && p.dt >= 0.0
    ensures Accepted(p) <==> forall c, l, r, u, d :: KeepsUnitBounds(c, l, r, u, d, p.RX(), p.RY())
  {
    WeightsHaveSignOfStep(p);
    BoundsKeptExactlyWhenStable(p.RX(), p.RY());
  }

  /** What the program accepts is stable exactly for time steps that are not negative. */
  lemma AcceptedIsStableExactly(p: Problem)
    requires p.Valid() && Accepted(p)
    ensures (forall c, l, r, u, d :: KeepsUnitBounds(c, l, r, u, d, p.RX(), p.RY())) <==> p.dt >= 0.0
  {
    WeightsHaveSignOfStep(p);
    BoundsKeptExactlyWhenStable(p.RX(), p.RY());
  }

  /** Every negative time step is accepted, however large: the check has no lower bound. */
  lemma NegativeStepAccepted(p: Problem)
    requires p.Valid() && p.dt < 0.0
    ensures Accepted(p) && !forall c, l, r, u, d :: KeepsUnitBounds(c, l, r, u, d, p.RX(), p.RY())
  {
    WeightsHaveSignOfStep(p);
    AcceptedIsStableExactly(p);
  }

  lemma WeightsHaveSignOfStep(p: Problem)
    requires p.Valid()
    ensures (p.RX() >= 0.0 <==> p.dt >= 0.0) && (p.RY() >= 0.0 <==> p.dt >= 0.0)
  {
    SignOfQuotient(p.dt, Times(p.dx, p.dx));
    SignOfQuotient(p.dt, Times(p.dy, p.dy));
  }

  lemma SignOfQuotient(n: real, d: real)
    requires d > 0.0
    ensures n / d >= 0.0 <==> n >= 0.0
  {
  }

  /** The whole example: returns nothing if the check fails, otherwise the grid after the last
      step. Forward in time, that grid stays within the bounds of the data that entered. Without
      time steps the quotient is not a number or infinite: the check then only rejects a positive
      end time, and the result is the initial grid. */
  method Example(side: nat, chunk: nat, numTimeSteps: nat, tMax: real, exact: (real, real, real) -> real)
    returns (p: Problem, result: array2?<real>)
    requires chunk > 0 && side % chunk == 0
    ensures p.side == side && p.chunk == chunk && p.exact == exact && p.Valid()
    ensures p.dx == p.dy == 1.0 / (side + 1) as real
    ensures p.dt == if numTimeSteps == 0 then 0.0 else tMax / numTimeSteps as real
    ensures result != null <==> if numTimeSteps == 0 then tMax <= 0.0 else Accepted(p)
    ensures tMax >= 0.0 && numTimeSteps > 0 ==>
      (result != null <==> forall c, l, r, u, d :: KeepsUnitBounds(c, l, r, u, d, p.RX(), p.RY()))
    ensures result != null ==>
      IsGrid(p, result) && forall y: nat, x: nat :: y < p.Width() && x < p.Width() ==>
        result[y, x] == Naive(p, numTimeSteps, y, x)
    ensures result != null ==>
      forall y: nat, x: nat :: y < p.Width() && x < p.Width() && !p.Interior(y, x) ==>
        result[y, x] == exact(x as real * p.dx, y as real * p.dy, numTimeSteps as real * p.dt)
    ensures result != null && tMax >= 0.0 ==> forall lo, hi :: DataWithin(p, numTimeSteps, lo, hi) ==>
      forall y: nat, x: nat :: y < p.Width() && x < p.Width() ==> lo <= result[y, x] <= hi
  {
    var extent := side + 2;
    var dx := 1.0 / (extent - 1) as real;
    var dt := if numTimeSteps == 0 then 0.0 else tMax / numTimeSteps as real;
    p := Problem(side, chunk, dx, dx, dt, exact);
    result := null;
    if tMax >= 0.0 && numTimeSteps > 0 {
      SignOfQuotient(tMax, numTimeSteps as real);
      AcceptsExactlyStable(p);
    }
    if if numTimeSteps == 0 then tMax <= 0.0 else CheckedValue(dx, dx, dt) <= 1.0 {
      var u := Simulate(p, numTimeSteps);
      result := u;
      if tMax >= 0.0 {
        if numTimeSteps > 0 {
          SignOfQuotient(tMax, numTimeSteps as real);
        }
        SimulationBounded(p, u, numTimeSteps);
      }
    }
  }

  ghost predicate GridWithin(p: Problem, u: array2<real>, lo: real, hi: real)
    requires IsGrid(p, u)
    reads u
  {
    forall y: nat, x: nat :: y < p.Width() && x < p.Width() ==> Within(lo, hi, u[y, x])
  }

  lemma SimulationBounded(p: Problem, u: array2<real>, k: nat)
    requires p.Valid() && p.dt >= 0.0 && Accepted(p) && IsGrid(p, u) && HoldsStep(p, u, k)
    ensures forall lo, hi :: DataWithin(p, k, lo, hi) ==> GridWithin(p, u, lo, hi)
  {
    WeightsHaveSignOfStep(p);
    forall lo, hi, y: nat, x: nat | DataWithin(p, k, lo, hi) && y < p.Width() && x < p.Width()
      ensures Within(lo, hi, u[y, x])
    {
      MaximumPrinciple(p, k, y, x, lo, hi);
    }
  }
}
