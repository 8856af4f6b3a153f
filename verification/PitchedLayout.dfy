/** The pitched memory layout: rows padded to an alignment, outer dimensions packed above the
    row pitch, addresses as the dot product of index and pitches. Sizes in bytes. */
module PitchedLayout {
  import opened Arith
  import opened VecIndex

  function Dot(pitches: seq<nat>, idx: seq<nat>): nat
    requires |pitches| == |idx|
  {
    if |idx| == 0 then 0 else pitches[0] * idx[0] + Dot(pitches[1..], idx[1..])
  }

  /** What `calculatePitches` establishes for two and more dimensions. */
  ghost predicate Pitched(extents: seq<nat>, pitches: seq<nat>, rowPitch: nat, size: nat) {
    && |extents| == |pitches| >= 2
    && pitches[|pitches| - 1] == size && pitches[|pitches| - 2] == rowPitch
    && forall k :: 0 <= k < |pitches| - 2 ==> pitches[k] == extents[k + 1] * pitches[k + 1]
  }

  /** The same in an index type of `modulus` values. */
  ghost predicate WrappedPitches(modulus: nat, extents: seq<nat>, pitches: seq<nat>, rowPitch: nat, size: nat) {
    && modulus > 0 && |extents| == |pitches| >= 2
    && pitches[|pitches| - 1] == size && pitches[|pitches| - 2] == rowPitch
    && forall k :: 0 <= k < |pitches| - 2 ==> pitches[k] == extents[k + 1] * pitches[k + 1] % modulus
  }

  method CalculatePitches(modulus: nat, extents: seq<nat>, size: nat, rowPitch: nat) returns (pitches: array<nat>)
    requires |extents| >= 2 && size < modulus && rowPitch < modulus
    ensures fresh(pitches) && pitches.Length == |extents|
    ensures WrappedPitches(modulus, extents, pitches[..], rowPitch, size)
  {
    var dim := |extents|;
    pitches := new nat[dim];
    pitches[dim - 1] := size;
    pitches[dim - 2] := rowPitch;
    for i := dim - 2 downto 0
      invariant pitches[dim - 1] == size && pitches[dim - 2] == rowPitch
      invariant forall k :: i <= k < dim - 2 ==> pitches[k] == extents[k + 1] * pitches[k + 1] % modulus
    {
      pitches[i] := extents[i + 1] * pitches[i + 1] % modulus;
    }
  }

  /** The pitch of dimension k without wrap-around. */
  function PitchOf(extents: seq<nat>, rowPitch: nat, k: nat): nat
    requires k + 2 <= |extents|
    decreases |extents| - k
  {
    if k + 2 == |extents| then rowPitch else extents[k + 1] * PitchOf(extents, rowPitch, k + 1)
  }

  /** If the outermost pitch fits the type all pitches do. */
  lemma {:induction false} PitchBelow(extents: seq<nat>, rowPitch: nat, k: nat)
    requires k + 2 <= |extents| && Positive(extents)
    ensures PitchOf(extents, rowPitch, k) <= PitchOf(extents, rowPitch, 0)
    decreases k
  {
    if k > 0 {
      PitchBelow(extents, rowPitch, k - 1);
      MulMono(1, extents[k], PitchOf(extents, rowPitch, k));
    }
  }

  lemma {:induction false} WrappedAreFull(
    modulus: nat, extents: seq<nat>, pitches: seq<nat>, rowPitch: nat, size: nat, k: nat)
    requires WrappedPitches(modulus, extents, pitches, rowPitch, size) && Positive(extents)
    requires k + 2 <= |extents| && PitchOf(extents, rowPitch, 0) < modulus
    ensures pitches[k] == PitchOf(extents, rowPitch, k)
    decreases |extents| - k
  {
    if k + 2 < |extents| {
      WrappedAreFull(modulus, extents, pitches, rowPitch, size, k + 1);
      PitchBelow(extents, rowPitch, k);
      Unwrapped(PitchOf(extents, rowPitch, k), modulus);
    }
  }

  lemma {:induction false} PitchesAreFull(extents: seq<nat>, pitches: seq<nat>, rowPitch: nat, size: nat, k: nat)
    requires Pitched(extents, pitches, rowPitch, size) && k + 2 <= |extents|
    ensures pitches[k] == PitchOf(extents, rowPitch, k)
    decreases |extents| - k
  {
    if k + 2 < |extents| {
      PitchesAreFull(extents, pitches, rowPitch, size, k + 1);
    }
  }

  /** The type's pitches are the full ones exactly if the outermost full one fits. */
  lemma PitchedExactly(modulus: nat, extents: seq<nat>, pitches: seq<nat>, rowPitch: nat, size: nat)
    requires WrappedPitches(modulus, extents, pitches, rowPitch, size) && Positive(extents) && rowPitch < modulus
    ensures Pitched(extents, pitches, rowPitch, size) <==> PitchOf(extents, rowPitch, 0) < modulus
  {
    if PitchOf(extents, rowPitch, 0) < modulus {
      forall k | 0 <= k < |pitches| - 2 ensures pitches[k] == extents[k + 1] * pitches[k + 1] {
        WrappedAreFull(modulus, extents, pitches, rowPitch, size, k);
        WrappedAreFull(modulus, extents, pitches, rowPitch, size, k + 1);
      }
    } else if Pitched(extents, pitches, rowPitch, size) {
      PitchesAreFull(extents, pitches, rowPitch, size, 0);
      assert false;
    }
  }

  /** The row's bytes rounded up to a multiple of the alignment. */
  function RowPitch(alignment: nat, size: nat, extents: seq<nat>): (r: nat)
    requires |extents| >= 1 && alignment > 0
    ensures Last(extents) * size <= r < Last(extents) * size + alignment
    ensures r % alignment == 0
  {
    var rowExtent := Last(extents) * size;
    var r := DivCeil(rowExtent, alignment) * alignment;
    DivModUnique(r, alignment, DivCeil(rowExtent, alignment), 0);
    Distribute(alignment, DivCeil(rowExtent, alignment), -1);
    r
  }

  /** The number of the row an index lies in. */
  function Row(extents: seq<nat>, idx: seq<nat>): nat
    requires |idx| == |extents| >= 2
  {
    Linear(Front(extents)[1..], Front(idx))
  }

  lemma FactorOut(p: nat, i: nat, tail: nat, w: nat)
    ensures (p * i + tail) * w == p * w * i + tail * w
  {
  }

  lemma {:induction false} LinearCons(inner: seq<nat>, idx: seq<nat>)
    requires |idx| == |inner| + 1 && |inner| > 0
    ensures Linear(inner, idx) == Product(inner) * idx[0] + Linear(inner[1..], idx[1..])
  {
    if |inner| == 1 {
      assert Product(Front(inner)) == 1;
    } else {
      var w, p := Last(inner), Product(Front(inner));
      LinearCons(Front(inner), Front(idx));
      assert Front(inner[1..]) == Front(inner)[1..] && Front(idx[1..]) == Front(idx)[1..];
      var tail := Linear(Front(inner)[1..], Front(idx)[1..]);
      FactorOut(p, idx[0], tail, w);
    }
  }

  /** Addresses count whole rows of the padded length, plus elements within the row. */
  lemma {:induction false} AddressByRow(extents: seq<nat>, pitches: seq<nat>, rowPitch: nat, size: nat, idx: seq<nat>)
    requires Pitched(extents, pitches, rowPitch, size) && |idx| == |extents|
    ensures pitches[0] == Product(Front(extents)[1..]) * rowPitch
    ensures Dot(pitches, idx) == Row(extents, idx) * rowPitch + Last(idx) * size
    decreases |extents|
  {
    var inner := Front(extents)[1..];
    if |extents| == 2 {
      assert inner == [];
      assert Dot(pitches[1..][1..], idx[1..][1..]) == 0;
    } else {
      var rest, restIdx := extents[1..], idx[1..];
      assert Pitched(rest, pitches[1..], rowPitch, size) by {
        forall k | 0 <= k < |rest| - 2 ensures pitches[1..][k] == rest[k + 1] * pitches[1..][k + 1] {
          assert pitches[k + 1] == extents[k + 2] * pitches[k + 2];
        }
      }
      AddressByRow(rest, pitches[1..], rowPitch, size, restIdx);
      assert Front(rest)[1..] == inner[1..] && Front(restIdx) == Front(idx)[1..];
      LinearCons(inner, Front(idx));
      assert inner == [inner[0]] + inner[1..];
      ProductCons(inner[0], inner[1..]);
      Associate(inner[0], Product(inner[1..]), rowPitch);
      RowSum(Product(inner), idx[0], Row(rest, restIdx), rowPitch);
    }
  }

  lemma RowSum(p: nat, i: nat, r: nat, pitch: nat)
    ensures (p * i + r) * pitch == p * pitch * i + r * pitch
  {
    Distribute(pitch, p * i, r);
    Associate(pitch, p, i);
  }

  /** Different indices in range occupy disjoint bytes of the allocation. */
  lemma ElementsDisjoint(extents: seq<nat>, pitches: seq<nat>, rowPitch: nat, size: nat, i: seq<nat>, j: seq<nat>)
    requires Pitched(extents, pitches, rowPitch, size) && Last(extents) * size <= rowPitch
    requires InBox(extents, i) && InBox(extents, j) && i != j
    ensures Dot(pitches, i) + size <= Dot(pitches, j) || Dot(pitches, j) + size <= Dot(pitches, i)
  {
    AddressByRow(extents, pitches, rowPitch, size, i);
    AddressByRow(extents, pitches, rowPitch, size, j);
    RowsDiffer(extents, i, j);
    Separate(Row(extents, i), Last(i), Row(extents, j), Last(j), Last(extents), rowPitch, size);
  }

  lemma OuterInBox(extents: seq<nat>, i: seq<nat>)
    requires |extents| >= 2 && InBox(extents, i)
    ensures InBox(Front(extents), Front(i)) && Last(i) < Last(extents)
  {
  }

  lemma RowsDiffer(extents: seq<nat>, i: seq<nat>, j: seq<nat>)
    requires |extents| >= 2 && InBox(extents, i) && InBox(extents, j) && i != j
    ensures Row(extents, i) != Row(extents, j) || Last(i) != Last(j)
    ensures Last(i) < Last(extents) && Last(j) < Last(extents)
  {
    OuterInBox(extents, i);
    OuterInBox(extents, j);
    MapToNDOfLinearize(Front(extents), Front(i));
    MapToNDOfLinearize(Front(extents), Front(j));
    assert i == Front(i) + [Last(i)] && j == Front(j) + [Last(j)];
  }

  lemma Separate(r1: nat, x1: nat, r2: nat, x2: nat, width: nat, rowPitch: nat, size: nat)
    requires x1 < width && x2 < width && width * size <= rowPitch && (r1 != r2 || x1 != x2)
    ensures r1 * rowPitch + x1 * size + size <= r2 * rowPitch + x2 * size ||
            r2 * rowPitch + x2 * size + size <= r1 * rowPitch + x1 * size
  {
    if r1 < r2 || (r1 == r2 && x1 < x2) {
      Before(r1, x1, r2, x2, width, rowPitch, size);
    } else {
      Before(r2, x2, r1, x1, width, rowPitch, size);
    }
  }

  lemma Before(r1: nat, x1: nat, r2: nat, x2: nat, width: nat, rowPitch: nat, size: nat)
    requires x1 < width && width * size <= rowPitch && (r1 < r2 || (r1 == r2 && x1 < x2))
    ensures r1 * rowPitch + x1 * size + size <= r2 * rowPitch + x2 * size
  {
    Distribute(size, x1, 1);
    MulNonNeg(x2, size);
    if r1 < r2 {
      MulMono(x1 + 1, width, size);
      MulMono(r1 + 1, r2, rowPitch);
      Distribute(rowPitch, r1, 1);
    } else {
      MulMono(x1 + 1, x2, size);
    }
  }

  /** Every element in range lies inside the allocation, and rows start aligned. */
  lemma ElementInside(extents: seq<nat>, pitches: seq<nat>, rowPitch: nat, size: nat, alignment: nat, i: seq<nat>)
    requires Pitched(extents, pitches, rowPitch, size) && Last(extents) * size <= rowPitch
    requires alignment > 0 && rowPitch % alignment == 0 && InBox(extents, i)
    ensures Dot(pitches, i) + size <= pitches[0] * extents[0]
    ensures (Dot(pitches, i) - Last(i) * size) % alignment == 0
  {
    var outer := Front(extents);
    AddressByRow(extents, pitches, rowPitch, size, i);
    OuterInBox(extents, i);
    MapToNDOfLinearize(outer, Front(i));
    assert outer == [extents[0]] + outer[1..];
    ProductCons(extents[0], outer[1..]);
    Associate(extents[0], Product(outer[1..]), rowPitch);
    Before(Row(extents, i), Last(i), Product(outer), 0, Last(extents), rowPitch, size);
    Aligned(Row(extents, i), rowPitch, alignment);
  }

  lemma Aligned(rows: nat, rowPitch: nat, alignment: nat)
    requires alignment > 0 && rowPitch % alignment == 0
    ensures rows * rowPitch % alignment == 0
  {
    var q := rowPitch / alignment;
    QuotientRemainder(rowPitch, alignment);
    Associate(rows, q, alignment);
    DivModUnique(rows * rowPitch, alignment, rows * q, 0);
  }

  /** One dimension needs no padding: the elements are packed. */
  lemma PackedElements(extent: nat, size: nat, i: nat, j: nat)
    requires i < extent && j < extent && i != j
    ensures Dot([size], [i]) + size <= Dot([size], [j]) || Dot([size], [j]) + size <= Dot([size], [i])
  {
    assert [size][1..] == [] && [i][1..] == [] && [j][1..] == [];
    Separate(0, i, 0, j, extent, extent * size, size);
  }

  /** What users of the layout rely on: elements lie inside the allocation and do not overlap,
      and from two dimensions on every row starts aligned. */
  ghost predicate Sound(extents: seq<nat>, pitches: seq<nat>, memSize: nat, size: nat, alignment: nat)
    requires |pitches| == |extents| >= 1 && alignment > 0
  {
    && (forall i: seq<nat> :: InBox(extents, i) ==> Dot(pitches, i) + size <= memSize)
    && (forall i: seq<nat> :: InBox(extents, i) && |i| >= 2 ==> (Dot(pitches, i) - Last(i) * size) % alignment == 0)
    && forall i: seq<nat>, j: seq<nat> :: InBox(extents, i) && InBox(extents, j) && i != j ==>
      Dot(pitches, i) + size <= Dot(pitches, j) || Dot(pitches, j) + size <= Dot(pitches, i)
  }

  lemma RowsStartAligned(extents: seq<nat>, pitches: seq<nat>, memSize: nat, size: nat, alignment: nat, i: seq<nat>)
    requires |pitches| == |extents| >= 2 && alignment > 0 && Sound(extents, pitches, memSize, size, alignment)
    requires InBox(extents, i)
    ensures (Dot(pitches, i) - Last(i) * size) % alignment == 0
  {
  }

  lemma PackedIsSound(extent: nat, size: nat, alignment: nat)
    requires alignment > 0
    ensures Sound([extent], [size], extent * size, size, alignment)
  {
    forall i: seq<nat> | InBox([extent], i) ensures Dot([size], i) + size <= extent * size {
      assert i == [i[0]];
      Before(0, i[0], 0, extent, extent, extent * size, size);
      assert [size][1..] == [] && i[1..] == [];
    }
    forall i: seq<nat>, j: seq<nat> | InBox([extent], i) && InBox([extent], j) && i != j
      ensures Dot([size], i) + size <= Dot([size], j) || Dot([size], j) + size <= Dot([size], i)
    {
      assert i == [i[0]] && j == [j[0]];
      PackedElements(extent, size, i[0], j[0]);
    }
  }

  lemma PitchedIsSound(extents: seq<nat>, pitches: seq<nat>, size: nat, alignment: nat)
    requires |extents| >= 2 && alignment > 0 && Pitched(extents, pitches, RowPitch(alignment, size, extents), size)
    ensures Sound(extents, pitches, pitches[0] * extents[0], size, alignment)
  {
    var rowPitch := RowPitch(alignment, size, extents);
    forall i: seq<nat> | InBox(extents, i)
      ensures Dot(pitches, i) + size <= pitches[0] * extents[0]
      ensures (Dot(pitches, i) - Last(i) * size) % alignment == 0
    {
      ElementInside(extents, pitches, rowPitch, size, alignment, i);
    }
    forall i: seq<nat>, j: seq<nat> | InBox(extents, i) && InBox(extents, j) && i != j
      ensures Dot(pitches, i) + size <= Dot(pitches, j) || Dot(pitches, j) + size <= Dot(pitches, i)
    {
      ElementsDisjoint(extents, pitches, rowPitch, size, i, j);
    }
  }

  /** The row pitch as the index type computes it. */
  function WrappedRowPitch(modulus: nat, alignment: nat, size: nat, extents: seq<nat>): (r: nat)
    requires |extents| >= 1 && 0 < alignment < modulus
    ensures r < modulus
    ensures Last(extents) * size + alignment - 1 < modulus ==> r == RowPitch(alignment, size, extents)
  {
    var rowExtent := Last(extents) * size % modulus;
    var blocks := (rowExtent + alignment - 1) % modulus / alignment;
    DivNonNeg((rowExtent + alignment - 1) % modulus, alignment);
    MulNonNeg(blocks, alignment);
    var r := blocks * alignment % modulus;
    assert Last(extents) * size + alignment - 1 < modulus ==> r == RowPitch(alignment, size, extents) by {
      if Last(extents) * size + alignment - 1 < modulus {
        Unwrapped(Last(extents) * size, modulus);
        Unwrapped(rowExtent + alignment - 1, modulus);
        Unwrapped(RowPitch(alignment, size, extents), modulus);
      }
    }
    r
  }

  /** The sizes fit: the row pitch and the outermost pitch the index type, the allocation the size
      type. An index space without elements needs nothing. */
  predicate LayoutFits(modulus: nat, sizeModulus: nat, alignment: nat, size: nat, extents: seq<nat>)
    requires |extents| >= 1 && alignment > 0
  {
    Positive(extents) ==>
      if |extents| == 1 then extents[0] * size < sizeModulus
      else
        && Last(extents) * size + alignment - 1 < modulus
        && PitchOf(extents, RowPitch(alignment, size, extents), 0) < modulus
        && PitchOf(extents, RowPitch(alignment, size, extents), 0) * extents[0] < sizeModulus
  }

  lemma NoElements(extents: seq<nat>, pitches: seq<nat>, memSize: nat, size: nat, alignment: nat)
    requires |pitches| == |extents| >= 1 && alignment > 0 && !Positive(extents)
    ensures Sound(extents, pitches, memSize, size, alignment)
  {
    var k :| 0 <= k < |extents| && extents[k] == 0;
    assert forall i: seq<nat> :: |i| == |extents| ==> i[k] >= extents[k];
  }

  // ---- A layout that does not fit is unsound ----

  /** The first z coordinates zero. */
  function Embed(z: nat, tail: seq<nat>): (idx: seq<nat>)
    ensures |idx| == z + |tail|
  {
    if z == 0 then tail else [0] + Embed(z - 1, tail)
  }

  lemma {:induction false} EmbedInBox(extents: seq<nat>, pitches: seq<nat>, z: nat, tail: seq<nat>)
    requires |extents| == |pitches| == z + |tail| && Positive(extents) && InBox(extents[z..], tail)
    ensures InBox(extents, Embed(z, tail))
    ensures Dot(pitches, Embed(z, tail)) == Dot(pitches[z..], tail)
    ensures Embed(z, tail)[z..] == tail && forall k :: 0 <= k < z ==> Embed(z, tail)[k] == 0
  {
    if z == 0 {
      assert extents[0..] == extents && pitches[0..] == pitches;
    } else {
      assert extents[1..][z - 1..] == extents[z..] && pitches[1..][z - 1..] == pitches[z..];
      EmbedInBox(extents[1..], pitches[1..], z - 1, tail);
      var idx := Embed(z, tail);
      assert idx[1..] == Embed(z - 1, tail);
      assert forall k :: 0 < k < |idx| ==> idx[k] == idx[1..][k - 1] && extents[k] == extents[1..][k - 1];
    }
  }

  /** The inner dimensions have their full pitches. */
  ghost predicate InnerPitched(extents: seq<nat>, pitches: seq<nat>, rowPitch: nat, size: nat) {
    |extents| == |pitches| >= 1 &&
    if |extents| == 1 then pitches[0] == size else Pitched(extents, pitches, rowPitch, size)
  }

  lemma IndexOfRow(extents: seq<nat>, row: nat, x: nat) returns (idx: seq<nat>)
    requires |extents| >= 2 && Positive(extents) && row < Product(Front(extents)) && x < Last(extents)
    ensures InBox(extents, idx) && Row(extents, idx) == row && Last(idx) == x
  {
    var outer := Front(extents);
    LinearizeOfMapToND(outer, row);
    idx := Digits(outer[1..], row) + [x];
    assert Front(idx) == Digits(outer[1..], row);
    assert forall k :: 0 <= k < |outer| ==> idx[k] == Front(idx)[k] && extents[k] == outer[k];
  }

  lemma ElementAt(extents: seq<nat>, pitches: seq<nat>, rowPitch: nat, size: nat, row: nat, x: nat)
    returns (idx: seq<nat>)
    requires InnerPitched(extents, pitches, rowPitch, size) && Positive(extents)
    requires row < Product(Front(extents)) && x < Last(extents)
    ensures InBox(extents, idx) && Dot(pitches, idx) == row * rowPitch + x * size
  {
    if |extents| == 1 {
      assert Front(extents) == [];
      idx := [x];
      assert Dot(pitches[1..], idx[1..]) == 0;
    } else {
      idx := IndexOfRow(extents, row, x);
      AddressByRow(extents, pitches, rowPitch, size, idx);
    }
  }

  /** The bytes from the first to the last element, without the padding of the last row. */
  function Span(extents: seq<nat>, rowPitch: nat, size: nat): int
    requires |extents| >= 1
  {
    Product(Front(extents)) * rowPitch - rowPitch + Last(extents) * size
  }

  /** The row pitch holds a row, with less padding than the alignment. */
  ghost predicate PadsRow(extents: seq<nat>, rowPitch: nat, size: nat, alignment: nat) {
    && |extents| >= 1 && Positive(extents) && size > 0 && alignment > 0
    && rowPitch % alignment == 0 && 0 < Last(extents) * size <= rowPitch < Last(extents) * size + alignment
  }

  lemma OneLess(n: nat, m: nat)
    ensures (n - 1) * m == n * m - m
  {
  }

  lemma LastElement(extents: seq<nat>, pitches: seq<nat>, rowPitch: nat, size: nat) returns (idx: seq<nat>)
    requires InnerPitched(extents, pitches, rowPitch, size) && Positive(extents)
    ensures InBox(extents, idx) && Dot(pitches, idx) + size == Span(extents, rowPitch, size)
  {
    PositiveProduct(Front(extents));
    var rows, last := Product(Front(extents)), Last(extents);
    idx := ElementAt(extents, pitches, rowPitch, size, rows - 1, last - 1);
    OneLess(rows, rowPitch);
    OneLess(last, size);
  }

  /** Padding is shorter than the alignment, so an aligned address below the span is inside an
      element. */
  lemma AlignedIsInside(
    extents: seq<nat>, pitches: seq<nat>, rowPitch: nat, size: nat, alignment: nat, a: nat) returns (idx: seq<nat>)
    requires InnerPitched(extents, pitches, rowPitch, size) && PadsRow(extents, rowPitch, size, alignment)
    requires a % alignment == 0 && a < Span(extents, rowPitch, size)
    ensures InBox(extents, idx) && Dot(pitches, idx) <= a < Dot(pitches, idx) + size
  {
    var rows, row, rest := Product(Front(extents)), a / rowPitch, a % rowPitch;
    QuotientRemainder(a, rowPitch);
    if row >= rows {
      MulMono(rows, row, rowPitch);
      assert false;
    }
    RemainderAligned(a, rowPitch, alignment);
    BelowNextMultiple(rest, rowPitch, alignment);
    QuotientRemainder(rest, size);
    DivNonNeg(a, rowPitch);
    DivNonNeg(rest, size);
    var x := rest / size;
    if x >= Last(extents) {
      MulMono(Last(extents), x, size);
      assert false;
    }
    idx := ElementAt(extents, pitches, rowPitch, size, row, x);
  }

  lemma RemainderAligned(a: nat, m: nat, alignment: nat)
    requires alignment > 0 && m > 0 && a % alignment == 0 && m % alignment == 0
    ensures a % m % alignment == 0
  {
    var q, s, w := a / m, a / alignment, m / alignment;
    QuotientRemainder(a, m);
    QuotientRemainder(a, alignment);
    QuotientRemainder(m, alignment);
    Associate(alignment, w, q);
    Distribute(alignment, s, -(w * q));
    DivModUnique(a % m, alignment, s - w * q, 0);
  }

  lemma BelowNextMultiple(a: nat, b: nat, alignment: nat)
    requires alignment > 0 && a % alignment == 0 && b % alignment == 0 && a < b
    ensures a + alignment <= b
  {
    QuotientRemainder(a, alignment);
    QuotientRemainder(b, alignment);
    if a / alignment >= b / alignment {
      MulMono(b / alignment, a / alignment, alignment);
      assert false;
    }
    MulMono(a / alignment + 1, b / alignment, alignment);
    Distribute(alignment, a / alignment, 1);
  }

  lemma UnitIndex(extents: seq<nat>, pitches: seq<nat>, j: nat) returns (idx: seq<nat>)
    requires j < |extents| == |pitches| && Positive(extents) && extents[j] >= 2
    ensures InBox(extents, idx) && Dot(pitches, idx) == pitches[j] && idx[j] == 1
  {
    var inner, innerPitches, zeros := extents[j + 1..], pitches[j + 1..], |extents| - j - 1;
    EmbedInBox(inner, innerPitches, zeros, []);
    var rest := Embed(zeros, []);
    var unit := [1] + rest;
    assert unit[1..] == rest && extents[j..][1..] == inner && pitches[j..][1..] == innerPitches;
    assert InBox(extents[j..], unit) by {
      assert forall i :: 0 < i < |unit| ==> unit[i] == rest[i - 1] && extents[j..][i] == inner[i - 1];
    }
    EmbedInBox(extents, pitches, j, unit);
    idx := Embed(j, unit);
    assert idx[j..][0] == 1;
  }

  /** If dimension j has a second index, it must not start inside the elements of the inner ones. */
  lemma SecondIndexOverlaps(
    extents: seq<nat>, pitches: seq<nat>, rowPitch: nat, size: nat, alignment: nat, j: nat, k: nat)
    returns (one: seq<nat>, other: seq<nat>)
    requires |extents| == |pitches| && j <= k < |extents| - 1 && Positive(extents) && extents[j] >= 2
    requires InnerPitched(extents[k + 1..], pitches[k + 1..], rowPitch, size)
    requires PadsRow(extents[k + 1..], rowPitch, size, alignment)
    requires pitches[j] % alignment == 0 && pitches[j] < Span(extents[k + 1..], rowPitch, size)
    ensures InBox(extents, one) && InBox(extents, other) && one != other
    ensures Dot(pitches, other) <= Dot(pitches, one) < Dot(pitches, other) + size
  {
    one := UnitIndex(extents, pitches, j);
    var tail := AlignedIsInside(extents[k + 1..], pitches[k + 1..], rowPitch, size, alignment, pitches[j]);
    EmbedInBox(extents, pitches, k + 1, tail);
    other := Embed(k + 1, tail);
    assert other[j] == 0;
  }

  lemma EndCoversSpan(
    extents: seq<nat>, pitches: seq<nat>, rowPitch: nat, size: nat, alignment: nat, k: nat)
    requires |extents| == |pitches| && k < |extents| - 1 && Positive(extents) && alignment > 0
    requires InnerPitched(extents[k + 1..], pitches[k + 1..], rowPitch, size)
    requires Sound(extents, pitches, pitches[k], size, alignment)
    ensures Span(extents[k + 1..], rowPitch, size) <= pitches[k]
  {
    var last := LastElement(extents[k + 1..], pitches[k + 1..], rowPitch, size);
    EmbedInBox(extents, pitches, k + 1, last);
    assert InBox(extents, Embed(k + 1, last));
  }

  /** A dimension of one index has the pitch of the next one. */
  predicate KeepsPitch(extents: seq<nat>, pitches: seq<nat>, i: nat)
    requires i + 1 < |extents| == |pitches|
  {
    extents[i + 1] == 1 ==> pitches[i] == pitches[i + 1]
  }

  /** In a sound layout the pitch of dimension k covers the elements of the inner dimensions:
      because of the next index of an outer dimension, or else of the end of the allocation. */
  lemma {:induction false} PitchCoversSpan(
    sizeModulus: nat, extents: seq<nat>, pitches: seq<nat>, rowPitch: nat, size: nat, alignment: nat, j: nat, k: nat)
    requires |extents| == |pitches| && j <= k < |extents| - 1 && Positive(extents)
    requires InnerPitched(extents[k + 1..], pitches[k + 1..], rowPitch, size)
    requires PadsRow(extents[k + 1..], rowPitch, size, alignment)
    requires pitches[j] == pitches[k] < sizeModulus && pitches[k] % alignment == 0
    requires forall i :: 0 <= i < j ==> KeepsPitch(extents, pitches, i)
    requires Sound(extents, pitches, pitches[0] * extents[0] % sizeModulus, size, alignment)
    ensures Span(extents[k + 1..], rowPitch, size) <= pitches[k]
    decreases j
  {
    if extents[j] >= 2 {
      if pitches[k] < Span(extents[k + 1..], rowPitch, size) {
        var one, other := SecondIndexOverlaps(extents, pitches, rowPitch, size, alignment, j, k);
        assert false;
      }
    } else if j == 0 {
      Unwrapped(pitches[0], sizeModulus);
      EndCoversSpan(extents, pitches, rowPitch, size, alignment, k);
    } else {
      assert KeepsPitch(extents, pitches, j - 1);
      PitchCoversSpan(sizeModulus, extents, pitches, rowPitch, size, alignment, j - 1, k);
    }
  }

  lemma WrappedRowAligned(modulus: nat, alignment: nat, size: nat, extents: seq<nat>)
    requires |extents| >= 1 && 0 < alignment < modulus && modulus % alignment == 0
    ensures WrappedRowPitch(modulus, alignment, size, extents) % alignment == 0
  {
    var blocks := (Last(extents) * size % modulus + alignment - 1) % modulus / alignment;
    DivNonNeg((Last(extents) * size % modulus + alignment - 1) % modulus, alignment);
    MulNonNeg(blocks, alignment);
    DivModUnique(blocks * alignment, alignment, blocks, 0);
    RemainderAligned(blocks * alignment, modulus, alignment);
  }

  /** The type's row pitch is the full one exactly if the full one fits. */
  lemma RowPitchExactly(modulus: nat, alignment: nat, size: nat, extents: seq<nat>)
    requires |extents| >= 1 && 0 < alignment < modulus && modulus % alignment == 0
    ensures WrappedRowPitch(modulus, alignment, size, extents) == RowPitch(alignment, size, extents) <==>
            RowPitch(alignment, size, extents) < modulus
  {
    if RowPitch(alignment, size, extents) < modulus {
      BelowNextMultiple(RowPitch(alignment, size, extents), modulus, alignment);
    }
  }

  lemma WrappedSumIsLost(extent: nat, alignment: nat, modulus: nat)
    requires 0 < alignment < modulus && extent < modulus <= extent + alignment - 1
    ensures (extent + alignment - 1) % modulus / alignment == 0
  {
    var over := extent + alignment - 1 - modulus;
    DivModUnique(extent + alignment - 1, modulus, 1, over);
    DivModUnique(over, alignment, 0, over);
  }

  /** A wrapped row pitch does not hold the row. */
  lemma RowHasRoom(modulus: nat, alignment: nat, size: nat, extents: seq<nat>)
    requires |extents| >= 1 && 0 < alignment < modulus
    requires 0 < Last(extents) * size <= WrappedRowPitch(modulus, alignment, size, extents)
    ensures Last(extents) * size + alignment - 1 < modulus
  {
    var extent := Last(extents) * size;
    Unwrapped(extent, modulus);
    if extent + alignment - 1 >= modulus {
      WrappedSumIsLost(extent, alignment, modulus);
      Unwrapped(0, modulus);
      assert false;
    }
  }

  /** A wrapped sum of rows is too short by more than the padding. */
  lemma RowsHaveRoom(modulus: nat, rows: nat, rowPitch: nat, bytes: nat, alignment: nat)
    requires modulus > alignment && bytes <= rowPitch < bytes + alignment
    requires rows * rowPitch - rowPitch + bytes <= rows * rowPitch % modulus
    ensures rows * rowPitch < modulus
  {
    var full := rows * rowPitch;
    MulNonNeg(rows, rowPitch);
    if full >= modulus {
      QuotientRemainder(full, modulus);
      DivNonNeg(full, modulus);
      if full / modulus == 0 {
        assert false;
      }
      MulMono(1, full / modulus, modulus);
      assert false;
    }
  }

  /** The premises of the converse: alignments are powers of two, and the size type is at least as
      wide as the index type. */
  ghost predicate Wraps(modulus: nat, sizeModulus: nat, alignment: nat, size: nat, extents: seq<nat>, pitches: seq<nat>)
  {
    && 0 < alignment < modulus <= sizeModulus && modulus % alignment == 0 && 0 < size && |extents| >= 2
    && Positive(extents)
    && WrappedPitches(modulus, extents, pitches, WrappedRowPitch(modulus, alignment, size, extents), size)
  }

  lemma RowIsPadded(alignment: nat, size: nat, extents: seq<nat>, k: nat)
    requires k < |extents| && alignment > 0 && size > 0 && Positive(extents)
    ensures PadsRow(extents[k..], RowPitch(alignment, size, extents), size, alignment)
  {
    assert Last(extents[k..]) == Last(extents);
    MulStrict(0, Last(extents), size);
  }

  /** The full pitch of a dimension is that of all rows inside it. */
  lemma FullPitch(extents: seq<nat>, pitches: seq<nat>, rowPitch: nat, size: nat)
    requires Pitched(extents, pitches, rowPitch, size)
    ensures extents[0] * pitches[0] == Product(Front(extents)) * rowPitch
  {
    var outer := Front(extents);
    AddressByRow(extents, pitches, rowPitch, size, extents);
    assert outer == [extents[0]] + outer[1..];
    ProductCons(extents[0], outer[1..]);
    Associate(extents[0], Product(outer[1..]), rowPitch);
  }

  lemma {:induction false} AllPitchesAligned(
    modulus: nat, sizeModulus: nat, alignment: nat, size: nat, extents: seq<nat>, pitches: seq<nat>, k: nat)
    requires Wraps(modulus, sizeModulus, alignment, size, extents, pitches) && k + 2 <= |extents|
    ensures pitches[k] % alignment == 0 && pitches[k] < modulus
    decreases |extents| - k
  {
    if k + 2 == |extents| {
      WrappedRowAligned(modulus, alignment, size, extents);
    } else {
      AllPitchesAligned(modulus, sizeModulus, alignment, size, extents, pitches, k + 1);
      Aligned(extents[k + 1], pitches[k + 1], alignment);
      MulNonNeg(extents[k + 1], pitches[k + 1]);
      RemainderAligned(extents[k + 1] * pitches[k + 1], modulus, alignment);
    }
  }

  lemma UnitExtentsKeepPitch(
    modulus: nat, sizeModulus: nat, alignment: nat, size: nat, extents: seq<nat>, pitches: seq<nat>, k: nat)
    requires Wraps(modulus, sizeModulus, alignment, size, extents, pitches) && k + 2 <= |extents|
    ensures forall i :: 0 <= i < k ==> KeepsPitch(extents, pitches, i)
  {
    forall i | 0 <= i < k ensures KeepsPitch(extents, pitches, i) {
      AllPitchesAligned(modulus, sizeModulus, alignment, size, extents, pitches, i + 1);
      Unwrapped(pitches[i + 1], modulus);
    }
  }

  lemma SoundCoversSpan(
    modulus: nat, sizeModulus: nat, alignment: nat, size: nat, extents: seq<nat>, pitches: seq<nat>, k: nat)
    requires Wraps(modulus, sizeModulus, alignment, size, extents, pitches) && k + 2 <= |extents|
    requires Sound(extents, pitches, pitches[0] * extents[0] % sizeModulus, size, alignment)
    requires InnerPitched(extents[k + 1..], pitches[k + 1..], RowPitch(alignment, size, extents), size)
    ensures Span(extents[k + 1..], RowPitch(alignment, size, extents), size) <= pitches[k] < modulus
  {
    RowIsPadded(alignment, size, extents, k + 1);
    AllPitchesAligned(modulus, sizeModulus, alignment, size, extents, pitches, k);
    UnitExtentsKeepPitch(modulus, sizeModulus, alignment, size, extents, pitches, k);
    PitchCoversSpan(sizeModulus, extents, pitches, RowPitch(alignment, size, extents), size, alignment, k, k);
  }

  lemma RowPitchIsFull(modulus: nat, sizeModulus: nat, alignment: nat, size: nat, extents: seq<nat>, pitches: seq<nat>)
    requires Wraps(modulus, sizeModulus, alignment, size, extents, pitches)
    requires Span(extents[|extents| - 1..], RowPitch(alignment, size, extents), size) <= pitches[|extents| - 2]
    ensures Last(extents) * size + alignment - 1 < modulus
    ensures pitches[|extents| - 2] == RowPitch(alignment, size, extents)
  {
    var inner := extents[|extents| - 1..];
    assert Front(inner) == [] && Last(inner) == Last(extents);
    RowIsPadded(alignment, size, extents, |extents| - 1);
    RowHasRoom(modulus, alignment, size, extents);
  }

  lemma OuterPitchIsFull(
    modulus: nat, sizeModulus: nat, alignment: nat, size: nat, extents: seq<nat>, pitches: seq<nat>, k: nat)
    requires Wraps(modulus, sizeModulus, alignment, size, extents, pitches) && k + 2 < |extents|
    requires Sound(extents, pitches, pitches[0] * extents[0] % sizeModulus, size, alignment)
    requires Pitched(extents[k + 1..], pitches[k + 1..], RowPitch(alignment, size, extents), size)
    ensures pitches[k] == extents[k + 1] * pitches[k + 1]
  {
    var rowPitch, inner := RowPitch(alignment, size, extents), extents[k + 1..];
    SoundCoversSpan(modulus, sizeModulus, alignment, size, extents, pitches, k);
    FullPitch(inner, pitches[k + 1..], rowPitch, size);
    RowIsPadded(alignment, size, extents, k + 1);
    RowsHaveRoom(modulus, Product(Front(inner)), rowPitch, Last(inner) * size, alignment);
    Unwrapped(Product(Front(inner)) * rowPitch, modulus);
  }

  lemma PitchedCons(extents: seq<nat>, pitches: seq<nat>, rowPitch: nat, size: nat, k: nat)
    requires k + 2 < |extents| == |pitches| && pitches[k] == extents[k + 1] * pitches[k + 1]
    requires Pitched(extents[k + 1..], pitches[k + 1..], rowPitch, size)
    ensures Pitched(extents[k..], pitches[k..], rowPitch, size)
  {
    forall i | 0 <= i < |extents| - k - 2 ensures pitches[k..][i] == extents[k..][i + 1] * pitches[k..][i + 1] {
      if i > 0 {
        assert pitches[k + 1..][i - 1] == extents[k + 1..][i] * pitches[k + 1..][i];
      }
    }
  }

  /** From the inside out, a sound layout has full pitches. */
  lemma {:induction false} PitchesAreFullFrom(
    modulus: nat, sizeModulus: nat, alignment: nat, size: nat, extents: seq<nat>, pitches: seq<nat>, k: nat)
    requires Wraps(modulus, sizeModulus, alignment, size, extents, pitches) && k < |extents|
    requires Sound(extents, pitches, pitches[0] * extents[0] % sizeModulus, size, alignment)
    ensures InnerPitched(extents[k..], pitches[k..], RowPitch(alignment, size, extents), size)
    ensures Last(extents) * size + alignment - 1 < modulus || k + 1 == |extents|
    decreases |extents| - k
  {
    if k + 2 == |extents| {
      SoundCoversSpan(modulus, sizeModulus, alignment, size, extents, pitches, k);
      RowPitchIsFull(modulus, sizeModulus, alignment, size, extents, pitches);
    } else if k + 2 < |extents| {
      PitchesAreFullFrom(modulus, sizeModulus, alignment, size, extents, pitches, k + 1);
      OuterPitchIsFull(modulus, sizeModulus, alignment, size, extents, pitches, k);
      PitchedCons(extents, pitches, RowPitch(alignment, size, extents), size, k);
    }
  }

  lemma SoundFits(
    modulus: nat, sizeModulus: nat, alignment: nat, size: nat, extents: seq<nat>, pitches: seq<nat>)
    requires Wraps(modulus, sizeModulus, alignment, size, extents, pitches)
    requires Sound(extents, pitches, pitches[0] * extents[0] % sizeModulus, size, alignment)
    ensures LayoutFits(modulus, sizeModulus, alignment, size, extents)
  {
    var rowPitch := RowPitch(alignment, size, extents);
    PitchesAreFullFrom(modulus, sizeModulus, alignment, size, extents, pitches, 0);
    assert extents[0..] == extents && pitches[0..] == pitches;
    PitchesAreFull(extents, pitches, rowPitch, size, 0);
    AllPitchesAligned(modulus, sizeModulus, alignment, size, extents, pitches, 0);
    FullPitch(extents, pitches, rowPitch, size);
    var last := LastElement(extents, pitches, rowPitch, size);
    RowIsPadded(alignment, size, extents, 0);
    RowsHaveRoom(sizeModulus, Product(Front(extents)), rowPitch, Last(extents) * size, alignment);
  }

  lemma FittingIsPitched(
    modulus: nat, sizeModulus: nat, alignment: nat, size: nat, extents: seq<nat>, pitches: seq<nat>)
    requires |extents| >= 2 && 0 < alignment < modulus && sizeModulus > 0 && Positive(extents)
    requires WrappedPitches(modulus, extents, pitches, WrappedRowPitch(modulus, alignment, size, extents), size)
    requires LayoutFits(modulus, sizeModulus, alignment, size, extents)
    ensures Pitched(extents, pitches, RowPitch(alignment, size, extents), size)
    ensures pitches[0] * extents[0] % sizeModulus == pitches[0] * extents[0]
  {
    var rowPitch := RowPitch(alignment, size, extents);
    PitchedExactly(modulus, extents, pitches, rowPitch, size);
    PitchesAreFull(extents, pitches, rowPitch, size, 0);
    Unwrapped(pitches[0] * extents[0], sizeModulus);
  }

  /** In one dimension the layout is sound exactly if the allocation fits its type. */
  lemma PackedSoundExactly(sizeModulus: nat, extent: nat, size: nat, alignment: nat)
    requires extent > 0 && sizeModulus > 0 && alignment > 0
    ensures Sound([extent], [size], extent * size % sizeModulus, size, alignment) <==> extent * size < sizeModulus
  {
    if extent * size < sizeModulus {
      Unwrapped(extent * size, sizeModulus);
      PackedIsSound(extent, size, alignment);
    } else {
      var last := [extent - 1];
      assert InBox([extent], last) && [size][1..] == [] && last[1..] == [];
      Distribute(size, extent, -1);
    }
  }

  // ---- The sizes themselves ----

  /** No smaller multiple of the alignment holds the row. */
  lemma RowPitchIsLeast(alignment: nat, size: nat, extents: seq<nat>)
    requires |extents| >= 1 && alignment > 0
    ensures forall k: nat :: k % alignment == 0 && Last(extents) * size <= k ==> RowPitch(alignment, size, extents) <= k
  {
    var m := RowPitch(alignment, size, extents);
    forall k: nat | k % alignment == 0 && Last(extents) * size <= k ensures m <= k {
      if k < m {
        BelowNextMultiple(k, m, alignment);
      }
    }
  }

  /** A pitch is the row pitch times the number of rows inside one index of its dimension. */
  lemma {:induction false} PitchIsRows(
    modulus: nat, extents: seq<nat>, pitches: seq<nat>, rowPitch: nat, size: nat, k: nat)
    requires WrappedPitches(modulus, extents, pitches, rowPitch, size) && rowPitch < modulus && k + 2 <= |extents|
    ensures pitches[k] == Product(extents[k + 1..|extents| - 1]) * rowPitch % modulus
    decreases |extents| - k
  {
    var inner := extents[k + 1..|extents| - 1];
    if k + 2 == |extents| {
      assert inner == [];
      Unwrapped(rowPitch, modulus);
    } else {
      PitchIsRows(modulus, extents, pitches, rowPitch, size, k + 1);
      assert inner == [extents[k + 1]] + extents[k + 2..|extents| - 1];
      var rest := Product(extents[k + 2..|extents| - 1]);
      ProductCons(extents[k + 1], extents[k + 2..|extents| - 1]);
      Associate(extents[k + 1], rest, rowPitch);
      ReducedFactor(rest * rowPitch, extents[k + 1], modulus);
    }
  }

  lemma FullPitchIsRows(extents: seq<nat>, pitches: seq<nat>, rowPitch: nat, size: nat, k: nat)
    requires Pitched(extents, pitches, rowPitch, size) && k + 2 <= |extents|
    ensures pitches[k] == Product(extents[k + 1..|extents| - 1]) * rowPitch
    decreases |extents| - k
  {
    var inner := extents[k + 1..|extents| - 1];
    if k + 2 == |extents| {
      assert inner == [];
    } else {
      FullPitchIsRows(extents, pitches, rowPitch, size, k + 1);
      assert inner == [extents[k + 1]] + extents[k + 2..|extents| - 1];
      ProductCons(extents[k + 1], extents[k + 2..|extents| - 1]);
      Associate(extents[k + 1], Product(extents[k + 2..|extents| - 1]), rowPitch);
    }
  }

  /** Every dimension counts the rows inside it. */
  lemma WrappedCountsRows(modulus: nat, extents: seq<nat>, pitches: seq<nat>, rowPitch: nat, size: nat)
    requires WrappedPitches(modulus, extents, pitches, rowPitch, size) && rowPitch < modulus
    ensures forall k :: 0 <= k < |extents| - 1 ==>
      pitches[k] == Product(extents[k + 1..|extents| - 1]) * rowPitch % modulus
  {
    forall k | 0 <= k < |extents| - 1
      ensures pitches[k] == Product(extents[k + 1..|extents| - 1]) * rowPitch % modulus
    {
      PitchIsRows(modulus, extents, pitches, rowPitch, size, k);
    }
  }

  lemma FullCountsRows(alignment: nat, extents: seq<nat>, pitches: seq<nat>, rowPitch: nat, size: nat)
    requires Pitched(extents, pitches, rowPitch, size) && alignment > 0 && rowPitch % alignment == 0
    ensures forall k :: 0 <= k < |extents| - 1 ==>
      pitches[k] == Product(extents[k + 1..|extents| - 1]) * rowPitch && pitches[k] % alignment == 0
    ensures pitches[0] * extents[0] == Product(Front(extents)) * rowPitch
  {
    FullPitch(extents, pitches, rowPitch, size);
    forall k | 0 <= k < |extents| - 1
      ensures pitches[k] == Product(extents[k + 1..|extents| - 1]) * rowPitch && pitches[k] % alignment == 0
    {
      FullPitchIsRows(extents, pitches, rowPitch, size, k);
      Aligned(Product(extents[k + 1..|extents| - 1]), rowPitch, alignment);
    }
  }

  lemma ElementInSpan(extents: seq<nat>, pitches: seq<nat>, rowPitch: nat, size: nat, i: seq<nat>)
    requires Pitched(extents, pitches, rowPitch, size) && Last(extents) * size <= rowPitch && InBox(extents, i)
    ensures Dot(pitches, i) + size <= Span(extents, rowPitch, size)
  {
    var outer := Front(extents);
    AddressByRow(extents, pitches, rowPitch, size, i);
    OuterInBox(extents, i);
    MapToNDOfLinearize(outer, Front(i));
    MulMono(Row(extents, i), Product(outer) - 1, rowPitch);
    MulMono(Last(i) + 1, Last(extents), size);
    OneLess(Product(outer), rowPitch);
    Distribute(size, Last(i), 1);
  }

  /** The full pitches need every byte up to the end of the last element, and no more. */
  lemma SoundFromSpanOn(extents: seq<nat>, pitches: seq<nat>, size: nat, alignment: nat, memSize: nat)
    requires |extents| >= 2 && Positive(extents) && alignment > 0
    requires Pitched(extents, pitches, RowPitch(alignment, size, extents), size)
    ensures Sound(extents, pitches, memSize, size, alignment) <==>
            Span(extents, RowPitch(alignment, size, extents), size) <= memSize
  {
    var rowPitch := RowPitch(alignment, size, extents);
    var last := LastElement(extents, pitches, rowPitch, size);
    PitchedIsSound(extents, pitches, size, alignment);
    forall i: seq<nat> | InBox(extents, i) ensures Dot(pitches, i) + size <= Span(extents, rowPitch, size) {
      ElementInSpan(extents, pitches, rowPitch, size, i);
    }
  }

  lemma FewerRowsAreShort(rows: nat, all: nat, rowPitch: nat, bytes: nat)
    requires rows < all && bytes > 0
    ensures rows * rowPitch < all * rowPitch - rowPitch + bytes
  {
    MulMono(rows, all - 1, rowPitch);
    OneLess(all, rowPitch);
  }

  /** No allocation of fewer rows is sound. */
  lemma AllocationIsLeast(extents: seq<nat>, pitches: seq<nat>, size: nat, alignment: nat, rows: nat)
    requires |extents| >= 2 && Positive(extents) && alignment > 0 && size > 0
    requires Pitched(extents, pitches, RowPitch(alignment, size, extents), size)
    ensures Sound(extents, pitches, rows * RowPitch(alignment, size, extents), size, alignment) <==>
            rows >= Product(Front(extents))
  {
    var rowPitch, all := RowPitch(alignment, size, extents), Product(Front(extents));
    MulStrict(0, Last(extents), size);
    MulNonNeg(rows, rowPitch);
    SoundFromSpanOn(extents, pitches, size, alignment, rows * rowPitch);
    if rows < all {
      FewerRowsAreShort(rows, all, rowPitch, Last(extents) * size);
    } else {
      MulMono(all, rows, rowPitch);
    }
  }

  lemma WrappedDescription(
    modulus: nat, sizeModulus: nat, alignment: nat, size: nat, extents: seq<nat>, pitches: seq<nat>)
    requires |extents| >= 2 && 0 < alignment < modulus && sizeModulus > 0
    requires WrappedPitches(modulus, extents, pitches, WrappedRowPitch(modulus, alignment, size, extents), size)
    ensures var n := |extents|;
            && (forall k :: 0 <= k < n - 1 ==>
              pitches[k] == Product(extents[k + 1..n - 1]) * pitches[n - 2] % modulus)
            && (Last(extents) * size + alignment - 1 < modulus ==>
              Last(extents) * size <= pitches[n - 2] < Last(extents) * size + alignment &&
              pitches[n - 2] % alignment == 0)
  {
    WrappedCountsRows(modulus, extents, pitches, WrappedRowPitch(modulus, alignment, size, extents), size);
  }

  lemma FullDescription(
    modulus: nat, sizeModulus: nat, alignment: nat, size: nat, extents: seq<nat>, pitches: seq<nat>)
    requires |extents| >= 2 && 0 < alignment < modulus && sizeModulus > 0 && Positive(extents)
    requires WrappedPitches(modulus, extents, pitches, WrappedRowPitch(modulus, alignment, size, extents), size)
    requires LayoutFits(modulus, sizeModulus, alignment, size, extents)
    ensures var n := |extents|;
            && pitches[0] * extents[0] % sizeModulus == Product(Front(extents)) * pitches[n - 2]
            && (forall k :: 0 <= k < n - 1 ==>
              pitches[k] == Product(extents[k + 1..n - 1]) * pitches[n - 2] && pitches[k] % alignment == 0)
    ensures Sound(extents, pitches, pitches[0] * extents[0] % sizeModulus, size, alignment)
  {
    FittingIsPitched(modulus, sizeModulus, alignment, size, extents, pitches);
    PitchedIsSound(extents, pitches, size, alignment);
    FullCountsRows(alignment, extents, pitches, RowPitch(alignment, size, extents), size);
  }

  lemma PackedDescription(sizeModulus: nat, alignment: nat, size: nat, extents: seq<nat>)
    requires |extents| == 1 && alignment > 0 && sizeModulus > 0
    ensures Positive(extents) && extents[0] * size < sizeModulus ==>
      extents[0] * size % sizeModulus == extents[0] * size
    ensures Positive(extents) ==>
      (Sound(extents, [size], extents[0] * size % sizeModulus, size, alignment) <==> extents[0] * size < sizeModulus)
  {
    assert extents == [extents[0]];
    if extents[0] > 0 {
      PackedSoundExactly(sizeModulus, extents[0], size, alignment);
      if extents[0] * size < sizeModulus {
        Unwrapped(extents[0] * size, sizeModulus);
      }
    }
  }

  lemma SoundExactly(
    modulus: nat, sizeModulus: nat, alignment: nat, size: nat, extents: seq<nat>, pitches: seq<nat>, memSize: nat)
    requires |extents| >= 2 && 0 < alignment < modulus && sizeModulus > 0
    requires WrappedPitches(modulus, extents, pitches, WrappedRowPitch(modulus, alignment, size, extents), size)
    requires memSize == pitches[0] * extents[0] % sizeModulus
    ensures LayoutFits(modulus, sizeModulus, alignment, size, extents) ==>
      Sound(extents, pitches, memSize, size, alignment)
    ensures modulus <= sizeModulus && modulus % alignment == 0 && size > 0 ==>
      (Sound(extents, pitches, memSize, size, alignment) ==>
       LayoutFits(modulus, sizeModulus, alignment, size, extents))
  {
    if !Positive(extents) {
      NoElements(extents, pitches, memSize, size, alignment);
    } else if LayoutFits(modulus, sizeModulus, alignment, size, extents) {
      FullDescription(modulus, sizeModulus, alignment, size, extents, pitches);
    } else if Wraps(modulus, sizeModulus, alignment, size, extents, pitches)
      && Sound(extents, pitches, memSize, size, alignment) {
      SoundFits(modulus, sizeModulus, alignment, size, extents, pitches);
    }
  }

  /** Size of the allocation and pitches, in an index type and a size type of their own widths: in one
      dimension the elements; otherwise every dimension counts the rows inside it, and a row takes the
      least multiple of the alignment that holds it. Sound if the sizes fit, and for alignments that
      are powers of two only then. */
  method EmulatedAlignedMemDescription(modulus: nat, sizeModulus: nat, alignment: nat, size: nat, extents: seq<nat>)
    returns (memSize: nat, pitches: array<nat>)
    requires |extents| >= 1 && 0 < alignment < modulus && size < modulus && sizeModulus > 0
    ensures fresh(pitches) && pitches.Length == |extents| && pitches[|extents| - 1] == size
    ensures memSize == pitches[0] * extents[0] % sizeModulus
    ensures var n, p := |extents|, pitches[..];
            n >= 2 ==>
            && (forall k :: 0 <= k < n - 1 ==> p[k] == Product(extents[k + 1..n - 1]) * p[n - 2] % modulus)
            && (Last(extents) * size + alignment - 1 < modulus ==>
              Last(extents) * size <= p[n - 2] < Last(extents) * size + alignment && p[n - 2] % alignment == 0)
    ensures var n, p := |extents|, pitches[..];
            LayoutFits(modulus, sizeModulus, alignment, size, extents) && Positive(extents) ==>
            && memSize == (if n == 1 then extents[0] * size else Product(Front(extents)) * p[n - 2])
            && (forall k :: 0 <= k < n - 1 ==>
              p[k] == Product(extents[k + 1..n - 1]) * p[n - 2] && p[k] % alignment == 0)
    ensures LayoutFits(modulus, sizeModulus, alignment, size, extents) ==>
      Sound(extents, pitches[..], memSize, size, alignment)
    ensures modulus <= sizeModulus && modulus % alignment == 0 && size > 0 ==>
      (Sound(extents, pitches[..], memSize, size, alignment) ==>
       LayoutFits(modulus, sizeModulus, alignment, size, extents))
  {
    if |extents| == 1 {
      memSize := extents[0] * size % sizeModulus;
      pitches := new nat[1];
      pitches[0] := size;
      assert pitches[..] == [size];
      PackedDescription(sizeModulus, alignment, size, extents);
      if !Positive(extents) {
        NoElements(extents, pitches[..], memSize, size, alignment);
      }
    } else {
      var rowPitch := WrappedRowPitch(modulus, alignment, size, extents);
      pitches := CalculatePitches(modulus, extents, size, rowPitch);
      memSize := pitches[0] * extents[0] % sizeModulus;
      WrappedDescription(modulus, sizeModulus, alignment, size, extents, pitches[..]);
      SoundExactly(modulus, sizeModulus, alignment, size, extents, pitches[..], memSize);
      if LayoutFits(modulus, sizeModulus, alignment, size, extents) && Positive(extents) {
        FullDescription(modulus, sizeModulus, alignment, size, extents, pitches[..]);
      }
    }
  }
}
