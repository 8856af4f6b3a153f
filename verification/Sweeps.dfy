/** The two halves of the work-efficient scan, level by level, as updates of a sequence of
    power-of-two length, and the tree invariants that tie them to the exclusive prefix sum. */
module Sweeps {
  import opened Arith
  import opened Sums

  /** Work item j of a level with the given offset owns the 2 * offset slots from
      2 * offset * j on; it touches the last slot of each half. */
  function LeftSlot(offset: nat, j: nat): nat
    requires offset > 0
  {
    MulNonNeg(offset, 2 * j);
    offset * (2 * j + 1) - 1
  }

  function RightSlot(offset: nat, j: nat): nat
    requires offset > 0
  {
    MulNonNeg(offset, 2 * j);
    offset * (2 * j + 2) - 1
  }

  /** Slot p is the last one of a block of m slots. */
  predicate Ends(p: nat, m: nat)
    requires m > 0
  {
    (p + 1) % m == 0
  }

  /** The slot expressions of the kernels, whose loops count frame elements in steps of two. */
  lemma SlotExpressions(offset: nat, frameElem: nat, j: nat)
    requires offset > 0 && frameElem == 2 * j
    ensures offset * (frameElem + 1) - 1 == LeftSlot(offset, j)
    ensures offset * (frameElem + 2) - 1 == RightSlot(offset, j)
  {
  }

  /** An up-sweep item: right adds left. */
  function AddAt(s: seq<int>, left: nat, right: nat): (r: seq<int>)
    requires left < right < |s|
    ensures |r| == |s|
  {
    s[right := s[right] + s[left]]
  }

  /** A down-sweep item: left takes right's value and right adds the old left. */
  function ExchangeAt(s: seq<int>, left: nat, right: nat): (r: seq<int>)
    requires left < right < |s|
    ensures |r| == |s|
  {
    s[left := s[right]][right := s[right] + s[left]]
  }

  /** The sum of the right slot's sibling is added to every right slot. */
  function UpLevel(s: seq<int>, offset: nat): seq<int>
    requires offset > 0
  {
    seq(|s|, p requires 0 <= p < |s| =>
      if p >= offset && (p + 1) % (2 * offset) == 0 then s[p] + s[p - offset] else s[p])
  }

  /** Every left slot takes its right sibling's value, every right slot adds the old left one. */
  function DownLevel(s: seq<int>, offset: nat): seq<int>
    requires offset > 0
  {
    seq(|s|, p requires 0 <= p < |s| =>
      if p >= offset && (p + 1) % (2 * offset) == 0 then s[p] + s[p - offset]
      else if p + offset < |s| && (p + 1) % (2 * offset) == offset then s[p + offset]
      else s[p])
  }

  /** The largest power of two that divides q and is at most top. */
  function Width(q: nat, top: nat): (w: nat)
    requires top > 0
    ensures w > 0 && (q > 0 && IsPow2(top) ==> w <= q)
  {
    if top == 1 then 1
    else if q % top == 0 then (if q > 0 then MultipleAtLeast(q, top); top else top)
    else Width(q, top / 2)
  }

  /** Up-sweep invariant: every slot holds the sum of the segment that ends in it and is as
      wide as the largest power of two, up to the offset, dividing its (1-based) position. */
  ghost predicate UpInvariant(s: seq<int>, a: seq<int>, offset: nat)
    requires offset > 0 && IsPow2(offset)
  {
    && |s| == |a|
    && forall p :: 0 <= p < |s| ==> s[p] == Seg(a, p + 1 - Width(p + 1, offset), p + 1)
  }

  /** Down-sweep invariant: the last slot of every block of `top` slots holds the sum of
      everything before the block; all other slots still hold their up-sweep sums. */
  ghost predicate DownInvariant(s: seq<int>, a: seq<int>, top: nat)
    requires top > 0 && IsPow2(top)
  {
    && |s| == |a|
    && forall p :: 0 <= p < |s| ==>
         s[p] == if Ends(p, top) then Seg(a, 0, p + 1 - top)
                 else Seg(a, p + 1 - Width(p + 1, top), p + 1)
  }

  lemma Halved(q: nat, m: nat)
    requires m > 0
    ensures q % (2 * m) < m ==> q % m == q % (2 * m)
    ensures q % (2 * m) >= m ==> q % m == q % (2 * m) - m
  {
    var d, r := q / (2 * m), q % (2 * m);
    assert q == 2 * m * d + r;
    assert 2 * m * d == m * (2 * d);
    if r < m {
      DivModUnique(q, m, 2 * d, r);
    } else {
      Distribute(m, 2 * d, 1);
      DivModUnique(q, m, 2 * d + 1, r - m);
    }
  }

  lemma Shifted(q: nat, m: nat)
    requires m > 0
    ensures q % (2 * m) == 0 && q > 0 ==> q >= 2 * m && (q - m) % (2 * m) == m
    ensures q % (2 * m) == m ==> (q + m) % (2 * m) == 0
  {
    var d, r, t := q / (2 * m), q % (2 * m), 2 * m;
    assert q == t * d + r;
    if r == 0 && q > 0 {
      MultipleAtLeast(q, t);
      Distribute(t, d, -1);
      DivModUnique(q - m, t, d - 1, m);
    }
    if r == m {
      Distribute(t, d, 1);
      DivModUnique(q + m, t, d + 1, 0);
    }
  }

  /** Halving the modulus: the remainders 0 and m of q modulo 2 * m are those divisible by m. */
  lemma HalfModulus(q: nat, m: nat)
    requires m > 0
    ensures q % (2 * m) == 0 || q % (2 * m) == m <==> q % m == 0
    ensures q % (2 * m) == 0 && q > 0 ==> q >= 2 * m && (q - m) % (2 * m) == m && (q - m) % m == 0
    ensures q % (2 * m) == m ==> (q + m) % (2 * m) == 0
  {
    Halved(q, m);
    Shifted(q, m);
    if q > 0 && q % (2 * m) == 0 {
      Halved(q - m, m);
    }
  }

  /** The work item that owns slot p in a level. */
  function Owner(p: nat, offset: nat): nat
    requires offset > 0
  {
    DivNonNeg(p, 2 * offset);
    p / (2 * offset)
  }

  /** Slot positions of one work item, relative to its first own slot. */
  lemma SlotPositions(offset: nat, j: nat)
    requires offset > 0
    ensures 0 <= 2 * offset * j
    ensures LeftSlot(offset, j) == 2 * offset * j + offset - 1
    ensures RightSlot(offset, j) == 2 * offset * j + 2 * offset - 1
  {
  }

  /** In a level of d items both slots of an item are in range and its own. */
  lemma ItemSlots(n: nat, offset: nat, d: nat, j: nat)
    requires offset > 0 && n == 2 * offset * d && j < d
    ensures LeftSlot(offset, j) < RightSlot(offset, j) < n
    ensures Owner(LeftSlot(offset, j), offset) == j == Owner(RightSlot(offset, j), offset)
  {
    var m := 2 * offset;
    SlotPositions(offset, j);
    MulStrict(j, d, m);
    DivModUnique(LeftSlot(offset, j), m, j, offset - 1);
    DivModUnique(RightSlot(offset, j), m, j, m - 1);
  }

  lemma OwnerBlock(p: nat, offset: nat, j: nat)
    requires offset > 0
    ensures Owner(p, offset) == j <==> 2 * offset * j <= p < 2 * offset * j + 2 * offset
  {
    var m := 2 * offset;
    assert p == m * (p / m) + p % m;
    if m * j <= p < m * j + m {
      DivModUnique(p, m, j, p - m * j);
    }
  }

  /** What a level does to the slots of one work item, in terms of the two slots it touches. */
  lemma ItemEffect(s: seq<int>, offset: nat, d: nat, j: nat, p: nat)
    requires offset > 0 && |s| == 2 * offset * d && j < d
    requires p < |s| && Owner(p, offset) == j
    ensures var l, r := LeftSlot(offset, j), RightSlot(offset, j);
            && l < r < |s|
            && UpLevel(s, offset)[p] == (if p == r then s[r] + s[l] else s[p])
            && DownLevel(s, offset)[p] == (if p == r then s[r] + s[l] else if p == l then s[r] else s[p])
  {
    SlotPositions(offset, j);
    ItemSlots(|s|, offset, d, j);
    OwnerBlock(p, offset, j);
    var m := 2 * offset;
    if p == RightSlot(offset, j) {
      Distribute(m, j, 1);
      DivModUnique(p + 1, m, j + 1, 0);
    } else {
      DivModUnique(p + 1, m, j, p + 1 - m * j);
    }
  }

  /** A level in progress: the items in `todo` still have the old contents of their slots. */
  function Partial(s: seq<int>, t: seq<int>, offset: nat, todo: set<nat>): seq<int>
    requires offset > 0 && |s| == |t|
  {
    seq(|s|, p requires 0 <= p < |s| => if Owner(p, offset) in todo then s[p] else t[p])
  }

  lemma UpItem(s: seq<int>, offset: nat, d: nat, j: nat, todo: set<nat>)
    requires offset > 0 && |s| == 2 * offset * d && j < d && j in todo
    ensures LeftSlot(offset, j) < RightSlot(offset, j) < |s|
    ensures AddAt(Partial(s, UpLevel(s, offset), offset, todo), LeftSlot(offset, j), RightSlot(offset, j))
         == Partial(s, UpLevel(s, offset), offset, todo - {j})
  {
    ItemSlots(|s|, offset, d, j);
    var cur := AddAt(Partial(s, UpLevel(s, offset), offset, todo), LeftSlot(offset, j), RightSlot(offset, j));
    var next := Partial(s, UpLevel(s, offset), offset, todo - {j});
    forall p | 0 <= p < |s|
      ensures cur[p] == next[p]
    {
      if Owner(p, offset) == j {
        ItemEffect(s, offset, d, j, p);
      }
    }
  }

  lemma DownItem(s: seq<int>, offset: nat, d: nat, j: nat, todo: set<nat>)
    requires offset > 0 && |s| == 2 * offset * d && j < d && j in todo
    ensures LeftSlot(offset, j) < RightSlot(offset, j) < |s|
    ensures ExchangeAt(Partial(s, DownLevel(s, offset), offset, todo), LeftSlot(offset, j), RightSlot(offset, j))
         == Partial(s, DownLevel(s, offset), offset, todo - {j})
  {
    ItemSlots(|s|, offset, d, j);
    var cur := ExchangeAt(Partial(s, DownLevel(s, offset), offset, todo), LeftSlot(offset, j), RightSlot(offset, j));
    var next := Partial(s, DownLevel(s, offset), offset, todo - {j});
    forall p | 0 <= p < |s|
      ensures cur[p] == next[p]
    {
      if Owner(p, offset) == j {
        ItemEffect(s, offset, d, j, p);
      }
    }
  }

  /** Before the level every item is still to do, after it none is. */
  lemma PartialEnds(s: seq<int>, t: seq<int>, offset: nat, d: nat)
    requires offset > 0 && |s| == 2 * offset * d && |t| == |s|
    ensures Partial(s, t, offset, Range(0, d)) == s && Partial(s, t, offset, {}) == t
  {
    forall p | 0 <= p < |s|
      ensures Owner(p, offset) < d
    {
      var m, j := 2 * offset, Owner(p, offset);
      OwnerBlock(p, offset, j);
      if j >= d {
        MulMono(d, j, m);
      }
    }
  }

  /** Loop arithmetic of the up-sweep: doubling the offset halves the number of items. */
  lemma LevelUp(n: nat, offset: nat, d: nat)
    requires n == 2 * offset * d && d > 0 && IsPow2(d)
    ensures if d == 1 then d / 2 == 0 && 2 * offset == n
            else IsPow2(d / 2) && n == 2 * (2 * offset) * (d / 2)
  {
    if d > 1 {
      assert d == 2 * (d / 2);
      assert 2 * (2 * offset) * (d / 2) == 2 * offset * (2 * (d / 2));
    }
  }

  /** Loop arithmetic of the down-sweep: halving the block size doubles the number of items. */
  lemma LevelDown(n: nat, top: nat, d: nat)
    requires n == d * top && 0 < d < n && top > 0 && IsPow2(top)
    ensures top > 1 && IsPow2(top / 2) && top == 2 * (top / 2)
    ensures n == 2 * (top / 2) * d && n % (2 * (top / 2)) == 0 && n == (2 * d) * (top / 2)
  {
    if top > 1 {
      var half := top / 2;
      assert d * (2 * half) == 2 * half * d && (2 * d) * half == d * (2 * half);
      DivModUnique(n, 2 * half, d, 0);
    }
  }

  lemma LastLevel(n: nat, top: nat, d: nat)
    requires n == d * top && n <= d && d > 0 && top > 0
    ensures top == 1
  {
    if top > 1 {
      MulStrict(1, top, d);
    }
  }

  lemma UpStart(a: seq<int>)
    ensures UpInvariant(a, a, 1)
  {
  }

  lemma UpStep(s: seq<int>, a: seq<int>, offset: nat)
    requires offset > 0 && IsPow2(offset) && UpInvariant(s, a, offset)
    ensures IsPow2(2 * offset) && UpInvariant(UpLevel(s, offset), a, 2 * offset)
  {
    DoublePow2(offset);
    var r := UpLevel(s, offset);
    forall p | 0 <= p < |s|
      ensures r[p] == Seg(a, p + 1 - Width(p + 1, 2 * offset), p + 1)
    {
      var q := p + 1;
      HalfModulus(q, offset);
      assert 2 * offset / 2 == offset;
      if q % (2 * offset) == 0 {
        assert Width(q, offset) == offset && Width(q - offset, offset) == offset;
        SegSplit(a, q - 2 * offset, q - offset, q);
      }
    }
  }

  /** After the up-sweep the last slot holds the total; clearing it starts the down-sweep. */
  lemma DownStart(s: seq<int>, a: seq<int>)
    requires |a| > 0 && IsPow2(|a|) && UpInvariant(s, a, |a|)
    ensures s[|s| - 1] == Seg(a, 0, |a|)
    ensures DownInvariant(s[|s| - 1 := 0], a, |a|)
  {
  }

  lemma DownStep(s: seq<int>, a: seq<int>, offset: nat)
    requires offset > 0 && IsPow2(offset) && IsPow2(2 * offset)
    requires |a| % (2 * offset) == 0 && DownInvariant(s, a, 2 * offset)
    ensures DownInvariant(DownLevel(s, offset), a, offset)
  {
    var r := DownLevel(s, offset);
    forall p | 0 <= p < |s|
      ensures r[p] == if Ends(p, offset) then Seg(a, 0, p + 1 - offset)
                      else Seg(a, p + 1 - Width(p + 1, offset), p + 1)
    {
      HalfModulus(p + 1, offset);
      if (p + 1) % (2 * offset) == 0 {
        DownRight(s, a, offset, p);
      } else if (p + 1) % (2 * offset) == offset {
        DownLeft(s, a, offset, p);
      } else {
        assert s[p] == Seg(a, p + 1 - Width(p + 1, 2 * offset), p + 1);
        assert 2 * offset / 2 == offset;
      }
    }
  }

  lemma DownRight(s: seq<int>, a: seq<int>, offset: nat, p: nat)
    requires offset > 0 && IsPow2(offset) && IsPow2(2 * offset)
    requires DownInvariant(s, a, 2 * offset) && p < |s| && (p + 1) % (2 * offset) == 0
    ensures p >= offset && s[p] + s[p - offset] == Seg(a, 0, p + 1 - offset)
  {
    var q := p + 1;
    HalfModulus(q, offset);
    WidthOfHalf(q - offset, offset);
    assert Ends(p, 2 * offset) && !Ends(p - offset, 2 * offset);
    SegSplit(a, 0, q - 2 * offset, q - offset);
  }

  lemma DownLeft(s: seq<int>, a: seq<int>, offset: nat, p: nat)
    requires offset > 0 && IsPow2(offset) && IsPow2(2 * offset) && |a| % (2 * offset) == 0
    requires DownInvariant(s, a, 2 * offset) && p < |s| && (p + 1) % (2 * offset) == offset
    ensures p + offset < |s| && s[p + offset] == Seg(a, 0, p + 1 - offset)
  {
    HalfModulus(p + 1, offset);
    LeftHasSibling(p + 1, offset, |a|);
    assert Ends(p + offset, 2 * offset);
  }

  lemma WidthOfHalf(q: nat, offset: nat)
    requires offset > 0 && q % (2 * offset) != 0 && q % offset == 0
    ensures Width(q, 2 * offset) == offset
  {
    assert 2 * offset / 2 == offset;
  }

  lemma LeftHasSibling(q: nat, offset: nat, n: nat)
    requires offset > 0 && q % (2 * offset) == offset && n % (2 * offset) == 0 && q <= n
    ensures q + offset <= n
  {
    var m := 2 * offset;
    assert q == m * (q / m) + offset && n == m * (n / m);
    if q / m >= n / m {
      MulMono(n / m, q / m, m);
    }
    MulMono(q / m + 1, n / m, m);
    assert m * (q / m + 1) == m * (q / m) + m;
  }

  lemma DownEnd(s: seq<int>, a: seq<int>)
    requires DownInvariant(s, a, 1)
    ensures s == PrefixSums(Exclusive, a)
  {
    forall p | 0 <= p < |s|
      ensures s[p] == Seg(a, 0, p)
    {
      assert Ends(p, 1);
    }
  }
}
