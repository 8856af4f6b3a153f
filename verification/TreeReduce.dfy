/** `Vec::reduce`: the recursive midpoint reduction and the left-to-right loop that replaces it
    where recursion is not available. */
module TreeReduce {

  ghost predicate Associative<T(!new)>(op: (T, T) -> T) {
    forall a, b, c :: op(op(a, b), c) == op(a, op(b, c))
  }

  function ReduceRange<T>(v: seq<T>, op: (T, T) -> T, start: nat, end: nat): T
    requires start < end <= |v|
    decreases end - start
  {
    var size := end - start;
    if size == 1 then v[start]
    else
      var mid := start + size / 2;
      op(ReduceRange(v, op, start, mid), ReduceRange(v, op, mid, end))
  }

  function Fold<T>(v: seq<T>, op: (T, T) -> T, start: nat, end: nat): T
    requires start < end <= |v|
    decreases end - start
  {
    if end - start == 1 then v[start] else op(Fold(v, op, start, end - 1), v[end - 1])
  }

  method LoopReduce<T>(v: seq<T>, op: (T, T) -> T) returns (result: T)
    requires |v| > 0
    ensures result == Fold(v, op, 0, |v|)
  {
    result := v[0];
    for i := 1 to |v|
      invariant result == Fold(v, op, 0, i)
    {
      result := op(result, v[i]);
    }
  }

  lemma {:induction false} FoldSplits<T(!new)>(v: seq<T>, op: (T, T) -> T, start: nat, mid: nat, end: nat)
    requires start < mid < end <= |v| && Associative(op)
    ensures Fold(v, op, start, end) == op(Fold(v, op, start, mid), Fold(v, op, mid, end))
    decreases end - mid
  {
    if mid + 1 < end {
      FoldSplits(v, op, start, mid, end - 1);
    }
  }

  lemma {:induction false} TreeIsFold<T(!new)>(v: seq<T>, op: (T, T) -> T, start: nat, end: nat)
    requires start < end <= |v| && Associative(op)
    ensures ReduceRange(v, op, start, end) == Fold(v, op, start, end)
    decreases end - start
  {
    if end - start > 1 {
      var mid := start + (end - start) / 2;
      TreeIsFold(v, op, start, mid);
      TreeIsFold(v, op, mid, end);
      FoldSplits(v, op, start, mid, end);
    }
  }

  // ---- What the tree is for: few roundings on the way of every element ----

  function Pow2(d: nat): nat {
    if d == 0 then 1 else 2 * Pow2(d - 1)
  }

  /** The number of operations above both operands. */
  function OneMore(a: nat, b: nat): nat {
    1 + if a < b then b else a
  }

  lemma {:induction false} Pow2Grows(a: nat, b: nat)
    requires a <= b
    ensures 1 <= Pow2(a) <= Pow2(b)
    decreases b
  {
    if a < b {
      Pow2Grows(a, b - 1);
    } else if b > 0 {
      Pow2Grows(0, b - 1);
    }
  }

  lemma Halves(n: nat, a: nat, b: nat)
    requires n >= 2 && n / 2 <= Pow2(a) < 2 * (n / 2) && n - n / 2 <= Pow2(b) < 2 * (n - n / 2)
    ensures n <= Pow2(OneMore(a, b)) < 2 * n
  {
    if a < b {
      Pow2Grows(a, b);
      assert Pow2(b) == 2 * Pow2(b - 1);
    } else {
      Pow2Grows(b, a);
    }
  }

  /** With the loop the first element passes through all operations; */
  lemma {:induction false} LoopIsDeep(zeros: seq<nat>, start: nat, end: nat)
    requires start < end <= |zeros| && forall i :: 0 <= i < |zeros| ==> zeros[i] == 0
    ensures Fold(zeros, OneMore, start, end) == end - start - 1
    decreases end - start
  {
    if end - start > 1 {
      LoopIsDeep(zeros, start, end - 1);
    }
  }

  /** with the recursive reduction no element passes through more than the logarithm of the number
      of elements, rounded up. */
  lemma {:induction false} TreeIsBalanced(zeros: seq<nat>, start: nat, end: nat)
    requires start < end <= |zeros| && forall i :: 0 <= i < |zeros| ==> zeros[i] == 0
    ensures end - start <= Pow2(ReduceRange(zeros, OneMore, start, end)) < 2 * (end - start)
    decreases end - start
  {
    if end - start > 1 {
      var mid := start + (end - start) / 2;
      TreeIsBalanced(zeros, start, mid);
      TreeIsBalanced(zeros, mid, end);
      Halves(end - start, ReduceRange(zeros, OneMore, start, mid), ReduceRange(zeros, OneMore, mid, end));
    }
  }

  ghost predicate SameReduction<T>(v: seq<T>, op: (T, T) -> T) {
    |v| > 0 ==> ReduceRange(v, op, 0, |v|) == Fold(v, op, 0, |v|)
  }

  /** The two reductions agree on every vector exactly for associative operations; commutativity
      plays no part. */
  lemma AgreeExactlyWhenAssociative<T(!new)>(op: (T, T) -> T)
    ensures Associative(op) <==> forall v: seq<T> :: SameReduction(v, op)
  {
    if Associative(op) {
      forall v: seq<T> | |v| > 0 ensures SameReduction(v, op) {
        TreeIsFold(v, op, 0, |v|);
      }
    }
    if forall v: seq<T> :: SameReduction(v, op) {
      forall a, b, c ensures op(op(a, b), c) == op(a, op(b, c)) {
        assert SameReduction([a, b, c], op);
        ThreeElements(a, b, c, op);
      }
    }
  }

  lemma ThreeElements<T>(a: T, b: T, c: T, op: (T, T) -> T)
    ensures ReduceRange([a, b, c], op, 0, 3) == op(a, op(b, c))
    ensures Fold([a, b, c], op, 0, 3) == op(op(a, b), c)
  {
    var v := [a, b, c];
    assert ReduceRange(v, op, 1, 3) == op(b, c);
    assert Fold(v, op, 0, 2) == op(Fold(v, op, 0, 1), b);
  }
}
