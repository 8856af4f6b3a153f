/** Sums over segments of a sequence, and the two prefix sums defined through them. */
module Sums {

  /** s[lo] + ... + s[hi - 1]. */
  function Seg(s: seq<int>, lo: int, hi: int): int
    requires 0 <= lo && hi <= |s|
    decreases hi - lo
  {
    if lo >= hi then 0 else Seg(s, lo, hi - 1) + s[hi - 1]
  }

  datatype ScanType = Exclusive | Inclusive

  /** The sequential prefix sum: element i holds the sum of everything before it
      (exclusive), or up to and including it (inclusive). */
  function PrefixSums(kind: ScanType, s: seq<int>): seq<int> {
    seq(|s|, i requires 0 <= i < |s| => Seg(s, 0, if kind == Inclusive then i + 1 else i))
  }

  lemma {:induction false} SegSplit(s: seq<int>, lo: int, mid: int, hi: int)
    requires 0 <= lo <= mid <= hi <= |s|
    ensures Seg(s, lo, hi) == Seg(s, lo, mid) + Seg(s, mid, hi)
    decreases hi
  {
    if mid < hi {
      SegSplit(s, lo, mid, hi - 1);
    }
  }

  /** Equal elements, possibly at a shifted position, have equal sums. */
  lemma {:induction false} SegShift(s: seq<int>, t: seq<int>, at: int, lo: int, hi: int)
    requires 0 <= lo <= hi <= |s| && 0 <= lo + at && hi + at <= |t|
    requires forall i :: lo <= i < hi ==> s[i] == t[i + at]
    ensures Seg(s, lo, hi) == Seg(t, lo + at, hi + at)
    decreases hi
  {
    if lo < hi {
      SegShift(s, t, at, lo, hi - 1);
    }
  }

  lemma {:induction false} SegZero(s: seq<int>, lo: int, hi: int)
    requires 0 <= lo <= hi <= |s|
    requires forall i :: lo <= i < hi ==> s[i] == 0
    ensures Seg(s, lo, hi) == 0
    decreases hi
  {
    if lo < hi {
      SegZero(s, lo, hi - 1);
    }
  }
}
