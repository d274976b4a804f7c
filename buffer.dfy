/**
 The contents of a C buffer after a call that writes one contiguous range
 of it. `Splice(d, off, s)` is `d` after storing the elements of `s`, in
 order, at `off`, `off + 1`, ...; every call of the sort that writes
 through a pointer `p + off` is specified by a `Splice` of the buffer's
 previous contents, which also says that nothing outside the range changed.
 */
module Buffer {

  /** `d` after `s[0], s[1], ...` have been stored from index `off` on. */
  function Splice(d: seq<int>, off: nat, s: seq<int>): (r: seq<int>)
    requires off + |s| <= |d|
    ensures |r| == |d|
    decreases |s|
  {
    if s == [] then d
    else Splice(d, off, s[..|s| - 1])[off + |s| - 1 := s[|s| - 1]]
  }

  /** Pointwise: inside the range the new elements, outside the old ones. */
  lemma {:induction false} SpliceAt(d: seq<int>, off: nat, s: seq<int>, k: int)
    requires off + |s| <= |d| && 0 <= k < |d|
    ensures Splice(d, off, s)[k] == if off <= k < off + |s| then s[k - off] else d[k]
    decreases |s|
  {
    if s != [] {
      SpliceAt(d, off, s[..|s| - 1], k);
    }
  }

  /** Writing a whole buffer's worth from index 0 replaces the buffer. */
  lemma SpliceWhole(d: seq<int>, s: seq<int>)
    requires |s| == |d|
    ensures Splice(d, 0, s) == s
  {
    forall k | 0 <= k < |d| ensures Splice(d, 0, s)[k] == s[k] {
      SpliceAt(d, 0, s, k);
    }
  }

  /** The written range reads back as what was written. */
  lemma SpliceRange(d: seq<int>, off: nat, s: seq<int>)
    requires off + |s| <= |d|
    ensures Splice(d, off, s)[off..off + |s|] == s
  {
    forall k | 0 <= k < |s| ensures Splice(d, off, s)[off..off + |s|][k] == s[k] {
      SpliceAt(d, off, s, off + k);
    }
  }

  /** Writing one more element right after a written range extends the range. */
  lemma SpliceWrite(d: seq<int>, off: nat, s: seq<int>, x: int, at: nat)
    requires off + |s| < |d| && at == off + |s|
    ensures Splice(d, off, s)[at := x] == Splice(d, off, s + [x])
  {
    assert (s + [x])[..|s|] == s;
  }

  /** Two writes of adjacent ranges are one write of their concatenation. */
  lemma SpliceAdjacent(d: seq<int>, off: nat, s: seq<int>, mid: nat, t: seq<int>)
    requires mid == off + |s| && mid + |t| <= |d|
    ensures Splice(Splice(d, off, s), mid, t) == Splice(d, off, s + t)
  {
    var lhs, rhs := Splice(Splice(d, off, s), mid, t), Splice(d, off, s + t);
    forall k | 0 <= k < |d| ensures lhs[k] == rhs[k] {
      SpliceAt(Splice(d, off, s), mid, t, k);
      SpliceAt(d, off, s, k);
      SpliceAt(d, off, s + t, k);
    }
  }

  /** Writing back what is already there changes nothing. */
  lemma SpliceSame(d: seq<int>, lo: nat, hi: nat)
    requires lo <= hi <= |d|
    ensures Splice(d, lo, d[lo..hi]) == d
  {
    forall k | 0 <= k < |d| ensures Splice(d, lo, d[lo..hi])[k] == d[k] {
      SpliceAt(d, lo, d[lo..hi], k);
    }
  }

  /** A write that ends at or before `lo` leaves `d[lo..hi]` alone. */
  lemma SpliceOutside(d: seq<int>, off: nat, s: seq<int>, lo: nat, hi: nat)
    requires off + |s| <= lo <= hi <= |d|
    ensures Splice(d, off, s)[lo..hi] == d[lo..hi]
  {
    forall k | lo <= k < hi ensures Splice(d, off, s)[k] == d[k] {
      SpliceAt(d, off, s, k);
    }
  }

  /** A second write of the same range hides the first. */
  lemma SpliceOver(d: seq<int>, off: nat, s: seq<int>, t: seq<int>)
    requires off + |s| <= |d| && |t| == |s|
    ensures Splice(Splice(d, off, s), off, t) == Splice(d, off, t)
  {
    var lhs, rhs := Splice(Splice(d, off, s), off, t), Splice(d, off, t);
    forall k | 0 <= k < |d| ensures lhs[k] == rhs[k] {
      SpliceAt(Splice(d, off, s), off, t, k);
      SpliceAt(d, off, s, k);
      SpliceAt(d, off, t, k);
    }
  }

  /** Writes of two disjoint ranges give the same buffer in either order. */
  lemma SpliceCommute(d: seq<int>, off: nat, s: seq<int>, at: nat, t: seq<int>)
    requires off + |s| <= at && at + |t| <= |d|
    ensures Splice(Splice(d, off, s), at, t) == Splice(Splice(d, at, t), off, s)
  {
    var lhs, rhs := Splice(Splice(d, off, s), at, t), Splice(Splice(d, at, t), off, s);
    forall k | 0 <= k < |d| ensures lhs[k] == rhs[k] {
      SpliceAt(Splice(d, off, s), at, t, k);
      SpliceAt(d, off, s, k);
      SpliceAt(Splice(d, at, t), off, s, k);
      SpliceAt(d, at, t, k);
    }
  }

  /**
   The parallel merge's shape: one element stored at `off + |s|`, then the
   range before it and the range after it written.
   */
  lemma SpliceAround(d: seq<int>, off: nat, s: seq<int>, v: int, t: seq<int>)
    requires off + |s| + 1 + |t| <= |d|
    ensures Splice(Splice(Splice(d, off + |s|, [v]), off, s), off + |s| + 1, t)
         == Splice(d, off, s + [v] + t)
  {
    var d1 := Splice(d, off + |s|, [v]);
    var lhs, rhs := Splice(Splice(d1, off, s), off + |s| + 1, t), Splice(d, off, s + [v] + t);
    forall k | 0 <= k < |d| ensures lhs[k] == rhs[k] {
      SpliceAt(Splice(d1, off, s), off + |s| + 1, t, k);
      SpliceAt(d1, off, s, k);
      SpliceAt(d, off + |s|, [v], k);
      SpliceAt(d, off, s + [v] + t, k);
    }
  }

  // The window of `n` elements at `off`, as a C pointer `p + off` with a
  // length `n` denotes it, is written `s[off..][..n]`.

  /** The first `m` elements of a window are the window of `m` elements. */
  lemma SlicePrefix(s: seq<int>, off: nat, n: nat, m: nat)
    requires off + n <= |s| && m <= n
    ensures s[off..][..m] == s[off..][..n][..m]
  {
  }

  /** Dropping `i` more elements of a window is a window starting `i` later. */
  lemma SliceRest(s: seq<int>, off: nat, n: nat, i: nat)
    requires off + n <= |s| && i <= n
    ensures s[off + i..][..n - i] == s[off..][..n][i..]
  {
  }
}
