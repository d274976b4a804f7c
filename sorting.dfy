/**
 Specification side of the merge sort: what "sorted", "split point" and
 "merge of two runs" mean, and the facts about them that the imperative
 kernels and the two parallel back-ends rely on.
 */
module Sorting {

  /** Non-decreasing order of a run. */
  ghost predicate Sorted(s: seq<int>) {
    forall i, j :: 0 <= i < j < |s| ==> s[i] <= s[j]
  }

  /** Every element of `s` is at most `v`. */
  ghost predicate AllAtMost(s: seq<int>, v: int) {
    forall i :: 0 <= i < |s| ==> s[i] <= v
  }

  /** Every element of `s` is at least `v`. */
  ghost predicate AllAtLeast(s: seq<int>, v: int) {
    forall i :: 0 <= i < |s| ==> v <= s[i]
  }

  /** Every element of `s` is strictly greater than `v`. */
  ghost predicate AllAbove(s: seq<int>, v: int) {
    forall i :: 0 <= i < |s| ==> v < s[i]
  }

  /**
   `k` is an insertion point of `v` in `s`: everything before `k` is at
   most `v`, everything at or after `k` is at least `v`.
   */
  ghost predicate IsSplit(s: seq<int>, v: int, k: int) {
    && 0 <= k <= |s|
    && (forall i :: 0 <= i < k ==> s[i] <= v)
    && (forall i :: k <= i < |s| ==> v <= s[i])
  }

  /**
   The two-pointer merge of `b[i..]` and `c[j..]`: repeatedly take the
   smaller front, taking from `b` on a tie, then append whatever is left.
   */
  function MergeFrom(b: seq<int>, c: seq<int>, i: nat, j: nat): (r: seq<int>)
    requires i <= |b| && j <= |c|
    ensures |r| == |b| - i + |c| - j
    decreases |b| - i + |c| - j
  {
    if i == |b| then c[j..]
    else if j == |c| then b[i..]
    else if b[i] <= c[j] then [b[i]] + MergeFrom(b, c, i + 1, j)
    else [c[j]] + MergeFrom(b, c, i, j + 1)
  }

  /** The merge of two whole runs. */
  function Merge(b: seq<int>, c: seq<int>): seq<int> {
    MergeFrom(b, c, 0, 0)
  }

  /** A merge is a permutation of the concatenation of its inputs. */
  lemma {:induction false} MergePermutation(b: seq<int>, c: seq<int>, i: nat, j: nat)
    requires i <= |b| && j <= |c|
    ensures multiset(MergeFrom(b, c, i, j)) == multiset(b[i..]) + multiset(c[j..])
    decreases |b| - i + |c| - j
  {
    if i == |b| {
      assert b[i..] == [];
    } else if j == |c| {
      assert c[j..] == [];
    } else if b[i] <= c[j] {
      MergePermutation(b, c, i + 1, j);
      ConsPermutation(b[i], MergeFrom(b, c, i + 1, j));
      SuffixPermutation(b, i);
    } else {
      MergePermutation(b, c, i, j + 1);
      ConsPermutation(c[j], MergeFrom(b, c, i, j + 1));
      SuffixPermutation(c, j);
    }
  }

  /** The elements of `[x] + t`. */
  lemma ConsPermutation(x: int, t: seq<int>)
    ensures multiset([x] + t) == multiset{x} + multiset(t)
  {
  }

  /** The elements of a non-empty suffix: its head and the suffix after it. */
  lemma SuffixPermutation(s: seq<int>, i: nat)
    requires i < |s|
    ensures multiset(s[i..]) == multiset{s[i]} + multiset(s[i + 1..])
  {
    assert s[i..] == [s[i]] + s[i + 1..];
  }

  /** The merge of two whole runs is a permutation of their concatenation. */
  lemma MergeIsPermutation(b: seq<int>, c: seq<int>)
    ensures multiset(Merge(b, c)) == multiset(b) + multiset(c)
  {
    MergePermutation(b, c, 0, 0);
    assert b[0..] == b && c[0..] == c;
  }

  /** Prepending an element no greater than the head keeps a run sorted. */
  lemma SortedCons(h: int, t: seq<int>)
    requires Sorted(t)
    requires t != [] ==> h <= t[0]
    ensures Sorted([h] + t)
  {
    var s := [h] + t;
    forall i, j | 0 <= i < j < |s| ensures s[i] <= s[j] {
      if i > 0 {
        assert s[i] == t[i - 1] && s[j] == t[j - 1];
      } else {
        assert s[j] == t[j - 1];
        assert t[0] <= t[j - 1];
      }
    }
  }

  /** Merging two sorted runs yields a sorted run. */
  lemma {:induction false} MergeSorted(b: seq<int>, c: seq<int>, i: nat, j: nat)
    requires Sorted(b) && Sorted(c)
    requires i <= |b| && j <= |c|
    ensures Sorted(MergeFrom(b, c, i, j))
    decreases |b| - i + |c| - j
  {
    if i == |b| || j == |c| {
      assert forall x, y :: j <= x < y < |c| ==> c[x] <= c[y];
      assert forall x, y :: i <= x < y < |b| ==> b[x] <= b[y];
    } else if b[i] <= c[j] {
      MergeSorted(b, c, i + 1, j);
      SortedCons(b[i], MergeFrom(b, c, i + 1, j));
    } else {
      MergeSorted(b, c, i, j + 1);
      SortedCons(c[j], MergeFrom(b, c, i, j + 1));
    }
  }

  /** The head of a non-empty sorted run is its least element. */
  lemma SortedHeadIsLeast(x: seq<int>, e: int)
    requires Sorted(x) && e in multiset(x)
    ensures x[0] <= e
  {
    var i :| 0 <= i < |x| && x[i] == e;
    assert i == 0 || x[0] <= x[i];
  }

  /** Dropping the head of a sorted run keeps it sorted. */
  lemma SortedTail(x: seq<int>)
    requires Sorted(x) && x != []
    ensures Sorted(x[1..])
  {
    forall i, j | 0 <= i < j < |x| - 1 ensures x[1..][i] <= x[1..][j] {
      assert x[1..][i] == x[i + 1] && x[1..][j] == x[j + 1];
    }
  }

  /** A sorted run is determined by its multiset of elements. */
  lemma {:induction false} SortedUnique(x: seq<int>, y: seq<int>)
    requires Sorted(x) && Sorted(y)
    requires multiset(x) == multiset(y)
    ensures x == y
    decreases |x|
  {
    assert |x| == |multiset(x)| == |multiset(y)| == |y|;
    if x != [] {
      SortedHeadIsLeast(x, y[0]);
      SortedHeadIsLeast(y, x[0]);
      assert x[0] == y[0];
      assert x == [x[0]] + x[1..];
      assert y == [y[0]] + y[1..];
      assert multiset(x[1..]) == multiset(x) - multiset{x[0]};
      assert multiset(y[1..]) == multiset(y) - multiset{y[0]};
      SortedTail(x);
      SortedTail(y);
      SortedUnique(x[1..], y[1..]);
    }
  }

  /** For sorted runs the order of the operands of a merge does not matter. */
  lemma MergeCommutes(b: seq<int>, c: seq<int>)
    requires Sorted(b) && Sorted(c)
    ensures Merge(b, c) == Merge(c, b)
  {
    MergeSorted(b, c, 0, 0);
    MergeSorted(c, b, 0, 0);
    MergePermutation(b, c, 0, 0);
    MergePermutation(c, b, 0, 0);
    SortedUnique(Merge(b, c), Merge(c, b));
  }

  /** Bounds on all elements carry over to any permutation. */
  lemma PermutationBounds(s: seq<int>, t: seq<int>, v: int)
    requires multiset(s) == multiset(t)
    ensures AllAtMost(s, v) ==> AllAtMost(t, v)
    ensures AllAtLeast(s, v) ==> AllAtLeast(t, v)
    ensures AllAbove(s, v) ==> AllAbove(t, v)
  {
    forall i | 0 <= i < |t| ensures t[i] in s {
      assert t[i] in multiset(t);
    }
  }

  /** A sorted run, then `v`, then a sorted run, with `v` between them, is sorted. */
  lemma SortedAround(x: seq<int>, v: int, y: seq<int>)
    requires Sorted(x) && Sorted(y)
    requires AllAtMost(x, v) && AllAtLeast(y, v)
    ensures Sorted(x + [v] + y)
  {
    var s := x + [v] + y;
    forall i, j | 0 <= i < j < |s| ensures s[i] <= s[j] {
      if j < |x| {
        assert s[i] == x[i] && s[j] == x[j];
      } else if i > |x| {
        assert s[i] == y[i - |x| - 1] && s[j] == y[j - |x| - 1];
      } else {
        assert s[i] <= v by {
          if i < |x| { assert s[i] == x[i]; }
        }
        assert v <= s[j] by {
          if j > |x| { assert s[j] == y[j - |x| - 1]; }
        }
      }
    }
  }

  /** Any slice of a sorted run is sorted. */
  lemma SortedSlice(s: seq<int>, lo: int, hi: int)
    requires Sorted(s) && 0 <= lo <= hi <= |s|
    ensures Sorted(s[lo..hi])
  {
    forall i, j | 0 <= i < j < hi - lo ensures s[lo..hi][i] <= s[lo..hi][j] {
      assert s[lo..hi][i] == s[lo + i] && s[lo..hi][j] == s[lo + j];
    }
  }

  /** Cutting `b` around `b[m]` and `c` at `k` loses and adds no element. */
  lemma SplitPermutation(b: seq<int>, c: seq<int>, m: int, k: int)
    requires 0 <= m < |b| && 0 <= k <= |c|
    ensures multiset(b[..m]) + multiset(c[..k]) + multiset{b[m]} + multiset(b[m + 1..]) + multiset(c[k..])
         == multiset(b) + multiset(c)
  {
    assert b == b[..m] + [b[m]] + b[m + 1..];
    assert c == c[..k] + c[k..];
  }

  /**
   The split used by the parallel merge: with `k` an insertion point of
   `b[m]` in `c`, merging the parts left of the split, then `b[m]`, then
   merging the parts right of it, gives exactly the merge of `b` and `c`.
   */
  lemma MergeSplit(b: seq<int>, c: seq<int>, m: int, k: int)
    requires Sorted(b) && Sorted(c)
    requires 0 <= m < |b|
    requires IsSplit(c, b[m], k)
    ensures Merge(b[..m], c[..k]) + [b[m]] + Merge(b[m + 1..], c[k..]) == Merge(b, c)
  {
    var v := b[m];
    var bl, br, cl, cr := b[..m], b[m + 1..], c[..k], c[k..];
    SortedSlice(b, 0, m);
    SortedSlice(b, m + 1, |b|);
    SortedSlice(c, 0, k);
    SortedSlice(c, k, |c|);
    var x, y := Merge(bl, cl), Merge(br, cr);
    MergeSorted(bl, cl, 0, 0);
    MergeSorted(br, cr, 0, 0);
    MergeIsPermutation(bl, cl);
    MergeIsPermutation(br, cr);
    SplitBounds(b, c, m, k);
    PermutationBounds(bl + cl, x, v);
    PermutationBounds(br + cr, y, v);
    SortedAround(x, v, y);
    MergeSorted(b, c, 0, 0);
    MergeIsPermutation(b, c);
    SplitPermutation(b, c, m, k);
    AroundPermutation(x, v, y);
    SortedUnique(x + [v] + y, Merge(b, c));
  }

  /** Left of the split everything is at most `b[m]`, right of it at least. */
  lemma SplitBounds(b: seq<int>, c: seq<int>, m: int, k: int)
    requires Sorted(b) && 0 <= m < |b|
    requires IsSplit(c, b[m], k)
    ensures AllAtMost(b[..m] + c[..k], b[m])
    ensures AllAtLeast(b[m + 1..] + c[k..], b[m])
  {
    var bl, br, cl, cr := b[..m], b[m + 1..], c[..k], c[k..];
    forall i | 0 <= i < |bl + cl| ensures (bl + cl)[i] <= b[m] {
      if i < |bl| {
        assert (bl + cl)[i] == b[i];
      } else {
        assert (bl + cl)[i] == c[i - |bl|];
      }
    }
    forall i | 0 <= i < |br + cr| ensures b[m] <= (br + cr)[i] {
      if i < |br| {
        assert (br + cr)[i] == b[m + 1 + i];
      } else {
        assert (br + cr)[i] == c[k + i - |br|];
      }
    }
  }

  /** The elements of `x + [v] + y`. */
  lemma AroundPermutation(x: seq<int>, v: int, y: seq<int>)
    ensures multiset(x + [v] + y) == multiset(x) + multiset{v} + multiset(y)
  {
  }

  /** Every run has a sorted permutation: merge its head into a sorted tail. */
  lemma {:induction false} SortExists(s: seq<int>)
    ensures exists t :: Sorted(t) && multiset(t) == multiset(s)
    decreases |s|
  {
    if s == [] {
      assert Sorted(s) && multiset(s) == multiset(s);
    } else {
      SortExists(s[1..]);
      var t :| Sorted(t) && multiset(t) == multiset(s[1..]);
      MergeSorted([s[0]], t, 0, 0);
      MergeIsPermutation([s[0]], t);
      HalvesPermutation(s, 1);
      assert s[..1] == [s[0]];
      assert Sorted(Merge([s[0]], t)) && multiset(Merge([s[0]], t)) == multiset(s);
    }
  }

  /**
   The sorted permutation of `s`; by `SortIsUnique` there is exactly one,
   so this is what every correct sort of `s` produces.
   */
  ghost function Sort(s: seq<int>): (r: seq<int>)
    ensures |r| == |s|
  {
    SortExists(s);
    var t :| Sorted(t) && multiset(t) == multiset(s);
    assert |t| == |multiset(t)| == |multiset(s)| == |s|;
    t
  }

  /** Cutting a run in two loses and adds no element. */
  lemma HalvesPermutation(s: seq<int>, h: nat)
    requires h <= |s|
    ensures multiset(s) == multiset(s[..h]) + multiset(s[h..])
  {
    assert s == s[..h] + s[h..];
  }

  /** `Sort(s)` is sorted and has the elements of `s`. */
  lemma SortIsSortedPermutation(s: seq<int>)
    ensures Sorted(Sort(s)) && multiset(Sort(s)) == multiset(s)
  {
  }

  /** A sorted permutation of `s` is the reference sort of `s`. */
  lemma SortIsUnique(s: seq<int>, t: seq<int>)
    requires Sorted(t) && multiset(t) == multiset(s)
    ensures t == Sort(s)
  {
    SortIsSortedPermutation(s);
    SortedUnique(t, Sort(s));
  }

  /** A run of at most one element is its own sort. */
  lemma SortShort(s: seq<int>)
    requires |s| <= 1
    ensures Sort(s) == s
  {
    SortIsUnique(s, s);
  }

  /** Merging the sorts of two halves sorts the whole: the merge sort step. */
  lemma MergeOfSorts(s: seq<int>, h: nat)
    requires h <= |s|
    ensures Merge(Sort(s[..h]), Sort(s[h..])) == Sort(s)
  {
    var x, y := Sort(s[..h]), Sort(s[h..]);
    SortIsSortedPermutation(s[..h]);
    SortIsSortedPermutation(s[h..]);
    MergeSorted(x, y, 0, 0);
    MergeIsPermutation(x, y);
    HalvesPermutation(s, h);
    SortIsUnique(s, Merge(x, y));
  }
}
