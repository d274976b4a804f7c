/**
 The sequential kernels of the sort: the split-finding binary search, the
 two-pointer merge, the Lomuto partition and the quicksort built on it.
 A C pointer into a buffer is modelled as an array together with an
 offset, so `p + off` becomes `(p, off)`; `memcpy` is the copy loop `Copy`.
 Every method that writes is specified by a `Splice` of the buffer's old
 contents: the written range holds the result and nothing else changes.

 Each loop's body is one call of a step method whose contract is the loop
 invariant before and after one iteration; the step method performs the
 array writes of the C loop body and calls small lemmas for the proof.
 */
module Serial {
  import opened Sorting
  import opened Buffer

  // ---------------------------------------------------------------------
  // binary_search
  // ---------------------------------------------------------------------

  /**
   An insertion point of `value` in the sorted run `a[off..off + n]`.
   Early returns cover a value at or below the first element (0) and at
   or above the last (`n`); otherwise the interval `[min, max]` is narrowed
   until a midpoint or its right neighbour is a boundary. The first
   neighbour test is guarded by `mid > 0`: when `mid == 0` the first
   element is known to be below `value`, so the guard changes no result,
   and it keeps the read of `a[off + mid - 1]` inside the run.
   */
  method BinarySearch(a: array<int>, off: nat, n: nat, value: int) returns (k: int)
    requires 1 <= n && off + n <= a.Length
    requires Sorted(a[..][off..][..n])
    ensures IsSplit(a[..][off..][..n], value, k)
  {
    ghost var s := a[..][off..][..n];
    assert a[off] == s[0] && a[off + n - 1] == s[n - 1];
    if value <= a[off] {
      SplitBetween(s, value, 0);
      return 0;
    }
    if value >= a[off + n - 1] {
      SplitBetween(s, value, n);
      return n;
    }
    var min, max := 0, n - 1;
    while min < max
      invariant 0 <= min <= max <= n - 1
      invariant s[min] < value < s[max]
      decreases max - min
    {
      var mid := (min + max) / 2;
      assert a[off + mid] == s[mid] && a[off + mid + 1] == s[mid + 1];
      assert mid > 0 ==> a[off + mid - 1] == s[mid - 1];
      if mid > 0 && a[off + mid - 1] <= value && a[off + mid] >= value {
        SplitBetween(s, value, mid);
        return mid;
      } else if a[off + mid] <= value && a[off + mid + 1] >= value {
        SplitBetween(s, value, mid + 1);
        return mid + 1;
      }
      if a[off + mid] < value {
        min := mid + 1;
      } else if a[off + mid] > value {
        max := mid - 1;
      } else {
        SplitBetween(s, value, mid);
        return mid;
      }
    }
    // `s[min] < value < s[max]` cannot hold once `min == max`: the loop
    // always returns, and the C function's `-1` is never produced.
    assert false;
    return -1;
  }

  /** In a sorted run, a point between an element at most `v` and one at least `v` is a split. */
  lemma SplitBetween(s: seq<int>, v: int, k: int)
    requires Sorted(s) && 0 <= k <= |s|
    requires k > 0 ==> s[k - 1] <= v
    requires k < |s| ==> v <= s[k]
    ensures IsSplit(s, v, k)
  {
  }

  // ---------------------------------------------------------------------
  // s_merge
  // ---------------------------------------------------------------------

  /**
   State of the first merge loop: `i` elements of `B` and `j` of `C` are
   consumed, `out` is what has been written at `rOff..`, and the rest of
   the merge is the merge of what is left.
   */
  ghost predicate Progress(R0: seq<int>, rOff: nat, B: seq<int>, C: seq<int>, i: nat, j: nat,
                           out: seq<int>, r: seq<int>)
  {
    && i <= |B| && j <= |C| && |out| == i + j && rOff + |B| + |C| <= |R0|
    && out + MergeFrom(B, C, i, j) == Merge(B, C)
    && r == Splice(R0, rOff, out)
  }

  /**
   Two-pointer merge of `b[bOff..bOff + bSize]` and `c[cOff..cOff + cSize]`
   into `result[rOff..]`: the loop taking the smaller front (from `b` on a
   tie), then the loop draining `b`, then the loop draining `c`.
   */
  method SMerge(result: array<int>, rOff: nat,
                b: array<int>, bOff: nat, bSize: nat,
                c: array<int>, cOff: nat, cSize: nat)
    requires result != b && result != c
    requires rOff + bSize + cSize <= result.Length
    requires bOff + bSize <= b.Length && cOff + cSize <= c.Length
    modifies result
    ensures result[..] == Splice(old(result[..]), rOff, Merge(b[..][bOff..][..bSize], c[..][cOff..][..cSize]))
  {
    ghost var R0 := result[..];
    ghost var bs, cs := b[..], c[..];
    var i, j;
    ghost var out;
    i, j, out := MergeFronts(result, rOff, b, bOff, bSize, c, cOff, cSize);
    ghost var R1 := result[..];
    Copy(result, rOff + i + j, b, bOff + i, bSize - i);
    ghost var R2 := result[..];
    Copy(result, rOff + bSize + j, c, cOff + j, cSize - j);
    Drained(R0, rOff, bs, bOff, bSize, cs, cOff, cSize, i, j, out, R1, R2, result[..]);
  }

  /** The first loop of the merge: runs until one of the two runs is used up. */
  method MergeFronts(result: array<int>, rOff: nat,
                     b: array<int>, bOff: nat, bSize: nat,
                     c: array<int>, cOff: nat, cSize: nat)
    returns (i: nat, j: nat, ghost out: seq<int>)
    requires result != b && result != c
    requires rOff + bSize + cSize <= result.Length
    requires bOff + bSize <= b.Length && cOff + cSize <= c.Length
    modifies result
    ensures i == bSize || j == cSize
    ensures Progress(old(result[..]), rOff, b[..][bOff..][..bSize], c[..][cOff..][..cSize], i, j, out, result[..])
  {
    ghost var R0 := result[..];
    ghost var B, C := b[..][bOff..][..bSize], c[..][cOff..][..cSize];
    i, j := 0, 0;
    out := [];
    while i < bSize && j < cSize
      invariant Progress(R0, rOff, B, C, i, j, out, result[..])
      decreases bSize + cSize - i - j
    {
      i, j, out := MergeStep(result, rOff, b, bOff, bSize, c, cOff, cSize, i, j, out, R0);
    }
  }

  /** One iteration of the first merge loop: store the smaller front, `b`'s on a tie. */
  method MergeStep(result: array<int>, rOff: nat,
                   b: array<int>, bOff: nat, bSize: nat,
                   c: array<int>, cOff: nat, cSize: nat,
                   i: nat, j: nat, ghost out: seq<int>, ghost R0: seq<int>)
    returns (i': nat, j': nat, ghost out': seq<int>)
    requires result != b && result != c
    requires rOff + bSize + cSize <= result.Length
    requires bOff + bSize <= b.Length && cOff + cSize <= c.Length
    requires i < bSize && j < cSize
    requires Progress(R0, rOff, b[..][bOff..][..bSize], c[..][cOff..][..cSize], i, j, out, result[..])
    modifies result
    ensures i' + j' == i + j + 1
    ensures Progress(R0, rOff, b[..][bOff..][..bSize], c[..][cOff..][..cSize], i', j', out', result[..])
  {
    ghost var B, C := b[..][bOff..][..bSize], c[..][cOff..][..cSize];
    if b[bOff + i] <= c[cOff + j] {
      StepB(R0, rOff, B, C, i, j, out, result[..], rOff + i + j);
      result[rOff + i + j] := b[bOff + i];
      out' := out + [B[i]];
      i', j' := i + 1, j;
    } else {
      StepC(R0, rOff, B, C, i, j, out, result[..], rOff + i + j);
      result[rOff + i + j] := c[cOff + j];
      out' := out + [C[j]];
      i', j' := i, j + 1;
    }
  }

  /** Storing the front of `B` at `at` keeps `Progress`. */
  lemma StepB(R0: seq<int>, rOff: nat, B: seq<int>, C: seq<int>, i: nat, j: nat, out: seq<int>,
              r: seq<int>, at: nat)
    requires i < |B| && j < |C| && at == rOff + |out|
    requires Progress(R0, rOff, B, C, i, j, out, r)
    requires B[i] <= C[j]
    ensures Progress(R0, rOff, B, C, i + 1, j, out + [B[i]], r[at := B[i]])
  {
    TakeB(B, C, i, j, out);
    SpliceWrite(R0, rOff, out, B[i], at);
  }

  /** Storing the front of `C` at `at` keeps `Progress`. */
  lemma StepC(R0: seq<int>, rOff: nat, B: seq<int>, C: seq<int>, i: nat, j: nat, out: seq<int>,
              r: seq<int>, at: nat)
    requires i < |B| && j < |C| && at == rOff + |out|
    requires Progress(R0, rOff, B, C, i, j, out, r)
    requires !(B[i] <= C[j])
    ensures Progress(R0, rOff, B, C, i, j + 1, out + [C[j]], r[at := C[j]])
  {
    TakeC(B, C, i, j, out);
    SpliceWrite(R0, rOff, out, C[j], at);
  }

  /** When `B`'s front is the smaller, it is the next element of the merge. */
  lemma TakeB(B: seq<int>, C: seq<int>, i: nat, j: nat, out: seq<int>)
    requires i < |B| && j < |C|
    requires out + MergeFrom(B, C, i, j) == Merge(B, C)
    requires B[i] <= C[j]
    ensures (out + [B[i]]) + MergeFrom(B, C, i + 1, j) == Merge(B, C)
  {
    assert out + MergeFrom(B, C, i, j) == (out + [B[i]]) + MergeFrom(B, C, i + 1, j);
  }

  /** When `C`'s front is the smaller, it is the next element of the merge. */
  lemma TakeC(B: seq<int>, C: seq<int>, i: nat, j: nat, out: seq<int>)
    requires i < |B| && j < |C|
    requires out + MergeFrom(B, C, i, j) == Merge(B, C)
    requires !(B[i] <= C[j])
    ensures (out + [C[j]]) + MergeFrom(B, C, i, j + 1) == Merge(B, C)
  {
    assert out + MergeFrom(B, C, i, j) == (out + [C[j]]) + MergeFrom(B, C, i, j + 1);
  }

  /** After the two drain loops the whole merge is in place. */
  lemma Drained(R0: seq<int>, rOff: nat, bs: seq<int>, bOff: nat, bSize: nat,
                cs: seq<int>, cOff: nat, cSize: nat,
                i: nat, j: nat, out: seq<int>, R1: seq<int>, R2: seq<int>, R3: seq<int>)
    requires bOff + bSize <= |bs| && cOff + cSize <= |cs|
    requires i == bSize || j == cSize
    requires Progress(R0, rOff, bs[bOff..][..bSize], cs[cOff..][..cSize], i, j, out, R1)
    requires rOff + bSize + j + (cSize - j) <= |R1|
    requires R2 == Splice(R1, rOff + i + j, bs[bOff + i..][..bSize - i])
    requires R3 == Splice(R2, rOff + bSize + j, cs[cOff + j..][..cSize - j])
    ensures R3 == Splice(R0, rOff, Merge(bs[bOff..][..bSize], cs[cOff..][..cSize]))
  {
    var B, C := bs[bOff..][..bSize], cs[cOff..][..cSize];
    var tb, tc := B[i..], C[j..];
    SliceRest(bs, bOff, bSize, i);
    SliceRest(cs, cOff, cSize, j);
    assert R2 == Splice(Splice(R0, rOff, out), rOff + i + j, tb);
    SpliceAdjacent(R0, rOff, out, rOff + i + j, tb);
    assert R3 == Splice(Splice(R0, rOff, out + tb), rOff + bSize + j, tc);
    SpliceAdjacent(R0, rOff, out + tb, rOff + bSize + j, tc);
    RestOfMerge(B, C, i, j);
    Assoc(out, tb, tc);
  }

  /** Once one run is used up, the rest of the merge is the rest of both runs. */
  lemma RestOfMerge(B: seq<int>, C: seq<int>, i: nat, j: nat)
    requires i <= |B| && j <= |C| && (i == |B| || j == |C|)
    ensures MergeFrom(B, C, i, j) == B[i..] + C[j..]
  {
    if i == |B| {
      assert B[i..] == [];
    } else {
      assert C[j..] == [];
    }
  }

  /** Concatenation regrouped, for the two drained tails. */
  lemma Assoc(a: seq<int>, b: seq<int>, c: seq<int>)
    ensures a + b + c == a + (b + c)
  {
  }

  // ---------------------------------------------------------------------
  // memcpy and the drain loops of s_merge
  // ---------------------------------------------------------------------

  /** Copies `source[sOff..sOff + n]` to `dest[dOff..]`, one element at a time. */
  method Copy(dest: array<int>, dOff: nat, source: array<int>, sOff: nat, n: nat)
    requires dest != source
    requires dOff + n <= dest.Length && sOff + n <= source.Length
    modifies dest
    ensures dest[..] == Splice(old(dest[..]), dOff, source[..][sOff..][..n])
  {
    ghost var D0 := dest[..];
    ghost var S := source[..][sOff..][..n];
    assert S[..0] == [];
    for k := 0 to n
      invariant dest[..] == Splice(D0, dOff, S[..k])
    {
      CopyStep(D0, dOff, S, k, dest[..], dOff + k);
      dest[dOff + k] := source[sOff + k];
    }
    assert S[..n] == S;
  }

  /** Storing `S[k]` after the first `k` copied elements extends the copy by one. */
  lemma CopyStep(D0: seq<int>, dOff: nat, S: seq<int>, k: nat, r: seq<int>, at: nat)
    requires k < |S| && dOff + |S| <= |D0| && at == dOff + k
    requires r == Splice(D0, dOff, S[..k])
    ensures r[at := S[k]] == Splice(D0, dOff, S[..k + 1])
  {
    assert S[..k] + [S[k]] == S[..k + 1];
    SpliceWrite(D0, dOff, S[..k], S[k], at);
  }

  // ---------------------------------------------------------------------
  // partition
  // ---------------------------------------------------------------------

  /** `s[m]` is `v`, everything before it is at most `v`, everything after it above `v`. */
  ghost predicate Partitioned(s: seq<int>, m: int, v: int) {
    0 <= m < |s| && s[m] == v && AllAtMost(s[..m], v) && AllAbove(s[m + 1..], v)
  }

  /**
   `s` is `s0` with `s0[start..end]` (both ends inclusive) rearranged and
   partitioned at `p` around the pivot `s0[end]`; nothing outside moved.
   */
  ghost predicate PartitionedRange(s0: seq<int>, s: seq<int>, start: int, end: int, p: int) {
    && 0 <= start <= p <= end < |s0| && |s| == |s0|
    && Partitioned(s[start..end + 1], p - start, s0[end])
    && multiset(s[start..end + 1]) == multiset(s0[start..end + 1])
    && s[..start] == s0[..start] && s[end + 1..] == s0[end + 1..]
  }

  /**
   State of the partition loop over `s0[start..end]` (both ends inclusive)
   when the scan has reached `j`: `s[start..i]` is at most the pivot,
   `s[i + 1..j - 1]` is above it, the pivot is still at `end`, the range
   holds the same elements and nothing outside it moved.
   */
  ghost predicate Scanned(s: seq<int>, s0: seq<int>, start: int, end: int, pivot: int, i: int, j: int) {
    && 0 <= start <= end < |s| && |s| == |s0|
    && start - 1 <= i < j <= end
    && s[end] == pivot && s0[end] == pivot
    && (forall k :: start <= k <= i ==> s[k] <= pivot)
    && (forall k :: i < k < j ==> s[k] > pivot)
    && multiset(s[start..end + 1]) == multiset(s0[start..end + 1])
    && s[..start] == s0[..start] && s[end + 1..] == s0[end + 1..]
  }

  /**
   Lomuto partition of `buf[start..end]` (both ends inclusive) around the
   pivot `buf[end]`: elements at most the pivot are swapped into a growing
   prefix, then the pivot is swapped into the slot after it, whose index
   is returned.
   */
  method Partition(buf: array<int>, start: int, end: int) returns (p: int)
    requires 0 <= start <= end < buf.Length
    modifies buf
    ensures PartitionedRange(old(buf[..]), buf[..], start, end, p)
  {
    ghost var s0 := buf[..];
    var pivot := buf[end];
    var i := start - 1;
    for j := start to end
      invariant Scanned(buf[..], s0, start, end, pivot, i, j)
    {
      i := PartitionStep(buf, start, end, pivot, i, j, s0);
    }
    ghost var s := buf[..];
    var temp := buf[i + 1];
    buf[i + 1] := buf[end];
    buf[end] := temp;
    PartitionEnd(s, s0, start, end, pivot, i, buf[..]);
    p := i + 1;
  }

  /** One iteration of the partition loop: swap `buf[j]` into the low part if it is at most the pivot. */
  method PartitionStep(buf: array<int>, start: int, end: int, pivot: int, i: int, j: int,
                       ghost s0: seq<int>) returns (i': int)
    requires j < end && Scanned(buf[..], s0, start, end, pivot, i, j)
    modifies buf
    ensures Scanned(buf[..], s0, start, end, pivot, i', j + 1)
  {
    ghost var s := buf[..];
    if buf[j] <= pivot {
      i' := i + 1;
      var temp := buf[i'];
      buf[i'] := buf[j];
      buf[j] := temp;
      ScanSwap(s, s0, start, end, pivot, i, j, buf[..]);
    } else {
      i' := i;
      ScanSkip(s, s0, start, end, pivot, i, j);
    }
  }

  /** An element above the pivot just extends the high part. */
  lemma ScanSkip(s: seq<int>, s0: seq<int>, start: int, end: int, pivot: int, i: int, j: int)
    requires j < end && Scanned(s, s0, start, end, pivot, i, j) && s[j] > pivot
    ensures Scanned(s, s0, start, end, pivot, i, j + 1)
  {
  }

  /** Swapping an element at most the pivot to `i + 1` extends the low part. */
  lemma ScanSwap(s: seq<int>, s0: seq<int>, start: int, end: int, pivot: int, i: int, j: int, t: seq<int>)
    requires j < end && Scanned(s, s0, start, end, pivot, i, j) && s[j] <= pivot
    requires t == s[i + 1 := s[j]][j := s[i + 1]]
    ensures Scanned(t, s0, start, end, pivot, i + 1, j + 1)
  {
    SwapPermutation(s, start, end + 1, i + 1, j, t);
    SwapFrame(s, start, end + 1, i + 1, j, t);
    forall k | start <= k <= i + 1 ensures t[k] <= pivot {
      if k <= i {
        assert t[k] == s[k];
      }
    }
    forall k | i + 1 < k < j + 1 ensures t[k] > pivot {
      if k < j {
        assert t[k] == s[k];
      } else {
        assert t[k] == s[i + 1];
      }
    }
  }

  /** The final swap of the partition leaves the range partitioned at `i + 1`. */
  lemma PartitionEnd(s: seq<int>, s0: seq<int>, start: int, end: int, pivot: int, i: int, t: seq<int>)
    requires Scanned(s, s0, start, end, pivot, i, end)
    requires t == s[i + 1 := s[end]][end := s[i + 1]]
    ensures PartitionedRange(s0, t, start, end, i + 1)
  {
    SwapPermutation(s, start, end + 1, i + 1, end, t);
    SwapFrame(s, start, end + 1, i + 1, end, t);
    PivotPlaced(s, start, end, pivot, i, t);
  }

  /** Swapping the pivot into the slot after the low part partitions the range. */
  lemma PivotPlaced(s: seq<int>, start: int, end: int, pivot: int, i: int, t: seq<int>)
    requires 0 <= start <= i + 1 <= end < |s| && s[end] == pivot
    requires forall k :: start <= k <= i ==> s[k] <= pivot
    requires forall k :: i < k < end ==> s[k] > pivot
    requires t == s[i + 1 := s[end]][end := s[i + 1]]
    ensures Partitioned(t[start..end + 1], i + 1 - start, pivot)
  {
    var seg, m := t[start..end + 1], i + 1 - start;
    assert seg[m] == pivot;
    forall k | 0 <= k < m ensures seg[..m][k] <= pivot {
      assert seg[..m][k] == s[start + k];
    }
    forall k | m + 1 <= k < |seg| ensures pivot < seg[k] {
      if start + k < end {
        assert seg[k] == s[start + k];
      } else {
        assert seg[k] == s[i + 1];
      }
    }
  }

  /** Exchanging two elements inside `s[lo..hi]` keeps its elements. */
  lemma SwapPermutation(s: seq<int>, lo: int, hi: int, x: int, y: int, t: seq<int>)
    requires 0 <= lo <= x < hi <= |s| && lo <= y < hi
    requires t == s[x := s[y]][y := s[x]]
    ensures multiset(t[lo..hi]) == multiset(s[lo..hi])
  {
    var u := s[lo..hi];
    var w := u[x - lo := s[y]][y - lo := s[x]];
    forall k | 0 <= k < hi - lo ensures t[lo..hi][k] == w[k] {
    }
    assert t[lo..hi] == w;
  }

  /** Exchanging two elements inside `s[lo..hi]` changes nothing outside it. */
  lemma SwapFrame(s: seq<int>, lo: int, hi: int, x: int, y: int, t: seq<int>)
    requires 0 <= lo <= x < hi <= |s| && lo <= y < hi
    requires t == s[x := s[y]][y := s[x]]
    ensures t[..lo] == s[..lo] && t[hi..] == s[hi..]
  {
  }

  // ---------------------------------------------------------------------
  // recursive_quicksort and quicksort
  // ---------------------------------------------------------------------

  /**
   Quicksort of `buf[start..end]` (both ends inclusive): nothing to do for
   fewer than two elements, otherwise partition and sort both sides of the
   pivot. Both recursive ranges exclude the pivot, so they are smaller.
   */
  method RecursiveQuicksort(buf: array<int>, start: int, end: int)
    requires 0 <= start <= end + 1 <= buf.Length
    modifies buf
    ensures buf[..] == Splice(old(buf[..]), start, Sort(old(buf[..])[start..end + 1]))
    decreases end - start, 2
  {
    if start >= end {
      SortShort(buf[..][start..end + 1]);
      SpliceSame(buf[..], start, end + 1);
      return;
    }
    ghost var s0 := buf[..];
    var mid := Partition(buf, start, end);
    SortSides(buf, start, end, mid, s0);
  }

  /** The first recursive call, below the placed pivot `buf[p]`, then the second. */
  method SortSides(buf: array<int>, start: int, end: int, p: int, ghost s0: seq<int>)
    requires 0 <= start <= p <= end < buf.Length == |s0|
    requires PartitionedRange(s0, buf[..], start, end, p)
    modifies buf
    ensures buf[..] == Splice(s0, start, Sort(s0[start..end + 1]))
    decreases end - start, 1
  {
    ghost var s1 := buf[..];
    RecursiveQuicksort(buf, start, p - 1);
    SortRight(buf, start, end, p, s0, s1);
  }

  /** The second recursive call, above the pivot, once the part below it is sorted. */
  method SortRight(buf: array<int>, start: int, end: int, p: int, ghost s0: seq<int>, ghost s1: seq<int>)
    requires 0 <= start <= p <= end < buf.Length == |s0|
    requires PartitionedRange(s0, s1, start, end, p)
    requires buf[..] == Splice(s1, start, Sort(s1[start..p]))
    modifies buf
    ensures buf[..] == Splice(s0, start, Sort(s0[start..end + 1]))
    decreases end - start, 0
  {
    ghost var s2 := buf[..];
    RecursiveQuicksort(buf, p + 1, end);
    QuicksortGlue(s0, s1, s2, buf[..], start, end, p);
  }

  /** The two recursive sorts around a placed pivot sort the whole range. */
  lemma QuicksortGlue(s0: seq<int>, s1: seq<int>, s2: seq<int>, s3: seq<int>, start: int, end: int, p: int)
    requires PartitionedRange(s0, s1, start, end, p)
    requires s2 == Splice(s1, start, Sort(s1[start..p]))
    requires s3 == Splice(s2, p + 1, Sort(s2[p + 1..end + 1]))
    ensures s3 == Splice(s0, start, Sort(s0[start..end + 1]))
  {
    var L, v, R := s1[start..p], s0[end], s1[p + 1..end + 1];
    PartitionedParts(s1, start, end, p, v);
    var left := Sort(L);
    SpliceOutside(s1, start, left, p + 1, end + 1);
    var right := Sort(R);
    QuicksortFrame(s0, s1, s2, s3, start, end, p, left, right);
    QuicksortOrder(L, v, R, s0[start..end + 1]);
  }

  /** A partitioned range is its low part, the pivot and its high part. */
  lemma PartitionedParts(s: seq<int>, start: int, end: int, p: int, v: int)
    requires 0 <= start <= p <= end < |s|
    requires Partitioned(s[start..end + 1], p - start, v)
    ensures AllAtMost(s[start..p], v) && AllAbove(s[p + 1..end + 1], v)
    ensures s[start..end + 1] == s[start..p] + [v] + s[p + 1..end + 1]
  {
    var P, m := s[start..end + 1], p - start;
    assert P[..m] == s[start..p];
    assert P[m + 1..] == s[p + 1..end + 1];
    assert P == P[..m] + [v] + P[m + 1..];
  }

  /** Where the pivot and the two sorted sides land in the buffer. */
  lemma QuicksortFrame(s0: seq<int>, s1: seq<int>, s2: seq<int>, s3: seq<int>, start: int, end: int, p: int,
                       left: seq<int>, right: seq<int>)
    requires 0 <= start <= p <= end < |s0| && |s1| == |s0|
    requires |left| == p - start && |right| == end - p
    requires s1[..start] == s0[..start] && s1[end + 1..] == s0[end + 1..] && s1[p] == s0[end]
    requires s2 == Splice(s1, start, left)
    requires s3 == Splice(s2, p + 1, right)
    ensures s3 == Splice(s0, start, left + [s0[end]] + right)
  {
    var w := left + [s0[end]] + right;
    forall k | 0 <= k < |s0| ensures s3[k] == Splice(s0, start, w)[k] {
      SpliceAt(s2, p + 1, right, k);
      SpliceAt(s1, start, left, k);
      SpliceAt(s0, start, w, k);
      if k < start {
        assert s1[..start][k] == s0[..start][k];
      } else if k > end {
        assert s1[end + 1..][k - end - 1] == s0[end + 1..][k - end - 1];
      }
    }
  }

  /** Sorting both sides of a placed pivot sorts the whole range. */
  lemma QuicksortOrder(L: seq<int>, v: int, R: seq<int>, Q: seq<int>)
    requires AllAtMost(L, v) && AllAbove(R, v)
    requires multiset(L + [v] + R) == multiset(Q)
    ensures Sort(L) + [v] + Sort(R) == Sort(Q)
  {
    var SL, SR := Sort(L), Sort(R);
    assert Sorted(SL + [v] + SR) by {
      SortIsSortedPermutation(L);
      SortIsSortedPermutation(R);
      PermutationBounds(L, SL, v);
      PermutationBounds(R, SR, v);
      AboveIsAtLeast(SR, v);
      SortedAround(SL, v, SR);
    }
    assert multiset(SL + [v] + SR) == multiset(Q) by {
      SortIsSortedPermutation(L);
      SortIsSortedPermutation(R);
      AroundPermutation(L, v, R);
      AroundPermutation(SL, v, SR);
    }
    SortIsUnique(Q, SL + [v] + SR);
  }

  /** Strictly above `v` implies at least `v`. */
  lemma AboveIsAtLeast(s: seq<int>, v: int)
    requires AllAbove(s, v)
    ensures AllAtLeast(s, v)
  {
  }

  /**
   Copies `source[sOff..sOff + size]` into `result[rOff..]` and sorts the
   copy in place with `RecursiveQuicksort(result, rOff, rOff + size - 1)`.
   */
  method Quicksort(result: array<int>, rOff: nat, source: array<int>, sOff: nat, size: nat)
    requires result != source
    requires rOff + size <= result.Length && sOff + size <= source.Length
    modifies result
    ensures result[..] == Splice(old(result[..]), rOff, Sort(source[..][sOff..][..size]))
  {
    ghost var R0 := result[..];
    ghost var S := source[..][sOff..][..size];
    Copy(result, rOff, source, sOff, size);
    SpliceRange(R0, rOff, S);
    RecursiveQuicksort(result, rOff, rOff + size - 1);
    SpliceOver(R0, rOff, S, Sort(S));
  }
}
