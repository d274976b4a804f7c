/**
 The Cilk back-end: a parallel merge that splits the larger run at its
 middle element and finds the matching split point of the smaller run by
 binary search, and a merge sort that sorts the two halves of its input
 into a scratch buffer and merges them back with that parallel merge.
 Below `THRESHOLD` elements both fall back to the sequential kernels.

 `cilk_spawn f(...); g(...); cilk_sync;` is modelled as `f(...); g(...);`:
 the spawned call and the continuation write disjoint ranges of the
 result and only read their inputs, so running them one after the other
 gives the same final buffer (`Buffer.SpliceCommute`).
 */
module CilkSort {
  import opened Sorting
  import opened Buffer
  import opened Serial

  /** Below this many elements the merge and the sort run sequentially. */
  const THRESHOLD: nat := 512

  /**
   Merges the sorted runs `b[bOff..bOff + bSize]` and `c[cOff..cOff + cSize]`
   into `result[rOff..]`. The larger run is always called `b` (the operands
   are exchanged otherwise); a `b` of at most `THRESHOLD` elements is merged
   sequentially. Otherwise the middle element `b[mid]` is stored at
   `mid + bin`, where `bin` is its insertion point in `c`, and the parts
   left and right of the split are merged independently. The two runs may
   be parts of one buffer, but neither overlaps `result`.
   */
  method PMerge(result: array<int>, rOff: nat,
                b: array<int>, bOff: nat, bSize: nat,
                c: array<int>, cOff: nat, cSize: nat)
    requires result != b && result != c
    requires rOff + bSize + cSize <= result.Length
    requires bOff + bSize <= b.Length && cOff + cSize <= c.Length
    requires Sorted(b[..][bOff..][..bSize]) && Sorted(c[..][cOff..][..cSize])
    modifies result
    ensures result[..] == Splice(old(result[..]), rOff, Merge(b[..][bOff..][..bSize], c[..][cOff..][..cSize]))
    decreases bSize + cSize, if bSize < cSize then 3 else 2
  {
    if bSize < cSize {
      PMerge(result, rOff, c, cOff, cSize, b, bOff, bSize);
      MergeCommutes(c[..][cOff..][..cSize], b[..][bOff..][..bSize]);
    } else if bSize <= THRESHOLD {
      SMerge(result, rOff, b, bOff, bSize, c, cOff, cSize);
    } else {
      PSplit(result, rOff, b, bOff, bSize, c, cOff, cSize);
    }
  }

  /**
   The parallel branch of `PMerge`, for `b` the larger run and longer than
   `THRESHOLD`: find the insertion point `bin` of the middle element
   `b[mid]` in `c` and store `b[mid]` at `mid + bin`. An empty `c` needs no
   search: its only insertion point is 0.
   */
  method PSplit(result: array<int>, rOff: nat,
                b: array<int>, bOff: nat, bSize: nat,
                c: array<int>, cOff: nat, cSize: nat)
    requires result != b && result != c
    requires rOff + bSize + cSize <= result.Length
    requires bOff + bSize <= b.Length && cOff + cSize <= c.Length
    requires Sorted(b[..][bOff..][..bSize]) && Sorted(c[..][cOff..][..cSize])
    requires cSize <= bSize && THRESHOLD < bSize
    modifies result
    ensures result[..] == Splice(old(result[..]), rOff, Merge(b[..][bOff..][..bSize], c[..][cOff..][..cSize]))
    decreases bSize + cSize, 1
  {
    ghost var R0 := result[..];
    var mid := bSize / 2;
    var bin := 0;
    if cSize > 0 {
      bin := BinarySearch(c, cOff, cSize, b[bOff + mid]);
    }
    result[rOff + mid + bin] := b[bOff + mid];
    MergeSides(result, rOff, b, bOff, bSize, c, cOff, cSize, mid, bin, R0);
  }

  /**
   The two recursive merges of the parallel branch: the parts left of the
   split into `result[rOff..rOff + mid + bin]`, the parts right of it after
   the middle element.
   */
  method MergeSides(result: array<int>, rOff: nat,
                    b: array<int>, bOff: nat, bSize: nat,
                    c: array<int>, cOff: nat, cSize: nat,
                    mid: nat, bin: int, ghost R0: seq<int>)
    requires result != b && result != c
    requires rOff + bSize + cSize <= result.Length == |R0|
    requires bOff + bSize <= b.Length && cOff + cSize <= c.Length
    requires Sorted(b[..][bOff..][..bSize]) && Sorted(c[..][cOff..][..cSize])
    requires mid < bSize && IsSplit(c[..][cOff..][..cSize], b[bOff + mid], bin)
    requires result[..] == R0[rOff + mid + bin := b[bOff + mid]]
    modifies result
    ensures result[..] == Splice(R0, rOff, Merge(b[..][bOff..][..bSize], c[..][cOff..][..cSize]))
    decreases bSize + cSize, 0
  {
    ghost var bs, cs := b[..], c[..];
    SplitWindows(bs, bOff, bSize, mid, cs, cOff, cSize, bin);
    ghost var R1 := result[..];
    PMerge(result, rOff, b, bOff, mid, c, cOff, bin);
    ghost var R2 := result[..];
    PMerge(result, rOff + mid + bin + 1, b, bOff + mid + 1, bSize - mid - 1, c, cOff + bin, cSize - bin);
    SplitMerged(R0, R1, R2, result[..], rOff, bs, bOff, bSize, cs, cOff, cSize, mid, bin);
  }

  /** The sub-runs handed to the two recursive merges are the parts of the split, and sorted. */
  lemma SplitWindows(bs: seq<int>, bOff: nat, bSize: nat, mid: nat,
                     cs: seq<int>, cOff: nat, cSize: nat, bin: int)
    requires bOff + bSize <= |bs| && cOff + cSize <= |cs| && mid < bSize
    requires Sorted(bs[bOff..][..bSize]) && Sorted(cs[cOff..][..cSize])
    requires IsSplit(cs[cOff..][..cSize], bs[bOff + mid], bin)
    ensures 0 <= bin <= cSize
    ensures bs[bOff..][..mid] == bs[bOff..][..bSize][..mid]
    ensures bs[bOff + mid + 1..][..bSize - mid - 1] == bs[bOff..][..bSize][mid + 1..]
    ensures cs[cOff..][..bin] == cs[cOff..][..cSize][..bin]
    ensures cs[cOff + bin..][..cSize - bin] == cs[cOff..][..cSize][bin..]
    ensures Sorted(bs[bOff..][..mid]) && Sorted(bs[bOff + mid + 1..][..bSize - mid - 1])
    ensures Sorted(cs[cOff..][..bin]) && Sorted(cs[cOff + bin..][..cSize - bin])
  {
    var B, C := bs[bOff..][..bSize], cs[cOff..][..cSize];
    SlicePrefix(bs, bOff, bSize, mid);
    SliceRest(bs, bOff, bSize, mid + 1);
    SlicePrefix(cs, cOff, cSize, bin);
    SliceRest(cs, cOff, cSize, bin);
    SortedSlice(B, 0, mid);
    SortedSlice(B, mid + 1, bSize);
    SortedSlice(C, 0, bin);
    SortedSlice(C, bin, cSize);
    assert B[..mid] == B[0..mid] && B[mid + 1..] == B[mid + 1..bSize];
    assert C[..bin] == C[0..bin] && C[bin..] == C[bin..cSize];
  }

  /** The middle element and the two recursive merges together write the merge of the two runs. */
  lemma SplitMerged(R0: seq<int>, R1: seq<int>, R2: seq<int>, R3: seq<int>, rOff: nat,
                    bs: seq<int>, bOff: nat, bSize: nat, cs: seq<int>, cOff: nat, cSize: nat,
                    mid: nat, bin: int)
    requires bOff + bSize <= |bs| && cOff + cSize <= |cs| && mid < bSize
    requires Sorted(bs[bOff..][..bSize]) && Sorted(cs[cOff..][..cSize])
    requires IsSplit(cs[cOff..][..cSize], bs[bOff + mid], bin)
    requires rOff + bSize + cSize <= |R0|
    requires R1 == R0[rOff + mid + bin := bs[bOff + mid]]
    requires R2 == Splice(R1, rOff, Merge(bs[bOff..][..mid], cs[cOff..][..bin]))
    requires R3 == Splice(R2, rOff + mid + bin + 1,
                          Merge(bs[bOff + mid + 1..][..bSize - mid - 1], cs[cOff + bin..][..cSize - bin]))
    ensures R3 == Splice(R0, rOff, Merge(bs[bOff..][..bSize], cs[cOff..][..cSize]))
  {
    var B, C := bs[bOff..][..bSize], cs[cOff..][..cSize];
    SplitWindows(bs, bOff, bSize, mid, cs, cOff, cSize, bin);
    assert B[mid] == bs[bOff + mid];
    var left, right := Merge(B[..mid], C[..bin]), Merge(B[mid + 1..], C[bin..]);
    assert R1 == Splice(R0, rOff + |left|, [B[mid]]);
    SpliceAround(R0, rOff, left, B[mid], right);
    MergeSplit(B, C, mid, bin);
  }

  /**
   Sorts `source[sOff..sOff + size]` into `result[rOff..]`: sequentially by
   quicksort up to `THRESHOLD` elements, otherwise by sorting the two
   halves (split at `size / 2`) into a fresh scratch buffer and merging
   them into `result` with `PMerge`.
   */
  method MergeSort(result: array<int>, rOff: nat, source: array<int>, sOff: nat, size: nat)
    requires result != source
    requires rOff + size <= result.Length && sOff + size <= source.Length
    modifies result
    ensures result[..] == Splice(old(result[..]), rOff, Sort(source[..][sOff..][..size]))
    decreases size, 1
  {
    if size <= THRESHOLD {
      Quicksort(result, rOff, source, sOff, size);
    } else if size == 0 {
      // An empty input has already been handed to the quicksort.
      assert false;
    } else {
      ghost var R0, S := result[..], source[..][sOff..][..size];
      var h := size / 2;
      var scratch := new int[size];
      SortHalves(scratch, source, sOff, size, h);
      ghost var Z := scratch[..];
      HalvesWindows(S, h, Z);
      PMerge(result, rOff, scratch, 0, h, scratch, h, size - h);
      MergedHalves(S, h, Z, R0, result[..], rOff);
    }
  }

  /**
   The two recursive sorts of `MergeSort`: the first `h` elements of the
   input into `scratch[0..h]`, the rest into `scratch[h..]`.
   */
  method SortHalves(scratch: array<int>, source: array<int>, sOff: nat, size: nat, h: nat)
    requires scratch != source && scratch.Length == size && sOff + size <= source.Length
    requires 0 < h < size
    modifies scratch
    ensures scratch[..] == Sort(source[..][sOff..][..size][..h]) + Sort(source[..][sOff..][..size][h..])
    decreases size, 0
  {
    ghost var src := source[..];
    ghost var C0 := scratch[..];
    MergeSort(scratch, 0, source, sOff, h);
    ghost var C1 := scratch[..];
    MergeSort(scratch, h, source, sOff + h, size - h);
    SlicePrefix(src, sOff, size, h);
    SliceRest(src, sOff, size, h);
    FillBoth(C0, Sort(src[sOff..][..h]), Sort(src[sOff + h..][..size - h]), h, C1, scratch[..]);
  }

  /**
   Writing `x` at 0 and then `y` right after it fills a buffer of their
   combined length, and so does writing `y` first: the order the two
   sorted halves finish in does not matter.
   */
  lemma FillBoth(C0: seq<int>, x: seq<int>, y: seq<int>, h: nat, C1: seq<int>, C2: seq<int>)
    requires |C0| == |x| + |y| && h == |x|
    requires C1 == Splice(C0, 0, x) && C2 == Splice(C1, h, y)
    ensures C2 == x + y
    ensures C2 == Splice(Splice(C0, h, y), 0, x)
  {
    SpliceAdjacent(C0, 0, x, h, y);
    SpliceWhole(C0, x + y);
    SpliceCommute(C0, 0, x, h, y);
  }

  /** The two windows of the scratch buffer handed to `PMerge` are the two sorted halves. */
  lemma HalvesWindows(s: seq<int>, h: nat, z: seq<int>)
    requires h <= |s| && z == Sort(s[..h]) + Sort(s[h..])
    ensures z[0..][..h] == Sort(s[..h]) && Sorted(z[0..][..h])
    ensures z[h..][..|s| - h] == Sort(s[h..]) && Sorted(z[h..][..|s| - h])
  {
    SortIsSortedPermutation(s[..h]);
    SortIsSortedPermutation(s[h..]);
    assert z[0..][..h] == Sort(s[..h]);
    assert z[h..][..|s| - h] == Sort(s[h..]);
  }

  /** Merging the two sorted halves of `S` writes the sorted `S`. */
  lemma MergedHalves(S: seq<int>, h: nat, Z: seq<int>, R0: seq<int>, R1: seq<int>, rOff: nat)
    requires h <= |S| && Z == Sort(S[..h]) + Sort(S[h..]) && rOff + |S| <= |R0|
    requires R1 == Splice(R0, rOff, Merge(Z[0..][..h], Z[h..][..|S| - h]))
    ensures R1 == Splice(R0, rOff, Sort(S))
  {
    HalvesWindows(S, h, Z);
    MergeOfSorts(S, h);
  }

  /** `cilk_sort`: sorts the first `size` elements of `a` into a new buffer. */
  method CilkSort(a: array<int>, size: nat) returns (result: array<int>)
    requires size <= a.Length
    ensures fresh(result) && result.Length == size
    ensures result[..] == Sort(a[..][..size])
  {
    result := new int[size];
    ghost var R0 := result[..];
    MergeSort(result, 0, a, 0, size);
    assert a[..][0..] == a[..];
    SpliceWhole(R0, Sort(a[..][..size]));
  }
}
