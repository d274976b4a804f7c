/**
 The pthread back-end: the same parallel merge and merge sort as the Cilk
 one, but the left half of each split is handed to a new thread only when
 a bounded pool admits it, and runs on the calling thread otherwise; the
 right half always runs on the calling thread.

 The pool is the pair of globals `thread_count_` and `THREAD_MAX_NUM`,
 modelled as the fields of one `ThreadPool` object that every call
 receives. The mutex around them is not modelled: with the spawned call
 run to completion before the continuation, nothing else touches the pool
 in between. `pthread_create(f, args); g(...); pthread_join` becomes
 `f(...); g(...);`: the two calls write disjoint ranges, so the final
 buffer is the same (`Buffer.SpliceCommute`). Every call requires a valid
 pool, so each admission is checked to keep the count within the pool
 size by the precondition of the call it admits.
 */
module PthreadSort {
  import opened Sorting
  import opened Buffer
  import opened Serial
  import CilkSort

  /** Below this many elements the merge and the sort run sequentially. */
  const THRESHOLD: nat := 512

  /** The admission counter of the thread pool. */
  class ThreadPool {
    /** `thread_count_`: threads created and not yet joined. */
    var count: int
    /** `THREAD_MAX_NUM`: the pool size given on the command line. */
    var maxThreads: int

    /**
     The count is never negative and never above the pool size. A negative
     pool size is accepted by the setup; such a pool admits nothing and its
     count stays 0.
     */
    ghost predicate Valid()
      reads this
    {
      0 <= count && (count == 0 || count <= maxThreads)
    }

    /** Both globals start at 0. */
    constructor ()
      ensures count == 0 && maxThreads == 0 && Valid()
    {
      count := 0;
      maxThreads := 0;
    }

    /** `increment_thread_count`: admits one more thread if the pool is not full. */
    method Increment() returns (admitted: bool)
      modifies this
      ensures admitted <==> old(count) < old(maxThreads)
      ensures count == (if admitted then old(count) + 1 else old(count))
      ensures maxThreads == old(maxThreads)
      ensures old(Valid()) ==> Valid()
    {
      if count >= maxThreads {
        admitted := false;
      } else {
        count := count + 1;
        admitted := true;
      }
    }

    /** `decrement_thread_count`: a joined thread leaves the pool. */
    method Decrement()
      modifies this
      ensures count == old(count) - 1 && maxThreads == old(maxThreads)
      ensures old(Valid()) && old(count) > 0 ==> Valid()
    {
      count := count - 1;
    }

    /**
     `initialize_threads`: `mutexReady` is the outcome of creating the
     mutex. When it fails nothing else happens; otherwise the count is
     reset and the pool size set.
     */
    method Initialize(threads: int, mutexReady: bool) returns (ok: bool)
      modifies this
      ensures ok == mutexReady
      ensures ok ==> count == 0 && maxThreads == threads && Valid()
      ensures !ok ==> count == old(count) && maxThreads == old(maxThreads)
    {
      if !mutexReady {
        return false;
      }
      count := 0;
      maxThreads := threads;
      return true;
    }

    /**
     `cleanup_threads`: `mutexReleased` is the outcome of destroying the
     mutex. When it fails nothing else happens; otherwise both globals are
     reset to 0.
     */
    method Cleanup(mutexReleased: bool) returns (ok: bool)
      modifies this
      ensures ok == mutexReleased
      ensures ok ==> count == 0 && maxThreads == 0 && Valid()
      ensures !ok ==> count == old(count) && maxThreads == old(maxThreads)
    {
      if !mutexReleased {
        return false;
      }
      count := 0;
      maxThreads := 0;
      return true;
    }
  }

  /**
   `pthread_p_merge`: merges the sorted runs `b[bOff..bOff + bSize]` and
   `c[cOff..cOff + cSize]` into `result[rOff..]` as `CilkSort.PMerge` does.
   The merged contents do not depend on the pool, and every admission is
   matched by a release, so the pool is as it was on entry.
   */
  method PMerge(pool: ThreadPool, result: array<int>, rOff: nat,
                b: array<int>, bOff: nat, bSize: nat,
                c: array<int>, cOff: nat, cSize: nat)
    requires result != b && result != c
    requires rOff + bSize + cSize <= result.Length
    requires bOff + bSize <= b.Length && cOff + cSize <= c.Length
    requires Sorted(b[..][bOff..][..bSize]) && Sorted(c[..][cOff..][..cSize])
    requires pool.Valid()
    modifies result, pool
    ensures result[..] == Splice(old(result[..]), rOff, Merge(b[..][bOff..][..bSize], c[..][cOff..][..cSize]))
    ensures pool.count == old(pool.count) && pool.maxThreads == old(pool.maxThreads)
    decreases bSize + cSize, if bSize < cSize then 4 else 3
  {
    if bSize < cSize {
      PMerge(pool, result, rOff, c, cOff, cSize, b, bOff, bSize);
      MergeCommutes(c[..][cOff..][..cSize], b[..][bOff..][..bSize]);
    } else if bSize <= THRESHOLD {
      SMerge(result, rOff, b, bOff, bSize, c, cOff, cSize);
    } else {
      PSplit(pool, result, rOff, b, bOff, bSize, c, cOff, cSize);
    }
  }

  /**
   The parallel branch of `PMerge`: the insertion point `bin` of the middle
   element `b[mid]` in `c`, and `b[mid]` stored at `mid + bin`. An empty `c`
   needs no search: its only insertion point is 0.
   */
  method PSplit(pool: ThreadPool, result: array<int>, rOff: nat,
                b: array<int>, bOff: nat, bSize: nat,
                c: array<int>, cOff: nat, cSize: nat)
    requires result != b && result != c
    requires rOff + bSize + cSize <= result.Length
    requires bOff + bSize <= b.Length && cOff + cSize <= c.Length
    requires Sorted(b[..][bOff..][..bSize]) && Sorted(c[..][cOff..][..cSize])
    requires cSize <= bSize && THRESHOLD < bSize
    requires pool.Valid()
    modifies result, pool
    ensures result[..] == Splice(old(result[..]), rOff, Merge(b[..][bOff..][..bSize], c[..][cOff..][..cSize]))
    ensures pool.count == old(pool.count) && pool.maxThreads == old(pool.maxThreads)
    decreases bSize + cSize, 2
  {
    ghost var R0 := result[..];
    var mid := bSize / 2;
    var bin := 0;
    if cSize > 0 {
      bin := BinarySearch(c, cOff, cSize, b[bOff + mid]);
    }
    result[rOff + mid + bin] := b[bOff + mid];
    MergeSides(pool, result, rOff, b, bOff, bSize, c, cOff, cSize, mid, bin, R0);
  }

  /**
   The left one of the two recursive merges around the middle element: on
   a thread of the pool when the pool admits one, on this thread otherwise.
   */
  method MergeSides(pool: ThreadPool, result: array<int>, rOff: nat,
                    b: array<int>, bOff: nat, bSize: nat,
                    c: array<int>, cOff: nat, cSize: nat,
                    mid: nat, bin: int, ghost R0: seq<int>)
    requires result != b && result != c
    requires rOff + bSize + cSize <= result.Length == |R0|
    requires bOff + bSize <= b.Length && cOff + cSize <= c.Length
    requires Sorted(b[..][bOff..][..bSize]) && Sorted(c[..][cOff..][..cSize])
    requires mid < bSize && IsSplit(c[..][cOff..][..cSize], b[bOff + mid], bin)
    requires result[..] == R0[rOff + mid + bin := b[bOff + mid]]
    requires pool.Valid()
    modifies result, pool
    ensures result[..] == Splice(R0, rOff, Merge(b[..][bOff..][..bSize], c[..][cOff..][..cSize]))
    ensures pool.count == old(pool.count) && pool.maxThreads == old(pool.maxThreads)
    decreases bSize + cSize, 1
  {
    CilkSort.SplitWindows(b[..], bOff, bSize, mid, c[..], cOff, cSize, bin);
    ghost var R1, count := result[..], pool.count;
    var spawned := pool.Increment();
    if spawned {
      // On a new thread of the pool.
      PMerge(pool, result, rOff, b, bOff, mid, c, cOff, bin);
    } else {
      // The pool is full: on this thread.
      PMerge(pool, result, rOff, b, bOff, mid, c, cOff, bin);
    }
    MergeRight(pool, result, rOff, b, bOff, bSize, c, cOff, cSize, mid, bin, R0, R1, spawned, count);
  }

  /**
   The right one of the two recursive merges, always on this thread, and
   the release of the thread the left one was admitted to, if any.
   */
  method MergeRight(pool: ThreadPool, result: array<int>, rOff: nat,
                    b: array<int>, bOff: nat, bSize: nat,
                    c: array<int>, cOff: nat, cSize: nat,
                    mid: nat, bin: int, ghost R0: seq<int>, ghost R1: seq<int>,
                    spawned: bool, ghost count: int)
    requires result != b && result != c
    requires rOff + bSize + cSize <= result.Length == |R0|
    requires bOff + bSize <= b.Length && cOff + cSize <= c.Length
    requires Sorted(b[..][bOff..][..bSize]) && Sorted(c[..][cOff..][..cSize])
    requires mid < bSize && IsSplit(c[..][cOff..][..cSize], b[bOff + mid], bin)
    requires R1 == R0[rOff + mid + bin := b[bOff + mid]]
    requires result[..] == Splice(R1, rOff, Merge(b[..][bOff..][..mid], c[..][cOff..][..bin]))
    requires pool.count == (if spawned then count + 1 else count)
    requires pool.Valid()
    modifies result, pool
    ensures result[..] == Splice(R0, rOff, Merge(b[..][bOff..][..bSize], c[..][cOff..][..cSize]))
    ensures pool.count == count && pool.maxThreads == old(pool.maxThreads)
    decreases bSize + cSize, 0
  {
    ghost var bs, cs := b[..], c[..];
    CilkSort.SplitWindows(bs, bOff, bSize, mid, cs, cOff, cSize, bin);
    ghost var R2 := result[..];
    PMerge(pool, result, rOff + mid + bin + 1, b, bOff + mid + 1, bSize - mid - 1, c, cOff + bin, cSize - bin);
    CilkSort.SplitMerged(R0, R1, R2, result[..], rOff, bs, bOff, bSize, cs, cOff, cSize, mid, bin);
    if spawned {
      pool.Decrement();
    }
  }

  /**
   `pthread_merge_sort`: sorts `source[sOff..sOff + size]` into
   `result[rOff..]` as `CilkSort.MergeSort` does, leaving the pool as it
   was on entry.
   */
  method MergeSort(pool: ThreadPool, result: array<int>, rOff: nat, source: array<int>, sOff: nat, size: nat)
    requires result != source
    requires rOff + size <= result.Length && sOff + size <= source.Length
    requires pool.Valid()
    modifies result, pool
    ensures result[..] == Splice(old(result[..]), rOff, Sort(source[..][sOff..][..size]))
    ensures pool.count == old(pool.count) && pool.maxThreads == old(pool.maxThreads)
    decreases size, 1
  {
    if size <= THRESHOLD {
      Quicksort(result, rOff, source, sOff, size);
    } else if size == 0 {
      // An empty input has already been handed to the quicksort.
      assert false;
    } else {
      ghost var R0, S := result[..], source[..][sOff..][..size];
      var h := size / 2;
      var scratch := new int[size];
      SortHalves(pool, scratch, source, sOff, size, h);
      ghost var Z := scratch[..];
      CilkSort.HalvesWindows(S, h, Z);
      PMerge(pool, result, rOff, scratch, 0, h, scratch, h, size - h);
      CilkSort.MergedHalves(S, h, Z, R0, result[..], rOff);
    }
  }

  /**
   The two recursive sorts of `MergeSort` into the scratch buffer: the
   first half on a thread of the pool when one is admitted and on this
   thread otherwise, the second half on this thread.
   */
  method SortHalves(pool: ThreadPool, scratch: array<int>, source: array<int>, sOff: nat, size: nat, h: nat)
    requires scratch != source && scratch.Length == size && sOff + size <= source.Length
    requires 0 < h < size
    requires pool.Valid()
    modifies scratch, pool
    ensures scratch[..] == Sort(source[..][sOff..][..size][..h]) + Sort(source[..][sOff..][..size][h..])
    ensures pool.count == old(pool.count) && pool.maxThreads == old(pool.maxThreads)
    decreases size, 0
  {
    ghost var src := source[..];
    ghost var C0 := scratch[..];
    var spawned := pool.Increment();
    if spawned {
      // On a new thread of the pool.
      MergeSort(pool, scratch, 0, source, sOff, h);
    } else {
      // The pool is full: on this thread.
      MergeSort(pool, scratch, 0, source, sOff, h);
    }
    ghost var C1 := scratch[..];
    MergeSort(pool, scratch, h, source, sOff + h, size - h);
    if spawned {
      pool.Decrement();
    }
    SlicePrefix(src, sOff, size, h);
    SliceRest(src, sOff, size, h);
    CilkSort.FillBoth(C0, Sort(src[sOff..][..h]), Sort(src[sOff + h..][..size - h]), h, C1, scratch[..]);
  }

  /**
   `pthread_sort`: sets up a pool of `threads` threads, sorts the first
   `size` elements of `a` into a new buffer and tears the pool down again.
   `mutexReady` and `mutexReleased` are the outcomes of creating and
   destroying the mutex. If the setup fails, `a` itself is returned,
   unsorted, and the pool is left alone. Otherwise the sorted buffer is
   returned and the count is back at 0; a failed teardown only leaves the
   pool size in place.
   */
  method PthreadSort(pool: ThreadPool, a: array<int>, size: nat, threads: int,
                     mutexReady: bool, mutexReleased: bool) returns (result: array<int>)
    requires size <= a.Length
    modifies pool
    ensures mutexReady ==> fresh(result) && result.Length == size && result[..] == Sort(a[..][..size])
    ensures !mutexReady ==> result == a
    ensures !mutexReady ==> pool.count == old(pool.count) && pool.maxThreads == old(pool.maxThreads)
    ensures mutexReady ==> pool.count == 0 && pool.maxThreads == (if mutexReleased then 0 else threads)
  {
    var ok := pool.Initialize(threads, mutexReady);
    if !ok {
      return a;
    }
    result := new int[size];
    ghost var R0 := result[..];
    MergeSort(pool, result, 0, a, 0, size);
    assert a[..][0..] == a[..];
    SpliceWhole(R0, Sort(a[..][..size]));
    ok := pool.Cleanup(mutexReleased);
  }
}
