# Parallel merge sort over `long` arrays, modelled in Dafny

The repository sorts an array of `long` values with a parallel merge sort and
has two implementations of it.

- `cilk_sort.c` uses Cilk's `cilk_spawn`/`cilk_sync`.
- `pthread_sort.c` uses POSIX threads with a bounded pool.

Both follow the same steps:

- split the input at `size / 2`;
- sort both halves into a scratch buffer `C`;
- merge the halves into the result with a parallel merge.

The parallel merge works like this:

- It stores the middle element of the larger run `B` at its final place.
- It finds that place with a binary search for the element in the smaller run `C`.
- It then merges the parts to the left and to the right of it independently.

At or below `THRESHOLD` (512) elements, the sort becomes a Lomuto quicksort of a
copy of the input, and the merge becomes a two-pointer sequential merge.

## How the model is built

- **Files.**
  - `sorting.dfy`: what "sorted", "insertion point" and "merge" mean, with the facts about them. `Sort(s)` is *the* sorted permutation of `s`; `SortIsUnique` shows there is only one.
  - `buffer.dfy`: `Splice(d, off, s)`, the contents of a buffer after writing `s` at `off`.
  - `serial.dfy`: the sequential kernels.
  - `cilk_sort.dfy`: the Cilk parallel merge and sort.
  - `pthread_sort.dfy`: the pthread ones, including the thread pool.
  - `as_written.dfy`: the binary search exactly as the C writes it (see Findings).
- **Pointers.** A C pointer `p + off` is an array with an offset. A window of `n` elements at `off` is `a[..][off..][..n]`.
- **How writing methods are specified.** Every method that writes a buffer states the buffer's whole new contents as a `Splice` of its old contents. That says both what the written range holds and that nothing outside it changed.
- **Reading arrays.** An array a method only reads is outside its `modifies` clause, so it is unchanged.
- **Spawn and join.** A spawned call and its join become a plain call where the spawn happens. The two halves of every split write disjoint ranges and only read their inputs. `Buffer.SpliceCommute` proves that writes of disjoint ranges give the same buffer in either order, and `CilkSort.FillBoth` applies it to the two sorted halves of the merge sort.
- **The thread pool.** Its globals `thread_count_` and `THREAD_MAX_NUM` are the fields `count` and `maxThreads` of a `ThreadPool` object.
  - Every pthread call receives the pool and requires it to be valid: the count is never negative and, once positive, at most the pool size. `Initialize` establishes this. Each admission inside a sort passes the pool on to a recursive call, so that call's precondition checks that the admission kept the pool valid.
  - Every pthread call promises to leave both fields as they were on entry.
  - Its promise about the buffers does not mention the pool. The sorted output is therefore the same whether or not the pool admits the left half.
- **Shared kernels.** `binary_search`, `s_merge`, `partition`, `recursive_quicksort` and `quicksort` read the same in both C files, apart from their names. Each is modelled once, in module `Serial`. The table cites the lines of one copy or the other.
- **Loops.** The bodies of the first merge loop and of the partition loop are each one call of a step method (`MergeStep`, `PartitionStep`). The step method's contract is the loop invariant before and after one iteration.

## Model

| member | source | states |
|---|---|---|
| `Buffer.SpliceCommute` | cilk_sort.c:113-120 | writes of two disjoint ranges give the same buffer in either order, as a spawned call and the continuation do |
| `Serial.BinarySearch` | cilk_sort.c:16-59 | for a sorted run of at least one element, the result is an insertion point: in `[0, n]`, everything before it at most `value`, everything from it on at least `value`; the `-1` return is unreachable |
| `Serial.SMerge` | cilk_sort.c:61-86 | writes exactly the merge of the two runs (smaller front first, `b` on ties, then the rest) at `result[rOff..rOff + bSize + cSize]`; nothing else in `result` changes |
| `Serial.MergeFronts` | pthread_sort.c:116-126 | the first merge loop stops with one run used up, having written a prefix of the merge at `rOff..` and nothing else |
| `Serial.MergeStep` | cilk_sort.c:66-73 | one iteration stores the next element of the merge (`b`'s front on a tie) and advances exactly one of the two runs |
| `Serial.Copy` | pthread_sort.c:128-137 | the drain loops and `memcpy`: `source[sOff..sOff + n]` is stored at `dest[dOff..]`, nothing else changes |
| `Serial.Partition` | cilk_sort.c:125-148 | returns `p` in `[start, end]` with `buf[p]` the old `buf[end]`, everything in `[start, p)` at most it, everything in `(p, end]` above it, the range a permutation of its old contents and every index outside it unchanged |
| `Serial.PartitionStep` | pthread_sort.c:222-231 | one scan step keeps the low part at most the pivot, the part between above it, the pivot at `end`, the elements of the range and everything outside it |
| `Serial.PartitionEnd` | pthread_sort.c:232-236 | the final swap leaves the range partitioned at `i + 1` around the pivot |
| `Serial.RecursiveQuicksort` | cilk_sort.c:150-160 | `buf[start..end]` ends up as the sorted permutation of its old contents and the rest of `buf` unchanged; both recursive ranges exclude the pivot, which gives termination |
| `Serial.SortSides` | pthread_sort.c:246-248 | sorting below and then above the placed pivot sorts the partitioned range |
| `Serial.SortRight` | cilk_sort.c:159 | the second recursive call, after the first, leaves the whole range sorted |
| `Serial.QuicksortOrder` | cilk_sort.c:157-159 | with everything left of the pivot at most it and everything right of it above it, sorted left + pivot + sorted right is the sorted range |
| `Serial.Quicksort` | cilk_sort.c:162-169 | `result[rOff..rOff + size]` becomes the sorted permutation of `source[sOff..sOff + size]`, nothing else in `result` changes |
| `Sorting.MergeSorted` | cilk_sort.c:64-85 | the merge of two sorted runs is sorted |
| `Sorting.MergeIsPermutation` | pthread_sort.c:113-138 | the merge is a permutation of the concatenation of the two runs |
| `Sorting.MergeCommutes` | cilk_sort.c:92-95 | for sorted runs, exchanging `b` and `c` does not change the merge |
| `Sorting.MergeSplit` | cilk_sort.c:111-117 | with `k` an insertion point of `b[m]` in `c`: merge of the left parts, then `b[m]`, then merge of the right parts is the merge of `b` and `c` |
| `Sorting.SortIsUnique` | cilk_sort.c:204-216 | any sorted permutation of `s` is `Sort(s)`, so "sorted permutation of the input" pins the output down |
| `Sorting.MergeOfSorts` | cilk_sort.c:192-196 | merging the sorted halves `s[..h]` and `s[h..]` gives the sorted `s` |
| `CilkSort.PMerge` | cilk_sort.c:88-123 | for sorted runs, writes exactly their merge at `result[rOff..rOff + bSize + cSize]`, nothing else changes; terminates (the exchange happens at most once, the sub-merges are smaller) |
| `CilkSort.PSplit` | cilk_sort.c:101-111 | the parallel branch: `b[mid]` goes to `mid + bin`, where `bin` is its insertion point in `c` (0 for an empty `c`) |
| `CilkSort.MergeSides` | cilk_sort.c:113-120 | the sub-merges write `[0, mid + bin)` and `[mid + bin + 1, bSize + cSize)` around the slot of `b[mid]`, from disjoint parts of `b` and `c`; together they are the merge |
| `CilkSort.SplitMerged` | cilk_sort.c:111-117 | storing `b[mid]` and then the two sub-merges writes exactly the merge of `b` and `c` |
| `CilkSort.MergeSort` | cilk_sort.c:171-202 | `result[rOff..rOff + size]` becomes the sorted permutation of `source[sOff..sOff + size]`; `source` is not written; the `size == 0` branch is unreachable |
| `CilkSort.SortHalves` | cilk_sort.c:192-194 | the scratch buffer holds the sorted first half followed by the sorted second half |
| `CilkSort.FillBoth` | cilk_sort.c:192-194 | the two sorted halves written at 0 and at `h` fill the scratch buffer exactly, in either order of writing |
| `CilkSort.MergedHalves` | cilk_sort.c:196 | merging the two sorted halves of the scratch buffer writes the sorted input |
| `CilkSort.CilkSort` | cilk_sort.c:204-216 | returns a new buffer of `size` elements holding the sorted permutation of `a[0..size]` |
| `PthreadSort.ThreadPool.constructor` | pthread_sort.c:45-48 | both globals start at 0 |
| `PthreadSort.ThreadPool.Increment` | pthread_sort.c:330-345 | admits (returns true and adds 1) exactly when the count is below the pool size, otherwise returns false and changes nothing; keeps the count non-negative and, once positive, at most the pool size |
| `PthreadSort.ThreadPool.Decrement` | pthread_sort.c:347-352 | subtracts 1 and keeps the bounds when the count was positive |
| `PthreadSort.ThreadPool.Initialize` | pthread_sort.c:354-372 | on mutex success sets the count to 0 and the pool size to `threads`; on failure returns false and changes nothing |
| `PthreadSort.ThreadPool.Cleanup` | pthread_sort.c:374-389 | on mutex success resets both globals to 0; on failure returns false and changes nothing |
| `PthreadSort.PMerge` | pthread_sort.c:140-212 | the same merge as `CilkSort.PMerge`, for any valid pool and whatever it admits; every admission keeps the pool valid; the count and pool size are as on entry |
| `PthreadSort.PSplit` | pthread_sort.c:162-171 | the parallel branch: `b[mid]` stored at `mid + bin`, `bin` its insertion point in `c` (0 for an empty `c`), then the two sub-merges write the rest of the merge |
| `PthreadSort.MergeSides` | pthread_sort.c:173-192 | the left sub-merge, spawned if the pool admits it and inline otherwise, gives the same buffer either way |
| `PthreadSort.MergeRight` | pthread_sort.c:194-208 | the right sub-merge always runs inline, and the admission of the left one is released exactly once, so the count returns to its entry value |
| `PthreadSort.MergeSort` | pthread_sort.c:260-328 | `result[rOff..rOff + size]` becomes the sorted permutation of `source[sOff..sOff + size]`, `source` is not written, for any valid pool; every admission keeps it valid, and the pool is as on entry |
| `PthreadSort.SortHalves` | pthread_sort.c:285-314 | the halves land sorted in the scratch buffer whether or not the left half is admitted; every admission is released |
| `PthreadSort.PthreadSort` | pthread_sort.c:391-428 | on setup success returns a new buffer holding the sorted permutation of `a[0..size]`, with the count back to 0 and the pool size 0 after a successful teardown; on setup failure returns `a` itself and leaves the pool alone |
| `AsWritten.SearchAsWritten` | cilk_sort.c:16-59 | the search as written, stopping at the first read outside the run; the only such reads are index 0 of an empty run and index -1 of a run of at least two elements, and any returned index lies in `[-1, n]` |
| `AsWritten.LoopAsWritten` | cilk_sort.c:32-56 | the loop as written, one iteration per call; its only read outside the run is index -1, and any returned index is -1 or lies in `[min, max + 1]` |
| `AsWritten.LoopReturnsSplit` | pthread_sort.c:84-108 | whenever the loop as written returns, it returns an insertion point |
| `AsWritten.SearchReturnsSplit` | pthread_sort.c:68-111 | whenever the search as written returns on a sorted run, it returns an insertion point |
| `AsWritten.ReadsBeforeShortRun` | cilk_sort.c:35 | on `[1, 3]` with value 2, the first probe reads index -1 |
| `AsWritten.ReadsBeforeLongerRun` | cilk_sort.c:32-51 | on `[1, 3, 5, 7, 9]` with value 2, the search narrows to `[0, 1]` and reads index -1 |
| `AsWritten.ReadsIntoEmptyRun` | cilk_sort.c:23 | on an empty run, the search reads index 0 |

## Left out

- Concurrency. Threads, `cilk_spawn`/`cilk_sync`, `pthread_create`/`pthread_join` and the mutex are not modelled. A spawned call runs to completion where it is spawned. This is sound for the buffers, because the two halves write disjoint ranges. Scheduling and deadlock freedom are not addressed.
- Allocation failure, `printf` and `exit`. `malloc` always succeeds and `free` is nothing. The allocation-failure branch of `pthread_sort` is not modelled either.
- Foreign calls. The outcomes of `pthread_mutex_init` and `pthread_mutex_destroy` are the parameters `mutexReady` and `mutexReleased`.
- Argument records. The `SortArg_t` and `MergeArg_t` records, and the `void *` calling convention of `pthread_p_merge` and `pthread_merge_sort`, become ordinary parameters.
- Integer width. `long` elements are `int`: the sort only compares them, so their width does not matter. Sizes and offsets are `nat`, so a negative `size` is not modelled.
- `THRESHOLD` is the constant 512 in both files. `automate.py` rewrites it between builds to values from 4 to 512. The proofs need `THRESHOLD >= 1`, and every one of those values meets it. With 0, `MergeSort` on one element would split it into halves of 0 and 1 and recurse forever, in the C as in the model.
- `main.c` (the timing driver, argument parsing and shuffling) and `automate.py` (build and job automation) are not part of this model.
- Serial.BinarySearch: it requires at least one element. The C also accepts an empty run and then reads outside it (see Findings). The two parallel merges instead use insertion point 0 for an empty `c` without searching.
- Serial.BinarySearch: the first neighbour test is guarded by `mid > 0`. The C reads index -1 there (see Findings), and the guard changes no result.
- Serial.RecursiveQuicksort: it requires `start <= end + 1`. The C returns for any `start >= end`, but every call in the program satisfies this: the partition index lies in `[start, end]`, and the quicksort passes `0, size - 1`.
- Serial.SMerge: the two drain loops are each modelled as one `Copy` of what is left. `Copy` stores the same elements, at the same places, in the same order.
- CilkSort.PSplit and PthreadSort.PSplit: the `bin_index < 0` error exit is not modelled. The search's contract rules it out.

## Findings

| source | as written | input that shows it | evidently intended | confidence | as-written member | corrected member |
|---|---|---|---|---|---|---|
| cilk_sort.c:35 (also pthread_sort.c:87) | `search_array[mid-1]` is read before checking `mid > 0` | the run `[1, 3, 5, 7, 9]` with value 2: the search narrows to `min = 0, max = 1`, so `mid = 0` and index -1 is read | only elements of the run are read; the result is unchanged, because `search_array[0] < value` is already known there | high, not executed | `AsWritten.ReadsBeforeLongerRun` | `Serial.BinarySearch` |
| cilk_sort.c:23 (also pthread_sort.c:75), reached from cilk_sort.c:104 | `search_array[0]` is read even when `array_size == 0`, and `p_merge` passes an empty `c` | an already sorted input of 2400 elements: the top merge finds insertion point 0, so its left sub-merge gets 600 elements of `b` and none of `c` and searches the empty run | an empty run has the single insertion point 0, with no read | high, not executed | `AsWritten.ReadsIntoEmptyRun` | `CilkSort.PSplit` |
