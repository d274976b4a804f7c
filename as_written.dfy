/**
 `binary_search` exactly as written, with its reads made visible: the
 search stops with `ReadOutside(i)` at the first read of `search_array[i]`
 that is not inside the run it was handed. Two such reads exist in the
 source: `search_array[0]` of an empty run, and `search_array[mid - 1]`
 with `mid == 0`. Neither changes the index that is returned, and the
 model proper (`Serial.BinarySearch`, `CilkSort.PSplit`) avoids both.
 */
module AsWritten {
  import opened Sorting

  datatype Outcome = Returned(k: int) | ReadOutside(index: int)

  /**
   The whole function: the two early returns, then the loop on
   `[0, |s| - 1]`. The only reads outside the run are index 0 of an empty
   run and index -1 of a run of at least two elements.
   */
  function SearchAsWritten(s: seq<int>, value: int): (r: Outcome)
    ensures r.ReadOutside? ==> (|s| == 0 && r.index == 0) || (|s| >= 2 && r.index == -1)
    ensures r.Returned? ==> -1 <= r.k <= |s|
  {
    if |s| == 0 then ReadOutside(0)
    else if value <= s[0] then Returned(0)
    else if value >= s[|s| - 1] then Returned(|s|)
    else LoopAsWritten(s, value, 0, |s| - 1)
  }

  /** The `while (min < max)` loop, one iteration per call. */
  function LoopAsWritten(s: seq<int>, value: int, min: int, max: int): (r: Outcome)
    requires 0 <= min && -1 <= max < |s|
    ensures r.ReadOutside? ==> r.index == -1
    ensures r.Returned? ==> r.k == -1 || min <= r.k <= max + 1
    decreases max - min
  {
    if min >= max then Returned(-1)
    else
      var mid := (min + max) / 2;
      if mid - 1 < 0 then ReadOutside(mid - 1)
      else if s[mid - 1] <= value && s[mid] >= value then Returned(mid)
      else if s[mid] <= value && s[mid + 1] >= value then Returned(mid + 1)
      else if s[mid] < value then LoopAsWritten(s, value, mid + 1, max)
      else if s[mid] > value then LoopAsWritten(s, value, min, mid - 1)
      else Returned(mid)
  }

  /**
   Whenever the loop as written does return, for a sorted run that
   brackets `value` strictly between `s[min]` and `s[max]`, the index is an
   insertion point: the out-of-range read is the only defect.
   */
  lemma {:induction false} LoopReturnsSplit(s: seq<int>, value: int, min: int, max: int)
    requires Sorted(s) && 0 <= min <= max < |s|
    requires s[min] < value < s[max]
    ensures LoopAsWritten(s, value, min, max).Returned? ==>
              IsSplit(s, value, LoopAsWritten(s, value, min, max).k)
    decreases max - min
  {
    if min < max {
      var mid := (min + max) / 2;
      if mid - 1 >= 0 && !(s[mid - 1] <= value && s[mid] >= value)
         && !(s[mid] <= value && s[mid + 1] >= value) {
        if s[mid] < value {
          LoopReturnsSplit(s, value, mid + 1, max);
        } else if s[mid] > value {
          LoopReturnsSplit(s, value, min, mid - 1);
        }
      }
    }
  }

  /** Whenever the search as written returns on a sorted run, it returns an insertion point. */
  lemma SearchReturnsSplit(s: seq<int>, value: int)
    requires Sorted(s)
    ensures SearchAsWritten(s, value).Returned? ==> IsSplit(s, value, SearchAsWritten(s, value).k)
  {
    if |s| > 0 && s[0] < value < s[|s| - 1] {
      LoopReturnsSplit(s, value, 0, |s| - 1);
    }
  }

  /** A run of two elements with `value` between them: the first probe reads index -1. */
  lemma ReadsBeforeShortRun()
    ensures SearchAsWritten([1, 3], 2) == ReadOutside(-1)
  {
  }

  /** A longer run: the search narrows to `[0, 1]` and then reads index -1. */
  lemma ReadsBeforeLongerRun()
    ensures SearchAsWritten([1, 3, 5, 7, 9], 2) == ReadOutside(-1)
  {
    var s := [1, 3, 5, 7, 9];
    assert s[1] == 3 && s[2] == 5;
    assert LoopAsWritten(s, 2, 0, 4) == LoopAsWritten(s, 2, 0, 1);
  }

  /** An empty run, as the parallel merge hands over when `c` is used up: index 0 is read. */
  lemma ReadsIntoEmptyRun(value: int)
    ensures SearchAsWritten([], value) == ReadOutside(0)
  {
  }
}
