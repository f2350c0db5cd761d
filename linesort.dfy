/**
 * onegin's two in-place sorts of the line array: the recursive quicksort
 * `qsortstr` with its Lomuto partition `part`, the bubble sort `bsortstr`,
 * and their exchange primitive `swap`. Each cell of the array stands for the
 * line a `char *` of the C array points at; the sorts move those cells and
 * never change a line.
 */
module LineSort {
  import opened StrOrder
  import opened SortSpec

  /** `swap(a, i, j)`: exchange two cells; every other cell keeps its line. */
  method Swap(a: array<Line>, i: int, j: int)
    requires 0 <= i < a.Length && 0 <= j < a.Length
    modifies a
    ensures a[i] == old(a[j]) && a[j] == old(a[i])
    ensures forall k :: 0 <= k < a.Length && k != i && k != j ==> a[k] == old(a[k])
    ensures a[..] == old(a[..])[i := old(a[j])][j := old(a[i])]
  {
    var tmp := a[i];
    a[i] := a[j];
    a[j] := tmp;
  }

  /**
   * `part(a, left, right)`: Lomuto partition around the pivot `a[right]`.
   * The pivot ends at the returned index `p`; the lines before it in the
   * range are strictly below it, the lines after it are not below it.
   */
  method Part(a: array<Line>, left: int, right: int) returns (p: int)
    requires 0 <= left <= right < a.Length
    modifies a
    ensures left <= p <= right
    ensures a[p] == old(a[right])
    ensures forall k :: left <= k < p ==> StrCmp(a[k], a[p]) < 0
    ensures forall k :: p < k <= right ==> StrCmp(a[k], a[p]) >= 0
    ensures PermutedWithin(a[..], old(a[..]), left, right)
  {
    ghost var s0 := a[..];
    var pivot := a[right];
    var i := left - 1;
    var j := left;
    while j <= right - 1
      invariant Scanned(a[..], left, right, i, j, pivot)
      invariant PermutedWithin(a[..], s0, left, right)
    {
      ghost var before := a[..];
      ghost var i0 := i;
      if StrCmp(a[j], pivot) < 0 {
        i := i + 1;
        Swap(a, j, i);
      }
      ScanStep(s0, before, a[..], left, right, i0, i, j, pivot);
      j := j + 1;
    }
    ghost var before := a[..];
    Swap(a, right, i + 1);
    ScanFinish(s0, before, a[..], left, right, i, pivot);
    p := i + 1;
  }

  /**
   * `qsortstr(a, left, right)`: sort `a[left..right]` in place. A call with
   * `left >= right`, such as `qsortstr(a, 0, -1)` for a file without lines,
   * returns without touching the array.
   */
  method QSortStr(a: array<Line>, left: int, right: int)
    requires left < right ==> 0 <= left && right < a.Length
    modifies a
    ensures SortedBetween(a[..], left, right)
    ensures PermutedWithin(a[..], old(a[..]), left, right)
    ensures left >= right ==> a[..] == old(a[..])
    decreases right - left
  {
    if left >= right {
      return;
    }
    ghost var s := a[..];
    var p := Part(a, left, right);
    ghost var s0 := a[..];
    QSortStr(a, left, p - 1);
    ghost var s1 := a[..];
    QSortStr(a, p + 1, right);
    QSortCombine(s0, s1, a[..], left, p, right);
    PermutedWithinTrans(a[..], s1, s0, left, right, p + 1, right);
    PermutedWithinTrans(s1, s0, s, left, right, left, p - 1);
    PermutedWithinTrans(a[..], s0, s, left, right, left, right);
  }

  /**
   * `bsortstr(a, n)`: bubble sort of `a[0..n-1]`. Each of the `n - 1`
   * passes walks every neighbouring pair and swaps it only when
   * `strcmp(a[j], a[j+1]) > 0`.
   */
  method BSortStr(a: array<Line>, n: int)
    requires n <= a.Length
    modifies a
    ensures SortedBetween(a[..], 0, n - 1)
    ensures PermutedWithin(a[..], old(a[..]), 0, n - 1)
  {
    ghost var s0 := a[..];
    var i := 0;
    while i < n - 1
      invariant 0 <= i && (n >= 1 ==> i <= n - 1)
      invariant PermutedWithin(a[..], s0, 0, n - 1) && PassesDone(a[..], n, i)
    {
      PassStart(a[..], n, i);
      var j := 0;
      while j < n - 1
        invariant 0 <= j <= n - 1
        invariant PermutedWithin(a[..], s0, 0, n - 1) && PassAt(a[..], n, i, j)
      {
        ghost var before := a[..];
        if StrCmp(a[j], a[j + 1]) > 0 {
          Swap(a, j, j + 1);
        }
        BubbleStepKeeps(s0, before, a[..], n, i, j);
        j := j + 1;
      }
      PassComplete(a[..], n, i, j);
      i := i + 1;
    }
    PassesSort(a[..], n, i);
  }
}
