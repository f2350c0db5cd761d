/**
 * What onegin's sorts promise, stated over sequences of lines: sortedness in
 * `strcmp` order, reordering that keeps every line, and the facts the
 * quicksort and bubble sort proofs are built from.
 */
module SortSpec {
  import opened StrOrder

  /** `s[lo..hi]`, both ends included, is in non-decreasing `strcmp` order. */
  ghost predicate SortedBetween(s: seq<Line>, lo: int, hi: int)
  {
    forall i, j :: 0 <= lo <= i < j <= hi < |s| ==> StrCmp(s[i], s[j]) <= 0
  }

  /** Every neighbouring pair of `s[lo..hi]` is in `strcmp` order. */
  ghost predicate AdjacentSorted(s: seq<Line>, lo: int, hi: int)
  {
    forall i :: 0 <= lo <= i < hi < |s| ==> StrCmp(s[i], s[i + 1]) <= 0
  }

  /**
   * `s` is `s0` with only the cells of `[lo..hi]` moved: every line occurs
   * in both as often (their multisets are equal), and every cell outside the
   * range holds the same line. The multiplicities are compared one line at a
   * time, which is multiset equality spelled out.
   */
  ghost predicate PermutedWithin(s: seq<Line>, s0: seq<Line>, lo: int, hi: int)
  {
    && |s| == |s0|
    && (forall x :: multiset(s)[x] == multiset(s0)[x])
    && forall k :: 0 <= k < |s| && !(lo <= k <= hi) ==> s[k] == s0[k]
  }

  /** Ordering every neighbouring pair orders the whole range. */
  lemma {:induction false} AdjacentSortedIsSorted(s: seq<Line>, lo: int, hi: int)
    requires AdjacentSorted(s, lo, hi)
    ensures SortedBetween(s, lo, hi)
    decreases hi - lo
  {
    if 0 <= lo < hi < |s| {
      AdjacentSortedIsSorted(s, lo + 1, hi);
      forall j | lo < j <= hi
        ensures StrCmp(s[lo], s[j]) <= 0
      {
        if j > lo + 1 {
          StrCmpTransitive(s[lo], s[lo + 1], s[j]);
        }
      }
    }
  }

  /** A sequence's multiset is the sum of the multisets of three consecutive pieces. */
  lemma MultisetThreePieces(s: seq<Line>, lo: int, hi: int)
    requires 0 <= lo <= hi + 1 <= |s|
    ensures multiset(s) == multiset(s[..lo]) + multiset(s[lo..hi + 1]) + multiset(s[hi + 1..])
  {
    assert s == s[..lo] + s[lo..hi + 1] + s[hi + 1..];
  }

  /** Moving cells only within `[lo..hi]` keeps the multiset of that range. */
  lemma RangePermutation(s: seq<Line>, s0: seq<Line>, lo: int, hi: int)
    requires 0 <= lo <= hi + 1 <= |s|
    requires PermutedWithin(s, s0, lo, hi)
    ensures multiset(s[lo..hi + 1]) == multiset(s0[lo..hi + 1])
  {
    MultisetThreePieces(s, lo, hi);
    MultisetThreePieces(s0, lo, hi);
    assert s[..lo] == s0[..lo];
    assert s[hi + 1..] == s0[hi + 1..];
    forall x {:trigger multiset(s[lo..hi + 1])[x]}
      ensures multiset(s[lo..hi + 1])[x] == multiset(s0[lo..hi + 1])[x]
    {
      assert multiset(s)[x] == multiset(s0)[x];
    }
  }

  /** Permutations within ranges compose, the wider range covering both. */
  lemma PermutedWithinTrans(s2: seq<Line>, s1: seq<Line>, s0: seq<Line>, lo: int, hi: int, lo': int, hi': int)
    requires PermutedWithin(s2, s1, lo', hi') && PermutedWithin(s1, s0, lo, hi)
    requires lo <= lo' && hi' <= hi
    ensures PermutedWithin(s2, s0, lo, hi)
  {
  }

  /** Every line of a range stands in one relation to `pv`, before a reordering of the range and after. */
  lemma RangeKeepsBound(s: seq<Line>, s0: seq<Line>, lo: int, hi: int, pv: Line, below: bool)
    requires 0 <= lo <= hi + 1 <= |s|
    requires PermutedWithin(s, s0, lo, hi)
    requires forall k :: lo <= k <= hi ==> (StrCmp(s0[k], pv) < 0) == below
    ensures forall k :: lo <= k <= hi ==> (StrCmp(s[k], pv) < 0) == below
  {
    RangePermutation(s, s0, lo, hi);
    forall k | lo <= k <= hi
      ensures (StrCmp(s[k], pv) < 0) == below
    {
      assert s[k] == s[lo..hi + 1][k - lo];
      assert s[k] in multiset(s0[lo..hi + 1]);
      var m :| 0 <= m < |s0[lo..hi + 1]| && s0[lo..hi + 1][m] == s[k];
      assert s0[lo + m] == s[k];
    }
  }

  /**
   * A sorted part below a pivot, the pivot, and a sorted part not below it
   * make a sorted range: quicksort's combining step.
   */
  lemma JoinAroundPivot(s: seq<Line>, lo: int, p: int, hi: int)
    requires 0 <= lo <= p <= hi < |s|
    requires SortedBetween(s, lo, p - 1) && SortedBetween(s, p + 1, hi)
    requires forall k :: lo <= k < p ==> StrCmp(s[k], s[p]) < 0
    requires forall k :: p < k <= hi ==> StrCmp(s[k], s[p]) >= 0
    ensures SortedBetween(s, lo, hi)
  {
    forall i, j | lo <= i < j <= hi
      ensures StrCmp(s[i], s[j]) <= 0
    {
      if j == p {
      } else if i == p {
        StrCmpAntisymmetric(s[j], s[p]);
      } else if i < p < j {
        StrCmpAntisymmetric(s[j], s[p]);
        StrCmpTransitive(s[i], s[p], s[j]);
      }
    }
  }

  /**
   * The proof step of quicksort: a range partitioned around `s0[p]` whose
   * two sides were then sorted one after the other is sorted as a whole.
   */
  lemma QSortCombine(s0: seq<Line>, s1: seq<Line>, s2: seq<Line>, lo: int, p: int, hi: int)
    requires 0 <= lo <= p <= hi < |s0|
    requires forall k :: lo <= k < p ==> StrCmp(s0[k], s0[p]) < 0
    requires forall k :: p < k <= hi ==> StrCmp(s0[k], s0[p]) >= 0
    requires PermutedWithin(s1, s0, lo, p - 1) && SortedBetween(s1, lo, p - 1)
    requires PermutedWithin(s2, s1, p + 1, hi) && SortedBetween(s2, p + 1, hi)
    ensures SortedBetween(s2, lo, hi)
  {
    var pv := s0[p];
    RangeKeepsBound(s1, s0, lo, p - 1, pv, true);
    RangeKeepsBound(s2, s1, p + 1, hi, pv, false);
    assert SortedBetween(s2, lo, p - 1) by {
      assert forall k :: lo <= k <= p - 1 ==> s2[k] == s1[k];
    }
    JoinAroundPivot(s2, lo, p, hi);
  }

  /** The first cell of a sorted sequence holds a least line. */
  lemma SortedHeadLeast(s: seq<Line>, x: Line)
    requires SortedBetween(s, 0, |s| - 1) && x in s
    ensures StrCmp(s[0], x) <= 0
  {
    var j :| 0 <= j < |s| && s[j] == x;
    if j == 0 {
      StrCmpReflexive(x);
    }
  }

  /** Dropping the first cell of a sorted sequence leaves it sorted. */
  lemma SortedTail(s: seq<Line>)
    requires |s| > 0 && SortedBetween(s, 0, |s| - 1)
    ensures SortedBetween(s[1..], 0, |s| - 2)
  {
  }

  /** Dropping the first cell removes one occurrence of its line. */
  lemma MultisetTail(s: seq<Line>)
    requires |s| > 0
    ensures multiset(s[1..]) == multiset(s) - multiset{s[0]}
  {
    assert s == [s[0]] + s[1..];
  }

  /** Two sorted arrangements of the same NUL-free lines start with the same line. */
  lemma SortedHeadsEqual(s: seq<Line>, t: seq<Line>)
    requires |s| > 0 && multiset(s) == multiset(t)
    requires NoNul(s[0]) && NoNul(t[0])
    requires SortedBetween(s, 0, |s| - 1) && SortedBetween(t, 0, |t| - 1)
    ensures s[0] == t[0]
  {
    assert s[0] in multiset(t) && |t| > 0;
    assert t[0] in multiset(s);
    SortedHeadLeast(t, s[0]);
    SortedHeadLeast(s, t[0]);
    StrCmpAntisymmetric(s[0], t[0]);
    StrCmpIsLexicographic(s[0], t[0]);
  }

  /**
   * Two sorted arrangements of the same NUL-free lines are the same
   * sequence of line values: the lines a sort leaves, in order, depend only
   * on the lines it was given, so both sorts leave the same lines in the
   * same order, and re-sorting leaves that sequence of lines as it was.
   */
  lemma {:induction false} SortedPermutationUnique(s: seq<Line>, t: seq<Line>)
    requires multiset(s) == multiset(t)
    requires forall k :: 0 <= k < |s| ==> NoNul(s[k])
    requires SortedBetween(s, 0, |s| - 1) && SortedBetween(t, 0, |t| - 1)
    ensures s == t
    decreases |s|
  {
    assert |s| == |multiset(s)| == |t|;
    if |s| > 0 {
      assert t[0] in multiset(s);
      SortedHeadsEqual(s, t);
      MultisetTail(s);
      MultisetTail(t);
      SortedTail(s);
      SortedTail(t);
      SortedPermutationUnique(s[1..], t[1..]);
      assert s == [s[0]] + s[1..] && t == [t[0]] + t[1..];
    }
  }

  /**
   * The state of `part`'s scan of `s[left..right-1]` against the pivot
   * `s[right]`: `s[left..i]` is strictly below the pivot and `s[i+1..j-1]`
   * is not below it.
   */
  ghost predicate Scanned(s: seq<Line>, left: int, right: int, i: int, j: int, pivot: Line)
  {
    && 0 <= left <= j <= right < |s| && left - 1 <= i < j
    && s[right] == pivot
    && (forall k :: left <= k <= i ==> StrCmp(s[k], pivot) < 0)
    && (forall k :: i < k < j ==> StrCmp(s[k], pivot) >= 0)
  }

  /**
   * One step of the scan: a line below the pivot is swapped to the end of
   * the low part, which grows by one; any other line stays where it is.
   */
  lemma ScanStep(s0: seq<Line>, s: seq<Line>, t: seq<Line>,
                 left: int, right: int, i: int, i': int, j: int, pivot: Line)
    requires Scanned(s, left, right, i, j, pivot) && j < right
    requires PermutedWithin(s, s0, left, right)
    requires i' == if StrCmp(s[j], pivot) < 0 then i + 1 else i
    requires t == if StrCmp(s[j], pivot) < 0 then s[j := s[i']][i' := s[j]] else s
    ensures Scanned(t, left, right, i', j + 1, pivot)
    ensures PermutedWithin(t, s0, left, right)
  {
  }

  /** The last swap puts the pivot between the two parts. */
  lemma ScanFinish(s0: seq<Line>, s: seq<Line>, t: seq<Line>, left: int, right: int, i: int, pivot: Line)
    requires Scanned(s, left, right, i, right, pivot)
    requires PermutedWithin(s, s0, left, right)
    requires t == s[right := s[i + 1]][i + 1 := s[right]]
    ensures t[i + 1] == pivot
    ensures forall k :: left <= k <= i ==> StrCmp(t[k], pivot) < 0
    ensures forall k :: i + 1 < k <= right ==> StrCmp(t[k], pivot) >= 0
    ensures PermutedWithin(t, s0, left, right)
  {
  }

  /**
   * Bubble sort after `i` full passes over `s[0..n-1]`: the last `i` cells
   * hold the `i` greatest lines, in order.
   */
  ghost predicate PassesDone(s: seq<Line>, n: int, i: int)
  {
    && SortedBetween(s, n - i, n - 1)
    && forall k, m :: 0 <= k < n - i <= m < n <= |s| ==> StrCmp(s[k], s[m]) <= 0
  }

  /**
   * Within pass `i`, at index `j`: `s[j]` is the greatest of `s[0..j]`, and
   * once the pass has reached the sorted tail, its first cell `s[n-i-1]`
   * is the greatest of everything before it.
   */
  ghost predicate PassAt(s: seq<Line>, n: int, i: int, j: int)
  {
    && PassesDone(s, n, i)
    && (forall k :: 0 <= k < j < |s| ==> StrCmp(s[k], s[j]) <= 0)
    && (n - i - 1 <= j ==> forall k :: 0 <= k < n - i - 1 < |s| ==> StrCmp(s[k], s[n - i - 1]) <= 0)
  }

  /** `s` with the neighbours at `j` and `j + 1` put in order, as one step of a pass does. */
  function BubbleStep(s: seq<Line>, j: int): (t: seq<Line>)
    requires 0 <= j < |s| - 1
    ensures PermutedWithin(t, s, j, j + 1)
    ensures StrCmp(t[j], t[j + 1]) <= 0
  {
    StrCmpAntisymmetric(s[j], s[j + 1]);
    if StrCmp(s[j], s[j + 1]) > 0 then s[j := s[j + 1]][j + 1 := s[j]] else s
  }

  /** A step at or past the edge of the sorted tail finds its pair in order and changes nothing. */
  lemma BubbleStepInTail(s: seq<Line>, n: int, i: int, j: int)
    requires 0 <= i < n - 1 && 0 <= j && n - i - 1 <= j < n - 1 && n <= |s|
    requires PassAt(s, n, i, j)
    ensures BubbleStep(s, j) == s
    ensures PassAt(s, n, i, j + 1)
  {
  }

  /** A step in front of the sorted tail carries the greatest line seen so far one cell on. */
  lemma BubbleStepInFront(s: seq<Line>, n: int, i: int, j: int)
    requires 0 <= i && 0 <= j < n - i - 1 && n <= |s|
    requires PassAt(s, n, i, j)
    ensures PassAt(BubbleStep(s, j), n, i, j + 1)
  {
    var t := BubbleStep(s, j);
    StrCmpAntisymmetric(s[j], s[j + 1]);
    if StrCmp(s[j], s[j + 1]) <= 0 {
      forall k | 0 <= k < j
        ensures StrCmp(t[k], t[j + 1]) <= 0
      {
        StrCmpTransitive(s[k], s[j], s[j + 1]);
      }
    }
    forall k, m | 0 <= k < n - i <= m < n
      ensures StrCmp(t[k], t[m]) <= 0
    {
      assert t[m] == s[m];
      assert t[k] == s[j] || t[k] == s[j + 1] || t[k] == s[k];
    }
    assert SortedBetween(t, n - i, n - 1) by {
      assert forall k :: n - i <= k < n ==> t[k] == s[k];
    }
  }

  /** One step of a pass keeps the pass invariant and moves it on by one. */
  lemma BubbleStepKeeps(s0: seq<Line>, s: seq<Line>, t: seq<Line>, n: int, i: int, j: int)
    requires 0 <= i < n - 1 && 0 <= j < n - 1 && n <= |s|
    requires PermutedWithin(s, s0, 0, n - 1) && PassAt(s, n, i, j)
    requires t == BubbleStep(s, j)
    ensures PermutedWithin(t, s0, 0, n - 1) && PassAt(t, n, i, j + 1)
  {
    if n - i - 1 <= j {
      BubbleStepInTail(s, n, i, j);
    } else {
      BubbleStepInFront(s, n, i, j);
    }
  }

  /** A pass starts with nothing before its first cell. */
  lemma PassStart(s: seq<Line>, n: int, i: int)
    requires 0 <= i < n - 1 && n <= |s|
    requires PassesDone(s, n, i)
    ensures PassAt(s, n, i, 0)
  {
  }

  /** A finished pass adds one cell to the sorted tail. */
  lemma PassComplete(s: seq<Line>, n: int, i: int, j: int)
    requires 0 <= i < n - 1 && n <= |s| && j == n - 1
    requires PassAt(s, n, i, j)
    ensures PassesDone(s, n, i + 1)
  {
  }

  /** After `n - 1` passes, the whole of `s[0..n-1]` is sorted. */
  lemma PassesSort(s: seq<Line>, n: int, i: int)
    requires n >= 1 ==> i == n - 1
    requires n <= |s| && PassesDone(s, n, i)
    ensures SortedBetween(s, 0, n - 1)
  {
  }
}
