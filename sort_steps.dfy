/** One step of each sorting algorithm, stated on the sequence of bar heights
    before and after the step: what the step's swap (or the decision not to
    swap) does to the order the algorithm is building. The methods of
    `Algorithms.Algorithm` chain these facts through their loops. */
module SortSteps {
  import opened Core

  /** Positions [m, |s|) hold the largest elements of `s`, in ascending order. */
  ghost predicate TailPlaced(s: seq<int>, m: int)
    requires 0 <= m <= |s|
  {
    SortedRange(s, m, |s|) && Partitioned(s, m)
  }

  /** Position j holds a largest element of [0, j]. */
  ghost predicate MaxAt(s: seq<int>, j: int)
    requires 0 <= j < |s|
  {
    forall k :: 0 <= k <= j ==> s[k] <= s[j]
  }

  /** A sorted sequence has its tail placed from any point on. */
  lemma SortedTailPlaced(s: seq<int>, m: int)
    requires 0 <= m <= |s| && Sorted(s)
    ensures TailPlaced(s, m)
  {
  }

  /** Once at most the first position is left, the whole sequence is sorted. */
  lemma TailPlacedSorted(s: seq<int>, m: int)
    requires 0 <= m <= 1 && m <= |s| && TailPlaced(s, m)
    ensures Sorted(s)
  {
    forall i, j | 0 <= i < j < |s| ensures s[i] <= s[j] {
      if i < m {
        assert i == 0 && m == 1;
      }
    }
  }

  // ---------------- Selection sort ----------------

  /** Swapping a maximum of [0, last] into `last` extends the placed tail by
      one position. */
  lemma SelectionStep(s: seq<int>, m: int, last: int)
    requires 0 <= m <= last < |s|
    requires TailPlaced(s, last + 1)
    requires forall k :: 0 <= k <= last ==> s[k] <= s[m]
    ensures TailPlaced(Swapped(s, m, last), last)
  {
    var t := Swapped(s, m, last);
    forall p, q | 0 <= p < last <= q < |t| ensures t[p] <= t[q] {
      assert t[p] <= s[m] by {
        if p == m { assert t[p] == s[last]; } else { assert t[p] == s[p]; }
      }
      if q > last { assert t[q] == s[q]; }
    }
    forall p, q | last <= p < q < |t| ensures t[p] <= t[q] {
      assert t[q] == s[q];
      if p > last { assert t[p] == s[p]; }
    }
  }

  // ---------------- Bubble sort ----------------

  /** An out-of-order neighbour pair below the placed tail is swapped: the
      maximum moves along with it and the tail stays placed. */
  lemma BubbleSwapStep(s: seq<int>, j: int, hi: int)
    requires 0 <= j && j + 1 < hi <= |s|
    requires TailPlaced(s, hi) && MaxAt(s, j) && s[j] > s[j + 1]
    ensures TailPlaced(Swapped(s, j, j + 1), hi) && MaxAt(Swapped(s, j, j + 1), j + 1)
  {
    var t := Swapped(s, j, j + 1);
    forall p, q | 0 <= p < hi <= q < |t| ensures t[p] <= t[q] {
      assert t[q] == s[q];
      if p == j { assert t[p] == s[j + 1]; }
      else if p == j + 1 { assert t[p] == s[j]; }
      else { assert t[p] == s[p]; }
    }
    forall p, q | hi <= p < q < |t| ensures t[p] <= t[q] {
      assert t[p] == s[p] && t[q] == s[q];
    }
    forall k | 0 <= k <= j + 1 ensures t[k] <= t[j + 1] {
      if k < j { assert t[k] == s[k]; }
    }
  }

  /** A neighbour pair already in order is left alone: the maximum is now at
      j + 1, and a sorted prefix [0, j] grows to [0, j + 1]. */
  lemma BubbleKeepStep(s: seq<int>, j: int)
    requires 0 <= j && j + 1 < |s|
    requires MaxAt(s, j) && s[j] <= s[j + 1]
    ensures MaxAt(s, j + 1)
    ensures SortedRange(s, 0, j + 1) ==> SortedRange(s, 0, j + 2)
  {
  }

  /** At the end of a pass the maximum of [0, hi) sits at hi - 1. */
  lemma BubblePassEnd(s: seq<int>, hi: int)
    requires 0 < hi <= |s|
    requires TailPlaced(s, hi) && MaxAt(s, hi - 1)
    ensures TailPlaced(s, hi - 1)
  {
  }

  /** A pass without any swap leaves [0, hi) sorted, which with the placed
      tail makes the whole sequence sorted. */
  lemma BubbleQuietPass(s: seq<int>, hi: int)
    requires 0 <= hi <= |s|
    requires TailPlaced(s, hi) && SortedRange(s, 0, hi)
    ensures Sorted(s)
  {
  }

  // ---------------- Insertion sort ----------------

  /** [0, i] is sorted apart from position k, which is at most everything
      after it up to i: the state while element k travels left. */
  ghost predicate Sifting(s: seq<int>, k: int, i: int)
    requires 0 <= k <= i < |s|
  {
    (forall p, q :: 0 <= p < q <= i && p != k && q != k ==> s[p] <= s[q]) &&
    (forall q :: k < q <= i ==> s[k] <= s[q])
  }

  /** Pass i starts with the sorted prefix [0, i) and element i at the hole. */
  lemma InsertionStart(s: seq<int>, i: int)
    requires 0 <= i < |s| && SortedRange(s, 0, i)
    ensures Sifting(s, i, i)
  {
  }

  /** Swapping k with its larger left neighbour moves the travelling
      element one place left. */
  lemma InsertionStep(s: seq<int>, k: int, i: int)
    requires 0 < k <= i < |s| && Sifting(s, k, i) && s[k] < s[k - 1]
    ensures Sifting(Swapped(s, k, k - 1), k - 1, i)
  {
    var t := Swapped(s, k, k - 1);
    forall p, q | 0 <= p < q <= i && p != k - 1 && q != k - 1 ensures t[p] <= t[q] {
      if p == k { assert t[p] == s[k - 1] && t[q] == s[q]; }
      else if q == k { assert t[q] == s[k - 1] && t[p] == s[p]; }
      else { assert t[p] == s[p] && t[q] == s[q]; }
    }
    forall q | k - 1 < q <= i ensures t[k - 1] <= t[q] {
      if q > k { assert t[q] == s[q]; }
    }
  }

  /** The travelling element stops at the front or behind a neighbour that
      is not larger: [0, i] is sorted. */
  lemma InsertionEnd(s: seq<int>, k: int, i: int)
    requires 0 <= k <= i < |s| && Sifting(s, k, i)
    requires k == 0 || s[k - 1] <= s[k]
    ensures SortedRange(s, 0, i + 1)
  {
    forall p, q | 0 <= p < q <= i ensures s[p] <= s[q] {
      if q == k && p < k - 1 {
        assert s[p] <= s[k - 1];
      }
    }
  }

  // ---------------- Shell sort ----------------

  /** In positions [0, hi), every element is at most the one `gap` places on. */
  ghost predicate GapSorted(s: seq<int>, gap: int, hi: int)
    requires 0 <= gap && hi <= |s|
  {
    forall k, m :: 0 <= k < m < hi && m - k == gap ==> s[k] <= s[m]
  }

  /** GapSorted on [0, hi), except perhaps for the pair that ends at `hole`;
      the pair that straddles the hole is in order. */
  ghost predicate GapSifting(s: seq<int>, gap: int, hi: int, hole: int)
    requires 0 <= gap && 0 <= hole < hi <= |s|
  {
    (forall k, m :: 0 <= k < m < hi && m - k == gap && m != hole ==> s[k] <= s[m]) &&
    (hole - gap >= 0 && hole + gap < hi ==> s[hole - gap] <= s[hole + gap])
  }

  /** The pair (start, end) is in order: the gap-sorted prefix grows by one. */
  lemma ShellKeep(s: seq<int>, gap: int, start: int)
    requires 1 <= gap && 0 <= start && start + gap < |s|
    requires GapSorted(s, gap, start + gap) && s[start] <= s[start + gap]
    ensures GapSorted(s, gap, start + gap + 1)
  {
  }

  /** The pair (start, end) is out of order and swapped: the smaller element
      now sits at `start` and may still have to travel further back. */
  lemma ShellSwapStart(s: seq<int>, gap: int, start: int)
    requires 1 <= gap && 0 <= start && start + gap < |s|
    requires GapSorted(s, gap, start + gap) && s[start] > s[start + gap]
    ensures GapSifting(Swapped(s, start, start + gap), gap, start + gap + 1, start)
  {
    var end := start + gap;
    var t := Swapped(s, start, end);
    forall k | 0 <= k && k + gap < end + 1 && k + gap != start ensures t[k] <= t[k + gap] {
      if k != start {
        assert t[k] == s[k] && t[k + gap] == s[k + gap];
      }
    }
    if start - gap >= 0 && start + gap < end + 1 {
      assert t[start - gap] == s[start - gap];
      assert s[start - gap] <= s[start];
    }
  }

  /** The travelling element swaps with the larger one `gap` places back. */
  lemma ShellSiftStep(s: seq<int>, gap: int, hi: int, hole: int)
    requires 1 <= gap && gap <= hole < hi <= |s|
    requires GapSifting(s, gap, hi, hole) && s[hole - gap] > s[hole]
    ensures GapSifting(Swapped(s, hole - gap, hole), gap, hi, hole - gap)
  {
    var p := hole - gap;
    var t := Swapped(s, p, hole);
    forall k | 0 <= k && k + gap < hi && k + gap != p ensures t[k] <= t[k + gap] {
      if k == p {
        assert t[k] == s[hole] && t[k + gap] == s[p];
      } else if k == hole {
        assert t[k] == s[p];
        assert t[k + gap] == s[k + gap];
      } else {
        assert t[k] == s[k] && t[k + gap] == s[k + gap];
      }
    }
    if p - gap >= 0 && p + gap < hi {
      assert t[p - gap] == s[p - gap] && t[p + gap] == s[p];
      assert s[p - gap] <= s[p];
    }
  }

  /** Position k lies on the chain hole, hole - gap, hole - 2 * gap, ...
      that the shell sort's sifting walks back along. */
  ghost predicate OnChain(k: int, hole: int, gap: int)
    requires 1 <= gap
    decreases hole - k
  {
    k == hole || (k < hole && OnChain(k + gap, hole, gap))
  }

  /** t differs from s only at positions on the chain ending at `hole`. */
  ghost predicate ChainFrame(t: seq<int>, s: seq<int>, gap: int, hole: int)
    requires 1 <= gap && |t| == |s|
  {
    forall k :: 0 <= k < |t| && !OnChain(k, hole, gap) ==> t[k] == s[k]
  }

  /** Swapping a chain position with the one `gap` before it stays on the
      chain. */
  lemma ChainSwapStep(s0: seq<int>, s: seq<int>, gap: int, hole: int, cur: int)
    requires 1 <= gap && gap <= cur < |s| == |s0|
    requires OnChain(cur, hole, gap) && ChainFrame(s, s0, gap, hole)
    ensures OnChain(cur - gap, hole, gap)
    ensures ChainFrame(Swapped(s, cur - gap, cur), s0, gap, hole)
  {
  }

  /** The travelling element has stopped: [0, hi) is gap-sorted. */
  lemma ShellSiftEnd(s: seq<int>, gap: int, hi: int, hole: int)
    requires 1 <= gap && 0 <= hole < hi <= |s|
    requires GapSifting(s, gap, hi, hole)
    requires hole - gap < 0 || s[hole - gap] <= s[hole]
    ensures GapSorted(s, gap, hi)
  {
  }

  /** Gap-sorted with gap 1 is sorted. */
  lemma GapOneSorted(s: seq<int>)
    requires GapSorted(s, 1, |s|)
    ensures Sorted(s)
  {
    assert AdjacentSorted(s) by {
      forall k | 0 < k < |s| ensures s[k - 1] <= s[k] {
        assert (k - 1) + 1 < |s|;
      }
    }
    AdjacentSortedIsSorted(s);
  }

  // ---------------- Quick sort ----------------

  /** The Lomuto invariant: [lo, i] is below the pivot, (i, j) is at least the
      pivot, and the pivot still sits at `end`. */
  ghost predicate Lomuto(s: seq<int>, lo: int, i: int, j: int, end: int, pivot: int)
    requires 0 <= lo && lo - 1 <= i < j <= end < |s|
  {
    s[end] == pivot &&
    (forall k :: lo <= k <= i ==> s[k] < pivot) &&
    (forall k :: i < k < j ==> pivot <= s[k])
  }

  /** An element below the pivot is swapped to the front of the large block. */
  lemma PartitionSwapStep(s: seq<int>, lo: int, i: int, j: int, end: int, pivot: int)
    requires 0 <= lo && lo - 1 <= i < j < end < |s|
    requires Lomuto(s, lo, i, j, end, pivot) && s[j] < pivot
    ensures Lomuto(Swapped(s, i + 1, j), lo, i + 1, j + 1, end, pivot)
  {
    var t := Swapped(s, i + 1, j);
    forall k | lo <= k <= i + 1 ensures t[k] < pivot {
      if k < i + 1 { assert t[k] == s[k]; }
    }
    forall k | i + 1 < k < j + 1 ensures pivot <= t[k] {
      if k == j { assert t[k] == s[i + 1]; } else { assert t[k] == s[k]; }
    }
  }

  /** The pivot is swapped into place just after the small block. */
  lemma PartitionEnd(s: seq<int>, lo: int, i: int, end: int, pivot: int)
    requires 0 <= lo && lo - 1 <= i < end < |s|
    requires Lomuto(s, lo, i, end, end, pivot)
    ensures var t := Swapped(s, i + 1, end);
      t[i + 1] == pivot &&
      (forall k :: lo <= k < i + 1 ==> t[k] < pivot) &&
      (forall k :: i + 1 < k <= end ==> pivot <= t[k])
  {
    var t := Swapped(s, i + 1, end);
    forall k | lo <= k < i + 1 ensures t[k] < pivot {
      assert t[k] == s[k];
    }
    forall k | i + 1 < k <= end ensures pivot <= t[k] {
      if k == end { assert t[k] == s[i + 1]; } else { assert t[k] == s[k]; }
    }
  }

  /** Positions [lo, hi) are the only ones that differ between the two sequences. */
  ghost predicate SameOutside(s: seq<int>, t: seq<int>, lo: int, hi: int)
    requires |s| == |t|
  {
    forall k :: 0 <= k < |s| && !(lo <= k < hi) ==> s[k] == t[k]
  }

  /** A swap inside [lo, hi) changes nothing outside it. */
  lemma SwapInside(s0: seq<int>, s: seq<int>, i: int, j: int, lo: int, hi: int)
    requires |s0| == |s| && lo <= i < hi && lo <= j < hi && InBounds(|s|, i, j)
    requires SameOutside(s, s0, lo, hi)
    ensures SameOutside(Swapped(s, i, j), s0, lo, hi)
  {
  }

  /** If a sequence keeps its elements and only positions [lo, hi) differ,
      then the elements of [lo, hi) are a permutation of the old ones. */
  lemma RangePermutation(s: seq<int>, t: seq<int>, lo: int, hi: int)
    requires 0 <= lo <= hi <= |s| == |t|
    requires multiset(t) == multiset(s)
    requires SameOutside(t, s, lo, hi)
    ensures multiset(t[lo..hi]) == multiset(s[lo..hi])
  {
    SplitMultiset(s, lo, hi);
    SplitMultiset(t, lo, hi);
    assert s[..lo] == t[..lo] && s[hi..] == t[hi..];
  }

  /** The elements of [lo, hi) are those of the whole sequence less those
      outside the range. */
  lemma SplitMultiset(s: seq<int>, lo: int, hi: int)
    requires 0 <= lo <= hi <= |s|
    ensures multiset(s[lo..hi]) == multiset(s) - multiset(s[..lo]) - multiset(s[hi..])
  {
    assert s == s[..lo] + (s[lo..hi] + s[hi..]);
    assert multiset(s) == multiset(s[..lo]) + multiset(s[lo..hi]) + multiset(s[hi..]);
  }

  /** The quick sort's recursion step: after partitioning s0 into s1 around
      the pivot at p, sorting [lo, p) gives s2 and sorting (p, hi) gives s3.
      Then s3 is sorted on [lo, hi), differs from s0 only there, and is a
      permutation of s0. */
  lemma QuickCombine(s0: seq<int>, s1: seq<int>, s2: seq<int>, s3: seq<int>, lo: int, p: int, hi: int)
    requires 0 <= lo <= p < hi <= |s0| && |s0| == |s1| == |s2| == |s3|
    requires SameOutside(s1, s0, lo, hi) && multiset(s1) == multiset(s0)
    requires forall k :: lo <= k < p ==> s1[k] < s1[p]
    requires forall k :: p < k < hi ==> s1[p] <= s1[k]
    requires SortedRange(s2, lo, p) && SameOutside(s2, s1, lo, p) && multiset(s2) == multiset(s1)
    requires SortedRange(s3, p + 1, hi) && SameOutside(s3, s2, p + 1, hi) && multiset(s3) == multiset(s2)
    ensures SortedRange(s3, lo, hi)
    ensures SameOutside(s3, s0, lo, hi)
    ensures multiset(s3) == multiset(s0)
  {
    var pivot := s1[p];
    RangePermutation(s1, s2, lo, p);
    PermutedRangeKeepsBound(s1, s2, lo, p, pivot, true);
    RangePermutation(s2, s3, p + 1, hi);
    PermutedRangeKeepsBound(s2, s3, p + 1, hi, pivot, false);
    assert SortedRange(s3, lo, p) by {
      forall i, j | lo <= i < j < p ensures s3[i] <= s3[j] {
        assert s3[i] == s2[i] && s3[j] == s2[j];
      }
    }
    assert s3[p] == pivot;
    QuickJoin(s3, lo, p, hi);
  }

  /** The two halves around the pivot, each sorted, with the small half below
      the pivot and the large half at least the pivot, make a sorted range. */
  lemma QuickJoin(s: seq<int>, lo: int, p: int, hi: int)
    requires 0 <= lo <= p < hi <= |s|
    requires SortedRange(s, lo, p) && SortedRange(s, p + 1, hi)
    requires forall k :: lo <= k < p ==> s[k] < s[p]
    requires forall k :: p < k < hi ==> s[p] <= s[k]
    ensures SortedRange(s, lo, hi)
  {
  }
}
