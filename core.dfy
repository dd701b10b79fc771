/** The bounds-checked swap that every sorting algorithm uses as its only
    mutation, and the vocabulary of orderings the sorts are specified with. */
module Core {

  /** The error `swap` throws: the array length and the two offending indices. */
  datatype SwapError = OutOfBounds(length: int, i: int, j: int)

  /** Either the swap went through or it raised its out-of-range error. */
  datatype Outcome = Pass | Fail(error: SwapError)

  /** Both indices lie in [0, length). */
  predicate InBounds(length: int, i: int, j: int) {
    0 <= i < length && 0 <= j < length
  }

  /** `s` with the elements at `i` and `j` exchanged. */
  function Swapped(s: seq<int>, i: int, j: int): (r: seq<int>)
    requires InBounds(|s|, i, j)
    ensures |r| == |s| && r[i] == s[j] && r[j] == s[i]
    ensures forall k :: 0 <= k < |s| && k != i && k != j ==> r[k] == s[k]
    ensures multiset(r) == multiset(s)
  {
    s[i := s[j]][j := s[i]]
  }

  /** Swapping the same pair twice restores the sequence. */
  lemma SwappedTwice(s: seq<int>, i: int, j: int)
    requires InBounds(|s|, i, j)
    ensures Swapped(Swapped(s, i, j), i, j) == s
  {
  }

  /** The page's `swap(arr, i, j)` (js/main.js): if either index is outside [0, length)
      it raises the out-of-range error before writing anything; otherwise it
      exchanges the two elements and leaves every other position alone. */
  method Swap(a: array<int>, i: int, j: int) returns (r: Outcome)
    modifies a
    ensures r.Pass? <==> InBounds(a.Length, i, j)
    ensures r.Fail? ==> r.error == OutOfBounds(a.Length, i, j) && a[..] == old(a[..])
    ensures r.Pass? ==> a[..] == Swapped(old(a[..]), i, j)
  {
    if i < 0 || i >= a.Length || j < 0 || j >= a.Length {
      return Fail(OutOfBounds(a.Length, i, j));
    }
    var tmp := a[i];
    a[i] := a[j];
    a[j] := tmp;
    r := Pass;
  }

  /** Ascending (non-decreasing) order. */
  ghost predicate Sorted(s: seq<int>) {
    forall i, j :: 0 <= i < j < |s| ==> s[i] <= s[j]
  }

  /** Ascending order on positions [lo, hi). */
  ghost predicate SortedRange(s: seq<int>, lo: int, hi: int)
    requires 0 <= lo <= hi <= |s|
  {
    forall i, j :: lo <= i < j < hi ==> s[i] <= s[j]
  }

  /** Every neighbouring pair is in order. */
  ghost predicate AdjacentSorted(s: seq<int>) {
    forall k :: 0 < k < |s| ==> s[k - 1] <= s[k]
  }

  /** Every element of [0, mid) is at most every element of [mid, |s|). */
  ghost predicate Partitioned(s: seq<int>, mid: int)
    requires 0 <= mid <= |s|
  {
    forall i, j :: 0 <= i < mid <= j < |s| ==> s[i] <= s[j]
  }

  /** Checking neighbours is enough: a sequence in which every neighbouring
      pair is ordered is sorted. */
  lemma {:induction false} AdjacentSortedIsSorted(s: seq<int>)
    requires AdjacentSorted(s)
    ensures Sorted(s)
  {
    if |s| > 1 {
      var t := s[..|s| - 1];
      assert AdjacentSorted(t) by {
        forall k | 0 < k < |t| ensures t[k - 1] <= t[k] {
          assert t[k - 1] == s[k - 1] && t[k] == s[k];
        }
      }
      AdjacentSortedIsSorted(t);
      forall i, j | 0 <= i < j < |s| ensures s[i] <= s[j] {
        if j < |s| - 1 {
          assert s[i] == t[i] && s[j] == t[j];
        } else if i < j - 1 {
          assert s[i] == t[i] && s[j - 1] == t[j - 1];
        }
      }
    }
  }

  /** Every value of `s` is at least the first element of a sorted `s`. */
  lemma SortedHeadIsMinimum(s: seq<int>, x: int)
    requires Sorted(s) && x in multiset(s)
    ensures s[0] <= x
  {
    var k :| 0 <= k < |s| && s[k] == x;
  }

  /** A sorted permutation is unique: two sorted sequences with the same
      elements are equal. So all five sorts leave the same array behind. */
  lemma {:induction false} SortedPermutationUnique(a: seq<int>, b: seq<int>)
    requires Sorted(a) && Sorted(b)
    requires multiset(a) == multiset(b)
    ensures a == b
  {
    if |a| == 0 {
      assert |multiset(b)| == 0;
    } else {
      assert |a| == |multiset(a)| == |multiset(b)| == |b|;
      assert a[0] in multiset(a) && b[0] in multiset(b);
      SortedHeadIsMinimum(a, b[0]);
      SortedHeadIsMinimum(b, a[0]);
      assert a == [a[0]] + a[1..] && b == [b[0]] + b[1..];
      assert multiset(a) == multiset{a[0]} + multiset(a[1..]);
      assert multiset(b) == multiset{b[0]} + multiset(b[1..]);
      assert a[0] == b[0];
      assert multiset(a[1..]) == multiset(a) - multiset{a[0]};
      assert multiset(b[1..]) == multiset(b) - multiset{b[0]};
      SortedPermutationUnique(a[1..], b[1..]);
    }
  }

  /** Permuting positions [lo, hi) keeps every bound that held on that range
      (all below the pivot, or all at least the pivot). */
  lemma PermutedRangeKeepsBound(old_s: seq<int>, s: seq<int>, lo: int, hi: int, pivot: int, below: bool)
    requires 0 <= lo <= hi <= |s| == |old_s|
    requires multiset(s[lo..hi]) == multiset(old_s[lo..hi])
    requires forall k :: lo <= k < hi ==> (if below then old_s[k] < pivot else pivot <= old_s[k])
    ensures forall k :: lo <= k < hi ==> (if below then s[k] < pivot else pivot <= s[k])
  {
    forall k | lo <= k < hi ensures if below then s[k] < pivot else pivot <= s[k] {
      assert s[k] == s[lo..hi][k - lo];
      assert s[k] in multiset(old_s[lo..hi]);
      var m :| 0 <= m < hi - lo && old_s[lo..hi][m] == s[k];
      assert old_s[lo + m] == s[k];
    }
  }
}
