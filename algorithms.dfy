/** The five visualised sorting algorithms. Each card of the page is an
    `Algorithm` object that owns its array of bar heights and its bar
    spacing; its sort works on that array in place, and every swap is followed
    by one animation step (clear the canvas, redraw the bars, sleep for the
    current delay), which the model counts in `steps`. */
module Algorithms {
  import opened Core
  import opened Utilities
  import opened Generation
  import opened SortSteps

  /** The algorithm a card runs. */
  datatype Kind = Shell | Quick | Bubble | Selection | Insertion

  /** The lower-case word that starts each algorithm's name. */
  function Word(kind: Kind): string {
    match kind
    case Shell => "shell"
    case Quick => "quick"
    case Bubble => "bubble"
    case Selection => "selection"
    case Insertion => "insertion"
  }

  /** The name a card is registered under: "shellSort", "quickSort", ... */
  function Name(kind: Kind): string {
    Word(kind) + "Sort"
  }

  /** The title each card shows: "Shell Sort", "Quick Sort", ... */
  function Title(kind: Kind): string {
    match kind
    case Shell => "Shell Sort"
    case Quick => "Quick Sort"
    case Bubble => "Bubble Sort"
    case Selection => "Selection Sort"
    case Insertion => "Insertion Sort"
  }

  /** Formatting a card's registered name gives its title. */
  lemma CardTitle(kind: Kind)
    ensures FormatAlgoName(Name(kind)) == Title(kind)
  {
    match kind
    case Shell => TitleFromWord("shell", 'S', "Shell Sort");
    case Quick => TitleFromWord("quick", 'Q', "Quick Sort");
    case Bubble => TitleFromWord("bubble", 'B', "Bubble Sort");
    case Selection => TitleFromWord("selection", 'S', "Selection Sort");
    case Insertion => TitleFromWord("insertion", 'I', "Insertion Sort");
  }

  /** A word free of 'S' followed by "Sort" is shown as the word with its
      first letter upper-cased, then " Sort". */
  lemma TitleFromWord(w: string, first: char, title: string)
    requires |w| > 0 && 'S' !in w && UpperChar(w[0]) == first
    requires title == [first] + w[1..] + " Sort"
    ensures FormatAlgoName(w + "Sort") == title
  {
    assert w + "Sort" == w + "Sort" + "";
    FormatAlgoNameOfSortName(w, "");
  }

  /** The shell sort's gaps from `gap` down: each the previous one halved,
      stopping before 0. Every gap is positive and at most the first, and
      each is smaller than the one before it. */
  function Halvings(gap: nat): (gaps: seq<nat>)
    decreases gap
    ensures forall k :: 0 <= k < |gaps| ==> 1 <= gaps[k] <= gap
    ensures forall k :: 0 < k < |gaps| ==> gaps[k] < gaps[k - 1]
  {
    if gap == 0 then [] else [gap] + Halvings(gap / 2)
  }

  /** One more gap moves from the remaining halvings to the gaps used. */
  lemma HalvingsStep(used: seq<nat>, gap: nat, top: nat)
    requires gap > 0 && used + Halvings(gap) == Halvings(top)
    ensures (used + [gap]) + Halvings(gap / 2) == Halvings(top)
    ensures gap / 2 == 0 ==> used + [gap] == Halvings(top)
  {
    assert Halvings(gap) == [gap] + Halvings(gap / 2);
    assert used + Halvings(gap) == (used + [gap]) + Halvings(gap / 2);
  }

  /** The gaps halve strictly, stay positive, and end at 1 unless there are none;
      an array of length n gets the gaps starting at floor(n / 2), so none
      at all when n <= 1. */
  lemma {:induction false} HalvingsShape(gap: nat)
    ensures |Halvings(gap)| == 0 <==> gap == 0
    ensures forall k :: 0 <= k < |Halvings(gap)| ==> Halvings(gap)[k] >= 1
    ensures forall k :: 0 < k < |Halvings(gap)| ==> Halvings(gap)[k] == Halvings(gap)[k - 1] / 2
    ensures gap > 0 ==> Halvings(gap)[0] == gap && Halvings(gap)[|Halvings(gap)| - 1] == 1
  {
    if gap > 0 {
      HalvingsShape(gap / 2);
      var t := Halvings(gap / 2);
      assert Halvings(gap) == [gap] + t;
      if gap == 1 {
        assert t == [];
      }
    }
  }

  /** The first index in [0, len) holding a largest element: the inner loop of
      the selection sort. It keeps the first maximum because it only moves on
      a strictly larger element. */
  method FirstMaxIndex(a: array<int>, len: int) returns (indexMax: int)
    requires 0 < len <= a.Length
    ensures 0 <= indexMax < len
    ensures forall k :: 0 <= k < len ==> a[k] <= a[indexMax]
    ensures forall k :: 0 <= k < indexMax ==> a[k] < a[indexMax]
  {
    indexMax := 0;
    var j := 0;
    while j < len
      invariant 0 <= j <= len
      invariant 0 <= indexMax < len && (indexMax < j || indexMax == 0)
      invariant forall k :: 0 <= k < j ==> a[k] <= a[indexMax]
      invariant forall k :: 0 <= k < indexMax ==> a[k] < a[indexMax]
    {
      if a[j] > a[indexMax] {
        indexMax := j;
      }
      j := j + 1;
    }
  }

  class Algorithm {
    const kind: Kind
    var barSpacing: int
    var barHeights: array<int>
    /** Animation steps taken so far: one per swap of a sort. */
    var steps: nat

    /** The card's bar spacing is within the density slider's bounds. */
    predicate Valid()
      reads this
    {
      MinSpacing <= barSpacing <= MaxSpacing
    }

    /** A fresh card: default spacing, no bars yet. */
    constructor (kind: Kind)
      ensures Valid()
      ensures this.kind == kind && barSpacing == DefaultSpacing
      ensures barHeights.Length == 0 && steps == 0
    {
      this.kind := kind;
      barSpacing := DefaultSpacing;
      barHeights := new int[0];
      steps := 0;
    }

    /** The card's sort button: run this card's algorithm to completion. */
    method Sort()
      modifies this`steps, barHeights
      ensures Sorted(barHeights[..])
      ensures multiset(barHeights[..]) == multiset(old(barHeights[..]))
      ensures barHeights.Length <= 1 ==> steps == old(steps)
      ensures kind == Insertion && Sorted(old(barHeights[..])) ==>
        barHeights[..] == old(barHeights[..]) && steps == old(steps)
      ensures kind == Selection && barHeights.Length > 1 ==> steps == old(steps) + barHeights.Length - 1
    {
      match kind
      case Shell => ghost var gaps := ShellSort();
      case Quick => QuickSort();
      case Bubble => BubbleSort();
      case Selection => SelectionSort();
      case Insertion => InsertionSort();
    }

    /** Shell sort with the gaps floor(n/2), floor(n/4), ..., 1: a gapped
        insertion sort per gap. The final pass with gap 1 leaves the array
        sorted. */
    method ShellSort() returns (ghost gaps: seq<nat>)
      modifies this`steps, barHeights
      ensures gaps == Halvings(barHeights.Length / 2)
      ensures Sorted(barHeights[..])
      ensures multiset(barHeights[..]) == multiset(old(barHeights[..]))
      ensures barHeights.Length <= 1 ==> steps == old(steps)
    {
      var a := barHeights;
      ghost var s0 := a[..];
      var n := a.Length;
      var gap := n / 2;
      gaps := [];
      assert gap == 0 ==> Halvings(gap) == [];
      hide Halvings;
      while gap != 0
        invariant 0 <= gap <= n / 2
        invariant gaps + Halvings(gap) == Halvings(n / 2)
        invariant gap == 0 ==> gaps == Halvings(n / 2)
        invariant gap == 0 ==> Sorted(a[..])
        invariant multiset(a[..]) == multiset(s0)
        invariant n <= 1 ==> steps == old(steps)
        decreases gap
      {
        HalvingsStep(gaps, gap, n / 2);
        gaps := gaps + [gap];
        GapPass(a, gap);
        if gap == 1 {
          GapOneSorted(a[..]);
        }
        gap := gap / 2;
      }
    }

    /** One turn of the shell sort's outer loop: walks the pairs (start,
        start + gap) from the front, swapping each out-of-order pair and then
        sifting the smaller element further back. Afterwards every element is
        at most the one `gap` places on. */
    method GapPass(a: array<int>, gap: int)
      requires 1 <= gap <= a.Length
      modifies this`steps, a
      ensures GapSorted(a[..], gap, a.Length)
      ensures multiset(a[..]) == multiset(old(a[..]))
    {
      hide GapSifting;
      hide Swapped;
      ghost var s0 := a[..];
      var n := a.Length;
      var start := 0;
      var end := start + gap;
      while end < n
        invariant 0 <= start && end == start + gap && end <= n
        invariant GapSorted(a[..], gap, end)
        invariant multiset(a[..]) == multiset(s0)
        decreases n - end
      {
        if a[start] > a[end] {
          ghost var before := a[..];
          var r := Swap(a, start, end);
          assert r.Pass?;
          ShellSwapStart(before, gap, start);
          steps := steps + 1;
          SiftBack(a, gap, start, end + 1);
        } else {
          ShellKeep(a[..], gap, start);
        }
        start := start + 1;
        end := end + 1;
      }
    }

    /** The shell sort's innermost loop: the element at `hole` moves `gap`
        places back, one swap at a time, while the element there is larger.
        Afterwards [0, hi) is gap-sorted again. */
    method SiftBack(a: array<int>, gap: int, hole: int, hi: int)
      requires 1 <= gap && 0 <= hole < hi <= a.Length
      requires GapSifting(a[..], gap, hi, hole)
      modifies this`steps, a
      ensures GapSorted(a[..], gap, hi)
      ensures multiset(a[..]) == multiset(old(a[..]))
      ensures a[hi..] == old(a[hi..])
      ensures ChainFrame(a[..], old(a[..]), gap, hole)
    {
      ghost var s0 := a[..];
      assert OnChain(hole, hole, gap);
      hide GapSorted;
      hide GapSifting;
      hide Swapped;
      var tmpStart := hole;
      var previous := tmpStart - gap;
      while previous > -1 && a[previous] > a[tmpStart]
        invariant previous == tmpStart - gap && 0 <= tmpStart <= hole
        invariant GapSifting(a[..], gap, hi, tmpStart)
        invariant multiset(a[..]) == multiset(s0)
        invariant a[hi..] == s0[hi..]
        invariant OnChain(tmpStart, hole, gap) && ChainFrame(a[..], s0, gap, hole)
        decreases tmpStart
      {
        ghost var before := a[..];
        var r := Swap(a, previous, tmpStart);
        assert r.Pass?;
        ShellSiftStep(before, gap, hi, tmpStart);
        ChainSwapStep(s0, before, gap, hole, tmpStart);
        steps := steps + 1;
        tmpStart := previous;
        previous := previous - gap;
      }
      ShellSiftEnd(a[..], gap, hi, tmpStart);
    }

    /** Quick sort of the whole array; an empty array passes end = -1, so
        nothing happens. */
    method QuickSort()
      modifies this`steps, barHeights
      ensures Sorted(barHeights[..])
      ensures multiset(barHeights[..]) == multiset(old(barHeights[..]))
      ensures barHeights.Length <= 1 ==> barHeights[..] == old(barHeights[..]) && steps == old(steps)
    {
      QuickSortHelper(barHeights, 0, barHeights.Length - 1);
    }

    /** Lomuto partition of arr[start..end] around the pivot arr[end]: returns
        the pivot's final index p; everything in [start, p) is below the
        pivot, everything in (p, end] is at least the pivot, and nothing
        outside [start, end] moves. */
    method Partition(arr: array<int>, start: int, end: int) returns (p: int)
      requires 0 <= start <= end < arr.Length
      modifies this`steps, arr
      ensures start <= p <= end
      ensures arr[p] == old(arr[end])
      ensures forall k :: start <= k < p ==> arr[k] < arr[p]
      ensures forall k :: p < k <= end ==> arr[p] <= arr[k]
      ensures SameOutside(arr[..], old(arr[..]), start, end + 1)
      ensures multiset(arr[..]) == multiset(old(arr[..]))
    {
      ghost var s0 := arr[..];
      var pivot := arr[end];
      var i := PartitionScan(arr, start, end);
      ghost var before := arr[..];
      var r := Swap(arr, i + 1, end);
      assert r.Pass?;
      PartitionEnd(before, start, i, end, pivot);
      SwapInside(s0, before, i + 1, end, start, end + 1);
      steps := steps + 1;
      p := i + 1;
    }

    /** The scanning loop of the partition: every element of [start, end)
        below the pivot arr[end] is swapped to the front. Returns i such that
        [start, i] holds the elements below the pivot and (i, end) the
        others, with the pivot still at end. */
    method PartitionScan(arr: array<int>, start: int, end: int) returns (i: int)
      requires 0 <= start <= end < arr.Length
      modifies this`steps, arr
      ensures start - 1 <= i < end
      ensures Lomuto(arr[..], start, i, end, end, old(arr[end]))
      ensures SameOutside(arr[..], old(arr[..]), start, end + 1)
      ensures multiset(arr[..]) == multiset(old(arr[..]))
    {
      ghost var s0 := arr[..];
      var pivot := arr[end];
      i := start - 1;
      var j := start;
      while j < end
        invariant start <= j <= end && start - 1 <= i < j
        invariant Lomuto(arr[..], start, i, j, end, pivot)
        invariant SameOutside(arr[..], s0, start, end + 1)
        invariant multiset(arr[..]) == multiset(s0)
      {
        if arr[j] < pivot {
          ghost var before := arr[..];
          i := i + 1;
          var r := Swap(arr, i, j);
          assert r.Pass?;
          PartitionSwapStep(before, start, i - 1, j, end, pivot);
          SwapInside(s0, before, i, j, start, end + 1);
          steps := steps + 1;
        }
        j := j + 1;
      }
    }

    /** Sorts arr[start..end] (both ends included) and nothing else; a range
        of at most one element is left alone. */
    method QuickSortHelper(arr: array<int>, start: int, end: int)
      requires 0 <= start <= end + 1 <= arr.Length
      modifies this`steps, arr
      decreases end - start
      ensures SortedRange(arr[..], start, end + 1)
      ensures SameOutside(arr[..], old(arr[..]), start, end + 1)
      ensures multiset(arr[..]) == multiset(old(arr[..]))
      ensures start >= end ==> arr[..] == old(arr[..]) && steps == old(steps)
    {
      if start < end {
        ghost var s0 := arr[..];
        var idx := Partition(arr, start, end);
        ghost var s1 := arr[..];
        QuickSortHelper(arr, start, idx - 1);
        ghost var s2 := arr[..];
        QuickSortHelper(arr, idx + 1, end);
        QuickCombine(s0, s1, s2, arr[..], start, idx, end + 1);
      }
    }

    /** Bubble sort with an early exit: after pass i the last i + 1 positions
        hold the largest elements in ascending order, and once a pass makes no
        swap the array is sorted and every later pass is skipped. */
    method BubbleSort()
      modifies this`steps, barHeights
      ensures Sorted(barHeights[..])
      ensures multiset(barHeights[..]) == multiset(old(barHeights[..]))
      ensures barHeights.Length <= 1 ==> steps == old(steps)
    {
      var a := barHeights;
      ghost var s0 := a[..];
      var n := a.Length;
      var alreadySorted := false;
      var i := 0;
      while i < n - 1
        invariant 0 <= i && (i <= n - 1 || i == 0)
        invariant TailPlaced(a[..], n - i)
        invariant alreadySorted ==> Sorted(a[..])
        invariant multiset(a[..]) == multiset(s0)
        invariant n <= 1 ==> steps == old(steps)
      {
        if !alreadySorted {
          alreadySorted := BubblePass(a, n - i);
        } else {
          SortedTailPlaced(a[..], n - i - 1);
        }
        i := i + 1;
      }
      TailPlacedSorted(a[..], n - i);
    }

    /** One pass of the bubble sort over [0, hi), whose tail from hi on is
        already placed: neighbours out of order are swapped, which carries the
        largest element of [0, hi) to hi - 1. Returns whether the pass made
        no swap, in which case the array is as it was and the whole of it is
        sorted. */
    method BubblePass(a: array<int>, hi: int) returns (quiet: bool)
      requires 0 < hi <= a.Length && TailPlaced(a[..], hi)
      modifies this`steps, a
      ensures TailPlaced(a[..], hi - 1)
      ensures quiet ==> Sorted(a[..])
      ensures multiset(a[..]) == multiset(old(a[..]))
      ensures quiet ==> a[..] == old(a[..]) && steps == old(steps)
      ensures !quiet ==> steps > old(steps)
    {
      ghost var s0 := a[..];
      quiet := true;
      var j := 0;
      assert MaxAt(a[..], 0) && SortedRange(a[..], 0, 1);
      hide MaxAt;
      hide TailPlaced;
      hide SortedRange;
      hide Sorted;
      hide Swapped;
      while j < hi - 1
        invariant 0 <= j <= hi - 1
        invariant MaxAt(a[..], j)
        invariant TailPlaced(a[..], hi)
        invariant quiet ==> SortedRange(a[..], 0, j + 1)
        invariant multiset(a[..]) == multiset(s0)
        invariant quiet ==> a[..] == s0 && steps == old(steps)
        invariant !quiet ==> steps > old(steps)
      {
        if a[j] > a[j + 1] {
          quiet := false;
          ghost var before := a[..];
          var r := Swap(a, j, j + 1);
          assert r.Pass?;
          BubbleSwapStep(before, j, hi);
          steps := steps + 1;
        } else {
          BubbleKeepStep(a[..], j);
        }
        j := j + 1;
      }
      BubblePassEnd(a[..], hi);
      if quiet {
        BubbleQuietPass(a[..], hi);
      }
    }

    /** Selection sort towards the tail: pass i swaps the first maximum of
        a[0 .. n-i) into position n-1-i. Every pass swaps, even on a sorted
        array, so there are exactly n - 1 steps. */
    method SelectionSort()
      modifies this`steps, barHeights
      ensures Sorted(barHeights[..])
      ensures multiset(barHeights[..]) == multiset(old(barHeights[..]))
      ensures steps == old(steps) + (if barHeights.Length > 1 then barHeights.Length - 1 else 0)
    {
      var a := barHeights;
      ghost var s0 := a[..];
      var n := a.Length;
      var i := 0;
      while i < n - 1
        invariant 0 <= i && (i <= n - 1 || i == 0)
        invariant TailPlaced(a[..], n - i)
        invariant multiset(a[..]) == multiset(s0)
        invariant steps == old(steps) + i
      {
        var indexMax := FirstMaxIndex(a, n - i);
        ghost var before := a[..];
        var r := Swap(a, indexMax, n - 1 - i);
        assert r.Pass?;
        SelectionStep(before, indexMax, n - 1 - i);
        steps := steps + 1;
        i := i + 1;
      }
      TailPlacedSorted(a[..], n - i);
    }

    /** Insertion sort by adjacent swaps: before pass i the prefix [0, i) is
        sorted, and the pass moves element i left into place. An already
        sorted array is never swapped. */
    method InsertionSort()
      modifies this`steps, barHeights
      ensures Sorted(barHeights[..])
      ensures multiset(barHeights[..]) == multiset(old(barHeights[..]))
      ensures Sorted(old(barHeights[..])) ==> barHeights[..] == old(barHeights[..]) && steps == old(steps)
      ensures barHeights.Length <= 1 ==> steps == old(steps)
    {
      var a := barHeights;
      ghost var s0 := a[..];
      var n := a.Length;
      var i := 1;
      while i < n
        invariant 1 <= i && (i <= n || i == 1)
        invariant i <= n ==> SortedRange(a[..], 0, i)
        invariant multiset(a[..]) == multiset(s0)
        invariant Sorted(s0) ==> a[..] == s0 && steps == old(steps)
      {
        InsertionPass(a, i);
        i := i + 1;
      }
    }

    /** The insertion sort's inner loop for element i: swap it with its left
        neighbour while that neighbour is larger. The sorted prefix [0, i)
        grows to [0, i]; an element not below its left neighbour stays put. */
    method InsertionPass(a: array<int>, i: int)
      requires 0 < i < a.Length && SortedRange(a[..], 0, i)
      modifies this`steps, a
      ensures SortedRange(a[..], 0, i + 1)
      ensures multiset(a[..]) == multiset(old(a[..]))
      ensures a[i + 1..] == old(a[i + 1..])
      ensures old(a[i - 1] <= a[i]) ==> a[..] == old(a[..]) && steps == old(steps)
    {
      hide Sifting;
      hide SortedRange;
      hide Swapped;
      ghost var s0 := a[..];
      InsertionStart(a[..], i);
      var k := i;
      while k > 0 && a[k] < a[k - 1]
        invariant 0 <= k <= i
        invariant Sifting(a[..], k, i)
        invariant multiset(a[..]) == multiset(s0)
        invariant k == i ==> a[..] == s0 && steps == old(steps)
        invariant a[i + 1..] == s0[i + 1..]
        invariant s0[i - 1] <= s0[i] ==> k == i
      {
        ghost var before := a[..];
        var r := Swap(a, k, k - 1);
        assert r.Pass?;
        InsertionStep(before, k, i);
        k := k - 1;
        steps := steps + 1;
      }
      InsertionEnd(a[..], k, i);
    }

    /** Fills the card with one bar per x = 2, 2 + spacing, ... below the
        width; bar k gets the height draw(k), which stands for the random
        height the page picks for it. */
    method GenerateBarHeights(width: int, draw: nat -> int)
      requires Valid()
      modifies this`barHeights
      ensures fresh(barHeights)
      ensures barHeights.Length == BarCount(width, barSpacing)
      ensures forall k :: 0 <= k < barHeights.Length ==> barHeights[k] == draw(k)
    {
      var heights: seq<int> := [];
      var x := LeftPadding;
      while x < width
        invariant |heights| + BarsFrom(x, width, barSpacing) == BarCount(width, barSpacing)
        invariant forall k :: 0 <= k < |heights| ==> heights[k] == draw(k)
        decreases width - x
      {
        heights := heights + [draw(|heights|)];
        x := x + barSpacing;
      }
      barHeights := new int[|heights|](k requires 0 <= k < |heights| => heights[k]);
    }

    /** The "more bars" button: narrow the spacing by one unless it is already
        at the minimum of 3, and regenerate the bars if it changed. */
    method MoreBars(width: int, draw: nat -> int)
      requires Valid()
      modifies this`barSpacing, this`barHeights
      ensures Valid()
      ensures barSpacing == if old(barSpacing) > MinSpacing then old(barSpacing) - 1 else old(barSpacing)
      ensures old(barSpacing) > MinSpacing ==>
        fresh(barHeights) && barHeights.Length == BarCount(width, barSpacing) &&
        forall k :: 0 <= k < barHeights.Length ==> barHeights[k] == draw(k)
      ensures old(barSpacing) <= MinSpacing ==> barHeights == old(barHeights)
    {
      if barSpacing > MinSpacing {
        barSpacing := barSpacing - 1;
        GenerateBarHeights(width, draw);
      }
    }

    /** The "fewer bars" button: widen the spacing by one unless it is already
        at the maximum of 30, and regenerate the bars if it changed. */
    method FewerBars(width: int, draw: nat -> int)
      requires Valid()
      modifies this`barSpacing, this`barHeights
      ensures Valid()
      ensures barSpacing == if old(barSpacing) < MaxSpacing then old(barSpacing) + 1 else old(barSpacing)
      ensures old(barSpacing) < MaxSpacing ==>
        fresh(barHeights) && barHeights.Length == BarCount(width, barSpacing) &&
        forall k :: 0 <= k < barHeights.Length ==> barHeights[k] == draw(k)
      ensures old(barSpacing) >= MaxSpacing ==> barHeights == old(barHeights)
    {
      if barSpacing < MaxSpacing {
        barSpacing := barSpacing + 1;
        GenerateBarHeights(width, draw);
      }
    }

    /** The "generate new bars" button: take the spacing from the density
        slider and regenerate. */
    method GenerateNewBars(slider: Option<int>, width: int, draw: nat -> int)
      requires slider.None? || MinSpacing <= slider.value <= MaxSpacing
      modifies this`barSpacing, this`barHeights
      ensures Valid() && barSpacing == CurrentBarSpacing(slider)
      ensures fresh(barHeights) && barHeights.Length == BarCount(width, barSpacing)
      ensures forall k :: 0 <= k < barHeights.Length ==> barHeights[k] == draw(k)
    {
      barSpacing := CurrentBarSpacing(slider);
      GenerateBarHeights(width, draw);
    }
  }
}
