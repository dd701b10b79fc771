/** Worked examples of a card: the bar buttons followed by the sort button. */
module Scenarios {
  import opened Core
  import opened Generation
  import opened Algorithms

  /** A random draw that yields the given heights, bar by bar. */
  function Draws(heights: seq<int>): nat -> int {
    (k: nat) => if k < |heights| then heights[k] else 0
  }

  /** A fresh card whose "fewer bars" button is pressed twice widens the
      default spacing from 8 to 10 and holds one bar per 10 pixels of the
      canvas after the padding. Sorting them gives their heights in ascending
      order; the selection sort takes one step fewer than there are bars, and
      the insertion sort takes none on heights already in order. */
  method SortWideCard(kind: Kind, width: int, heights: seq<int>) returns (result: seq<int>, steps: nat)
    requires |heights| == BarCount(width, 10)
    ensures Sorted(result) && multiset(result) == multiset(heights)
    ensures kind == Selection && |heights| > 1 ==> steps == |heights| - 1
    ensures kind == Insertion && Sorted(heights) ==>
      result == heights && steps == 0
  {
    var card := new Algorithm(kind);
    card.FewerBars(width, Draws(heights));
    card.FewerBars(width, Draws(heights));
    assert card.barHeights[..] == heights;
    card.Sort();
    result := card.barHeights[..];
    steps := card.steps;
  }

  /** On a canvas 32 pixels wide there are three bars, at x = 2, 12 and 22,
      and every algorithm turns the heights 30, 10, 20 into 10, 20, 30. */
  method SortThreeShuffledBars(kind: Kind) returns (result: seq<int>)
    ensures result == [10, 20, 30]
  {
    BarCountClosedForm(32, 10);
    var steps;
    result, steps := SortWideCard(kind, 32, [30, 10, 20]);
    var ascending := [10, 20, 30];
    assert multiset([30, 10, 20]) == multiset(ascending);
    SortedPermutationUnique(result, ascending);
  }
}
