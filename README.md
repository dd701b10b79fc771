# Sorting visualiser: the verified core

The page shows one card per sorting algorithm: shell sort, Lomuto quick sort,
bubble sort with an early exit, selection sort towards the tail, and insertion
sort. Each card owns an array of bar heights and a bar spacing. Its sort button
sorts that array in place. The only mutation is a bounds-checked `swap`, and
each swap is followed by one animation step. Buttons on the card make the
spacing narrower or wider, clamped to [3, 30], and regenerate the bars: one bar
every `spacing` pixels from x = 2 up to the canvas width. A global speed slider
maps 1..100 to a delay of 120..2 ms per step.

This project models that core in Dafny:

- `Core` (core.dfy): the swap, as a pure function `Swapped` and as the
  method `Swap` on an array. An out-of-range swap yields `Fail`, which stands
  for the thrown error. The module also holds the vocabulary of orderings and
  the facts that every sorted permutation is the same sequence.
- `Utilities` (utilities.dfy): `currentDelay` and `currentBarSpacing`. A
  slider that is absent from the page is `None`.
- `Generation` (generation.dfy): the number of bars `generateBarHeights`
  produces, and `formatAlgoName`, together with the JavaScript string
  operations it uses (`indexOf`, `substr`, `toUpperCase` on ASCII letters).
- `SortSteps` (sort_steps.dfy): one lemma per kind of step of each sort. Each
  lemma says what a swap, or the decision not to swap, does to the order the
  sort is building.
- `Algorithms` (algorithms.dfy): the class `Algorithm`, one per card. Its
  fields are `barSpacing`, `barHeights` (an array) and `steps`, which counts
  the animation steps. Each sort is a method over the array, with the loop
  invariants of the loops in js/main.js. Nested loops are split into methods of
  their own (`GapPass`, `SiftBack`, `BubblePass`, `InsertionPass`,
  `FirstMaxIndex`); each such method is exactly one inner loop of js/main.js.
  The spacing buttons and bar generation are methods of the class too.
- `Scenarios` (scenarios.dfy): a card driven through its buttons.

## Model

| member | source | states |
|---|---|---|
| Core.Swapped | js/main.js:80-82 | the result has the same length; positions i and j are exchanged; every other position is unchanged; the multiset of elements is unchanged |
| Core.SwappedTwice | js/main.js:76-83 | swapping the same in-range pair twice restores the sequence |
| Core.Swap | js/main.js:76-83 | the swap goes through exactly when both indices lie in [0, length); otherwise it reports the out-of-range error with the length and both indices, and the array is untouched; on success the array becomes `Swapped` of its old contents |
| Core.SortedPermutationUnique | js/main.js:86-226 | two sorted sequences with the same elements are equal, so all five sorts leave the same array behind |
| Utilities.Round | js/main.js:12 | `Math.round` gives the integer within half a unit of x, with halves rounded up |
| Utilities.CurrentDelay | js/main.js:7-14 | no slider gives 30 ms; a slider value in 1..100 gives a delay in [2, 120]; 1 gives 120 and 100 gives 2 |
| Utilities.CurrentDelayMonotone | js/main.js:11-13 | a faster slider setting never gives a longer delay, and a strictly faster one gives a strictly shorter delay |
| Utilities.CurrentBarSpacing | js/main.js:17-20 | no slider gives the default spacing 8; a slider gives its own value, so one confined to [3, 30] keeps the spacing in [3, 30] |
| Generation.BarCount | js/main.js:235-239 | the number of turns of the generator loop that starts at x = 2: none exactly when the width is at most 2, and otherwise the last bar is inside the width while one more spacing step would reach or pass it |
| Generation.BarsFromPositions | js/main.js:235-239 | bar number k exists exactly when its position x + k * spacing is below the width |
| Generation.BarCountClosedForm | js/main.js:235-239 | the generator yields no bars when width <= 2 and ceil((width - 2) / spacing) bars otherwise |
| Generation.BarCountWidth100Spacing10 | js/main.js:235-239 | a width of 100 at spacing 10 gives ten bars |
| Generation.IndexOfFrom | js/main.js:243 | `indexOf` returns the first position at or after `from` where the pattern occurs, or -1 exactly when there is none |
| Generation.IndexOf | js/main.js:243 | the one-argument `indexOf` returns a position where the pattern occurs with no earlier occurrence, or -1 exactly when it occurs nowhere |
| Generation.Prefix | js/main.js:244 | `substr(0, len)` is no longer than the string; it is empty for a length of 0 or less (the path taken when `indexOf` gives -1), the first `len` characters when `len` is in range, and the whole string for a length past the end |
| Generation.UpperChar | js/main.js:245 | `toUpperCase` maps a lower-case ASCII letter to its upper-case letter and leaves every other character alone |
| Generation.FormatAlgoName | js/main.js:242-246 | the title always ends in " Sort"; a name without "Sort", or one starting with it, gives " Sort"; otherwise the title is the text before the first "Sort", with its first character upper-cased, then " Sort" |
| Generation.FormatAlgoNameOfSortName | js/main.js:242-246 | a name made of a word without 'S', then "Sort", then anything, is shown as the word with its first letter upper-cased, then " Sort" |
| Generation.FormatAlgoNameWithoutSort | js/main.js:242-246 | a name without "Sort" is shown as " Sort" |
| Algorithms.CardTitle | js/main.js:263 | each card's title is its name formatted: "shellSort" is shown as "Shell Sort", and likewise for the other four |
| Algorithms.Halvings | js/main.js:93-95 | the gap sequence floor(n/2), floor(n/4), ...: every gap is positive and at most the first, and each is strictly smaller than the one before, so the gap loop ends |
| Algorithms.HalvingsShape | js/main.js:93-95 | the shell sort's gaps start at floor(n / 2), each is half the previous one, all are positive and the last is 1; there are none exactly when n <= 1 |
| Algorithms.FirstMaxIndex | js/main.js:193-198 | returns an index in [0, len) holding a largest element of [0, len), with every earlier element strictly smaller, so it is the first maximum |
| Algorithms.Algorithm.constructor | js/main.js:86-90 | a fresh card has spacing 8, no bars and no steps taken |
| Algorithms.Algorithm.Sort | js/main.js:342-349 | the sort button leaves the card's array ascending and a permutation of the old array; insertion sort leaves a sorted array untouched and takes no step; selection sort takes n - 1 steps |
| Algorithms.Algorithm.ShellSort | js/main.js:91-125 | the gaps used are floor(n/2), floor(n/4), ..., 1, so for n <= 1 the loop never runs and no step is taken; the result is ascending and a permutation of the input |
| Algorithms.Algorithm.GapPass | js/main.js:96-121 | after one gap pass every element is at most the one `gap` places on; the pass permutes the array |
| Algorithms.Algorithm.SiftBack | js/main.js:105-117 | the element at the hole moves back until [0, hi) is gap-sorted again; the array is permuted; only positions on the chain hole, hole - gap, hole - 2 * gap, ... change, so everything from hi on is as before |
| Algorithms.Algorithm.QuickSort | js/main.js:131-135 | the result is ascending and a permutation of the input; an array of at most one element is left unchanged with no step taken |
| Algorithms.Algorithm.Partition | js/main.js:136-153 | returns p in [start, end] holding the old `arr[end]`; everything in [start, p) is below the pivot; everything in (p, end] is at least the pivot; positions outside [start, end] are unchanged; the array is permuted |
| Algorithms.Algorithm.PartitionScan | js/main.js:138-147 | the scan of [start, end) leaves i in [start - 1, end), with [start, i] below the pivot `arr[end]` and (i, end) at least it; positions outside [start, end] are unchanged; the array is permuted |
| Algorithms.Algorithm.QuickSortHelper | js/main.js:154-160 | sorts positions [start, end] ascending, changes nothing outside them, and permutes the array; a range of at most one element is left alone |
| Algorithms.Algorithm.BubbleSort | js/main.js:166-184 | the result is ascending and a permutation of the input; an array of at most one element takes no step |
| Algorithms.Algorithm.BubblePass | js/main.js:170-181 | one pass over [0, hi) carries the largest element to hi - 1, so the placed tail grows by one; the result `quiet` is true exactly when the pass took no step: a quiet pass leaves the array as it was and the whole array sorted, so the later passes can be skipped, and a pass that swapped returns false |
| Algorithms.Algorithm.SelectionSort | js/main.js:190-205 | the result is ascending and a permutation of the input; exactly n - 1 steps are taken |
| Algorithms.Algorithm.InsertionSort | js/main.js:211-224 | the result is ascending and a permutation of the input; a sorted input is never swapped |
| Algorithms.Algorithm.InsertionPass | js/main.js:214-221 | the sorted prefix [0, i) grows to [0, i]; the array is permuted; positions after i are unchanged, so the pass only inserts element i into the prefix; an element not below its left neighbour stays where it is |
| Algorithms.Algorithm.GenerateBarHeights | js/main.js:229-240 | the card gets a fresh array of `BarCount(width, spacing)` bars, bar k having height draw(k) |
| Algorithms.Algorithm.MoreBars | js/main.js:353-360 | the spacing drops by one only while it is above 3, and the bars are regenerated only then; a spacing in [3, 30] stays there |
| Algorithms.Algorithm.FewerBars | js/main.js:365-372 | the spacing rises by one only while it is below 30, and the bars are regenerated only then; a spacing in [3, 30] stays there |
| Algorithms.Algorithm.GenerateNewBars | js/main.js:377-382 | the spacing becomes the density slider's value, or 8 without a slider, and the bars are regenerated |
| SortSteps.SelectionStep | js/main.js:199 | swapping a maximum of [0, last] into `last` extends the placed tail of largest elements by one position |
| SortSteps.BubbleSwapStep | js/main.js:173-175 | swapping an out-of-order neighbour pair moves the running maximum one place right and keeps the placed tail |
| SortSteps.InsertionStep | js/main.js:215-216 | swapping the travelling element with its larger left neighbour moves it one place left and keeps the rest of [0, i] ordered |
| SortSteps.InsertionEnd | js/main.js:215 | when the travelling element reaches the front or a neighbour that is not larger, [0, i] is sorted |
| SortSteps.ShellSwapStart | js/main.js:100-101 | swapping an out-of-order pair (start, start + gap) keeps the range gap-sorted except at the pair ending at `start` |
| SortSteps.ShellSiftStep | js/main.js:108-109 | swapping the travelling element with the larger one `gap` places back moves the hole back by `gap` |
| SortSteps.GapOneSorted | js/main.js:122 | a gap-sorted array with gap 1 is sorted, so the final pass leaves the array ascending |
| SortSteps.PartitionSwapStep | js/main.js:140-143 | an element below the pivot is swapped to the front of the block of large elements, and the partition invariant holds one position further on |
| SortSteps.PartitionEnd | js/main.js:148 | swapping the pivot just after the small block leaves smaller elements before it and the others after it |
| SortSteps.RangePermutation | js/main.js:154-160 | if only positions [lo, hi) differ and the whole array was permuted, then [lo, hi) was permuted |
| SortSteps.QuickCombine | js/main.js:154-160 | after partitioning around p, sorting [lo, p) and then (p, hi) leaves [lo, hi) sorted, the rest of the array as before the partition, and the elements permuted |
| SortSteps.QuickJoin | js/main.js:156-158 | two sorted halves around the pivot, with the small half below it and the large half at least it, make a sorted range |
| Scenarios.SortWideCard | js/main.js:342-373 | pressing "fewer bars" twice on a fresh card and then "sort" gives the bar heights ascending and permuted; selection sort takes one step fewer than there are bars; insertion sort takes no step on heights already in order |
| Scenarios.SortThreeShuffledBars | js/main.js:342-373 | on a canvas 32 pixels wide every algorithm turns the heights 30, 10, 20 into 10, 20, 30 |

## Left out

- Canvas drawing is not modelled: `clearCanvas`, `renderBars`, `setCanvasSizeToParent`, `toggleAlgorithmControls` and the card-building loop are browser UI work. The redraw and sleep after each swap are one increment of the `steps` counter.
- `sleep`, `async`/`await` and the "sort all" button's `Promise.all` are not modelled; each sort is a plain sequential method that runs to the end without interruption. On the page, other handlers can run at each `await` of a sort. The density slider (js/main.js:409-415), the debounced resize handler (js/main.js:332-339) and reset-all (js/main.js:399-406) replace the card's `barHeights`. "Sort all" (js/main.js:388-397) is not disabled during a single card's sort and starts a second sort on the same array.
- Algorithms.Algorithm.Sort: the sort contracts describe an uninterrupted run. If bars are regenerated mid-sort, the shell, bubble, selection and insertion sorts re-read `this.barHeights` and carry on over the new, unsorted array. Quick sort keeps the array it captured at js/main.js:133 and sorts the detached old one. Neither case is modelled, and the result is then not promised to be sorted.
- `Math.random` and the canvas height are not modelled. The height of bar k is the parameter `draw(k)`, and heights are integers, although `canvas.height / 2` may be fractional.
- The canvas width is a parameter `width` of the generation methods. Browser measurement and the debounced resize handler are not modelled.
- The reset-all button and the global density slider's input handler are not modelled. They are loops of `GenerateNewBars` over all cards, with the slider value forced first.
- The number of bars is ceil((width - 2) / spacing). The generator's loop starts at x = 2, so the 2 pixels of padding are not counted as room for bars.
- Utilities.CurrentDelay: computes with exact real numbers, where JavaScript uses floating point. For integer slider values the unrounded delay never lies within rounding distance of a .5 tie, so the two agree.
- Generation.UpperChar: upper-cases only the ASCII letters a to z. That covers every algorithm name, but not JavaScript's full Unicode `toUpperCase`.
- Algorithms.Algorithm.Sort: states the number of steps only for selection sort and for sorted input to the insertion sort; the step counts of the other sorts are not given in closed form.
- Algorithms.Algorithm.BubbleSort: does not state that an already sorted array is never swapped. The first pass over a sorted array finds no neighbours out of order, but the model proves only what a pass without a swap implies, not that a sorted array gives one.
- Algorithms.Algorithm.ShellSort: does not state that an already sorted array is never swapped. Each gap pass only compares pairs that a sorted array has in order, so no swap happens, but the model proves only that the result is sorted and permuted.
- A thrown swap error would leave a card's controls disabled. The model proves that no sort ever makes an out-of-range swap, so this path cannot arise.
