/** How many bars a canvas of a given width holds at a given spacing, and
    the title shown above each card. */
module Generation {

  /** The left padding: the first bar stands at x = 2. */
  const LeftPadding: int := 2

  /** The number of bars placed at x, x + spacing, x + 2 * spacing, ... while
      x stays below the width: one per turn of the generator's loop. The last
      bar is inside the width and the next position is not. */
  function BarsFrom(x: int, width: int, spacing: int): (n: nat)
    requires spacing >= 1
    decreases width - x
    ensures n == 0 <==> width <= x
    ensures n > 0 ==> x + (n - 1) * spacing < width <= x + n * spacing
  {
    if x < width then 1 + BarsFrom(x + spacing, width, spacing) else 0
  }

  /** The number of bars generated for a canvas of this width: the loop
      starting at x = 2 runs while x is below the width, so there are none
      when the width is at most 2, and otherwise the last bar is inside the
      width and one more would not be. */
  function BarCount(width: int, spacing: int): (n: nat)
    requires spacing >= 1
    ensures n == 0 <==> width <= LeftPadding
    ensures n > 0 ==> LeftPadding + (n - 1) * spacing < width <= LeftPadding + n * spacing
  {
    BarsFrom(LeftPadding, width, spacing)
  }

  /** Bar number k (counting from 0) exists exactly when its position
      x + k * spacing is still inside the width. */
  lemma {:induction false} BarsFromPositions(x: int, width: int, spacing: int, k: nat)
    requires spacing >= 1
    decreases width - x
    ensures k < BarsFrom(x, width, spacing) <==> x + k * spacing < width
  {
    if x < width && k > 0 {
      BarsFromPositions(x + spacing, width, spacing, k - 1);
      assert x + k * spacing == (x + spacing) + (k - 1) * spacing;
    } else if k > 0 {
      assert k * spacing >= 0;
    }
  }

  /** The closed form: ceil((width - 2) / spacing) bars when the width exceeds
      the padding, none otherwise; so regenerating with the same width and
      spacing always gives the same length. */
  lemma BarCountClosedForm(width: int, spacing: int)
    requires spacing >= 1
    ensures width <= LeftPadding ==> BarCount(width, spacing) == 0
    ensures width > LeftPadding ==> BarCount(width, spacing) == (width - LeftPadding + spacing - 1) / spacing
  {
    if width > LeftPadding {
      var d := width - LeftPadding;
      var c := (d + spacing - 1) / spacing;
      // c is the least k with LeftPadding + k * spacing >= width
      assert d + spacing - 1 == c * spacing + (d + spacing - 1) % spacing;
      assert (c - 1) * spacing == c * spacing - spacing;
      assert c >= 1;
      BarsFromPositions(LeftPadding, width, spacing, c);
      BarsFromPositions(LeftPadding, width, spacing, c - 1);
    } else {
      BarsFromPositions(LeftPadding, width, spacing, 0);
    }
  }

  /** Width 100 at spacing 10 gives ten bars. */
  lemma BarCountWidth100Spacing10()
    ensures BarCount(100, 10) == 10
  {
    BarCountClosedForm(100, 10);
  }

  /** `pat` occurs in `s` starting at position k. */
  predicate OccursAt(s: string, pat: string, k: int) {
    0 <= k && k + |pat| <= |s| && s[k..k + |pat|] == pat
  }

  /** JavaScript's `s.indexOf(pat, from)`: the first position at or after
      `from` where `pat` occurs, or -1 if there is none. */
  function IndexOfFrom(s: string, pat: string, from: nat): (r: int)
    requires from <= |s|
    decreases |s| - from
    ensures r == -1 || (from <= r && OccursAt(s, pat, r))
    ensures r == -1 ==> forall k :: from <= k ==> !OccursAt(s, pat, k)
    ensures r != -1 ==> forall k :: from <= k < r ==> !OccursAt(s, pat, k)
  {
    if from + |pat| > |s| then -1
    else if s[from..from + |pat|] == pat then from
    else IndexOfFrom(s, pat, from + 1)
  }

  /** JavaScript's `s.indexOf(pat)`: the first position where `pat` occurs,
      or -1 exactly when it occurs nowhere. */
  function IndexOf(s: string, pat: string): (r: int)
    ensures r == -1 || OccursAt(s, pat, r)
    ensures r == -1 <==> forall k :: 0 <= k ==> !OccursAt(s, pat, k)
    ensures r != -1 ==> forall k :: 0 <= k < r ==> !OccursAt(s, pat, k)
  {
    IndexOfFrom(s, pat, 0)
  }

  /** JavaScript's `s.substr(0, len)`: a negative length gives the empty
      string, a length past the end stops at the end. */
  function Prefix(s: string, len: int): (r: string)
    ensures |r| <= |s|
    ensures len <= 0 ==> r == ""
    ensures 0 <= len <= |s| ==> r == s[..len]
    ensures len >= |s| ==> r == s
  {
    if len <= 0 then "" else if len >= |s| then s else s[..len]
  }

  /** `toUpperCase` on one character, for the ASCII letters. */
  function UpperChar(c: char): (u: char)
    ensures 'a' <= c <= 'z' ==> 'A' <= u <= 'Z' && u as int - c as int == 'A' as int - 'a' as int
    ensures !('a' <= c <= 'z') ==> u == c
  {
    if 'a' <= c <= 'z' then (c as int - 'a' as int + 'A' as int) as char else c
  }

  /** A card's title: everything before the first "Sort" in the algorithm's
      name, then " Sort", with the first character upper-cased. A name
      without "Sort" yields " Sort". */
  function FormatAlgoName(name: string): (title: string)
    ensures |title| >= 5 && title[|title| - 5..] == " Sort"
    ensures IndexOf(name, "Sort") <= 0 ==> title == " Sort"
    ensures IndexOf(name, "Sort") > 0 ==>
      title == [UpperChar(name[0])] + name[1..IndexOf(name, "Sort")] + " Sort"
  {
    var i := IndexOf(name, "Sort");
    var pretty := Prefix(name, i) + " Sort";
    [UpperChar(pretty[0])] + pretty[1..]
  }

  /** A name made of a word free of 'S', then "Sort", then anything, is shown
      as the capitalised word followed by " Sort" ("shellSort" becomes
      "Shell Sort"). */
  lemma FormatAlgoNameOfSortName(word: string, rest: string)
    requires |word| > 0 && 'S' !in word
    ensures FormatAlgoName(word + "Sort" + rest) == [UpperChar(word[0])] + word[1..] + " Sort"
  {
    var name := word + "Sort" + rest;
    assert OccursAt(name, "Sort", |word|) by {
      assert name[|word|..|word| + 4] == "Sort";
    }
    forall k | 0 <= k < |word| ensures !OccursAt(name, "Sort", k) {
      assert name[k] == word[k];
    }
    assert IndexOf(name, "Sort") == |word|;
    assert Prefix(name, |word|) == word;
  }

  /** A name without "Sort" anywhere is shown as " Sort". */
  lemma FormatAlgoNameWithoutSort(name: string)
    requires forall k :: !OccursAt(name, "Sort", k)
    ensures FormatAlgoName(name) == " Sort"
  {
  }
}
