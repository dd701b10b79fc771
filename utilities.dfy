/** The two global slider readings: animation speed mapped to a per-step
    delay, and the bar density used as the default spacing. A slider that is
    absent from the page is `None`. */
module Utilities {

  datatype Option<T> = None | Some(value: T)

  /** The bounds of a card's bar spacing and its default. */
  const MinSpacing: int := 3
  const MaxSpacing: int := 30
  const DefaultSpacing: int := 8

  /** The default delay when there is no speed slider. */
  const FallbackDelay: int := 30

  /** JavaScript's `Math.round` on an exact real: the nearest integer, with
      halves rounded up. */
  function Round(x: real): (r: int)
    ensures x - 0.5 < r as real <= x + 0.5
  {
    (x + 0.5).Floor
  }

  /** The delay in milliseconds after each step: slider value `v` (1 = slow,
      100 = fast) is mapped linearly from 120 down to 2 and rounded. A missing
      slider gives the fallback of 30. */
  function CurrentDelay(slider: Option<int>): (delay: int)
    ensures slider.None? ==> delay == FallbackDelay
    ensures slider.Some? && 1 <= slider.value <= 100 ==> 2 <= delay <= 120
    ensures slider == Some(1) ==> delay == 120
    ensures slider == Some(100) ==> delay == 2
  {
    match slider
    case None => FallbackDelay
    case Some(v) => Round(120.0 - (v - 1) as real * (118.0 / 99.0))
  }

  /** A faster setting never gives a longer delay, and a strictly faster one
      gives a strictly shorter delay: one slider notch moves the unrounded
      delay by 118/99 ms, more than the 1 ms rounding can absorb. */
  lemma CurrentDelayMonotone(v: int, w: int)
    requires v <= w
    ensures CurrentDelay(Some(w)) <= CurrentDelay(Some(v))
    ensures v < w ==> CurrentDelay(Some(w)) < CurrentDelay(Some(v))
  {
    var x := 120.0 - (v - 1) as real * (118.0 / 99.0);
    var y := 120.0 - (w - 1) as real * (118.0 / 99.0);
    assert y <= x;
  }

  /** The density slider's value, or the default spacing of 8 when there is
      no slider; a slider confined to [3, 30] keeps the spacing there. */
  function CurrentBarSpacing(slider: Option<int>): (spacing: int)
    ensures slider.None? ==> spacing == DefaultSpacing
    ensures slider.Some? ==> spacing == slider.value
    ensures (slider.None? || MinSpacing <= slider.value <= MaxSpacing) ==> MinSpacing <= spacing <= MaxSpacing
  {
    match slider
    case None => DefaultSpacing
    case Some(v) => v
  }
}
