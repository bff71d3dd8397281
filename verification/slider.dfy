/**
 The radius slider: its configured range, the tenths of a mile its values come in,
 the phase reported with each `thumb-drag` event, and the label written into the
 `bufferRadius` element for a value.
 */
module Slider {

  import opened Wrappers
  import Text

  /** Slider values are kept in tenths of a mile (the slider rounds to one decimal place). */
  const SliderMin: int := 1        // 0.1 mile
  const SliderMax: int := 100      // 10 miles
  const SliderDefault: int := 10   // 1 mile, the slider's initial value

  /** A value the slider can report: a whole number of tenths of a mile within its range. */
  type Tenths = t: int | SliderMin <= t <= SliderMax witness SliderDefault

  /** The `state` field of a `thumb-drag` event. */
  datatype DragState = Start | Drag | Stop

  /** Whether a drag event asks for a new well query: only when the gesture ends. */
  predicate QueriesOnDrag(state: DragState)
  {
    state == Stop
  }

  /** `(value == 1) ? '1 mile' : `${value} miles``, for a value given in tenths. */
  function RadiusLabel(v: Tenths): string
  {
    if v == 10 then "1 mile" else Text.TenthsText(v) + " miles"
  }

  /** Reads a radius label back as a number of tenths. */
  function ParseRadiusLabel(shown: string): Option<nat>
  {
    if shown == "1 mile" then Some(10)
    else if |shown| >= 6 && shown[|shown| - 6..] == " miles" then Text.ParseTenths(shown[..|shown| - 6])
    else None
  }

  /** The label is singular exactly when the radius is one mile. */
  lemma RadiusLabelSingularIffOneMile(v: Tenths)
    ensures RadiusLabel(v) == "1 mile" <==> v == 10
  {
  }

  /** Every label other than the singular one ends in " miles". */
  lemma RadiusLabelPlural(v: Tenths)
    requires v != 10
    ensures |RadiusLabel(v)| > 6
    ensures RadiusLabel(v)[|RadiusLabel(v)| - 6..] == " miles"
  {
  }

  /** The label shows the slider value and nothing but it: reading it back gives the value. */
  lemma RadiusLabelRoundTrip(v: Tenths)
    ensures ParseRadiusLabel(RadiusLabel(v)) == Some(v as nat)
  {
    if v != 10 {
      var shown := RadiusLabel(v);
      Text.TenthsTextRoundTrip(v);
      RadiusLabelSingularIffOneMile(v);
      assert shown[..|shown| - 6] == Text.TenthsText(v);
    }
  }

  /** Two different slider values never show the same label. */
  lemma RadiusLabelInjective(v: Tenths, w: Tenths)
    requires RadiusLabel(v) == RadiusLabel(w)
    ensures v == w
  {
    RadiusLabelRoundTrip(v);
    RadiusLabelRoundTrip(w);
  }
}
