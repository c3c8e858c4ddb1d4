/** Vocabulary shared by the table layouts and the splitter of
    flexx/html/layouts.js: widget descriptors, CSS lengths, the reserved
    AUTOFLEX weight and the numeric helpers the layout code relies on. */
module Widgets {

  datatype Option<+T> = None | Some(value: T)

  /** The weight every row or column receives when nobody asked for flex;
      chosen to be implausible as a real flex factor. */
  const AUTOFLEX: real := 729.0

  /** A CSS length as the layout code writes it: `auto` or a percentage. */
  datatype Size = Auto | Percent(pct: real)

  /** A widget's `pos`; a Grid reads it as (column, row). */
  datatype Pos = Pos(x: nat, y: nat)

  /** What the layout code reads of a child widget: its flex factors
      (None when undefined), its position, and its minimum width and
      height as `parseFloat` reads them back from the style (None when
      that yields NaN). */
  datatype Widget = Widget(hflex: Option<real>, vflex: Option<real>, pos: Pos,
                           minWidth: Option<real>, minHeight: Option<real>)

  /** `f || 0` for a flex factor: an undefined factor counts as 0. */
  function FlexOr0(f: Option<real>): real
  {
    if f.Some? then f.value else 0.0
  }

  function Max(a: real, b: real): (m: real)
    ensures a <= m && b <= m
    ensures m == a || m == b
  {
    if a >= b then a else b
  }

  function Min(a: real, b: real): (m: real)
    ensures m <= a && m <= b
    ensures m == a || m == b
  {
    if a <= b then a else b
  }

  /** `Math.round`: the nearest integer, halves rounded up. */
  function Round(x: real): (n: int)
    ensures x - 0.5 < n as real <= x + 0.5
  {
    (x + 0.5).Floor
  }
}
