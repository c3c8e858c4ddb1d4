/** The four `applyCellLayout` policies of flexx/html/layouts.js: what a
    table-based container writes for one occupied cell, given the flex of
    the cell's row and column and the cumulative flex of both axes. */
module CellPolicies {
  import opened Widgets
  import opened TableModel
  import opened Flexes

  /** What one policy call writes. A None field leaves that style (or,
      for `rowVflex`, the cached row flex) as it was. The class names are
      always rewritten; only whether they hold `vflex` and `hflex` matters. */
  datatype CellStyle = CellStyle(rowHeight: Option<Size>, rowVflex: Option<real>,
                                 colWidth: Option<Size>, colHeight: Option<Size>,
                                 vflexClass: bool, hflexClass: bool)

  /** The percentage `f * 100 / cum` of an axis that a flex of f asks for. */
  function Share(f: real, cum: real): real
    requires cum != 0.0
  {
    f * 100.0 / cum
  }

  /** TableHBox: a column with flex 0 keeps its natural width, any other
      column gets its share of the horizontal flex; every cell fills the
      height of the single row. */
  function HBoxPolicy(hflex: real, cumH: real): (s: CellStyle)
    requires cumH > 0.0
    ensures s.rowHeight == None && s.rowVflex == None && s.colHeight == Some(Percent(100.0))
    ensures s.colWidth.Some? && (s.colWidth.value == Auto <==> hflex == 0.0)
    ensures s.colWidth.value.Percent? ==> s.colWidth.value.pct * cumH == hflex * 100.0
    ensures s.hflexClass == (hflex != 0.0) && !s.vflexClass
  {
    if hflex == 0.0 then CellStyle(None, None, Some(Auto), Some(Percent(100.0)), false, false)
    else CellStyle(None, None, Some(Percent(Share(hflex, cumH))), Some(Percent(100.0)), false, true)
  }

  /** TableVBox: a row with flex 0 keeps its natural height, any other
      row gets its share of the vertical flex; the row caches its flex
      and every cell is horizontally flexed. */
  function VBoxPolicy(vflex: real, cumV: real): (s: CellStyle)
    requires cumV > 0.0
    ensures s.rowVflex == Some(vflex) && s.colWidth == None && s.colHeight == None
    ensures s.rowHeight.Some? && (s.rowHeight.value == Auto <==> vflex == 0.0)
    ensures s.rowHeight.value.Percent? ==> s.rowHeight.value.pct * cumV == vflex * 100.0
    ensures s.hflexClass && s.vflexClass == (vflex != 0.0)
  {
    if vflex == 0.0 then CellStyle(Some(Auto), Some(vflex), None, None, false, true)
    else CellStyle(Some(Percent(Share(vflex, cumV))), Some(vflex), None, None, true, true)
  }

  /** Form: a row keeps its natural height unless its flex is neither 0
      nor AUTOFLEX; a column with a non-zero flex takes the full width. */
  function FormPolicy(vflex: real, hflex: real, cumV: real): (s: CellStyle)
    requires cumV > 0.0
    ensures s.rowVflex == None && s.colHeight == None
    ensures s.rowHeight.Some? && (s.rowHeight.value == Auto <==> vflex == 0.0 || vflex == AUTOFLEX)
    ensures s.rowHeight.value.Percent? ==> s.rowHeight.value.pct * cumV == vflex * 100.0
    ensures s.colWidth == Some(if hflex == 0.0 then Auto else Percent(100.0))
    ensures s.vflexClass == (s.rowHeight.value != Auto) && s.hflexClass == (hflex != 0.0)
  {
    var flexRow := !(vflex == AUTOFLEX || vflex == 0.0);
    CellStyle(if flexRow then Some(Percent(Share(vflex, cumV))) else Some(Auto), None,
              Some(if hflex == 0.0 then Auto else Percent(100.0)), None,
              flexRow, hflex != 0.0)
  }

  /** Grid: both axes flex independently; flex 0 keeps the natural size
      and any other flex gets its share of its axis. */
  function GridPolicy(vflex: real, hflex: real, cumV: real, cumH: real): (s: CellStyle)
    requires cumV > 0.0 && cumH > 0.0
    ensures s.rowVflex == None && s.colHeight == None
    ensures s.rowHeight.Some? && (s.rowHeight.value == Auto <==> vflex == 0.0)
    ensures s.rowHeight.value.Percent? ==> s.rowHeight.value.pct * cumV == vflex * 100.0
    ensures s.colWidth.Some? && (s.colWidth.value == Auto <==> hflex == 0.0)
    ensures s.colWidth.value.Percent? ==> s.colWidth.value.pct * cumH == hflex * 100.0
    ensures s.vflexClass == (vflex != 0.0) && s.hflexClass == (hflex != 0.0)
  {
    CellStyle(Some(if vflex == 0.0 then Auto else Percent(Share(vflex, cumV))), None,
              Some(if hflex == 0.0 then Auto else Percent(Share(hflex, cumH))), None,
              vflex != 0.0, hflex != 0.0)
  }

  /** The policy of each kind of container. */
  function Policy(kind: Kind, vflex: real, hflex: real, cumV: real, cumH: real): CellStyle
    requires cumV > 0.0 && cumH > 0.0
  {
    match kind
    case TableHBox => HBoxPolicy(hflex, cumH)
    case TableVBox => VBoxPolicy(vflex, cumV)
    case Form => FormPolicy(vflex, hflex, cumV)
    case Grid => GridPolicy(vflex, hflex, cumV, cumH)
  }

  /** In a TableHBox or a Grid, the percentage widths of two flexed
      columns stand in the ratio of their flexes. */
  lemma WidthsProportional(kind: Kind, v1: real, h1: real, v2: real, h2: real, cumV: real, cumH: real)
    requires kind == TableHBox || kind == Grid
    requires cumV > 0.0 && cumH > 0.0 && h1 != 0.0 && h2 != 0.0
    ensures Policy(kind, v1, h1, cumV, cumH).colWidth.value.Percent?
    ensures Policy(kind, v2, h2, cumV, cumH).colWidth.value.Percent?
    ensures Policy(kind, v1, h1, cumV, cumH).colWidth.value.pct * h2
         == Policy(kind, v2, h2, cumV, cumH).colWidth.value.pct * h1
  {
    var p1, p2 := Policy(kind, v1, h1, cumV, cumH).colWidth.value.pct,
                  Policy(kind, v2, h2, cumV, cumH).colWidth.value.pct;
    assert p1 * cumH == h1 * 100.0 && p2 * cumH == h2 * 100.0;
    calc {
      p1 * h2 * cumH;
      h1 * 100.0 * h2;
      p2 * h1 * cumH;
    }
  }

  /** When nobody asked for flex on an axis of n entries, each of them
      asks for AUTOFLEX out of n times AUTOFLEX: an equal share of 100 / n. */
  lemma EqualShares(n: nat)
    requires n > 0
    ensures Share(AUTOFLEX, n as real * AUTOFLEX) == 100.0 / n as real
  {
  }

  /** The row height a policy writes does not depend on the column's flex,
      so every occupied cell of a row writes the same height. */
  lemma RowHeightIgnoresHflex(kind: Kind, vflex: real, h1: real, h2: real, cumV: real, cumH: real)
    requires cumV > 0.0 && cumH > 0.0
    ensures Policy(kind, vflex, h1, cumV, cumH).rowHeight == Policy(kind, vflex, h2, cumV, cumH).rowHeight
    ensures Policy(kind, vflex, h1, cumV, cumH).rowHeight.None? <==> kind == TableHBox
  {
  }

  /** With every column at AUTOFLEX, a TableHBox or Grid cell is 100 / n
      percent wide. */
  lemma EqualWidth(kind: Kind, vflex: real, hflex: real, cumV: real, cumH: real, n: nat)
    requires kind == TableHBox || kind == Grid
    requires cumV > 0.0 && n > 0 && hflex == AUTOFLEX && cumH == n as real * AUTOFLEX
    ensures Policy(kind, vflex, hflex, cumV, cumH).colWidth == Some(Percent(100.0 / n as real))
  {
    EqualShares(n);
  }

  /** With every row at AUTOFLEX, a TableVBox or Grid row is 100 / n
      percent high. */
  lemma EqualHeight(kind: Kind, vflex: real, hflex: real, cumV: real, cumH: real, n: nat)
    requires kind == TableVBox || kind == Grid
    requires cumH > 0.0 && n > 0 && vflex == AUTOFLEX && cumV == n as real * AUTOFLEX
    ensures Policy(kind, vflex, hflex, cumV, cumH).rowHeight == Some(Percent(100.0 / n as real))
  {
    EqualShares(n);
  }

  /** The shares of all entries of an axis, added up (holes ask for nothing). */
  function SumShares(a: seq<Option<real>>, cum: real): real
    requires cum != 0.0
  {
    if a == [] then 0.0 else SumShares(a[..|a| - 1], cum) + Share(FlexOr0(a[|a| - 1]), cum)
  }

  /** The shares of an axis whose cumulative is the sum of its entries
      add up to 100%. */
  lemma {:induction false} SharesAddUpTo100(a: seq<Option<real>>, cum: real)
    requires cum != 0.0 && cum == SumDefined(a)
    ensures SumShares(a, cum) == 100.0
  {
    SumSharesIsScaledSum(a, cum);
  }

  lemma {:induction false} SumSharesIsScaledSum(a: seq<Option<real>>, cum: real)
    requires cum != 0.0
    ensures SumShares(a, cum) == SumDefined(a) * 100.0 / cum
  {
    if a != [] {
      var init, x := a[..|a| - 1], FlexOr0(a[|a| - 1]);
      SumSharesIsScaledSum(init, cum);
      ScaledSumAdds(SumDefined(init), x, cum);
    }
  }

  lemma ScaledSumAdds(s: real, x: real, cum: real)
    requires cum != 0.0
    ensures s * 100.0 / cum + x * 100.0 / cum == (s + x) * 100.0 / cum
  {
  }
}
