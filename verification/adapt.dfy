/** The height re-adaptation a TableVBox, Form or Grid performs when its
    height changes (`adaptLayoutToSizeChange` in flexx/html/layouts.js):
    percentage heights apply to the whole table, so each flexible row is
    given its share of what the non-flexible rows leave over. The measured
    sizes (the table's client height and the client height of each row's
    first cell) are inputs. */
module SizeAdapt {
  import opened Widgets
  import opened TableModel

  /** The sum of the flex cached on every row. */
  function CumVflex(rows: seq<Row>): real
  {
    if |rows| == 0 then 0.0 else CumVflex(rows[..|rows| - 1]) + rows[|rows| - 1].vflex
  }

  /** A row that keeps its natural height: no flex, and at least one cell to measure. */
  predicate Fixed(r: Row)
  {
    r.vflex == 0.0 && |r.cells| > 0
  }

  /** The summed height of the fixed rows, each measured by its first cell;
      `heights[i]` is the client height of row i's first cell. */
  function FixedHeight(rows: seq<Row>, heights: seq<real>): real
    requires |heights| == |rows|
  {
    if |rows| == 0 then 0.0
    else
      var n := |rows| - 1;
      FixedHeight(rows[..n], heights[..n]) + (if Fixed(rows[n]) then heights[n] else 0.0)
  }

  /** The part of the table height, in percent, left for the flexible rows. */
  function RemainingPercentage(rows: seq<Row>, clientHeight: real, heights: seq<real>): real
    requires clientHeight > 0.0 && |heights| == |rows|
  {
    100.0 * (clientHeight - FixedHeight(rows, heights)) / clientHeight
  }

  /** The percentage a row of flex `vflex` gets: its share of the remaining
      percentage, rounded, plus one. */
  function FlexHeight(vflex: real, cum: real, pct: real): (p: real)
    requires cum > 0.0
    ensures vflex / cum * pct + 0.5 < p <= vflex / cum * pct + 1.5
  {
    (Round(vflex / cum * pct) + 1) as real
  }

  predicate AnyFlex(rows: seq<Row>)
  {
    exists k | 0 <= k < |rows| :: rows[k].vflex > 0.0
  }

  /** Every flexible row gets its new height; the other rows stay as they are. */
  function AdaptRows(rows: seq<Row>, cum: real, pct: real): (a: seq<Row>)
    requires AnyFlex(rows) ==> cum > 0.0
    ensures |a| == |rows|
    ensures forall k | 0 <= k < |rows| ::
      a[k] == if rows[k].vflex > 0.0 then rows[k].(height := Some(Percent(FlexHeight(rows[k].vflex, cum, pct))))
              else rows[k]
  {
    if |rows| == 0 then []
    else
      var n := |rows| - 1;
      var r := rows[n];
      var init := rows[..n];
      assert AnyFlex(init) ==> AnyFlex(rows) by {
        if AnyFlex(init) {
          var k :| 0 <= k < |init| && init[k].vflex > 0.0;
          assert rows[k] == init[k];
        }
      }
      AdaptRows(init, cum, pct)
        + [if r.vflex > 0.0 then r.(height := Some(Percent(FlexHeight(r.vflex, cum, pct)))) else r]
  }

  /** With no negative row flex, one flexible row makes the sum of flexes positive. */
  lemma {:induction false} CumVflexPositive(rows: seq<Row>)
    requires NonNegFlexes(rows)
    ensures CumVflex(rows) >= 0.0
    ensures AnyFlex(rows) ==> CumVflex(rows) > 0.0
  {
    if |rows| > 0 {
      var init := rows[..|rows| - 1];
      assert NonNegFlexes(init) by {
        assert forall k | 0 <= k < |init| :: init[k] == rows[k];
      }
      CumVflexPositive(init);
      if AnyFlex(rows) && rows[|rows| - 1].vflex <= 0.0 {
        var k :| 0 <= k < |rows| && rows[k].vflex > 0.0;
        assert init[k] == rows[k];
      }
    }
  }

  /** The rows after a height change of the table. */
  function Adapted(rows: seq<Row>, clientHeight: real, heights: seq<real>): seq<Row>
    requires clientHeight > 0.0 && |heights| == |rows| && NonNegFlexes(rows)
  {
    CumVflexPositive(rows);
    AdaptRows(rows, CumVflex(rows), RemainingPercentage(rows, clientHeight, heights))
  }

  // ---------------------------------------------------------------------
  // Properties

  /** Rows with the same flexes and cell counts give the same sums. */
  predicate SameFlexes(a: seq<Row>, b: seq<Row>)
  {
    |a| == |b| && forall k | 0 <= k < |a| :: a[k].vflex == b[k].vflex && |a[k].cells| == |b[k].cells|
  }

  lemma {:induction false} SameFlexesSameSums(a: seq<Row>, b: seq<Row>, heights: seq<real>)
    requires SameFlexes(a, b) && |heights| == |a|
    ensures CumVflex(a) == CumVflex(b)
    ensures FixedHeight(a, heights) == FixedHeight(b, heights)
  {
    if |a| > 0 {
      var n := |a| - 1;
      assert SameFlexes(a[..n], b[..n]);
      SameFlexesSameSums(a[..n], b[..n], heights[..n]);
    }
  }

  /** Adapting only writes heights: flexes, cells and widgets stay. */
  lemma AdaptKeepsFlexesAndTree(rows: seq<Row>, clientHeight: real, heights: seq<real>)
    requires clientHeight > 0.0 && |heights| == |rows| && NonNegFlexes(rows)
    ensures SameFlexes(Adapted(rows, clientHeight, heights), rows)
    ensures SameTree(Adapted(rows, clientHeight, heights), rows)
    ensures NonNegFlexes(Adapted(rows, clientHeight, heights))
  {
  }

  /** A second pass with the same measurements changes nothing more. */
  lemma AdaptIdempotent(rows: seq<Row>, clientHeight: real, heights: seq<real>)
    requires clientHeight > 0.0 && |heights| == |rows| && NonNegFlexes(rows)
    ensures var a := Adapted(rows, clientHeight, heights);
      NonNegFlexes(a) && Adapted(a, clientHeight, heights) == a
  {
    var a := Adapted(rows, clientHeight, heights);
    AdaptKeepsFlexesAndTree(rows, clientHeight, heights);
    SameFlexesSameSums(a, rows, heights);
  }

  /** The number of flexible rows. */
  function FlexRows(rows: seq<Row>): nat
  {
    if |rows| == 0 then 0
    else FlexRows(rows[..|rows| - 1]) + (if rows[|rows| - 1].vflex > 0.0 then 1 else 0)
  }

  /** The summed percentage heights of the flexible rows. */
  function FlexPercentages(rows: seq<Row>): real
  {
    if |rows| == 0 then 0.0
    else
      var r := rows[|rows| - 1];
      FlexPercentages(rows[..|rows| - 1])
        + (if r.vflex > 0.0 && r.height.Some? && r.height.value.Percent? then r.height.value.pct else 0.0)
  }

  /** The sum of `share` over the flexible rows' flexes. */
  function Shares(rows: seq<Row>, share: real -> real): real
  {
    if |rows| == 0 then 0.0
    else
      var r := rows[|rows| - 1];
      Shares(rows[..|rows| - 1], share) + (if r.vflex > 0.0 then share(r.vflex) else 0.0)
  }

  lemma ShareAdds(a: real, b: real, cum: real, pct: real)
    requires cum > 0.0
    ensures a / cum * pct + b / cum * pct == (a + b) / cum * pct
  {
  }

  /** The shares of `pct` add up to the flexes' part of `cum`. */
  lemma {:induction false} SharesOfCum(rows: seq<Row>, cum: real, pct: real, share: real -> real)
    requires cum > 0.0 && NonNegFlexes(rows)
    requires forall v :: share(v) == v / cum * pct
    ensures Shares(rows, share) == CumVflex(rows) / cum * pct
  {
    if |rows| == 0 {
      assert 0.0 / cum * pct == 0.0;
    } else {
      var n := |rows| - 1;
      var init := rows[..n];
      assert NonNegFlexes(init) by {
        assert forall k | 0 <= k < |init| :: init[k] == rows[k];
      }
      SharesOfCum(init, cum, pct, share);
      ShareAdds(CumVflex(init), rows[n].vflex, cum, pct);
      if rows[n].vflex <= 0.0 {
        assert rows[n].vflex == 0.0;
        assert CumVflex(rows) == CumVflex(init);
      }
    }
  }

  /** Each flexible row of `a` holds a percentage between 0.5 and 1.5 above its share. */
  predicate WithinRounding(rows: seq<Row>, a: seq<Row>, share: real -> real)
  {
    && |a| == |rows|
    && forall k | 0 <= k < |rows| :: a[k].vflex == rows[k].vflex &&
         (rows[k].vflex > 0.0 ==>
            && a[k].height.Some? && a[k].height.value.Percent?
            && share(rows[k].vflex) + 0.5 < a[k].height.value.pct <= share(rows[k].vflex) + 1.5)
  }

  /** Summing the per-row bounds: k flexible rows lie between k/2 and 3k/2 above their shares. */
  lemma {:induction false} SumWithinRounding(rows: seq<Row>, a: seq<Row>, share: real -> real)
    requires WithinRounding(rows, a, share)
    ensures var k := FlexRows(rows) as real;
      && Shares(rows, share) + 0.5 * k <= FlexPercentages(a) <= Shares(rows, share) + 1.5 * k
      && (k > 0.0 ==> Shares(rows, share) + 0.5 * k < FlexPercentages(a))
  {
    if |rows| > 0 {
      var n := |rows| - 1;
      assert WithinRounding(rows[..n], a[..n], share);
      SumWithinRounding(rows[..n], a[..n], share);
    }
  }

  /** Shared out by flex, the rounded percentages of the flexible rows add
      up to `pct`, give or take half to one and a half percent per row. */
  lemma RoundedShares(rows: seq<Row>, cum: real, pct: real)
    requires NonNegFlexes(rows) && AnyFlex(rows) && cum == CumVflex(rows) && cum > 0.0
    ensures var k := FlexRows(rows) as real;
      var sum := FlexPercentages(AdaptRows(rows, cum, pct));
      pct + 0.5 * k < sum <= pct + 1.5 * k
  {
    var share: real -> real := v => v / cum * pct;
    SharesMakePct(rows, cum, pct, share);
    FlexRowsPositive(rows);
    RoundedSum(rows, cum, pct, share);
  }

  /** The shares of `pct` by flex, over all rows, add up to `pct`. */
  lemma SharesMakePct(rows: seq<Row>, cum: real, pct: real, share: real -> real)
    requires NonNegFlexes(rows) && cum == CumVflex(rows) && cum > 0.0
    requires forall v :: share(v) == v / cum * pct
    ensures Shares(rows, share) == pct
  {
    SharesOfCum(rows, cum, pct, share);
    Cancel(cum, pct);
  }

  /** The rounded percentages lie between half and one and a half percent
      per flexible row above the shares. */
  lemma RoundedSum(rows: seq<Row>, cum: real, pct: real, share: real -> real)
    requires cum > 0.0
    requires forall v :: share(v) == v / cum * pct
    ensures var k := FlexRows(rows) as real;
      var sum := FlexPercentages(AdaptRows(rows, cum, pct));
      && Shares(rows, share) + 0.5 * k <= sum <= Shares(rows, share) + 1.5 * k
      && (k > 0.0 ==> Shares(rows, share) + 0.5 * k < sum)
  {
    AdaptRowsWithinRounding(rows, cum, pct, share);
    SumWithinRounding(rows, AdaptRows(rows, cum, pct), share);
  }

  lemma AdaptRowsWithinRounding(rows: seq<Row>, cum: real, pct: real, share: real -> real)
    requires cum > 0.0
    requires forall v :: share(v) == v / cum * pct
    ensures WithinRounding(rows, AdaptRows(rows, cum, pct), share)
  {
    var a := AdaptRows(rows, cum, pct);
    forall k | 0 <= k < |rows|
      ensures a[k].vflex == rows[k].vflex
      ensures rows[k].vflex > 0.0 ==>
        && a[k].height.Some? && a[k].height.value.Percent?
        && share(rows[k].vflex) + 0.5 < a[k].height.value.pct <= share(rows[k].vflex) + 1.5
    {
      if rows[k].vflex > 0.0 {
        var v := rows[k].vflex;
        var p := FlexHeight(v, cum, pct);
        assert a[k].height == Some(Percent(p));
        RoundedWithin(v / cum * pct, share(v), p);
      }
    }
  }

  lemma RoundedWithin(exact: real, s: real, p: real)
    requires s == exact && exact + 0.5 < p <= exact + 1.5
    ensures s + 0.5 < p <= s + 1.5
  {
  }

  lemma Cancel(cum: real, pct: real)
    requires cum > 0.0
    ensures cum / cum * pct == pct
  {
  }

  /** Together the flexible rows take the remaining percentage, give or
      take the rounding and the one percent added to each: with k flexible
      rows the sum lies in (pct + k/2, pct + 3k/2]. */
  lemma AdaptedPercentages(rows: seq<Row>, clientHeight: real, heights: seq<real>)
    requires clientHeight > 0.0 && |heights| == |rows| && NonNegFlexes(rows) && AnyFlex(rows)
    ensures var pct := RemainingPercentage(rows, clientHeight, heights);
      var k := FlexRows(rows) as real;
      var sum := FlexPercentages(Adapted(rows, clientHeight, heights));
      pct + 0.5 * k < sum <= pct + 1.5 * k
  {
    CumVflexPositive(rows);
    RoundedShares(rows, CumVflex(rows), RemainingPercentage(rows, clientHeight, heights));
  }

  lemma {:induction false} FlexRowsPositive(rows: seq<Row>)
    requires AnyFlex(rows)
    ensures FlexRows(rows) > 0
  {
    var n := |rows| - 1;
    if rows[n].vflex <= 0.0 {
      var k :| 0 <= k < |rows| && rows[k].vflex > 0.0;
      assert rows[..n][k] == rows[k];
      FlexRowsPositive(rows[..n]);
    }
  }

  /** A table 300 high whose first row is fixed at 60 and whose two other
      rows have flex 1: 80% remains, each flexible row gets 41%. */
  lemma AdaptExample(c: Cell)
    ensures var rows := [Row([c], 0.0, None), Row([c], 1.0, None), Row([c], 1.0, None)];
      var a := Adapted(rows, 300.0, [60.0, 0.0, 0.0]);
      a[0] == rows[0] && a[1].height == Some(Percent(41.0)) && a[2].height == Some(Percent(41.0))
  {
    var rows := [Row([c], 0.0, None), Row([c], 1.0, None), Row([c], 1.0, None)];
    var hs := [60.0, 0.0, 0.0];
    assert rows[..2] == [rows[0], rows[1]] && hs[..2] == [60.0, 0.0];
    assert rows[..2][..1] == [rows[0]] && hs[..2][..1] == [60.0];
    assert [rows[0]][..0] == [] && [60.0][..0] == [];
    assert CumVflex([rows[0]]) == 0.0;
    assert CumVflex(rows[..2]) == 1.0;
    assert CumVflex(rows) == 2.0;
    assert FixedHeight([rows[0]], [60.0]) == 60.0;
    assert FixedHeight(rows[..2], hs[..2]) == 60.0;
    assert FixedHeight(rows, hs) == 60.0;
    assert RemainingPercentage(rows, 300.0, hs) == 80.0;
    assert FlexHeight(1.0, 2.0, 80.0) == 41.0 by {
      assert Round(1.0 / 2.0 * 80.0) == 40;
    }
  }
}
