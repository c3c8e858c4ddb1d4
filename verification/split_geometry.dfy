/** The arithmetic of the horizontal splitter (`zoof.createHSplit` in
    flexx/html/layouts.js) over plain values: divider positions `ts`
    (pixels from the splitter's left edge, one per gap between panes),
    the panes' minimum widths `mins` (one per pane, None when the style
    does not parse as a number) and the splitter's client width `W`. */
module SplitGeometry {
  import opened Widgets

  /** Half the width of a divider, in pixels. */
  const W2: real := 3.0
  /** The room kept for a pane whose minimum width does not parse. */
  const MIN_WIDTH: real := 20.0

  /** The room `clipT` keeps for a pane between two dividers: a divider's
      width plus the pane's minimum width, or MIN_WIDTH when that sum is
      NaN or 0 (JavaScript's `||` on the whole sum). */
  function Reserve(minWidth: Option<real>): (r: real)
    ensures r != 0.0
    ensures minWidth.Some? && minWidth.value >= 0.0 ==> r == 2.0 * W2 + minWidth.value
    ensures minWidth.None? ==> r == MIN_WIDTH
  {
    if minWidth.None? || 2.0 * W2 + minWidth.value == 0.0 then MIN_WIDTH else 2.0 * W2 + minWidth.value
  }

  /** The lowest position `clipT` allows divider i: the previous divider
      (or the left edge) plus the left pane's reserve. */
  function Lo(ts: seq<real>, mins: seq<Option<real>>, i: nat): real
    requires i < |ts| && |mins| == |ts| + 1
  {
    (if i > 0 then ts[i - 1] else 0.0) + Reserve(mins[i])
  }

  /** The highest position: the next divider (or the right edge) minus the
      right pane's reserve. */
  function Hi(ts: seq<real>, mins: seq<Option<real>>, i: nat, W: real): real
    requires i < |ts| && |mins| == |ts| + 1
  {
    (if i < |ts| - 1 then ts[i + 1] else W) - Reserve(mins[i + 1])
  }

  /** `clipT`: t clamped to [Lo, Hi]; when the two cross, Hi wins. */
  function ClipT(ts: seq<real>, mins: seq<Option<real>>, i: nat, W: real, t: real): (r: real)
    requires i < |ts| && |mins| == |ts| + 1
    ensures Lo(ts, mins, i) <= Hi(ts, mins, i, W) ==> Lo(ts, mins, i) <= r <= Hi(ts, mins, i, W)
    ensures Lo(ts, mins, i) > Hi(ts, mins, i, W) ==> r == Hi(ts, mins, i, W)
    ensures Lo(ts, mins, i) <= t <= Hi(ts, mins, i, W) ==> r == t
    ensures t <= Lo(ts, mins, i) <= Hi(ts, mins, i, W) ==> r == Lo(ts, mins, i)
    ensures Hi(ts, mins, i, W) <= t ==> r == Hi(ts, mins, i, W)
  {
    Min(Hi(ts, mins, i, W), Max(Lo(ts, mins, i), t))
  }

  /** Clipping a clipped position changes nothing. */
  lemma ClipIdempotent(ts: seq<real>, mins: seq<Option<real>>, i: nat, W: real, t: real)
    requires i < |ts| && |mins| == |ts| + 1
    ensures ClipT(ts, mins, i, W, ClipT(ts, mins, i, W, t)) == ClipT(ts, mins, i, W, t)
  {
  }

  /** `moveDivider` reads a position below 1 as a fraction of the width. */
  function Scale(t: real, W: real): real
  {
    if t < 1.0 then t * W else t
  }

  /** A stored `tInPerc` of 1.0 (the value a new divider gets) is not below 1:
      a resize then puts that divider at 1 pixel, clipped, not at the
      right edge. */
  lemma WholeFractionIsPixel(ts: seq<real>, mins: seq<Option<real>>, i: nat, W: real)
    requires i < |ts| && |mins| == |ts| + 1 && W > 1.0
    ensures Scale(1.0, W) == 1.0 != W
    ensures ClipT(ts, mins, i, W, Scale(1.0, W)) == ClipT(ts, mins, i, W, 1.0)
  {
  }

  /** A stored fraction below 1 comes back as the same share of the new width. */
  lemma FractionScales(f: real, W: real)
    requires 0.0 <= f < 1.0 && W > 0.0
    ensures Scale(f, W) == f * W && Scale(f, W) < W
  {
  }

  /** The divider positions after `moveDivider(i, t)`. */
  function MoveT(ts: seq<real>, mins: seq<Option<real>>, W: real, i: nat, t: real): (r: seq<real>)
    requires i < |ts| && |mins| == |ts| + 1
    ensures |r| == |ts| && r[i] == ClipT(ts, mins, i, W, Scale(t, W))
    ensures forall k | 0 <= k < |ts| && k != i :: r[k] == ts[k]
  {
    ts[i := ClipT(ts, mins, i, W, Scale(t, W))]
  }

  /** Every divider lies within its clipping range: each pane has at least
      its reserve between its dividers (or the edges). */
  predicate Fits(ts: seq<real>, mins: seq<Option<real>>, W: real)
  {
    |mins| == |ts| + 1 && forall i | 0 <= i < |ts| :: Lo(ts, mins, i) <= ts[i] <= Hi(ts, mins, i, W)
  }

  /** Moving a divider of a fitting splitter keeps it fitting. */
  lemma MoveKeepsFit(ts: seq<real>, mins: seq<Option<real>>, W: real, i: nat, t: real)
    requires i < |ts| && Fits(ts, mins, W)
    ensures Fits(MoveT(ts, mins, W, i, t), mins, W)
  {
    var r := MoveT(ts, mins, W, i, t);
    forall k | 0 <= k < |ts|
      ensures Lo(r, mins, k) <= r[k] <= Hi(r, mins, k, W)
    {
      if k == i {
        assert Lo(r, mins, k) == Lo(ts, mins, k) && Hi(r, mins, k, W) == Hi(ts, mins, k, W);
      } else if k == i + 1 {
        assert Hi(r, mins, k, W) == Hi(ts, mins, k, W);
      } else if k + 1 == i {
        assert Lo(r, mins, k) == Lo(ts, mins, k);
      } else {
        assert Lo(r, mins, k) == Lo(ts, mins, k) && Hi(r, mins, k, W) == Hi(ts, mins, k, W);
      }
    }
  }

  /** A divider set to a share f of width W1 (below 1, and not clipped)
      stores f, and a resize to W2 puts it back at f * W2 when that is
      within its range. */
  lemma FractionSurvivesResize(ts: seq<real>, mins: seq<Option<real>>, i: nat, W1: real, W2: real, f: real)
    requires i < |ts| && |mins| == |ts| + 1 && W1 > 0.0 && W2 > 0.0 && 0.0 <= f < 1.0
    requires Lo(ts, mins, i) <= f * W1 <= Hi(ts, mins, i, W1)
    requires Lo(ts, mins, i) <= f * W2 <= Hi(ts, mins, i, W2)
    ensures var t1 := MoveT(ts, mins, W1, i, f);
      t1[i] / W1 == f && MoveT(t1, mins, W2, i, t1[i] / W1)[i] == f * W2
  {
    var t1 := MoveT(ts, mins, W1, i, f);
    assert t1[i] == f * W1;
    assert t1[i] / W1 == f;
    assert Lo(t1, mins, i) == Lo(ts, mins, i) && Hi(t1, mins, i, W2) == Hi(ts, mins, i, W2);
  }

  /** The positions after `moveDivider(k, targets[k])` for k = 0 .. n-1, in
      that order: the loop of `insertWidget` and of `onResize`. */
  function Sweep(ts: seq<real>, mins: seq<Option<real>>, W: real, targets: seq<real>, n: nat): (r: seq<real>)
    requires n <= |ts| == |targets| && |mins| == |ts| + 1
    ensures |r| == |ts|
    ensures forall k | n <= k < |ts| :: r[k] == ts[k]
  {
    if n == 0 then ts
    else MoveT(Sweep(ts, mins, W, targets, n - 1), mins, W, n - 1, targets[n - 1])
  }

  lemma {:induction false} SweepKeepsFit(ts: seq<real>, mins: seq<Option<real>>, W: real, targets: seq<real>, n: nat)
    requires n <= |ts| == |targets| && Fits(ts, mins, W)
    ensures Fits(Sweep(ts, mins, W, targets, n), mins, W)
  {
    if n > 0 {
      SweepKeepsFit(ts, mins, W, targets, n - 1);
      MoveKeepsFit(Sweep(ts, mins, W, targets, n - 1), mins, W, n - 1, targets[n - 1]);
    }
  }

  // ---------------------------------------------------------------------
  // Pane geometry

  /** Where pane k starts: the left edge, or just right of divider k-1. */
  function Begin(ts: seq<real>, k: nat): real
    requires k <= |ts|
  {
    if k == 0 then 0.0 else ts[k - 1] + W2
  }

  /** Where pane k ends: just left of divider k, or the right edge. */
  function End(ts: seq<real>, W: real, k: nat): real
    requires k <= |ts|
  {
    if k < |ts| then ts[k] - W2 else W
  }

  function PaneWidth(ts: seq<real>, W: real, k: nat): real
    requires k <= |ts|
  {
    End(ts, W, k) - Begin(ts, k)
  }

  /** In a fitting splitter every pane is at least as wide as its reserve
      leaves room for: its minimum width when that is a non-negative number. */
  lemma FitGivesMinWidths(ts: seq<real>, mins: seq<Option<real>>, W: real, k: nat)
    requires Fits(ts, mins, W) && 0 < |ts| && k <= |ts|
    ensures PaneWidth(ts, W, k) >= Reserve(mins[k]) - 2.0 * W2
    ensures mins[k].Some? && mins[k].value >= 0.0 ==> PaneWidth(ts, W, k) >= mins[k].value
  {
    if k < |ts| {
      assert Lo(ts, mins, k) <= ts[k];
    } else {
      assert ts[k - 1] <= Hi(ts, mins, k - 1, W);
    }
  }

  /** `moveDivider(i, t)` only moves the boundary between panes i and
      i + 1: together they still fill the space between the dividers (or
      edges) around them, less the two half-dividers, and pane i + 1 starts
      just right of divider i. */
  lemma MoveSharesGap(ts: seq<real>, mins: seq<Option<real>>, W: real, i: nat, t: real)
    requires i < |ts| && |mins| == |ts| + 1
    ensures var r := MoveT(ts, mins, W, i, t);
      && PaneWidth(r, W, i) + PaneWidth(r, W, i + 1) == End(ts, W, i + 1) - Begin(ts, i) - 2.0 * W2
      && Begin(r, i + 1) == r[i] + W2
      && forall k | 0 <= k <= |ts| && k != i && k != i + 1 :: PaneWidth(r, W, k) == PaneWidth(ts, W, k)
  {
    var r := MoveT(ts, mins, W, i, t);
    assert Begin(r, i) == Begin(ts, i);
    assert End(r, W, i + 1) == End(ts, W, i + 1);
    forall k | 0 <= k <= |ts| && k != i && k != i + 1
      ensures PaneWidth(r, W, k) == PaneWidth(ts, W, k)
    {
      assert Begin(r, k) == Begin(ts, k) && End(r, W, k) == End(ts, W, k);
    }
  }

  /** In a fitting splitter a move leaves every pane at least its minimum
      width. */
  lemma MoveRespectsMinWidths(ts: seq<real>, mins: seq<Option<real>>, W: real, i: nat, t: real)
    requires i < |ts| && Fits(ts, mins, W)
    ensures forall k | 0 <= k <= |ts| && mins[k].Some? && mins[k].value >= 0.0 ::
      PaneWidth(MoveT(ts, mins, W, i, t), W, k) >= mins[k].value
  {
    var r := MoveT(ts, mins, W, i, t);
    MoveKeepsFit(ts, mins, W, i, t);
    forall k | 0 <= k <= |ts| && mins[k].Some? && mins[k].value >= 0.0
      ensures PaneWidth(r, W, k) >= mins[k].value
    {
      FitGivesMinWidths(r, mins, W, k);
    }
  }

  /** While a divider is dragged within its range, the ghost stands where
      the divider's left edge will be when the mouse is released. */
  lemma GhostPreviewsDrop(ts: seq<real>, mins: seq<Option<real>>, W: real, i: nat, x: real)
    requires i < |ts| && |mins| == |ts| + 1
    requires Lo(ts, mins, i) <= x - W2 && x <= Hi(ts, mins, i, W) && x >= 1.0
    ensures ClipT(ts, mins, i, W, x - W2) == MoveT(ts, mins, W, i, ClipT(ts, mins, i, W, x))[i] - W2
  {
    assert ClipT(ts, mins, i, W, x) == x;
  }

  /** Past the right limit the ghost stops at the limit itself, while the
      dropped divider's left edge stops half a divider before it. */
  lemma GhostAtRightLimit(ts: seq<real>, mins: seq<Option<real>>, W: real, i: nat, x: real)
    requires i < |ts| && |mins| == |ts| + 1
    requires Lo(ts, mins, i) <= Hi(ts, mins, i, W) && 1.0 <= Hi(ts, mins, i, W) <= x - W2
    ensures ClipT(ts, mins, i, W, x - W2) == Hi(ts, mins, i, W)
    ensures MoveT(ts, mins, W, i, ClipT(ts, mins, i, W, x))[i] - W2 == Hi(ts, mins, i, W) - W2
  {
    ClipIdempotent(ts, mins, i, W, x);
  }

  /** A drop at a clipped position of at least one pixel lands exactly
      there: `onMouseUp` clips before `moveDivider` clips again. */
  lemma DropLandsOnClip(ts: seq<real>, mins: seq<Option<real>>, W: real, i: nat, x: real)
    requires i < |ts| && |mins| == |ts| + 1 && ClipT(ts, mins, i, W, x) >= 1.0
    ensures MoveT(ts, mins, W, i, ClipT(ts, mins, i, W, x))[i] == ClipT(ts, mins, i, W, x)
  {
    ClipIdempotent(ts, mins, i, W, x);
  }

  /** The widths of the first m panes. */
  function Widths(ts: seq<real>, W: real, m: nat): real
    requires m <= |ts| + 1
  {
    if m == 0 then 0.0 else Widths(ts, W, m - 1) + PaneWidth(ts, W, m - 1)
  }

  lemma {:induction false} WidthsTelescope(ts: seq<real>, W: real, m: nat)
    requires 0 < m <= |ts|
    ensures Widths(ts, W, m) == ts[m - 1] - W2 - 2.0 * W2 * (m - 1) as real
  {
    if m > 1 {
      WidthsTelescope(ts, W, m - 1);
    }
  }

  /** The panes and dividers tile the splitter: the pane widths add up to
      the client width less one divider width per divider. */
  lemma PanesTile(ts: seq<real>, W: real)
    ensures Widths(ts, W, |ts| + 1) == W - 2.0 * W2 * |ts| as real
  {
    if |ts| > 0 {
      WidthsTelescope(ts, W, |ts|);
    }
  }

  // ---------------------------------------------------------------------
  // Insertion targets

  /** The width `insertWidget` aims at for gap k (left of divider k) when
      it inserts at `index`: the gap just before the new pane gets an equal
      share W / n of the n panes, every other gap its old width scaled by
      (W - W / n) / W. `ts` already holds the divider pushed at W. */
  function Gap(ts: seq<real>, index: nat, W: real, k: nat): real
    requires k < |ts| && W > 0.0
  {
    var needSize := W / (|ts| + 1) as real;
    var sizeLeft := W - needSize;
    if k != index - 1 then (ts[k] - (if k > 0 then ts[k - 1] else 0.0)) * sizeLeft / W else needSize
  }

  /** The width of a gap other than the one before the new pane. */
  lemma GapScaled(ts: seq<real>, index: nat, W: real, k: nat)
    requires k < |ts| && W > 0.0 && k != index - 1
    ensures Gap(ts, index, W, k) == (ts[k] - (if k > 0 then ts[k - 1] else 0.0)) * (W - W / (|ts| + 1) as real) / W
  {
  }

  /** The targets of the first m dividers: the running sums of the gaps. */
  function Targets(ts: seq<real>, index: nat, W: real, m: nat): (r: seq<real>)
    requires m <= |ts| && W > 0.0
    ensures |r| == m
  {
    if m == 0 then []
    else
      var prev := Targets(ts, index, W, m - 1);
      prev + [Gap(ts, index, W, m - 1) + (if m > 1 then prev[m - 2] else 0.0)]
  }

  function InsertTargets(ts: seq<real>, index: nat, W: real): (r: seq<real>)
    requires W > 0.0
    ensures |r| == |ts|
  {
    Targets(ts, index, W, |ts|)
  }

  lemma ScaledShare(q: real, m: real, n: real, W: real)
    requires m > 0.0 && n == m + 1.0 && W > 0.0 && q * m == W
    ensures q * (W - W / n) / W == W / n
  {
    var p := W / n;
    assert p * n == W;
    assert W - p == p * m;
    assert q * (p * m) == p * W;
  }

  /** Appending to m equal panes, every gap's target width is W / (m + 1). */
  lemma AppendGap(ts: seq<real>, W: real, k: nat)
    requires W > 0.0 && k < |ts|
    requires forall k | 0 <= k < |ts| - 1 :: ts[k] == (k + 1) as real * (W / |ts| as real)
    requires ts[|ts| - 1] == W
    ensures Gap(ts, |ts|, W, k) == W / (|ts| + 1) as real
  {
    if k != |ts| - 1 {
      var m := |ts| as real;
      var q := W / m;
      assert ts[k] == (k + 1) as real * q;
      if k > 0 {
        assert ts[k - 1] == k as real * q;
      }
      assert ts[k] - (if k > 0 then ts[k - 1] else 0.0) == q;
      assert q * m == W;
      ScaledShare(q, m, m + 1.0, W);
    }
  }

  lemma NextMultiple(k: nat, p: real)
    ensures p + k as real * p == (k + 1) as real * p
  {
  }

  /** Appending a pane to m equal panes: the dividers' targets split the
      width into m + 1 equal panes. */
  lemma {:induction false} AppendTargetsEqual(ts: seq<real>, W: real, j: nat)
    requires W > 0.0 && 0 < |ts| && j <= |ts|
    requires forall k | 0 <= k < |ts| - 1 :: ts[k] == (k + 1) as real * (W / |ts| as real)
    requires ts[|ts| - 1] == W
    ensures forall k | 0 <= k < j :: Targets(ts, |ts|, W, j)[k] == (k + 1) as real * (W / (|ts| + 1) as real)
  {
    if j > 0 {
      AppendTargetsEqual(ts, W, j - 1);
      var p := W / (|ts| + 1) as real;
      var k := j - 1;
      var prev := Targets(ts, |ts|, W, j - 1);
      AppendGap(ts, W, k);
      var r := Targets(ts, |ts|, W, j);
      assert r == prev + [p + (if k > 0 then prev[k - 1] else 0.0)];
      assert r[k] == (k + 1) as real * p by {
        if k > 0 {
          NextMultiple(k, p);
        }
      }
    }
  }

  /** `appendWidget` inserts at the end: appended to m equal panes, the
      targets are k * W / (m + 1). */
  lemma AppendSplitsEqually(ts: seq<real>, W: real)
    requires W > 0.0 && 0 < |ts|
    requires forall k | 0 <= k < |ts| - 1 :: ts[k] == (k + 1) as real * (W / |ts| as real)
    requires ts[|ts| - 1] == W
    ensures forall k | 0 <= k < |ts| :: InsertTargets(ts, |ts|, W)[k] == (k + 1) as real * (W / (|ts| + 1) as real)
  {
    AppendTargetsEqual(ts, W, |ts|);
  }

  // ---------------------------------------------------------------------
  // Insertion targets that take space from every pane

  /** The width of pane k for divider positions ts in a splitter W wide,
      divider widths left out: from divider k - 1 (or the left edge) to
      divider k (or the right edge). */
  function Span(ts: seq<real>, W: real, k: nat): real
    requires k <= |ts|
  {
    (if k < |ts| then ts[k] else W) - (if k > 0 then ts[k - 1] else 0.0)
  }

  /** Where the first j panes end: divider j - 1, or the left edge. */
  function Prefix(ts: seq<real>, j: nat): real
    requires j <= |ts|
  {
    if j == 0 then 0.0 else ts[j - 1]
  }

  /** The new pane k's width when the newcomer sits at `at` and gets
      `need`, and every old pane keeps the fraction `keep` of its width.
      `ts` holds the old dividers and the one pushed at W, so old pane j
      spans Span(ts, W, j). */
  function Placed(ts: seq<real>, at: nat, need: real, keep: real, W: real, k: nat): real
    requires k <= |ts|
  {
    if k == at then need
    else Span(ts, W, if k < at then k else k - 1) * keep
  }

  /** Running sums of the first j placed widths. */
  function PlacedTargets(ts: seq<real>, at: nat, need: real, keep: real, W: real, j: nat): (r: seq<real>)
    requires j <= |ts|
    ensures |r| == j
  {
    if j == 0 then []
    else
      var prev := PlacedTargets(ts, at, need, keep, W, j - 1);
      prev + [Prefix(prev, j - 1) + Placed(ts, at, need, keep, W, j - 1)]
  }

  /** Each placed target is the previous one plus the pane's width. */
  lemma {:induction false} PlacedTargetsStep(ts: seq<real>, at: nat, need: real, keep: real, W: real, j: nat, i: nat)
    requires j <= |ts| && i < j
    ensures var r := PlacedTargets(ts, at, need, keep, W, j);
      r[i] == Prefix(r, i) + Placed(ts, at, need, keep, W, i)
  {
    var r := PlacedTargets(ts, at, need, keep, W, j);
    var prev := PlacedTargets(ts, at, need, keep, W, j - 1);
    assert r == prev + [Prefix(prev, j - 1) + Placed(ts, at, need, keep, W, j - 1)];
    if i < j - 1 {
      PlacedTargetsStep(ts, at, need, keep, W, j - 1, i);
      assert r[i] == prev[i];
      assert Prefix(r, i) == Prefix(prev, i);
    } else {
      assert Prefix(r, i) == Prefix(prev, j - 1);
    }
  }

  lemma KeepAdds(a: real, b: real, keep: real)
    ensures a * keep + (b - a) * keep == b * keep
  {
  }

  /** One step of the running sum below: adding pane j - 1's placed width
      to where the first j - 1 panes end. */
  lemma PlacedSumStep(ts: seq<real>, at: nat, need: real, keep: real, W: real, j: nat, before: real, after: real)
    requires 0 < j <= |ts| && at <= |ts|
    requires before == if j - 1 <= at then Prefix(ts, j - 1) * keep else Prefix(ts, j - 2) * keep + need
    requires after == before + Placed(ts, at, need, keep, W, j - 1)
    ensures after == if j <= at then Prefix(ts, j) * keep else Prefix(ts, j - 1) * keep + need
  {
    var i := j - 1;
    if i < at {
      assert Span(ts, W, i) == Prefix(ts, j) - Prefix(ts, i);
      KeepAdds(Prefix(ts, i), Prefix(ts, j), keep);
    } else if i > at {
      assert Span(ts, W, i - 1) == Prefix(ts, i) - Prefix(ts, i - 1);
      KeepAdds(Prefix(ts, i - 1), Prefix(ts, i), keep);
    }
  }

  /** Where the first j new panes end: the kept part of the old panes
      before the insertion point, plus the newcomer's width once passed. */
  lemma {:induction false} PlacedRunningSum(ts: seq<real>, at: nat, need: real, keep: real, W: real, j: nat)
    requires at <= |ts| && j <= |ts|
    ensures var r := PlacedTargets(ts, at, need, keep, W, |ts|);
      Prefix(r, j) == if j <= at then Prefix(ts, j) * keep else Prefix(ts, j - 1) * keep + need
  {
    if j > 0 {
      PlacedRunningSum(ts, at, need, keep, W, j - 1);
      var i := j - 1;
      PlacedTargetsStep(ts, at, need, keep, W, |ts|, i);
      var r := PlacedTargets(ts, at, need, keep, W, |ts|);
      PlacedSumStep(ts, at, need, keep, W, j, Prefix(r, i), Prefix(r, j));
    }
  }

  /** When the kept part of the whole splitter and the newcomer's width
      add up to W, the placed targets give every new pane its placed
      width, the last one included. */
  lemma PlacedTargetsGiveWidths(ts: seq<real>, at: nat, need: real, keep: real, W: real)
    requires 0 < |ts| && ts[|ts| - 1] == W && at <= |ts| && W * keep + need == W
    ensures var r := PlacedTargets(ts, at, need, keep, W, |ts|);
      forall k | 0 <= k <= |ts| :: Span(r, W, k) == Placed(ts, at, need, keep, W, k)
  {
    var m := |ts|;
    var r := PlacedTargets(ts, at, need, keep, W, m);
    forall k | 0 <= k < m
      ensures Span(r, W, k) == Placed(ts, at, need, keep, W, k)
    {
      PlacedTargetsStep(ts, at, need, keep, W, m, k);
    }
    PlacedRunningSum(ts, at, need, keep, W, m);
    assert Span(r, W, m) == W - Prefix(r, m);
    if at < m {
      assert Span(ts, W, m - 1) == W - Prefix(ts, m - 1);
    } else {
      assert Prefix(ts, m) == W;
    }
  }

  /** The width the new pane k should get when a pane is inserted at
      `index` (clamped as `splice` does) among the m = |ts| old panes: the
      newcomer W / (m + 1), every old pane its own width scaled by
      (W - W / (m + 1)) / W. */
  function IntendedWidth(ts: seq<real>, index: nat, W: real, k: nat): real
    requires k <= |ts| && W > 0.0
  {
    var needSize := W / (|ts| + 1) as real;
    Placed(ts, if index <= |ts| then index else |ts|, needSize, (W - needSize) / W, W, k)
  }

  /** The targets that give every new pane its intended width. */
  function IntendedTargets(ts: seq<real>, index: nat, W: real): (r: seq<real>)
    requires W > 0.0
    ensures |r| == |ts|
  {
    var needSize := W / (|ts| + 1) as real;
    PlacedTargets(ts, if index <= |ts| then index else |ts|, needSize, (W - needSize) / W, W, |ts|)
  }

  lemma KeepWhole(s: real, W: real)
    requires W > 0.0
    ensures W * (s / W) == s
  {
  }

  /** The intended targets give the newcomer W / (m + 1) and every old pane
      its width scaled by (W - W / (m + 1)) / W, the last pane included. */
  lemma IntendedTargetsGiveShares(ts: seq<real>, index: nat, W: real)
    requires W > 0.0 && 0 < |ts| && ts[|ts| - 1] == W
    ensures var r := IntendedTargets(ts, index, W);
      forall k | 0 <= k <= |ts| :: Span(r, W, k) == IntendedWidth(ts, index, W, k)
  {
    var needSize := W / (|ts| + 1) as real;
    KeepWhole(W - needSize, W);
    PlacedTargetsGiveWidths(ts, if index <= |ts| then index else |ts|, needSize, (W - needSize) / W, W);
  }

  lemma ScaledEither(x: real, s: real, W: real)
    requires W > 0.0
    ensures x * s / W == x * (s / W)
  {
  }

  /** With an index past the end, no gap gets W / (m + 1), every old pane
      is scaled and the last pane keeps what is left: there the code's
      targets are the intended ones. */
  lemma {:induction false} TargetsAgreePastEnd(ts: seq<real>, index: nat, W: real, j: nat)
    requires W > 0.0 && j <= |ts| < index
    ensures var needSize := W / (|ts| + 1) as real;
      Targets(ts, index, W, j) == PlacedTargets(ts, |ts|, needSize, (W - needSize) / W, W, j)
  {
    if j > 0 {
      TargetsAgreePastEnd(ts, index, W, j - 1);
      var needSize := W / (|ts| + 1) as real;
      var keep := (W - needSize) / W;
      var prev := Targets(ts, index, W, j - 1);
      GapScaled(ts, index, W, j - 1);
      assert Span(ts, W, j - 1) == ts[j - 1] - (if j > 1 then ts[j - 2] else 0.0);
      ScaledEither(Span(ts, W, j - 1), W - needSize, W);
      assert Gap(ts, index, W, j - 1) == Placed(ts, |ts|, needSize, keep, W, j - 1);
      assert Prefix(prev, j - 1) == if j > 1 then prev[j - 2] else 0.0;
    }
  }

  /** The code's targets with unequal panes. Inserting at index 1 into
      panes 100, 200 and 300 wide of a splitter 600 wide gives the panes
      150, 150, 225 and 75, where the newcomer's 150 and three quarters of
      each old pane give 75, 150, 150 and 225. Appending to the same panes
      gives 75, 150, 150 and 225, where 75, 150, 225 and 150 are meant. */
  lemma InsertTargetsMisplacesShare()
    ensures InsertTargets([100.0, 300.0, 600.0], 1, 600.0) == [150.0, 300.0, 525.0]
    ensures IntendedTargets([100.0, 300.0, 600.0], 1, 600.0) == [75.0, 225.0, 375.0]
    ensures InsertTargets([100.0, 300.0, 600.0], 3, 600.0) == [75.0, 225.0, 375.0]
    ensures IntendedTargets([100.0, 300.0, 600.0], 3, 600.0) == [75.0, 225.0, 450.0]
  {
    var ts := [100.0, 300.0, 600.0];
    assert 600.0 / 4.0 == 150.0 && (600.0 - 150.0) / 600.0 == 0.75;
    assert Targets(ts, 1, 600.0, 1) == [150.0];
    assert Targets(ts, 1, 600.0, 2) == [150.0, 300.0];
    assert Targets(ts, 1, 600.0, 3) == [150.0, 300.0, 525.0];
    assert PlacedTargets(ts, 1, 150.0, 0.75, 600.0, 1) == [75.0];
    assert PlacedTargets(ts, 1, 150.0, 0.75, 600.0, 2) == [75.0, 225.0];
    assert Targets(ts, 3, 600.0, 1) == [75.0];
    assert Targets(ts, 3, 600.0, 2) == [75.0, 225.0];
    assert PlacedTargets(ts, 3, 150.0, 0.75, 600.0, 1) == [75.0];
    assert PlacedTargets(ts, 3, 150.0, 0.75, 600.0, 2) == [75.0, 225.0];
  }

  // ---------------------------------------------------------------------
  // The splitter's own minimum size

  /** The reserves of the first k panes. */
  function ReserveSum(mins: seq<Option<real>>, k: nat): real
    requires k <= |mins|
  {
    if k == 0 then 0.0 else ReserveSum(mins, k - 1) + Reserve(mins[k - 1])
  }

  /** Dividers packed as far left as the reserves allow. */
  function Packed(mins: seq<Option<real>>): (ts: seq<real>)
    requires |mins| > 0
    ensures |ts| == |mins| - 1
  {
    seq(|mins| - 1, k requires 0 <= k < |mins| - 1 => ReserveSum(mins, k + 1))
  }

  /** A splitter as wide as the sum of its panes' reserves has room for
      every divider: the packed positions fit. */
  lemma PackedFits(mins: seq<Option<real>>, W: real)
    requires |mins| > 0 && W >= ReserveSum(mins, |mins|)
    ensures Fits(Packed(mins), mins, W)
  {
    var ts := Packed(mins);
    forall i | 0 <= i < |ts|
      ensures Lo(ts, mins, i) <= ts[i] <= Hi(ts, mins, i, W)
    {
      assert ts[i] == ReserveSum(mins, i + 1);
      if i > 0 {
        assert ts[i - 1] == ReserveSum(mins, i);
      }
      assert Lo(ts, mins, i) == ts[i];
      if i < |ts| - 1 {
        assert ts[i + 1] == ReserveSum(mins, i + 2);
        assert Hi(ts, mins, i, W) == ts[i];
      }
    }
  }
}
