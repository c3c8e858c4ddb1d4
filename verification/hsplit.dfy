/** The horizontal splitter of flexx/html/layouts.js (`zoof.createHSplit`)
    as an object: the panes it holds, the dividers between them, the ghost
    the user drags and the drag flag, updated in place by the public
    `insertWidget`/`appendWidget`/`moveDivider` and by the resize and mouse
    handlers. The client width, the element's left offset and the mouse
    position are parameters. */
module Splitters {
  import opened Widgets
  import opened SplitGeometry

  /** A child of the splitter with the `left` and `width` styles the
      splitter writes (None while it has written none). */
  datatype Pane = Pane(widget: Widget, left: Option<real>, width: Option<real>)

  /** A divider: its position `t`, that position as a share of the client
      width `tInPerc`, and its `left` style. */
  datatype Divider = Divider(t: real, tInPerc: real, left: Option<real>)

  /** The positions of the dividers. */
  function TsOf(ds: seq<Divider>): (ts: seq<real>)
    ensures |ts| == |ds| && forall k | 0 <= k < |ds| :: ts[k] == ds[k].t
  {
    seq(|ds|, k requires 0 <= k < |ds| => ds[k].t)
  }

  /** The stored shares of the dividers. */
  function FractionsOf(ds: seq<Divider>): (fs: seq<real>)
    ensures |fs| == |ds| && forall k | 0 <= k < |ds| :: fs[k] == ds[k].tInPerc
  {
    seq(|ds|, k requires 0 <= k < |ds| => ds[k].tInPerc)
  }

  /** The panes' minimum widths. */
  function MinsOf(ps: seq<Pane>): (mins: seq<Option<real>>)
    ensures |mins| == |ps| && forall k | 0 <= k < |ps| :: mins[k] == ps[k].widget.minWidth
  {
    seq(|ps|, k requires 0 <= k < |ps| => ps[k].widget.minWidth)
  }

  /** The panes' minimum heights. */
  function MinHeightsOf(ps: seq<Pane>): (mins: seq<Option<real>>)
    ensures |mins| == |ps| && forall k | 0 <= k < |ps| :: mins[k] == ps[k].widget.minHeight
  {
    seq(|ps|, k requires 0 <= k < |ps| => ps[k].widget.minHeight)
  }

  /** The child widgets, in order. */
  function WidgetsOf(ps: seq<Pane>): (ws: seq<Widget>)
    ensures |ws| == |ps| && forall k | 0 <= k < |ps| :: ws[k] == ps[k].widget
  {
    seq(|ps|, k requires 0 <= k < |ps| => ps[k].widget)
  }

  lemma SameWidgetsSameMins(a: seq<Pane>, b: seq<Pane>)
    requires WidgetsOf(a) == WidgetsOf(b)
    ensures MinsOf(a) == MinsOf(b) && MinHeightsOf(a) == MinHeightsOf(b)
  {
    assert |a| == |WidgetsOf(a)| == |b|;
    forall k | 0 <= k < |a|
      ensures a[k].widget == b[k].widget
    {
      assert WidgetsOf(a)[k] == WidgetsOf(b)[k];
    }
  }

  /** The number of dividers for n panes: one per gap. */
  function Gaps(n: nat): nat
  {
    if n == 0 then 0 else n - 1
  }

  /** Where `insertWidget` puts the new pane: `splice` clamps the index to
      the length. */
  function SpliceAt(n: nat, index: nat): (at: nat)
    ensures at <= n && (index <= n ==> at == index)
  {
    if index <= n then index else n
  }

  /** The new divider list of `moveDivider(i, t)`: divider i at the scaled
      and clipped position, its share of the width and its left style. */
  function Moved(ds: seq<Divider>, mins: seq<Option<real>>, W: real, i: nat, t: real): (r: seq<Divider>)
    requires i < |ds| && |mins| == |ds| + 1 && W > 0.0
    ensures TsOf(r) == MoveT(TsOf(ds), mins, W, i, t)
    ensures r[i].tInPerc * W == r[i].t
    ensures forall k | 0 <= k < |ds| && k != i :: r[k] == ds[k]
  {
    var t' := ClipT(TsOf(ds), mins, i, W, Scale(t, W));
    ds[i := Divider(t', t' / W, Some(t' - W2))]
  }

  /** `setOwnMinSize`: 50 pixels plus each pane's reserve. */
  method OwnMinSize(ps: seq<Pane>) returns (w: real, h: real)
    ensures w == 50.0 + ReserveSum(MinsOf(ps), |ps|)
    ensures h == 50.0 + ReserveSum(MinHeightsOf(ps), |ps|)
  {
    w, h := 50.0, 50.0;
    var i := 0;
    while i < |ps|
      invariant 0 <= i <= |ps|
      invariant w == 50.0 + ReserveSum(MinsOf(ps), i)
      invariant h == 50.0 + ReserveSum(MinHeightsOf(ps), i)
    {
      w := w + Reserve(ps[i].widget.minWidth);
      h := h + Reserve(ps[i].widget.minHeight);
      i := i + 1;
    }
  }

  /** The first loop of `insertWidget`: the target of every divider, each
      gap's width (an equal share for the gap before the new pane, the old
      width scaled down for the others) added to the previous target. */
  method InsertionTargets(ts: seq<real>, index: nat, W: real) returns (newTs: seq<real>)
    requires W > 0.0
    ensures newTs == InsertTargets(ts, index, W)
  {
    var needSize := W / (|ts| + 1) as real;
    var sizeLeft := W - needSize;
    newTs := [];
    var i := 0;
    while i < |ts|
      invariant 0 <= i <= |ts|
      invariant newTs == Targets(ts, index, W, i)
    {
      var gap: real;
      if i != index - 1 {
        var tPrev := if i > 0 then ts[i - 1] else 0.0;
        var curSize := ts[i] - tPrev;
        GapScaled(ts, index, W, i);
        gap := curSize * sizeLeft / W;
        assert gap == Gap(ts, index, W, i);
      } else {
        gap := needSize;
        assert gap == Gap(ts, index, W, i);
      }
      newTs := newTs + [gap + (if i > 0 then newTs[i - 1] else 0.0)];
      i := i + 1;
    }
  }

  /** Moving divider i leaves the dividers before it where they were. */
  lemma {:induction false} SweepSettles(ts: seq<real>, mins: seq<Option<real>>, W: real, targets: seq<real>, m: nat, n: nat)
    requires m <= n <= |ts| == |targets| && |mins| == |ts| + 1
    ensures forall k | 0 <= k < m :: Sweep(ts, mins, W, targets, n)[k] == Sweep(ts, mins, W, targets, m)[k]
  {
    if m < n {
      SweepSettles(ts, mins, W, targets, m, n - 1);
    }
  }

  /** The panes tile the splitter: pane k runs from Begin to End of the
      divider positions. */
  ghost predicate Tiled(ps: seq<Pane>, ts: seq<real>, W: real)
    requires |ps| == |ts| + 1
  {
    && (forall k | 0 <= k <= |ts| :: ps[k].width == Some(PaneWidth(ts, W, k)))
    && (forall k | 1 <= k <= |ts| :: ps[k].left == Some(Begin(ts, k)))
  }

  /** The dividers after i steps of the `moveDivider` loop started from
      d0: the first i store their share of W, the rest are untouched. */
  ghost predicate DividersSwept(d0: seq<Divider>, ds: seq<Divider>, W: real, i: nat)
  {
    && W > 0.0 && |d0| == |ds| && i <= |ds|
    && (forall k | i <= k < |ds| :: ds[k] == d0[k])
    && (forall k | 0 <= k < i :: ds[k].tInPerc == ds[k].t / W && ds[k].left == Some(ds[k].t - W2))
  }

  /** The panes after i steps, for divider positions ts: every pane left
      of divider i (and the pane right of it, once a step is done) spans
      the gap between its dividers; the others are untouched. */
  ghost predicate PanesSwept(ps0: seq<Pane>, ps: seq<Pane>, ts: seq<real>, W: real, i: nat)
  {
    && |ps0| == |ps| == |ts| + 1 && i <= |ts|
    && (forall k | 0 <= k < |ps| && (k < i || 0 < k == i) :: ps[k].width == Some(PaneWidth(ts, W, k)))
    && (forall k | 1 <= k <= i :: ps[k].left == Some(Begin(ts, k)))
    && (forall k | 0 <= k < |ps| && (i < k || k == i == 0) :: ps[k] == ps0[k])
    && ps[0].left == ps0[0].left
  }

  /** Where the `moveDivider` loop stands after i steps, starting from
      panes ps0 and dividers d0. */
  ghost predicate SweptTo(ps0: seq<Pane>, d0: seq<Divider>, ps: seq<Pane>, ds: seq<Divider>, W: real, i: nat)
  {
    DividersSwept(d0, ds, W, i) && PanesSwept(ps0, ps, TsOf(ds), W, i)
  }

  lemma DividersStep(d0: seq<Divider>, ds: seq<Divider>, ds': seq<Divider>, mins: seq<Option<real>>,
                     W: real, i: nat, t: real)
    requires DividersSwept(d0, ds, W, i) && i < |ds| && |mins| == |ds| + 1
    requires ds' == Moved(ds, mins, W, i, t)
    ensures DividersSwept(d0, ds', W, i + 1)
  {
  }

  /** The pane widths `moveDivider(i, _)` writes. */
  function PanesAfterMove(ps: seq<Pane>, ts': seq<real>, W: real, i: nat): seq<Pane>
    requires i < |ts'| && |ps| == |ts'| + 1
  {
    ps[i := ps[i].(width := Some(PaneWidth(ts', W, i)))]
      [i + 1 := ps[i + 1].(left := Some(Begin(ts', i + 1)), width := Some(PaneWidth(ts', W, i + 1)))]
  }

  lemma PanesStep(ps0: seq<Pane>, ps: seq<Pane>, ts: seq<real>, ts': seq<real>, W: real, i: nat)
    requires PanesSwept(ps0, ps, ts, W, i) && i < |ts| == |ts'|
    requires forall k | 0 <= k < |ts| && k != i :: ts'[k] == ts[k]
    ensures PanesSwept(ps0, PanesAfterMove(ps, ts', W, i), ts', W, i + 1)
  {
    var ps' := PanesAfterMove(ps, ts', W, i);
    forall k | 0 <= k < i
      ensures ps'[k].width == Some(PaneWidth(ts', W, k))
    {
      assert PaneWidth(ts', W, k) == PaneWidth(ts, W, k);
    }
    forall k | 1 <= k <= i
      ensures ps'[k].left == Some(Begin(ts', k))
    {
      assert Begin(ts', k) == Begin(ts, k);
    }
  }

  lemma WidgetsStep(ps: seq<Pane>, ts': seq<real>, W: real, i: nat)
    requires i < |ts'| && |ps| == |ts'| + 1
    ensures WidgetsOf(PanesAfterMove(ps, ts', W, i)) == WidgetsOf(ps)
    ensures MinsOf(PanesAfterMove(ps, ts', W, i)) == MinsOf(ps)
  {
    var ps' := PanesAfterMove(ps, ts', W, i);
    forall k | 0 <= k < |ps|
      ensures ps'[k].widget == ps[k].widget
    {
    }
    assert WidgetsOf(ps') == WidgetsOf(ps);
    SameWidgetsSameMins(ps', ps);
  }

  /** One `moveDivider(i, t)` advances the loop by a step. */
  lemma SweepStep(ps0: seq<Pane>, d0: seq<Divider>, ps: seq<Pane>, ds: seq<Divider>,
                  ps': seq<Pane>, ds': seq<Divider>, W: real, i: nat, t: real)
    requires SweptTo(ps0, d0, ps, ds, W, i) && i < |ds|
    requires ds' == Moved(ds, MinsOf(ps), W, i, t)
    requires ps' == PanesAfterMove(ps, TsOf(ds'), W, i)
    ensures SweptTo(ps0, d0, ps', ds', W, i + 1)
    ensures WidgetsOf(ps') == WidgetsOf(ps) && MinsOf(ps') == MinsOf(ps)
  {
    DividersStep(d0, ds, ds', MinsOf(ps), W, i, t);
    PanesStep(ps0, ps, TsOf(ds), TsOf(ds'), W, i);
    WidgetsStep(ps, TsOf(ds'), W, i);
  }

  /** Everything the `moveDivider` loop keeps after i of its steps
      towards `targets`, starting from panes ps0 and dividers d0. */
  ghost predicate Progress(ps0: seq<Pane>, d0: seq<Divider>, targets: seq<real>,
                           ps: seq<Pane>, ds: seq<Divider>, W: real, i: nat)
  {
    && |d0| > 0 && |targets| == |d0| && |ps0| == |d0| + 1
    && SweptTo(ps0, d0, ps, ds, W, i)
    && MinsOf(ps) == MinsOf(ps0) && WidgetsOf(ps) == WidgetsOf(ps0)
    && TsOf(ds) == Sweep(TsOf(d0), MinsOf(ps0), W, targets, i)
  }

  lemma ProgressStart(ps0: seq<Pane>, d0: seq<Divider>, targets: seq<real>, W: real)
    requires |d0| > 0 && |targets| == |d0| && |ps0| == |d0| + 1 && W > 0.0
    ensures Progress(ps0, d0, targets, ps0, d0, W, 0)
  {
  }

  lemma ProgressStep(ps0: seq<Pane>, d0: seq<Divider>, targets: seq<real>,
                     ps: seq<Pane>, ds: seq<Divider>, ps': seq<Pane>, ds': seq<Divider>, W: real, i: nat)
    requires Progress(ps0, d0, targets, ps, ds, W, i) && i < |ds|
    requires ds' == Moved(ds, MinsOf(ps), W, i, targets[i])
    requires ps' == PanesAfterMove(ps, TsOf(ds'), W, i)
    ensures Progress(ps0, d0, targets, ps', ds', W, i + 1)
  {
    SweepStep(ps0, d0, ps, ds, ps', ds', W, i, targets[i]);
  }

  /** At the end of the loop the dividers are where the sweep puts them,
      every one stores its share and the panes tile the splitter. */
  lemma ProgressDone(ps0: seq<Pane>, d0: seq<Divider>, targets: seq<real>, ps: seq<Pane>, ds: seq<Divider>, W: real, i: nat)
    requires Progress(ps0, d0, targets, ps, ds, W, i) && i == |ds|
    ensures |ps| == |ds| + 1 && Tiled(ps, TsOf(ds), W) && ps[0].left == ps0[0].left
    ensures TsOf(ds) == Sweep(TsOf(d0), MinsOf(ps0), W, targets, |targets|)
    ensures forall k | 0 <= k < |ds| :: ds[k].tInPerc == ds[k].t / W && ds[k].left == Some(ds[k].t - W2)
    ensures WidgetsOf(ps) == WidgetsOf(ps0)
  {
  }

  class HSplit {
    /** The child elements, in order (`widgets`). */
    var panes: seq<Pane>
    /** The dividers, in the order they were created (`dividers`). */
    var dividers: seq<Divider>
    /** The ghost's `left` style and whether it is visible. */
    var ghostLeft: Option<real>
    var ghostVisible: bool
    /** `ghost.isdragging`: 0 when idle, k + 1 while divider k is dragged. */
    var dragging: nat
    /** The `minWidth` and `minHeight` styles `setOwnMinSize` writes. */
    var ownMinWidth: Option<real>
    var ownMinHeight: Option<real>

    /** One divider per gap between panes, and a dragged divider exists. */
    ghost predicate Valid()
      reads this
    {
      |dividers| == Gaps(|panes|) && dragging <= |dividers|
    }

    constructor()
      ensures panes == [] && dividers == []
      ensures ghostLeft == None && !ghostVisible && dragging == 0
      ensures ownMinWidth == None && ownMinHeight == None
      ensures Valid()
    {
      panes, dividers := [], [];
      ghostLeft, ghostVisible, dragging := None, false, 0;
      ownMinWidth, ownMinHeight := None, None;
    }

    /** `moveDivider(i, t)` on a splitter `W` pixels wide: divider i goes to
        t (read as a share of W when below 1), clipped; the ghost follows
        it; the pane to its left ends and the pane to its right starts at
        the divider. */
    method MoveDivider(i: nat, t: real, W: real)
      requires Valid() && i < |dividers| && W > 0.0
      modifies this
      ensures Valid() && |panes| == |old(panes)| && |dividers| == |old(dividers)|
      ensures dividers == Moved(old(dividers), MinsOf(old(panes)), W, i, t)
      ensures ghostLeft == Some(dividers[i].t - W2)
      ensures panes == PanesAfterMove(old(panes), TsOf(dividers), W, i)
      ensures ghostVisible == old(ghostVisible) && dragging == old(dragging)
      ensures ownMinWidth == old(ownMinWidth) && ownMinHeight == old(ownMinHeight)
    {
      ghost var t0 := t;
      var ts := TsOf(dividers);
      var t := t;
      if t < 1.0 {
        t := t * W;
      }
      assert t == Scale(t0, W);
      t := ClipT(ts, MinsOf(panes), i, W, t);
      dividers := dividers[i := Divider(t, t / W, Some(t - W2))];
      assert dividers == Moved(old(dividers), MinsOf(panes), W, i, t0);
      ghostLeft := Some(t - W2);
      ghost var ts' := TsOf(dividers);
      var begin := if i == 0 then 0.0 else dividers[i - 1].t + W2;
      var end := if i + 1 >= |dividers| then W else dividers[i + 1].t - W2;
      assert begin == Begin(ts', i) && t + W2 == Begin(ts', i + 1);
      assert t - W2 == End(ts', W, i) && end == End(ts', W, i + 1);
      panes := panes[i := panes[i].(width := Some(t - begin - W2))];
      panes := panes[i + 1 := panes[i + 1].(left := Some(t + W2), width := Some(end - t - W2))];
    }

    /** `moveDivider(k, targets[k])` for every divider in turn: the loop of
        `insertWidget` and of `onResize`. The dividers end where the sweep
        puts them, each storing its share of W, and the panes tile the
        splitter between them. */
    method MoveDividers(targets: seq<real>, W: real)
      requires Valid() && |targets| == |dividers| && W > 0.0
      modifies this
      ensures Valid() && |panes| == |old(panes)| && |dividers| == |old(dividers)|
      ensures |dividers| > 0 ==> TsOf(dividers) == Sweep(TsOf(old(dividers)), MinsOf(old(panes)), W, targets, |targets|)
      ensures forall k | 0 <= k < |dividers| ::
        dividers[k].tInPerc == dividers[k].t / W && dividers[k].left == Some(dividers[k].t - W2)
      ensures WidgetsOf(panes) == WidgetsOf(old(panes))
      ensures |dividers| == 0 ==> panes == old(panes) && ghostLeft == old(ghostLeft)
      ensures |dividers| > 0 ==> Tiled(panes, TsOf(dividers), W) && panes[0].left == old(panes)[0].left
      ensures |dividers| > 0 ==> ghostLeft == Some(dividers[|dividers| - 1].t - W2)
      ensures ghostVisible == old(ghostVisible) && dragging == old(dragging)
      ensures ownMinWidth == old(ownMinWidth) && ownMinHeight == old(ownMinHeight)
    {
      if |dividers| == 0 {
        return;
      }
      ghost var ps0 := panes;
      ghost var d0 := dividers;
      ProgressStart(ps0, d0, targets, W);
      SweepAll(ps0, d0, targets, W);
      ProgressDone(ps0, d0, targets, panes, dividers, W, |dividers|);
    }

    /** The `moveDivider` loop itself. */
    method SweepAll(ghost ps0: seq<Pane>, ghost d0: seq<Divider>, targets: seq<real>, W: real)
      requires Valid() && 0 < |dividers| && W > 0.0
      requires Progress(ps0, d0, targets, panes, dividers, W, 0)
      modifies this
      ensures Valid() && |panes| == |old(panes)| && |dividers| == |old(dividers)|
      ensures Progress(ps0, d0, targets, panes, dividers, W, |dividers|)
      ensures ghostLeft == Some(dividers[|dividers| - 1].t - W2)
      ensures ghostVisible == old(ghostVisible) && dragging == old(dragging)
      ensures ownMinWidth == old(ownMinWidth) && ownMinHeight == old(ownMinHeight)
    {
      var i := 0;
      while i < |dividers|
        invariant Valid() && |dividers| == |d0| && 0 <= i <= |dividers| && |panes| == |ps0|
        invariant Progress(ps0, d0, targets, panes, dividers, W, i)
        invariant i > 0 ==> ghostLeft == Some(dividers[i - 1].t - W2)
        invariant ghostVisible == old(ghostVisible) && dragging == old(dragging)
        invariant ownMinWidth == old(ownMinWidth) && ownMinHeight == old(ownMinHeight)
      {
        SweepOne(ps0, d0, targets, i, W);
        i := i + 1;
      }
    }

    /** One turn of the `moveDivider` loop: divider i goes to targets[i]. */
    method SweepOne(ghost ps0: seq<Pane>, ghost d0: seq<Divider>, targets: seq<real>, i: nat, W: real)
      requires Valid() && i < |dividers| && W > 0.0
      requires Progress(ps0, d0, targets, panes, dividers, W, i)
      modifies this
      ensures Valid() && |panes| == |old(panes)| && |dividers| == |old(dividers)|
      ensures Progress(ps0, d0, targets, panes, dividers, W, i + 1)
      ensures ghostLeft == Some(dividers[i].t - W2)
      ensures ghostVisible == old(ghostVisible) && dragging == old(dragging)
      ensures ownMinWidth == old(ownMinWidth) && ownMinHeight == old(ownMinHeight)
    {
      ghost var ps := panes;
      ghost var ds := dividers;
      MoveDivider(i, targets[i], W);
      ProgressStep(ps0, d0, targets, ps, ds, panes, dividers, W, i);
    }

    /** `setOwnMinSize`. */
    method SetOwnMinSize()
      modifies this
      ensures ownMinWidth == Some(50.0 + ReserveSum(MinsOf(panes), |panes|))
      ensures ownMinHeight == Some(50.0 + ReserveSum(MinHeightsOf(panes), |panes|))
      ensures panes == old(panes) && dividers == old(dividers) && ghostLeft == old(ghostLeft)
      ensures ghostVisible == old(ghostVisible) && dragging == old(dragging)
    {
      var w, h := OwnMinSize(panes);
      ownMinWidth, ownMinHeight := Some(w), Some(h);
    }

    /** The second half of `insertWidget`, once the child is spliced in
        and there are two panes or more: push a divider at the right edge,
        compute every divider's target and sweep the dividers there. */
    method AddDivider(index: nat, W: real)
      requires |panes| >= 2 && |panes| == |dividers| + 2 && dragging <= |dividers| && W > 0.0
      modifies this
      ensures Valid() && |panes| == |old(panes)| && |dividers| == |old(dividers)| + 1
      ensures WidgetsOf(panes) == WidgetsOf(old(panes))
      ensures var ts1 := TsOf(old(dividers)) + [W];
        TsOf(dividers) == Sweep(ts1, MinsOf(old(panes)), W, InsertTargets(ts1, index, W), |ts1|)
      ensures Tiled(panes, TsOf(dividers), W) && panes[0].left == old(panes)[0].left
      ensures forall k | 0 <= k < |dividers| ::
        dividers[k].tInPerc == dividers[k].t / W && dividers[k].left == Some(dividers[k].t - W2)
      ensures ghostLeft == Some(dividers[|dividers| - 1].t - W2)
      ensures ghostVisible == old(ghostVisible) && dragging == old(dragging)
      ensures ownMinWidth == old(ownMinWidth) && ownMinHeight == old(ownMinHeight)
    {
      ghost var ts1 := TsOf(dividers) + [W];
      dividers := dividers + [Divider(W, 1.0, None)];
      assert TsOf(dividers) == ts1;
      var newTs := InsertionTargets(TsOf(dividers), index, W);
      MoveDividers(newTs, W);
    }

    /** The splice that opens `insertWidget`: a fresh pane holding the
        child goes in at index, clamped to the end. */
    method SpliceIn(child: Widget, index: nat)
      requires Valid()
      modifies this
      ensures var at := SpliceAt(|old(panes)|, index);
        && panes == old(panes)[..at] + [Pane(child, None, None)] + old(panes)[at..]
        && WidgetsOf(panes) == WidgetsOf(old(panes))[..at] + [child] + WidgetsOf(old(panes))[at..]
        && panes[0].left == (if at > 0 then old(panes)[0].left else None)
      ensures dividers == old(dividers) && ghostLeft == old(ghostLeft)
      ensures ghostVisible == old(ghostVisible) && dragging == old(dragging)
      ensures ownMinWidth == old(ownMinWidth) && ownMinHeight == old(ownMinHeight)
    {
      var at := SpliceAt(|panes|, index);
      ghost var ws0 := WidgetsOf(panes);
      panes := panes[..at] + [Pane(child, None, None)] + panes[at..];
      assert WidgetsOf(panes) == ws0[..at] + [child] + ws0[at..];
    }

    /** `insertWidget(child, index)` on a splitter W pixels wide: the child
        is spliced in at index (clamped); once there are two panes a
        divider is pushed at the right edge and every divider is swept to
        its insertion target; then the own minimum size is recomputed. */
    method InsertWidget(child: Widget, index: nat, W: real)
      requires Valid() && W > 0.0
      modifies this
      ensures Valid() && |panes| == |old(panes)| + 1
      ensures |panes| >= 2 ==> |dividers| == |old(dividers)| + 1
      ensures var at := SpliceAt(|old(panes)|, index);
        WidgetsOf(panes) == WidgetsOf(old(panes))[..at] + [child] + WidgetsOf(old(panes))[at..]
      ensures |panes| < 2 ==> panes == old(panes) + [Pane(child, None, None)] && dividers == old(dividers)
      ensures |panes| >= 2 ==>
        var ts1 := TsOf(old(dividers)) + [W];
        && TsOf(dividers) == Sweep(ts1, MinsOf(panes), W, InsertTargets(ts1, index, W), |ts1|)
        && Tiled(panes, TsOf(dividers), W)
        && (forall k | 0 <= k < |dividers| ::
              dividers[k].tInPerc == dividers[k].t / W && dividers[k].left == Some(dividers[k].t - W2))
        && ghostLeft == Some(dividers[|dividers| - 1].t - W2)
      ensures |panes| < 2 ==> ghostLeft == old(ghostLeft)
      ensures |panes| >= 2 && SpliceAt(|old(panes)|, index) > 0 ==> panes[0].left == old(panes)[0].left
      ensures |panes| >= 2 && SpliceAt(|old(panes)|, index) == 0 ==> panes[0].left == None
      ensures ownMinWidth == Some(50.0 + ReserveSum(MinsOf(panes), |panes|))
      ensures ownMinHeight == Some(50.0 + ReserveSum(MinHeightsOf(panes), |panes|))
      ensures ghostVisible == old(ghostVisible) && dragging == old(dragging)
    {
      SpliceIn(child, index);
      if |panes| >= 2 {
        ghost var ps := panes;
        AddDivider(index, W);
        SameWidgetsSameMins(panes, ps);
      } else {
        assert panes == old(panes) + [Pane(child, None, None)];
      }
      SetOwnMinSize();
    }

    /** `appendWidget(child)`: insert at the end. */
    method AppendWidget(child: Widget, W: real)
      requires Valid() && W > 0.0
      modifies this
      ensures Valid() && |panes| == |old(panes)| + 1
      ensures |panes| >= 2 ==> |dividers| == |old(dividers)| + 1
      ensures WidgetsOf(panes) == WidgetsOf(old(panes)) + [child]
      ensures |panes| >= 2 ==>
        var ts1 := TsOf(old(dividers)) + [W];
        && TsOf(dividers) == Sweep(ts1, MinsOf(panes), W, InsertTargets(ts1, |ts1|, W), |ts1|)
        && Tiled(panes, TsOf(dividers), W)
        && (forall k | 0 <= k < |dividers| ::
              dividers[k].tInPerc == dividers[k].t / W && dividers[k].left == Some(dividers[k].t - W2))
        && ghostLeft == Some(dividers[|dividers| - 1].t - W2)
        && panes[0].left == old(panes)[0].left
      ensures |panes| < 2 ==>
        panes == old(panes) + [Pane(child, None, None)] && dividers == old(dividers) && ghostLeft == old(ghostLeft)
      ensures ownMinWidth == Some(50.0 + ReserveSum(MinsOf(panes), |panes|))
      ensures ownMinHeight == Some(50.0 + ReserveSum(MinHeightsOf(panes), |panes|))
      ensures ghostVisible == old(ghostVisible) && dragging == old(dragging)
    {
      ghost var ws0 := WidgetsOf(panes);
      InsertWidget(child, |panes|, W);
      assert ws0[..|ws0|] == ws0;
    }

    /** `onResize` for the new client width W: every divider goes back to
        its stored share of the width. */
    method OnResize(W: real)
      requires Valid() && W > 0.0
      modifies this
      ensures Valid()
      ensures WidgetsOf(panes) == WidgetsOf(old(panes)) && |dividers| == |old(dividers)|
      ensures |dividers| > 0 ==>
        TsOf(dividers) == Sweep(TsOf(old(dividers)), MinsOf(old(panes)), W, FractionsOf(old(dividers)), |dividers|)
      ensures forall k | 0 <= k < |dividers| ::
        dividers[k].tInPerc == dividers[k].t / W && dividers[k].left == Some(dividers[k].t - W2)
      ensures |dividers| == 0 ==> panes == old(panes) && ghostLeft == old(ghostLeft)
      ensures |dividers| > 0 ==> Tiled(panes, TsOf(dividers), W) && panes[0].left == old(panes)[0].left
      ensures |dividers| > 0 ==> ghostLeft == Some(dividers[|dividers| - 1].t - W2)
      ensures ghostVisible == old(ghostVisible) && dragging == old(dragging)
      ensures ownMinWidth == old(ownMinWidth) && ownMinHeight == old(ownMinHeight)
    {
      MoveDividers(FractionsOf(dividers), W);
    }

    /** `onMouseDown` on divider k: start dragging it, move it under the
        mouse and show the ghost. */
    method MouseDown(k: nat, clientX: real, offsetLeft: real, W: real)
      requires Valid() && k < |dividers| && W > 0.0
      modifies this
      ensures Valid() && |panes| == |old(panes)| && |dividers| == |old(dividers)|
      ensures dragging == k + 1 && ghostVisible
      ensures dividers == Moved(old(dividers), MinsOf(old(panes)), W, k, clientX - offsetLeft)
      ensures ghostLeft == Some(dividers[k].t - W2)
      ensures panes == PanesAfterMove(old(panes), TsOf(dividers), W, k)
      ensures WidgetsOf(panes) == WidgetsOf(old(panes))
      ensures ownMinWidth == old(ownMinWidth) && ownMinHeight == old(ownMinHeight)
    {
      dragging := k + 1;
      MoveDivider(k, clientX - offsetLeft, W);
      ghostVisible := true;
    }

    /** `onMouseMove`: while dragging, the ghost follows the mouse, clipped
        like the divider it stands for. */
    method MouseMove(clientX: real, offsetLeft: real, W: real)
      requires Valid()
      modifies this
      ensures Valid()
      ensures panes == old(panes) && dividers == old(dividers) && dragging == old(dragging)
      ensures ghostVisible == old(ghostVisible)
      ensures ownMinWidth == old(ownMinWidth) && ownMinHeight == old(ownMinHeight)
      ensures dragging > 0 ==>
        ghostLeft == Some(ClipT(TsOf(dividers), MinsOf(panes), dragging - 1, W, clientX - offsetLeft - W2))
      ensures dragging == 0 ==> ghostLeft == old(ghostLeft)
    {
      if dragging > 0 {
        var i := dragging - 1;
        ghostLeft := Some(ClipT(TsOf(dividers), MinsOf(panes), i, W, clientX - offsetLeft - W2));
      }
    }

    /** `onMouseUp`: a drag ends; the ghost is hidden and the dragged
        divider moves to the clipped mouse position. */
    method MouseUp(clientX: real, offsetLeft: real, W: real)
      requires Valid() && W > 0.0
      modifies this
      ensures Valid() && |panes| == |old(panes)| && |dividers| == |old(dividers)|
      ensures dragging == 0
      ensures old(dragging) > 0 ==>
        var i := old(dragging) - 1;
        var mins := MinsOf(old(panes));
        && !ghostVisible
        && dividers == Moved(old(dividers), mins, W, i, ClipT(TsOf(old(dividers)), mins, i, W, clientX - offsetLeft))
        && ghostLeft == Some(dividers[i].t - W2)
        && panes == PanesAfterMove(old(panes), TsOf(dividers), W, i)
      ensures old(dragging) == 0 ==>
        && panes == old(panes) && dividers == old(dividers)
        && ghostVisible == old(ghostVisible) && ghostLeft == old(ghostLeft)
      ensures WidgetsOf(panes) == WidgetsOf(old(panes))
      ensures ownMinWidth == old(ownMinWidth) && ownMinHeight == old(ownMinHeight)
    {
      if dragging > 0 {
        var i := dragging - 1;
        dragging := 0;
        ghostVisible := false;
        MoveDivider(i, ClipT(TsOf(dividers), MinsOf(panes), i, W, clientX - offsetLeft), W);
      }
    }
  }
}
