/** The table-based containers of flexx/html/layouts.js (TableHBox,
    TableVBox, Form and Grid) as objects: a table whose rows the insertion,
    layout and resize handlers update in place. Each method is proved
    against the specification function of its module. */
module Tables {
  import opened Widgets
  import opened TableModel
  import opened Flexes
  import opened CellPolicies
  import opened TableLayout
  import opened TableInsert
  import opened SizeAdapt

  /** The inner loop of the layout pass: the policy call for every
      occupied cell among the first `ncols` of row `r`, in column order. */
  method LayOutCells(kind: Kind, r: Row, ncols: nat, vflex: real, hflexes: seq<Option<real>>,
                     cumV: real, cumH: real) returns (r': Row)
    requires AnyOccupied(r, Cols(r, ncols)) ==> cumV > 0.0 && cumH > 0.0
    ensures r' == LayoutCells(kind, r, Cols(r, ncols), vflex, hflexes, cumV, cumH)
  {
    r' := r;
    var j := 0;
    while j < ncols
      invariant 0 <= j <= ncols
      invariant r' == LayoutCells(kind, r, if j < |r.cells| then j else |r.cells|, vflex, hflexes, cumV, cumH)
    {
      if j < |r'.cells| && Occupied(r'.cells[j]) {
        assert Occupied(r.cells[j]) && AnyOccupied(r, Cols(r, ncols));
        r' := ApplyPolicy(kind, r', j, vflex, FlexOr0(Get(hflexes, j)), cumV, cumH);
      }
      j := j + 1;
    }
  }

  /** The second loop of the resize handler: the height the fixed rows
      leave over and the sum of the row flexes. */
  method MeasureRows(rows: seq<Row>, clientHeight: real, heights: seq<real>) returns (remaining: real, cum: real)
    requires |heights| == |rows|
    ensures remaining == clientHeight - FixedHeight(rows, heights)
    ensures cum == CumVflex(rows)
  {
    remaining := clientHeight;
    cum := 0.0;
    var i := 0;
    while i < |rows|
      invariant 0 <= i <= |rows|
      invariant remaining == clientHeight - FixedHeight(rows[..i], heights[..i])
      invariant cum == CumVflex(rows[..i])
    {
      assert rows[..i + 1][..i] == rows[..i] && heights[..i + 1][..i] == heights[..i];
      cum := cum + rows[i].vflex;
      if rows[i].vflex == 0.0 && |rows[i].cells| > 0 {
        remaining := remaining - heights[i];
      }
      i := i + 1;
    }
    assert rows[..i] == rows && heights[..i] == heights;
  }

  /** The third loop of the resize handler: each flexible row's height
      becomes its share of `pct`, rounded, plus one percent. */
  method SetFlexHeights(rows: seq<Row>, cum: real, pct: real) returns (r: seq<Row>)
    requires AnyFlex(rows) ==> cum > 0.0
    ensures r == AdaptRows(rows, cum, pct)
  {
    r := rows;
    var i := 0;
    while i < |r|
      invariant 0 <= i <= |r| == |rows|
      invariant forall k | 0 <= k < |rows| :: r[k] == if k < i then AdaptRows(rows, cum, pct)[k] else rows[k]
    {
      if r[i].vflex > 0.0 {
        assert AnyFlex(rows) by { assert rows[i].vflex > 0.0; }
        r := r[i := r[i].(height := Some(Percent(FlexHeight(r[i].vflex, cum, pct))))];
      }
      i := i + 1;
    }
  }

  /** Heights written on flexible rows before the third loop do not matter:
      that loop overwrites them. */
  lemma AdaptOverwritesHeights(r0: seq<Row>, r1: seq<Row>, cum: real, pct: real)
    requires |r1| == |r0|
    requires forall k | 0 <= k < |r0| ::
      r1[k] == r0[k] || (r0[k].vflex > 0.0 && r1[k] == r0[k].(height := Some(Percent(100.0))))
    requires AnyFlex(r0) ==> cum > 0.0
    ensures AnyFlex(r1) ==> cum > 0.0
    ensures AdaptRows(r1, cum, pct) == AdaptRows(r0, cum, pct)
  {
    if AnyFlex(r1) {
      var k :| 0 <= k < |r1| && r1[k].vflex > 0.0;
      assert r0[k].vflex > 0.0;
    }
  }

  /** FormShape speaks only of the cells and their widgets. */
  lemma FormShapeOfSameTree(a: seq<Row>, b: seq<Row>)
    requires SameTree(a, b) && FormShape(b)
    ensures FormShape(a)
  {
    forall i, k | 0 <= i < |a| && 0 <= k < |a[i].cells|
      ensures |a[i].cells[k].widgets| == 1 && a[i].cells[k].widgets[0].hflex == Some(k as real)
    {
      assert a[i].cells[k].widgets == b[i].cells[k].widgets;
    }
  }

  /** The second loop of Grid `appendWidget`: append empty cells until
      cell j exists. */
  method GrowCells(cells: seq<Cell>, j: nat) returns (c: seq<Cell>)
    ensures c == PadCells(cells, j + 1)
  {
    c := cells;
    while j >= |c|
      invariant |cells| <= |c| <= (if |cells| > j then |cells| else j + 1)
      invariant c == cells + EmptyCells(|c| - |cells|)
      decreases j + 1 - |c|
    {
      c := c + [NewCell([])];
    }
  }

  class Table {
    /** Which of the four containers this is. */
    const kind: Kind
    /** The `tr` children of the `table` element. */
    var rows: seq<Row>

    /** What every method keeps: no negative cached flex, the TableHBox's
        single row, the row that Form and Grid create up front, and the
        label/field pairs of a Form. */
    ghost predicate Valid()
      reads this
    {
      && NonNegFlexes(rows)
      && (kind == TableHBox ==> |rows| == 1)
      && (kind == Grid ==> |rows| >= 1)
      && (kind == Form ==> FormShape(rows))
    }

    /** A new container: a TableVBox starts without rows, the other three
        with one empty row. */
    constructor(kind: Kind)
      ensures this.kind == kind
      ensures rows == if kind == TableVBox then [] else [EmptyRow]
      ensures Valid()
    {
      this.kind := kind;
      rows := if kind == TableVBox then [] else [EmptyRow];
    }

    /** `appendWidget`: the container's insertion rule. */
    method AppendWidget(child: Widget)
      requires Valid()
      modifies this
      ensures rows == Appended(kind, old(rows), child)
      ensures Valid()
    {
      match kind
      case TableHBox =>
        rows := rows[0 := rows[0].(cells := rows[0].cells + [NewCell([child])])];
      case TableVBox =>
        rows := rows + [Row([NewCell([child])], 0.0, None)];
      case Form =>
        FormAppendKeepsShape(rows, child);
        ghost var r0 := rows;
        if |rows[|rows| - 1].cells| >= 2 {
          rows := rows + [EmptyRow];
        }
        var row := rows[|rows| - 1];
        var placed := child.(hflex := Some(if |row.cells| + 1 == 1 then 0.0 else 1.0));
        rows := rows[|rows| - 1 := row.(cells := row.cells + [NewCell([placed])])];
        if |r0[|r0| - 1].cells| >= 2 {
          assert row == EmptyRow && row.cells + [NewCell([placed])] == [NewCell([placed])];
          assert rows == r0 + [Row([NewCell([child.(hflex := Some(0.0))])], 0.0, None)];
        } else {
          assert row == r0[|r0| - 1];
        }
      case Grid =>
        AppendToGrid(child);
    }

    /** Grid `appendWidget`: append rows, then cells, until cell
        (pos.y, pos.x) exists, then append the child to it. */
    method AppendToGrid(child: Widget)
      requires Valid() && kind == Grid
      modifies this
      ensures rows == GridAppended(old(rows), child)
      ensures Valid()
    {
      var i, j := child.pos.y, child.pos.x;
      ghost var r0 := rows;
      GrowRows(i);
      var row := rows[i];
      var cells := GrowCells(row.cells, j);
      cells := cells[j := cells[j].(widgets := cells[j].widgets + [child])];
      rows := rows[i := row.(cells := cells)];
      GridAppendPlacesChild(r0, child);
    }

    /** The first loop of Grid `appendWidget`: append empty rows until
        row i exists. */
    method GrowRows(i: nat)
      requires Valid() && kind == Grid
      modifies this
      ensures rows == PadRows(old(rows), i + 1)
      ensures Valid()
    {
      ghost var r0 := rows;
      while i >= |rows|
        invariant |r0| <= |rows| <= (if |r0| > i then |r0| else i + 1)
        invariant rows == r0 + EmptyRows(|rows| - |r0|)
        decreases i + 1 - |rows|
      {
        rows := rows + [EmptyRow];
      }
    }

    /** `zoof.applyTableLayout`: collect the flexes, fall back to AUTOFLEX
        on an axis nobody flexed, cache each row's flex and let the
        container's policy style every occupied cell. */
    method ApplyTableLayout()
      requires Valid()
      modifies this
      ensures rows == LaidOutTable(kind, old(rows))
      ensures Valid()
    {
      ghost var r0 := rows;
      var ncols := Dims(rows);
      if |rows| == 0 || ncols == 0 {
        return;
      }
      var vflexes, hflexes := CollectFlexes(rows, ncols);
      var fv, cumV := FillAutoflex(vflexes);
      var fh, cumH := FillAutoflex(hflexes);
      ghost var ax := TableAxes(r0, ncols);
      assert ax == Axes(fv, fh, cumV, cumH);
      CumsPositive(r0, ncols);
      var i := 0;
      while i < |rows|
        invariant 0 <= i <= |rows| == |r0|
        invariant forall k | 0 <= k < |r0| ::
          rows[k] == if k < i then LaidOutRow(kind, r0[k], ncols, FlexOr0(Get(fv, k)), ax) else r0[k]
      {
        var vf := FlexOr0(Get(fv, i));
        var r := rows[i].(vflex := vf);
        assert Cols(r, ncols) == Cols(r0[i], ncols);
        r := LayOutCells(kind, r, ncols, vf, fh, cumV, cumH);
        rows := rows[i := r];
        i := i + 1;
      }
      assert rows == LaidOutTable(kind, r0);
      LayoutKeepsTree(kind, r0);
      forall k | 0 <= k < |rows|
        ensures rows[k].vflex >= 0.0
      {
        CachedRowFlexMeaning(kind, r0, k);
      }
      if kind == Form {
        FormShapeOfSameTree(rows, r0);
      }
    }

    /** `zoof.adaptLayoutToSizeChange` for a table `clientHeight` high
        whose row i's first cell is `heights[i]` high: on a height change,
        give every flexible row its share of the height the fixed rows
        leave over. Only TableVBox, Form and Grid install this handler;
        a TableHBox never runs it. */
    method AdaptToSizeChange(heightChanged: bool, clientHeight: real, heights: seq<real>)
      requires Valid() && kind != TableHBox && |heights| == |rows|
      requires heightChanged ==> clientHeight > 0.0
      modifies this
      ensures rows == if heightChanged then Adapted(old(rows), clientHeight, heights) else old(rows)
      ensures Valid()
    {
      if !heightChanged {
        return;
      }
      ghost var r0 := rows;
      // The first flexible row is stretched to 100% so that the fixed rows
      // shrink to their natural height before they are measured.
      var i := 0;
      while i < |rows|
        invariant 0 <= i <= |rows|
        invariant rows == r0
      {
        if rows[i].vflex > 0.0 {
          rows := rows[i := rows[i].(height := Some(Percent(100.0)))];
          break;
        }
        i := i + 1;
      }
      assert forall k | 0 <= k < |rows| ::
        rows[k] == r0[k] || (r0[k].vflex > 0.0 && rows[k] == r0[k].(height := Some(Percent(100.0))));
      // The height left over by the fixed rows, and the sum of the flexes.
      var remaining, cum := MeasureRows(rows, clientHeight, heights);
      SameFlexesSameSums(rows, r0, heights);
      CumVflexPositive(r0);
      assert remaining == clientHeight - FixedHeight(r0, heights) && cum == CumVflex(r0);
      var pct := 100.0 * remaining / clientHeight;
      assert pct == RemainingPercentage(r0, clientHeight, heights);
      // Each flexible row gets its share, rounded, plus one percent.
      AdaptOverwritesHeights(r0, rows, cum, pct);
      rows := SetFlexHeights(rows, cum, pct);
      assert rows == Adapted(r0, clientHeight, heights);
      AdaptKeepsFlexesAndTree(r0, clientHeight, heights);
      if kind == Form {
        FormShapeOfSameTree(rows, r0);
      }
    }
  }
}
