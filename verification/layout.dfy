/** What one run of `zoof.applyTableLayout` does to a table, as a
    function of the table's rows: the specification the `Table` class's
    pass is proved against, and the properties of that specification. */
module TableLayout {
  import opened Widgets
  import opened TableModel
  import opened Flexes
  import opened CellPolicies

  /** The value a style has after a write of `w` (None: no write). */
  function Written<T>(w: Option<T>, prev: Option<T>): Option<T>
  {
    if w.Some? then w else prev
  }

  /** A cell after a policy call has styled it. */
  function Styled(kind: Kind, c: Cell, vflex: real, hflex: real, cumV: real, cumH: real): Cell
    requires cumV > 0.0 && cumH > 0.0
  {
    var s := Policy(kind, vflex, hflex, cumV, cumH);
    c.(width := Written(s.colWidth, c.width), height := Written(s.colHeight, c.height),
       vflexClass := s.vflexClass, hflexClass := s.hflexClass)
  }

  /** Row r after the policy call for its cell j. */
  function ApplyPolicy(kind: Kind, r: Row, j: nat, vflex: real, hflex: real, cumV: real, cumH: real): Row
    requires j < |r.cells| && cumV > 0.0 && cumH > 0.0
  {
    var s := Policy(kind, vflex, hflex, cumV, cumH);
    r.(cells := r.cells[j := Styled(kind, r.cells[j], vflex, hflex, cumV, cumH)],
       height := Written(s.rowHeight, r.height),
       vflex := if s.rowVflex.Some? then s.rowVflex.value else r.vflex)
  }

  /** Whether one of the first n cells of a row is occupied. */
  predicate AnyOccupied(r: Row, n: nat)
  {
    exists k | 0 <= k < n && k < |r.cells| :: Occupied(r.cells[k])
  }

  /** Row r after the policy calls for its occupied cells among the first
      n, in column order. The tree is left alone, and so is a cached flex
      that already holds the row's flex. */
  function LayoutCells(kind: Kind, r: Row, n: nat, vflex: real, hflexes: seq<Option<real>>,
                       cumV: real, cumH: real): (r': Row)
    requires n <= |r.cells|
    requires AnyOccupied(r, n) ==> cumV > 0.0 && cumH > 0.0
    ensures |r'.cells| == |r.cells|
    ensures forall k | 0 <= k < |r.cells| :: r'.cells[k].widgets == r.cells[k].widgets
    ensures r.vflex == vflex ==> r'.vflex == vflex
    ensures kind == TableHBox ==> r'.height == r.height
  {
    if n == 0 then r
    else
      var p := LayoutCells(kind, r, n - 1, vflex, hflexes, cumV, cumH);
      if Occupied(r.cells[n - 1]) then ApplyPolicy(kind, p, n - 1, vflex, FlexOr0(Get(hflexes, n - 1)), cumV, cumH)
      else p
  }

  /** The outcome of the flex collection: both axes after the fallback,
      with their cumulative flexes. */
  datatype Axes = Axes(vflexes: seq<Option<real>>, hflexes: seq<Option<real>>, cumV: real, cumH: real)

  function TableAxes(rows: seq<Row>, ncols: nat): Axes
  {
    var v := Fallback(Trim(RowFlexes(rows, ncols)));
    var h := Fallback(Trim(ColFlexes(rows, ncols)));
    Axes(v.0, h.0, v.1, h.1)
  }

  /** A row after the pass: its cached flex is written, then its
      occupied cells are styled. */
  function LaidOutRow(kind: Kind, r: Row, ncols: nat, vflex: real, ax: Axes): Row
    requires AnyOccupied(r, Cols(r, ncols)) ==> ax.cumV > 0.0 && ax.cumH > 0.0
  {
    LayoutCells(kind, r.(vflex := vflex), Cols(r, ncols), vflex, ax.hflexes, ax.cumV, ax.cumH)
  }

  /** A row with an occupied cell makes both cumulative flexes positive. */
  lemma CumsPositive(rows: seq<Row>, ncols: nat)
    ensures forall i | 0 <= i < |rows| :: AnyOccupied(rows[i], Cols(rows[i], ncols)) ==>
              TableAxes(rows, ncols).cumV > 0.0 && TableAxes(rows, ncols).cumH > 0.0
  {
    forall i | 0 <= i < |rows| && AnyOccupied(rows[i], Cols(rows[i], ncols))
      ensures TableAxes(rows, ncols).cumV > 0.0 && TableAxes(rows, ncols).cumH > 0.0
    {
      var k :| 0 <= k < Cols(rows[i], ncols) && k < |rows[i].cells| && Occupied(rows[i].cells[k]);
      OccupiedMakesCumsPositive(rows, ncols, i, k);
    }
  }

  /** The table after one layout pass. */
  function LaidOutTable(kind: Kind, rows: seq<Row>): (r: seq<Row>)
    ensures |r| == |rows|
  {
    var ncols := MaxCells(rows);
    if |rows| == 0 || ncols == 0 then rows
    else
      var ax := TableAxes(rows, ncols);
      CumsPositive(rows, ncols);
      seq(|rows|, i requires 0 <= i < |rows| =>
        LaidOutRow(kind, rows[i], ncols, FlexOr0(Get(ax.vflexes, i)), ax))
  }

  /** With no rows, or no cells in any row, the pass changes nothing. */
  lemma LayoutOfEmptyTable(kind: Kind, rows: seq<Row>)
    requires forall i | 0 <= i < |rows| :: |rows[i].cells| == 0
    ensures LaidOutTable(kind, rows) == rows
  {
  }

  /** The pass only writes styles and cached flexes: the rows, the cells
      and the widgets stay as they were. */
  lemma LayoutKeepsTree(kind: Kind, rows: seq<Row>)
    ensures SameTree(LaidOutTable(kind, rows), rows)
  {
  }

  /** Each occupied cell ends styled by the policy with its row's and its
      column's entries and both cumulative flexes; every other cell of
      the first n is left as it was. */
  lemma {:induction false} LayoutCellsStyles(kind: Kind, r: Row, n: nat, vflex: real,
                                             hflexes: seq<Option<real>>, cumV: real, cumH: real, j: nat)
    requires n <= |r.cells| && j < |r.cells|
    requires AnyOccupied(r, n) ==> cumV > 0.0 && cumH > 0.0
    ensures var r' := LayoutCells(kind, r, n, vflex, hflexes, cumV, cumH);
      if j < n && Occupied(r.cells[j])
      then r'.cells[j] == Styled(kind, r.cells[j], vflex, FlexOr0(Get(hflexes, j)), cumV, cumH)
      else r'.cells[j] == r.cells[j]
  {
    if n > 0 {
      LayoutCellsStyles(kind, r, n - 1, vflex, hflexes, cumV, cumH, j);
    }
  }

  /** After the policy calls of a row with an occupied cell j, the row's
      height is the one the policy writes for that cell (every cell of a
      row writes the same row height). */
  lemma {:induction false} LayoutCellsRowHeight(kind: Kind, r: Row, n: nat, vflex: real,
                                                hflexes: seq<Option<real>>, cumV: real, cumH: real, j: nat)
    requires n <= |r.cells| && j < n && Occupied(r.cells[j])
    requires cumV > 0.0 && cumH > 0.0
    ensures LayoutCells(kind, r, n, vflex, hflexes, cumV, cumH).height
         == Written(Policy(kind, vflex, FlexOr0(Get(hflexes, j)), cumV, cumH).rowHeight, r.height)
  {
    var hj := FlexOr0(Get(hflexes, j));
    RowHeightIgnoresHflex(kind, vflex, hj, FlexOr0(Get(hflexes, n - 1)), cumV, cumH);
    if j < n - 1 {
      LayoutCellsRowHeight(kind, r, n - 1, vflex, hflexes, cumV, cumH, j);
    }
  }

  /** The flex each row caches: its entry after the fallback, 0 when that
      entry is a hole or past the array's end. */
  lemma CachedRowFlex(kind: Kind, rows: seq<Row>, i: nat)
    requires i < |rows| && MaxCells(rows) > 0
    ensures LaidOutTable(kind, rows)[i].vflex == FlexOr0(Get(TableAxes(rows, MaxCells(rows)).vflexes, i))
  {
  }

  /** What the cached flex means: when some row asked for vertical flex it
      is the row's largest vflex (0 for a row without an occupied cell);
      when none did it is AUTOFLEX up to the last row with an occupied
      cell, empty rows before it included, and 0 after it. It is never
      negative. */
  lemma CachedRowFlexMeaning(kind: Kind, rows: seq<Row>, i: nat)
    requires i < |rows| && MaxCells(rows) > 0
    ensures var rf := RowFlexes(rows, MaxCells(rows));
      LaidOutTable(kind, rows)[i].vflex
        == if SumDefined(rf) == 0.0 then (if i < |Trim(rf)| then AUTOFLEX else 0.0)
           else FlexOr0(rf[i])
    ensures LaidOutTable(kind, rows)[i].vflex >= 0.0
  {
    var ncols := MaxCells(rows);
    var rf := RowFlexes(rows, ncols);
    CachedRowFlex(kind, rows, i);
    SumOfTrim(rf);
    FlexesNonNeg(rows, ncols);
    FallbackProps(Trim(rf));
    if SumDefined(rf) != 0.0 && i < |Trim(rf)| {
      assert Trim(rf)[i] == rf[i];
    }
  }

  /** Every occupied cell is styled by the container's policy with the
      flexes of its row and column after the fallback and the two
      cumulative flexes; unoccupied cells are left as they were. */
  lemma LaidOutCell(kind: Kind, rows: seq<Row>, i: nat, j: nat)
    requires i < |rows| && j < |rows[i].cells|
    ensures var ax := TableAxes(rows, MaxCells(rows));
      && (Occupied(rows[i].cells[j]) ==> ax.cumV > 0.0 && ax.cumH > 0.0)
      && LaidOutTable(kind, rows)[i].cells[j]
         == if Occupied(rows[i].cells[j])
            then Styled(kind, rows[i].cells[j], FlexOr0(Get(ax.vflexes, i)), FlexOr0(Get(ax.hflexes, j)), ax.cumV, ax.cumH)
            else rows[i].cells[j]
  {
    var ncols := MaxCells(rows);
    var ax := TableAxes(rows, ncols);
    CumsPositive(rows, ncols);
    assert Cols(rows[i], ncols) == |rows[i].cells|;
    var vf := FlexOr0(Get(ax.vflexes, i));
    if Occupied(rows[i].cells[j]) {
      assert AnyOccupied(rows[i], Cols(rows[i], ncols));
    }
    LayoutCellsStyles(kind, rows[i].(vflex := vf), Cols(rows[i], ncols), vf, ax.hflexes, ax.cumV, ax.cumH, j);
  }

  /** A row with an occupied cell j ends with the height the policy
      writes for it. */
  lemma LaidOutRowHeight(kind: Kind, rows: seq<Row>, i: nat, j: nat)
    requires i < |rows| && j < |rows[i].cells| && Occupied(rows[i].cells[j])
    ensures var ax := TableAxes(rows, MaxCells(rows));
      && ax.cumV > 0.0 && ax.cumH > 0.0
      && LaidOutTable(kind, rows)[i].height
         == Written(Policy(kind, FlexOr0(Get(ax.vflexes, i)), FlexOr0(Get(ax.hflexes, j)), ax.cumV, ax.cumH).rowHeight,
                    rows[i].height)
  {
    var ncols := MaxCells(rows);
    var ax := TableAxes(rows, ncols);
    OccupiedMakesCumsPositive(rows, ncols, i, j);
    var vf := FlexOr0(Get(ax.vflexes, i));
    LayoutCellsRowHeight(kind, rows[i].(vflex := vf), Cols(rows[i], ncols), vf, ax.hflexes, ax.cumV, ax.cumH, j);
  }

  /** When nobody asked for flex on an axis, the fallback gives the
      entry of every occupied row or column AUTOFLEX and the axis a
      cumulative of n times AUTOFLEX, n being the JavaScript length of
      the axis. */
  lemma FallbackAxis(a: seq<Option<real>>, k: nat)
    requires NonNeg(a) && SumDefined(a) == 0.0 && Get(Trim(a), k).Some?
    ensures var n := |Trim(a)|;
      && n > 0
      && Fallback(Trim(a)).1 == n as real * AUTOFLEX
      && FlexOr0(Get(Fallback(Trim(a)).0, k)) == AUTOFLEX
  {
    SumOfTrim(a);
    assert NonNeg(Trim(a)) by {
      assert forall m | 0 <= m < |Trim(a)| :: Trim(a)[m] == a[m];
    }
    FallbackProps(Trim(a));
  }

  /** The axes of a table where no row asked for vertical flex: the row
      of an occupied cell has AUTOFLEX and the cumulative is n times
      AUTOFLEX. */
  lemma RowAxisAllAuto(rows: seq<Row>, i: nat, j: nat)
    requires i < |rows| && j < |rows[i].cells| && Occupied(rows[i].cells[j])
    requires SumDefined(RowFlexes(rows, MaxCells(rows))) == 0.0
    ensures var ax := TableAxes(rows, MaxCells(rows));
      var n := |Trim(RowFlexes(rows, MaxCells(rows)))|;
      n > 0 && FlexOr0(Get(ax.vflexes, i)) == AUTOFLEX && ax.cumV == n as real * AUTOFLEX && ax.cumH > 0.0
  {
    var ncols := MaxCells(rows);
    OccupiedMakesCumsPositive(rows, ncols, i, j);
    FlexesNonNeg(rows, ncols);
    FallbackAxis(RowFlexes(rows, ncols), i);
  }

  /** The axes of a table where no column asked for horizontal flex. */
  lemma ColAxisAllAuto(rows: seq<Row>, i: nat, j: nat)
    requires i < |rows| && j < |rows[i].cells| && Occupied(rows[i].cells[j])
    requires SumDefined(ColFlexes(rows, MaxCells(rows))) == 0.0
    ensures var ax := TableAxes(rows, MaxCells(rows));
      var n := |Trim(ColFlexes(rows, MaxCells(rows)))|;
      n > 0 && FlexOr0(Get(ax.hflexes, j)) == AUTOFLEX && ax.cumH == n as real * AUTOFLEX && ax.cumV > 0.0
  {
    var ncols := MaxCells(rows);
    OccupiedMakesCumsPositive(rows, ncols, i, j);
    FlexesNonNeg(rows, ncols);
    FallbackAxis(ColFlexes(rows, ncols), j);
  }

  /** Equal split of the columns: in a TableHBox or a Grid where no cell
      asked for horizontal flex, every occupied cell gets 100 / n percent
      of the width, n being the number of columns up to the last one
      with an occupied cell. */
  lemma EqualColumnShares(kind: Kind, rows: seq<Row>, i: nat, j: nat)
    requires kind == TableHBox || kind == Grid
    requires i < |rows| && j < |rows[i].cells| && Occupied(rows[i].cells[j])
    requires SumDefined(ColFlexes(rows, MaxCells(rows))) == 0.0
    ensures var n := |Trim(ColFlexes(rows, MaxCells(rows)))|;
      n > 0 && LaidOutTable(kind, rows)[i].cells[j].width == Some(Percent(100.0 / n as real))
  {
    var ncols := MaxCells(rows);
    var ax := TableAxes(rows, ncols);
    var n := |Trim(ColFlexes(rows, ncols))|;
    var vf, hf := FlexOr0(Get(ax.vflexes, i)), FlexOr0(Get(ax.hflexes, j));
    ColAxisAllAuto(rows, i, j);
    assert LaidOutTable(kind, rows)[i].cells[j] == Styled(kind, rows[i].cells[j], vf, hf, ax.cumV, ax.cumH) by {
      LaidOutCell(kind, rows, i, j);
    }
    var s := Policy(kind, vf, hf, ax.cumV, ax.cumH);
    assert s.colWidth == Some(Percent(100.0 / n as real)) by {
      EqualWidth(kind, vf, hf, ax.cumV, ax.cumH, n);
    }
    assert s.colWidth.Some?;
  }

  /** Equal split of the rows: in a TableVBox or a Grid where no cell
      asked for vertical flex, every row with an occupied cell gets
      100 / n percent of the height, n being the number of rows up to the
      last one with an occupied cell. */
  lemma EqualRowShares(kind: Kind, rows: seq<Row>, i: nat, j: nat)
    requires kind == TableVBox || kind == Grid
    requires i < |rows| && j < |rows[i].cells| && Occupied(rows[i].cells[j])
    requires SumDefined(RowFlexes(rows, MaxCells(rows))) == 0.0
    ensures var n := |Trim(RowFlexes(rows, MaxCells(rows)))|;
      n > 0 && LaidOutTable(kind, rows)[i].height == Some(Percent(100.0 / n as real))
  {
    var ncols := MaxCells(rows);
    var ax := TableAxes(rows, ncols);
    var n := |Trim(RowFlexes(rows, ncols))|;
    var vf, hf := FlexOr0(Get(ax.vflexes, i)), FlexOr0(Get(ax.hflexes, j));
    RowAxisAllAuto(rows, i, j);
    assert LaidOutTable(kind, rows)[i].height == Written(Policy(kind, vf, hf, ax.cumV, ax.cumH).rowHeight, rows[i].height) by {
      LaidOutRowHeight(kind, rows, i, j);
    }
    var s := Policy(kind, vf, hf, ax.cumV, ax.cumH);
    assert s.rowHeight == Some(Percent(100.0 / n as real)) by {
      EqualHeight(kind, vf, hf, ax.cumV, ax.cumH, n);
    }
    assert Written(s.rowHeight, rows[i].height) == s.rowHeight;
  }
}
