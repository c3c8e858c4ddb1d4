/** The insertion rules of the four table-based containers
    (`appendWidget` in flexx/html/layouts.js), as functions from the rows
    before the call to the rows after it. The `Table` class's
    `AppendWidget` method is proved against these. */
module TableInsert {
  import opened Widgets
  import opened TableModel

  // ---------------------------------------------------------------------
  // Counting widgets

  /** The sum of `size` over a sequence, accumulated from the front. */
  function Total<T>(s: seq<T>, size: T -> nat): nat
  {
    if |s| == 0 then 0 else Total(s[..|s| - 1], size) + size(s[|s| - 1])
  }

  function CellSize(c: Cell): nat
  {
    |c.widgets|
  }

  function RowSize(r: Row): nat
  {
    Total(r.cells, CellSize)
  }

  /** How many child widgets the table holds. */
  function Count(rows: seq<Row>): nat
  {
    Total(rows, RowSize)
  }

  lemma {:induction false} TotalAppend<T>(a: seq<T>, b: seq<T>, size: T -> nat)
    ensures Total(a + b, size) == Total(a, size) + Total(b, size)
    decreases |b|
  {
    if |b| == 0 {
      assert a + b == a;
    } else {
      var b' := b[..|b| - 1];
      assert (a + b)[..|a + b| - 1] == a + b';
      assert (a + b)[|a + b| - 1] == b[|b| - 1];
      TotalAppend(a, b', size);
    }
  }

  lemma TotalSingle<T>(x: T, size: T -> nat)
    ensures Total([x], size) == size(x)
  {
    assert [x][..0] == [];
  }

  /** Replacing one element changes the total by the difference of sizes. */
  lemma {:induction false} TotalUpdate<T>(s: seq<T>, i: nat, x: T, size: T -> nat)
    requires i < |s|
    ensures Total(s[i := x], size) + size(s[i]) == Total(s, size) + size(x)
  {
    assert s == s[..i] + [s[i]] + s[i + 1..];
    assert s[i := x] == s[..i] + [x] + s[i + 1..];
    TotalAppend(s[..i] + [s[i]], s[i + 1..], size);
    TotalAppend(s[..i], [s[i]], size);
    TotalAppend(s[..i] + [x], s[i + 1..], size);
    TotalAppend(s[..i], [x], size);
    TotalSingle(s[i], size);
    TotalSingle(x, size);
  }

  // ---------------------------------------------------------------------
  // Fresh rows and cells

  /** `n` freshly created `tr` elements. */
  function EmptyRows(n: nat): (r: seq<Row>)
    ensures |r| == n && forall k | 0 <= k < n :: r[k] == EmptyRow
  {
    if n == 0 then [] else EmptyRows(n - 1) + [EmptyRow]
  }

  /** `n` freshly created, empty `td` elements. */
  function EmptyCells(n: nat): (c: seq<Cell>)
    ensures |c| == n && forall k | 0 <= k < n :: c[k] == NewCell([])
  {
    if n == 0 then [] else EmptyCells(n - 1) + [NewCell([])]
  }

  /** A sequence of empty things holds nothing. */
  lemma {:induction false} TotalOfZeros<T>(s: seq<T>, size: T -> nat)
    requires forall k | 0 <= k < |s| :: size(s[k]) == 0
    ensures Total(s, size) == 0
  {
    if |s| > 0 {
      var init := s[..|s| - 1];
      assert forall k | 0 <= k < |init| :: init[k] == s[k];
      TotalOfZeros(init, size);
    }
  }

  lemma EmptyRowsHoldNothing(n: nat)
    ensures Count(EmptyRows(n)) == 0
  {
    var r := EmptyRows(n);
    forall k | 0 <= k < n
      ensures RowSize(r[k]) == 0
    {
      assert r[k] == EmptyRow;
    }
    TotalOfZeros(r, RowSize);
  }

  lemma EmptyCellsHoldNothing(n: nat)
    ensures Total(EmptyCells(n), CellSize) == 0
  {
    var c := EmptyCells(n);
    forall k | 0 <= k < n
      ensures CellSize(c[k]) == 0
    {
      assert c[k] == NewCell([]);
    }
    TotalOfZeros(c, CellSize);
  }

  /** The rows after appending `tr` elements until index `n - 1` exists. */
  function PadRows(rows: seq<Row>, n: nat): (r: seq<Row>)
    ensures |r| == (if |rows| >= n then |rows| else n)
    ensures r[..|rows|] == rows
    ensures forall k | |rows| <= k < |r| :: r[k] == EmptyRow
  {
    if |rows| >= n then rows else rows + EmptyRows(n - |rows|)
  }

  /** The cells after appending `td` elements until index `n - 1` exists. */
  function PadCells(cells: seq<Cell>, n: nat): (c: seq<Cell>)
    ensures |c| == (if |cells| >= n then |cells| else n)
    ensures c[..|cells|] == cells
    ensures forall k | |cells| <= k < |c| :: c[k] == NewCell([])
  {
    if |cells| >= n then cells else cells + EmptyCells(n - |cells|)
  }

  lemma PaddingAddsNoWidgets(rows: seq<Row>, n: nat, cells: seq<Cell>, m: nat)
    ensures Count(PadRows(rows, n)) == Count(rows)
    ensures Total(PadCells(cells, m), CellSize) == Total(cells, CellSize)
  {
    if |rows| < n {
      TotalAppend(rows, EmptyRows(n - |rows|), RowSize);
      EmptyRowsHoldNothing(n - |rows|);
    }
    if |cells| < m {
      TotalAppend(cells, EmptyCells(m - |cells|), CellSize);
      EmptyCellsHoldNothing(m - |cells|);
    }
  }

  // ---------------------------------------------------------------------
  // The four insertion rules

  /** TableHBox: a new cell holding the child at the end of the one row. */
  function HBoxAppended(rows: seq<Row>, child: Widget): (r: seq<Row>)
    requires |rows| > 0
    ensures |r| == |rows| && r[1..] == rows[1..]
    ensures |r[0].cells| == |rows[0].cells| + 1
    ensures r[0].cells[..|rows[0].cells|] == rows[0].cells
    ensures r[0].cells[|rows[0].cells|].widgets == [child]
  {
    rows[0 := rows[0].(cells := rows[0].cells + [NewCell([child])])]
  }

  /** TableVBox: a new row with a single cell holding the child. */
  function VBoxAppended(rows: seq<Row>, child: Widget): (r: seq<Row>)
    ensures |r| == |rows| + 1 && r[..|rows|] == rows
    ensures |r[|rows|].cells| == 1 && r[|rows|].cells[0].widgets == [child]
  {
    rows + [Row([NewCell([child])], 0.0, None)]
  }

  /** Form: the child goes into the last row unless that row already has two
      cells, in which case a new row is started; the child's `hflex` becomes
      0 when it is the first cell of its row (the label) and 1 otherwise. */
  function FormAppended(rows: seq<Row>, child: Widget): (r: seq<Row>)
    requires |rows| > 0
    ensures var last := rows[|rows| - 1];
      if |last.cells| >= 2 then
        && |r| == |rows| + 1 && r[..|rows|] == rows
        && r[|rows|].cells == [NewCell([child.(hflex := Some(0.0))])]
      else
        && |r| == |rows| && r[..|rows| - 1] == rows[..|rows| - 1]
        && |r[|rows| - 1].cells| == |last.cells| + 1
        && r[|rows| - 1].cells[..|last.cells|] == last.cells
        && r[|rows| - 1].cells[|last.cells|].widgets
           == [child.(hflex := Some(if |last.cells| == 0 then 0.0 else 1.0))]
  {
    var last := rows[|rows| - 1];
    if |last.cells| >= 2 then
      rows + [Row([NewCell([child.(hflex := Some(0.0))])], 0.0, None)]
    else
      var n := |last.cells| + 1;
      var placed := child.(hflex := Some(if n == 1 then 0.0 else 1.0));
      rows[|rows| - 1 := last.(cells := last.cells + [NewCell([placed])])]
  }

  /** The widgets a cell (row `i`, column `j`) held before, `[]` if it did not exist. */
  function WidgetsAt(rows: seq<Row>, i: nat, j: nat): seq<Widget>
  {
    if i < |rows| && j < |rows[i].cells| then rows[i].cells[j].widgets else []
  }

  /** Grid: rows, then cells, are appended until cell (pos.y, pos.x) exists,
      and the child is appended to that cell. */
  function GridAppended(rows: seq<Row>, child: Widget): seq<Row>
  {
    var i, j := child.pos.y, child.pos.x;
    var g := GridGrown(rows, i, j);
    var cell := g[i].cells[j];
    g[i := g[i].(cells := g[i].cells[j := cell.(widgets := cell.widgets + [child])])]
  }

  /** The rows and cells a Grid creates before placing the child. */
  function GridGrown(rows: seq<Row>, i: nat, j: nat): (g: seq<Row>)
    ensures i < |g| && j < |g[i].cells|
  {
    var padded := PadRows(rows, i + 1);
    padded[i := padded[i].(cells := PadCells(padded[i].cells, j + 1))]
  }

  /** A Grid only grows: afterwards row pos.y and its cell pos.x exist, the
      child is the last widget of that cell, the cell keeps its earlier
      widgets, and every other row and cell is the one before or a fresh
      empty one. */
  lemma GridAppendPlacesChild(rows: seq<Row>, child: Widget)
    ensures var r := GridAppended(rows, child);
      var i, j := child.pos.y, child.pos.x;
      && |r| == (if |rows| > i then |rows| else i + 1)
      && (forall k | 0 <= k < |r| && k != i :: r[k] == if k < |rows| then rows[k] else EmptyRow)
      && |r[i].cells| == (if |WidgetsAtRow(rows, i)| > j then |WidgetsAtRow(rows, i)| else j + 1)
      && (forall k | 0 <= k < |r[i].cells| && k != j :: r[i].cells[k] ==
            if k < |WidgetsAtRow(rows, i)| then WidgetsAtRow(rows, i)[k] else NewCell([]))
      && r[i].cells[j].widgets == WidgetsAt(rows, i, j) + [child]
  {
    var i, j := child.pos.y, child.pos.x;
    var padded := PadRows(rows, i + 1);
    assert padded[i].cells == WidgetsAtRow(rows, i) by {
      if i < |rows| {
        assert padded[..|rows|][i] == rows[i];
      }
    }
  }

  /** The cells row `i` held before, `[]` if it did not exist. */
  function WidgetsAtRow(rows: seq<Row>, i: nat): seq<Cell>
  {
    if i < |rows| then rows[i].cells else []
  }

  /** The rule of each container kind. TableHBox and Form need the row their
      constructor created. */
  function Appended(kind: Kind, rows: seq<Row>, child: Widget): seq<Row>
    requires kind == TableHBox || kind == Form ==> |rows| > 0
  {
    match kind
    case TableHBox => HBoxAppended(rows, child)
    case TableVBox => VBoxAppended(rows, child)
    case Form => FormAppended(rows, child)
    case Grid => GridAppended(rows, child)
  }

  lemma HBoxAddsOneWidget(rows: seq<Row>, child: Widget)
    requires |rows| > 0
    ensures Count(HBoxAppended(rows, child)) == Count(rows) + 1
  {
    var r0 := rows[0];
    TotalAppend(r0.cells, [NewCell([child])], CellSize);
    TotalSingle(NewCell([child]), CellSize);
    TotalUpdate(rows, 0, r0.(cells := r0.cells + [NewCell([child])]), RowSize);
  }

  lemma VBoxAddsOneWidget(rows: seq<Row>, child: Widget)
    ensures Count(VBoxAppended(rows, child)) == Count(rows) + 1
  {
    var nr := Row([NewCell([child])], 0.0, None);
    TotalAppend(rows, [nr], RowSize);
    TotalSingle(nr, RowSize);
    TotalSingle(NewCell([child]), CellSize);
  }

  lemma FormAddsOneWidget(rows: seq<Row>, child: Widget)
    requires |rows| > 0
    ensures Count(FormAppended(rows, child)) == Count(rows) + 1
  {
    var last := rows[|rows| - 1];
    if |last.cells| >= 2 {
      var nc := NewCell([child.(hflex := Some(0.0))]);
      var nr := Row([nc], 0.0, None);
      TotalAppend(rows, [nr], RowSize);
      TotalSingle(nr, RowSize);
      TotalSingle(nc, CellSize);
    } else {
      var nc := NewCell([child.(hflex := Some(if |last.cells| == 0 then 0.0 else 1.0))]);
      TotalAppend(last.cells, [nc], CellSize);
      TotalSingle(nc, CellSize);
      TotalUpdate(rows, |rows| - 1, last.(cells := last.cells + [nc]), RowSize);
    }
  }

  /** Appending a widget to one existing cell adds one widget to the table. */
  lemma CellAppendAddsOne(rows: seq<Row>, i: nat, j: nat, child: Widget)
    requires i < |rows| && j < |rows[i].cells|
    ensures var row := rows[i];
      var cell := row.cells[j];
      Count(rows[i := row.(cells := row.cells[j := cell.(widgets := cell.widgets + [child])])])
        == Count(rows) + 1
  {
    var row := rows[i];
    var cell := row.cells[j];
    var cell' := cell.(widgets := cell.widgets + [child]);
    TotalUpdate(row.cells, j, cell', CellSize);
    TotalUpdate(rows, i, row.(cells := row.cells[j := cell']), RowSize);
  }

  lemma GrowingAddsNoWidgets(rows: seq<Row>, i: nat, j: nat)
    ensures Count(GridGrown(rows, i, j)) == Count(rows)
  {
    var padded := PadRows(rows, i + 1);
    PaddingAddsNoWidgets(rows, i + 1, padded[i].cells, j + 1);
    TotalUpdate(padded, i, padded[i].(cells := PadCells(padded[i].cells, j + 1)), RowSize);
  }

  lemma GridAddsOneWidget(rows: seq<Row>, child: Widget)
    ensures Count(GridAppended(rows, child)) == Count(rows) + 1
  {
    var i, j := child.pos.y, child.pos.x;
    var g := GridGrown(rows, i, j);
    GrowingAddsNoWidgets(rows, i, j);
    CellAppendAddsOne(g, i, j, child);
  }

  /** Whatever the container, appending adds exactly one widget to the table. */
  lemma AppendAddsOneWidget(kind: Kind, rows: seq<Row>, child: Widget)
    requires kind == TableHBox || kind == Form ==> |rows| > 0
    ensures Count(Appended(kind, rows, child)) == Count(rows) + 1
  {
    match kind
    case TableHBox => HBoxAddsOneWidget(rows, child);
    case TableVBox => VBoxAddsOneWidget(rows, child);
    case Form => FormAddsOneWidget(rows, child);
    case Grid => GridAddsOneWidget(rows, child);
  }

  // ---------------------------------------------------------------------
  // The shape a Form keeps

  /** A Form's rows are label/field pairs: every row but the last holds two
      cells, the last holds at most two, each cell holds one widget, and the
      widget in column k has `hflex` k. */
  predicate FormShape(rows: seq<Row>)
  {
    && |rows| > 0
    && (forall i | 0 <= i < |rows| - 1 :: |rows[i].cells| == 2)
    && |rows[|rows| - 1].cells| <= 2
    && (forall i, k | 0 <= i < |rows| && 0 <= k < |rows[i].cells| ::
          |rows[i].cells[k].widgets| == 1 && rows[i].cells[k].widgets[0].hflex == Some(k as real))
  }

  lemma FormAppendKeepsShape(rows: seq<Row>, child: Widget)
    requires FormShape(rows)
    ensures FormShape(FormAppended(rows, child))
  {
    var r := FormAppended(rows, child);
    var last := rows[|rows| - 1];
    if |last.cells| < 2 {
      forall i, k | 0 <= i < |r| && 0 <= k < |r[i].cells|
        ensures |r[i].cells[k].widgets| == 1 && r[i].cells[k].widgets[0].hflex == Some(k as real)
      {
        if i < |rows| - 1 {
          assert r[i] == rows[i];
        } else if k < |last.cells| {
          assert r[i].cells[k] == last.cells[k];
        }
      }
    }
  }

  /** In a Form the widgets fill the rows pairwise: n widgets take n / 2
      full rows and n % 2 cells of the last one. */
  lemma {:induction false} FormCount(rows: seq<Row>)
    requires FormShape(rows)
    ensures Count(rows) == 2 * (|rows| - 1) + |rows[|rows| - 1].cells|
    decreases |rows|
  {
    var last := rows[|rows| - 1];
    assert RowSize(last) == |last.cells| by { CellsOfOne(last.cells); }
    assert Count(rows) == Count(rows[..|rows| - 1]) + RowSize(last);
    if |rows| > 1 {
      var init := rows[..|rows| - 1];
      assert FormShape(init) by {
        assert forall i | 0 <= i < |init| :: init[i] == rows[i];
      }
      FormCount(init);
    } else {
      assert rows[..0] == [];
    }
  }

  /** Cells that hold one widget each hold as many widgets as there are cells. */
  lemma {:induction false} CellsOfOne(cells: seq<Cell>)
    requires forall k | 0 <= k < |cells| :: |cells[k].widgets| == 1
    ensures Total(cells, CellSize) == |cells|
  {
    if |cells| > 0 {
      CellsOfOne(cells[..|cells| - 1]);
    }
  }

  /** The n-th widget appended to a Form (counting from 0) lands in row n / 2,
      column n % 2, with `hflex` n % 2: labels in the first column, fields in
      the second. */
  lemma FormPlacement(rows: seq<Row>, child: Widget)
    requires FormShape(rows)
    ensures var n := Count(rows);
      var r := FormAppended(rows, child);
      && n / 2 < |r| && n % 2 < |r[n / 2].cells|
      && r[n / 2].cells[n % 2].widgets == [child.(hflex := Some((n % 2) as real))]
  {
    FormCount(rows);
  }

  lemma InitialFormShape()
    ensures FormShape([EmptyRow])
  {
  }
}
