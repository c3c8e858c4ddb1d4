/** The tree a table-based layout works on: a table holds rows (`tr`),
    a row holds cells (`td`), a cell holds the child widgets appended to
    it. The styles the layout passes write are kept beside the tree. */
module TableModel {
  import opened Widgets

  /** The four table-based containers; each has its own insertion rule
      and its own cell-layout policy. */
  datatype Kind = TableHBox | TableVBox | Form | Grid

  /** A `td`: its child widgets, the width and height written into its
      style (None: never written), and whether its class names contain
      `vflex` and `hflex`. */
  datatype Cell = Cell(widgets: seq<Widget>, width: Option<Size>, height: Option<Size>,
                       vflexClass: bool, hflexClass: bool)

  /** A `tr`: its cells, the flex cached on it by the last layout pass
      (0 before any pass) and the height written into its style. */
  datatype Row = Row(cells: seq<Cell>, vflex: real, height: Option<Size>)

  function NewCell(ws: seq<Widget>): Cell
  {
    Cell(ws, None, None, false, false)
  }

  const EmptyRow: Row := Row([], 0.0, None)

  /** A cell takes part in the layout when it holds a widget. */
  predicate Occupied(c: Cell)
  {
    |c.widgets| > 0
  }

  /** The vertical and horizontal flex of a cell: those of its first widget. */
  function CellVflex(c: Cell): real
    requires Occupied(c)
  {
    FlexOr0(c.widgets[0].vflex)
  }

  function CellHflex(c: Cell): real
    requires Occupied(c)
  {
    FlexOr0(c.widgets[0].hflex)
  }

  /** The same rows, cells and widgets, whatever the styles. */
  predicate SameTree(a: seq<Row>, b: seq<Row>)
  {
    && |a| == |b|
    && (forall i | 0 <= i < |a| :: |a[i].cells| == |b[i].cells|)
    && (forall i, j | 0 <= i < |a| && 0 <= j < |a[i].cells| && j < |b[i].cells| ::
          a[i].cells[j].widgets == b[i].cells[j].widgets)
  }

  /** Every cached row flex is non-negative, as every layout pass leaves it. */
  predicate NonNegFlexes(rows: seq<Row>)
  {
    forall i | 0 <= i < |rows| :: rows[i].vflex >= 0.0
  }
}
