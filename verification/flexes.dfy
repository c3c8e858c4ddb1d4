/** The flex collection of `zoof.applyTableLayout`: the table's column
    count, the per-row and per-column maximum flex, the cumulative flex of
    each axis and the "assign each equal" fallback.

    The source gathers the flexes in JavaScript arrays that it fills at
    scattered indices, so they can have holes. Here such an array is a
    `seq<Option<real>>` with one slot per row (or column) and None for a
    hole; `Trim` then drops the trailing holes, which gives the JavaScript
    array with its JavaScript length. */
module Flexes {
  import opened Widgets
  import opened TableModel

  /** The number of columns: the length of the longest row. */
  function MaxCells(rows: seq<Row>): (n: nat)
    ensures forall i | 0 <= i < |rows| :: |rows[i].cells| <= n
    ensures n == 0 || exists i | 0 <= i < |rows| :: |rows[i].cells| == n
  {
    if rows == [] then 0
    else
      var m := MaxCells(rows[..|rows| - 1]);
      if |rows[|rows| - 1].cells| > m then |rows[|rows| - 1].cells| else m
  }

  /** The cells of a row that a scan over `ncols` columns visits. */
  function Cols(r: Row, ncols: nat): (n: nat)
    ensures n <= |r.cells| && n <= ncols
    ensures n == |r.cells| || n == ncols
  {
    if ncols < |r.cells| then ncols else |r.cells|
  }

  /** One step `a[k] = Math.max(a[k] || 0, f)`. */
  function Bump(acc: Option<real>, f: real): Option<real>
  {
    Some(Max(FlexOr0(acc), f))
  }

  /** The entry of a row after its first n cells were scanned. */
  function RowFlexUpTo(cells: seq<Cell>, n: nat): Option<real>
    requires n <= |cells|
  {
    if n == 0 then None
    else
      var acc := RowFlexUpTo(cells, n - 1);
      if Occupied(cells[n - 1]) then Bump(acc, CellVflex(cells[n - 1])) else acc
  }

  /** Whether row i holds a widget in column j. */
  predicate OccupiedAt(rows: seq<Row>, i: nat, j: nat)
    requires i < |rows|
  {
    j < |rows[i].cells| && Occupied(rows[i].cells[j])
  }

  /** The entry of column j after the first n rows were scanned. */
  function ColFlexUpTo(rows: seq<Row>, n: nat, j: nat): Option<real>
    requires n <= |rows|
  {
    if n == 0 then None
    else
      var acc := ColFlexUpTo(rows, n - 1, j);
      if OccupiedAt(rows, n - 1, j) then Bump(acc, CellHflex(rows[n - 1].cells[j])) else acc
  }

  /** One slot per row: `vflexes[i]` once the scan is over. */
  function RowFlexes(rows: seq<Row>, ncols: nat): (s: seq<Option<real>>)
    ensures |s| == |rows|
  {
    seq(|rows|, i requires 0 <= i < |rows| => RowFlexUpTo(rows[i].cells, Cols(rows[i], ncols)))
  }

  /** One slot per column: `hflexes[j]` once the scan is over. */
  function ColFlexes(rows: seq<Row>, ncols: nat): (s: seq<Option<real>>)
    ensures |s| == ncols
  {
    seq(ncols, j requires 0 <= j < ncols => ColFlexUpTo(rows, |rows|, j))
  }

  /** A row's flex is the largest vflex of its occupied cells (and at
      least 0); a row without an occupied cell leaves a hole. */
  lemma {:induction false} RowFlexIsMax(cells: seq<Cell>, n: nat)
    requires n <= |cells|
    ensures RowFlexUpTo(cells, n).None? <==> (forall k | 0 <= k < n :: !Occupied(cells[k]))
    ensures RowFlexUpTo(cells, n).Some? ==>
      && 0.0 <= RowFlexUpTo(cells, n).value
      && (forall k | 0 <= k < n && Occupied(cells[k]) :: CellVflex(cells[k]) <= RowFlexUpTo(cells, n).value)
      && (|| RowFlexUpTo(cells, n).value == 0.0
          || exists k | 0 <= k < n && Occupied(cells[k]) :: CellVflex(cells[k]) == RowFlexUpTo(cells, n).value)
  {
    if n > 0 {
      RowFlexIsMax(cells, n - 1);
    }
  }

  /** A column's flex is the largest hflex of its occupied cells (and at
      least 0); a column without an occupied cell leaves a hole. */
  lemma {:induction false} ColFlexIsMax(rows: seq<Row>, n: nat, j: nat)
    requires n <= |rows|
    ensures ColFlexUpTo(rows, n, j).None? <==> (forall k | 0 <= k < n :: !OccupiedAt(rows, k, j))
    ensures ColFlexUpTo(rows, n, j).Some? ==>
      && 0.0 <= ColFlexUpTo(rows, n, j).value
      && (forall k | 0 <= k < n && OccupiedAt(rows, k, j) ::
            CellHflex(rows[k].cells[j]) <= ColFlexUpTo(rows, n, j).value)
      && (|| ColFlexUpTo(rows, n, j).value == 0.0
          || exists k | 0 <= k < n && OccupiedAt(rows, k, j) ::
               CellHflex(rows[k].cells[j]) == ColFlexUpTo(rows, n, j).value)
  {
    if n > 0 {
      ColFlexIsMax(rows, n - 1, j);
    }
  }

  /** The JavaScript array a scan leaves behind: the slots up to the last
      defined one. */
  function Trim(s: seq<Option<real>>): (t: seq<Option<real>>)
    ensures |t| <= |s| && t == s[..|t|]
    ensures t == [] || t[|t| - 1].Some?
    ensures forall k | |t| <= k < |s| :: s[k].None?
  {
    if s == [] || s[|s| - 1].Some? then s else Trim(s[..|s| - 1])
  }

  /** Reading `a[k]`: past the array's end JavaScript yields undefined. */
  function Get(a: seq<Option<real>>, k: nat): Option<real>
  {
    if k < |a| then a[k] else None
  }

  /** `a.reduce(function (pv, cv) { return pv + cv; }, 0)`, which skips
      the holes. */
  function SumDefined(a: seq<Option<real>>): real
  {
    if a == [] then 0.0 else SumDefined(a[..|a| - 1]) + FlexOr0(a[|a| - 1])
  }

  /** Every defined entry is non-negative. */
  predicate NonNeg(a: seq<Option<real>>)
  {
    forall k | 0 <= k < |a| && a[k].Some? :: a[k].value >= 0.0
  }

  /** A sum of non-negative entries is non-negative, and it is 0 only
      when every defined entry is 0. */
  lemma {:induction false} SumDefinedNonNeg(a: seq<Option<real>>)
    requires NonNeg(a)
    ensures SumDefined(a) >= 0.0
    ensures SumDefined(a) == 0.0 ==> forall k | 0 <= k < |a| && a[k].Some? :: a[k].value == 0.0
  {
    if a != [] {
      var p := a[..|a| - 1];
      assert NonNeg(p) by {
        forall k | 0 <= k < |p| && p[k].Some? ensures p[k].value >= 0.0 {
          assert p[k] == a[k];
        }
      }
      SumDefinedNonNeg(p);
    }
  }

  /** Trailing holes add nothing to the sum. */
  lemma {:induction false} SumOfTrim(s: seq<Option<real>>)
    ensures SumDefined(Trim(s)) == SumDefined(s)
  {
    if s != [] && s[|s| - 1].None? {
      SumOfTrim(s[..|s| - 1]);
    }
  }

  /** Every slot holds AUTOFLEX. */
  function Autoflexes(n: nat): (s: seq<Option<real>>)
    ensures |s| == n
  {
    seq(n, _ => Some(AUTOFLEX))
  }

  lemma {:induction false} SumOfAutoflexes(n: nat)
    ensures SumDefined(Autoflexes(n)) == n as real * AUTOFLEX
  {
    if n > 0 {
      assert Autoflexes(n)[..n - 1] == Autoflexes(n - 1);
      SumOfAutoflexes(n - 1);
    }
  }

  /** An axis after "if no flexes are given, assign each equal": its
      entries and its cumulative flex. */
  function Fallback(a: seq<Option<real>>): (r: (seq<Option<real>>, real))
    ensures |r.0| == |a|
  {
    var sum := SumDefined(a);
    if sum == 0.0 then (Autoflexes(|a|), |a| as real * AUTOFLEX) else (a, sum)
  }

  /** The fallback keeps the cumulative equal to the sum of the entries;
      it replaces every entry by AUTOFLEX exactly when the original sum
      is 0 and leaves the axis alone otherwise; it never turns a defined
      entry into a hole; and an axis with a defined entry ends with a
      positive cumulative, so that dividing by it is safe. */
  lemma FallbackProps(a: seq<Option<real>>)
    requires NonNeg(a)
    ensures Fallback(a).1 == SumDefined(Fallback(a).0)
    ensures SumDefined(a) == 0.0 ==> Fallback(a).0 == Autoflexes(|a|)
    ensures SumDefined(a) != 0.0 ==> Fallback(a).0 == a
    ensures NonNeg(Fallback(a).0)
    ensures forall k | 0 <= k < |a| && a[k].Some? :: Fallback(a).0[k].Some?
    ensures (exists k | 0 <= k < |a| :: a[k].Some?) ==> Fallback(a).1 > 0.0
  {
    SumOfAutoflexes(|a|);
    SumDefinedNonNeg(a);
  }

  /** Every row entry and every column entry is non-negative. */
  lemma FlexesNonNeg(rows: seq<Row>, ncols: nat)
    ensures NonNeg(RowFlexes(rows, ncols)) && NonNeg(Trim(RowFlexes(rows, ncols)))
    ensures NonNeg(ColFlexes(rows, ncols)) && NonNeg(Trim(ColFlexes(rows, ncols)))
  {
    var rf, cf := RowFlexes(rows, ncols), ColFlexes(rows, ncols);
    forall i | 0 <= i < |rows| ensures rf[i].Some? ==> rf[i].value >= 0.0 {
      RowFlexIsMax(rows[i].cells, Cols(rows[i], ncols));
    }
    forall j | 0 <= j < ncols ensures cf[j].Some? ==> cf[j].value >= 0.0 {
      ColFlexIsMax(rows, |rows|, j);
    }
    var tr, tc := Trim(rf), Trim(cf);
    assert forall k | 0 <= k < |tr| :: tr[k] == rf[k];
    assert forall k | 0 <= k < |tc| :: tc[k] == cf[k];
  }

  /** An occupied cell that the scan visits leaves its row's and its
      column's entries defined, and both cumulative flexes positive. */
  lemma OccupiedMakesCumsPositive(rows: seq<Row>, ncols: nat, i: nat, j: nat)
    requires i < |rows| && j < Cols(rows[i], ncols) && Occupied(rows[i].cells[j])
    ensures Get(Trim(RowFlexes(rows, ncols)), i).Some?
    ensures Get(Trim(ColFlexes(rows, ncols)), j).Some?
    ensures Fallback(Trim(RowFlexes(rows, ncols))).1 > 0.0
    ensures Fallback(Trim(ColFlexes(rows, ncols))).1 > 0.0
  {
    var rf, cf := RowFlexes(rows, ncols), ColFlexes(rows, ncols);
    RowFlexIsMax(rows[i].cells, Cols(rows[i], ncols));
    ColFlexIsMax(rows, |rows|, j);
    assert OccupiedAt(rows, i, j);
    assert rf[i].Some? && cf[j].Some?;
    FlexesNonNeg(rows, ncols);
    var tr, tc := Trim(rf), Trim(cf);
    assert i < |tr| && tr[i] == rf[i];
    assert j < |tc| && tc[j] == cf[j];
    FallbackProps(tr);
    FallbackProps(tc);
  }

  /** The column count, as the first loop of the pass computes it. */
  method Dims(rows: seq<Row>) returns (ncols: nat)
    ensures ncols == MaxCells(rows)
  {
    ncols := 0;
    var i := 0;
    while i < |rows|
      invariant 0 <= i <= |rows|
      invariant ncols == MaxCells(rows[..i])
    {
      assert rows[..i + 1][..i] == rows[..i];
      ncols := if ncols >= |rows[i].cells| then ncols else |rows[i].cells|;
      i := i + 1;
    }
    assert rows[..i] == rows;
  }

  /** The nested scan that collects the maximum flex per row and per
      column, skipping missing and empty cells. */
  method CollectFlexes(rows: seq<Row>, ncols: nat) returns (vflexes: seq<Option<real>>, hflexes: seq<Option<real>>)
    ensures vflexes == Trim(RowFlexes(rows, ncols))
    ensures hflexes == Trim(ColFlexes(rows, ncols))
  {
    var dv: seq<Option<real>> := seq(|rows|, _ => None);
    var dh: seq<Option<real>> := seq(ncols, _ => None);
    var i := 0;
    while i < |rows|
      invariant 0 <= i <= |rows|
      invariant |dv| == |rows| && |dh| == ncols
      invariant forall k | 0 <= k < |rows| ::
        dv[k] == if k < i then RowFlexUpTo(rows[k].cells, Cols(rows[k], ncols)) else None
      invariant forall c | 0 <= c < ncols :: dh[c] == ColFlexUpTo(rows, i, c)
    {
      dv, dh := ScanRow(rows, ncols, i, dv, dh);
      i := i + 1;
    }
    assert dv == RowFlexes(rows, ncols);
    assert dh == ColFlexes(rows, ncols);
    vflexes := Trim(dv);
    hflexes := Trim(dh);
  }

  /** The inner loop of the scan, over the cells of row i. */
  method ScanRow(rows: seq<Row>, ncols: nat, i: nat, dv0: seq<Option<real>>, dh0: seq<Option<real>>)
    returns (dv: seq<Option<real>>, dh: seq<Option<real>>)
    requires i < |rows| == |dv0| && dv0[i].None? && |dh0| == ncols
    requires forall c | 0 <= c < ncols :: dh0[c] == ColFlexUpTo(rows, i, c)
    ensures dv == dv0[i := RowFlexUpTo(rows[i].cells, Cols(rows[i], ncols))]
    ensures |dh| == ncols
    ensures forall c | 0 <= c < ncols :: dh[c] == ColFlexUpTo(rows, i + 1, c)
  {
    var cells := rows[i].cells;
    dv, dh := dv0, dh0;
    var j := 0;
    while j < ncols
      invariant 0 <= j <= ncols
      invariant dv == dv0[i := RowFlexUpTo(cells, if j < |cells| then j else |cells|)]
      invariant |dh| == ncols
      invariant forall c | 0 <= c < ncols :: dh[c] == ColFlexUpTo(rows, if c < j then i + 1 else i, c)
    {
      if j < |cells| && Occupied(cells[j]) {
        dv := dv[i := Bump(dv[i], CellVflex(cells[j]))];
        dh := dh[j := Bump(dh[j], CellHflex(cells[j]))];
      }
      j := j + 1;
    }
  }

  /** The cumulative flex of an axis, with its entries replaced by
      AUTOFLEX when that sum is 0. */
  method FillAutoflex(flexes: seq<Option<real>>) returns (filled: seq<Option<real>>, cum: real)
    ensures (filled, cum) == Fallback(flexes)
  {
    filled := flexes;
    cum := SumDefined(flexes);
    if cum == 0.0 {
      var i := 0;
      while i < |filled|
        invariant 0 <= i <= |filled| == |flexes|
        invariant forall k | 0 <= k < |filled| :: filled[k] == if k < i then Some(AUTOFLEX) else flexes[k]
      {
        filled := filled[i := Some(AUTOFLEX)];
        i := i + 1;
      }
      assert filled == Autoflexes(|flexes|);
      cum := |filled| as real * AUTOFLEX;
    }
  }
}
