/**
 * `BridgeDataLoader.clean_data` as a function of the raw frame: numeric
 * columns are coerced and their gaps filled with the column median,
 * categorical columns have their gaps filled with the column mode (or 未知),
 * then duplicate rows are dropped. The loader's method runs the same steps
 * one column at a time (see Loader.BridgeDataLoader.CleanData).
 */
module Cleaning {
  import opened Wrappers
  import opened Tables
  import opened Stats

  const NumericColumns: seq<string> := [
    "宽高比", "跨度_m", "长度_m", "自振频率_Hz",
    "一阶频率_Hz", "二阶频率_Hz", "涡振风速_m_s",
    "振幅_cm", "阻力比", "措施后振幅_cm"
  ]

  const CategoricalColumns: seq<string> := ["结构形式", "自证措施", "涡振发生", "风险等级"]

  /** The fill value of a categorical column that has no value at all. */
  const Unknown: string := "未知"

  lemma ColumnListsDistinct()
    ensures Distinct(NumericColumns) && Distinct(CategoricalColumns)
    ensures forall n :: n in CategoricalColumns ==> n !in NumericColumns
  {
  }

  /**
   * `pd.to_numeric(..., errors='coerce')` on one cell. `parse` stands for
   * pandas' reading of a text as a number; an unreadable text becomes missing.
   */
  function Coerce(c: Cell, parse: string -> Option<real>): (r: Cell)
    ensures r.Missing? || r.Num?
    ensures c.Num? || c.Missing? ==> r == c
    ensures c.Text? ==> (r.Missing? <==> parse(c.text).None?) && (r.Num? ==> r.value == parse(c.text).value)
  {
    match c
    case Missing => Missing
    case Num(x) => Num(x)
    case Text(s) => match parse(s) { case Some(x) => Num(x) case None => Missing }
  }

  function CoerceColumn(col: seq<Cell>, parse: string -> Option<real>): (r: seq<Cell>)
    ensures |r| == |col|
    ensures forall i :: 0 <= i < |col| ==> r[i] == Coerce(col[i], parse)
  {
    seq(|col|, i requires 0 <= i < |col| => Coerce(col[i], parse))
  }

  /** The numbers of a column, in order; missing cells and texts are skipped. */
  function Numbers(col: seq<Cell>): (r: seq<real>)
    ensures r == [] <==> forall i :: 0 <= i < |col| ==> !col[i].Num?
    ensures forall x {:trigger multiset(col)[Num(x)]} :: multiset(r)[x] == multiset(col)[Num(x)]
    decreases |col|
  {
    if col == [] then []
    else
      var rest := Numbers(col[1..]);
      assert forall i :: 1 <= i < |col| ==> col[i] == col[1..][i - 1];
      NumbersStep(col, rest);
      (if col[0].Num? then [col[0].value] else []) + rest
  }

  /** One step of Numbers: the head cell adds one to its own number's count and nothing else. */
  lemma NumbersStep(col: seq<Cell>, rest: seq<real>)
    requires col != []
    requires forall x :: multiset(rest)[x] == multiset(col[1..])[Num(x)]
    ensures forall x ::
      multiset((if col[0].Num? then [col[0].value] else []) + rest)[x] == multiset(col)[Num(x)]
  {
    assert col == [col[0]] + col[1..];
    assert multiset(col) == multiset([col[0]]) + multiset(col[1..]);
  }

  /** The non-missing cells of a column, in order. */
  function Present(col: seq<Cell>): (r: seq<Cell>)
    ensures forall c :: c in r <==> c in col && c != Missing
    ensures Missing !in r && forall c {:trigger multiset(col)[c]} :: c != Missing ==> multiset(r)[c] == multiset(col)[c]
    decreases |col|
  {
    if col == [] then []
    else
      assert col == [col[0]] + col[1..];
      (if col[0] != Missing then [col[0]] else []) + Present(col[1..])
  }

  /**
   * One numeric column after coercion and `fillna(median)`. When no cell is
   * a number the median is NaN and the coerced column is kept as it is.
   */
  function FillNumericColumn(col: seq<Cell>, parse: string -> Option<real>): (r: seq<Cell>)
    ensures |r| == |col|
    ensures forall i :: 0 <= i < |col| ==> r[i].Num? || r[i].Missing?
    ensures forall i :: 0 <= i < |col| && Coerce(col[i], parse).Num? ==> r[i] == Coerce(col[i], parse)
    ensures Median(Numbers(CoerceColumn(col, parse))).Some? ==>
              forall i :: 0 <= i < |col| && Coerce(col[i], parse).Missing? ==>
                r[i] == Num(Median(Numbers(CoerceColumn(col, parse))).value)
    ensures Numbers(CoerceColumn(col, parse)) == [] ==> forall i :: 0 <= i < |col| ==> r[i] == Missing
  {
    var coerced := CoerceColumn(col, parse);
    var median := Median(Numbers(coerced));
    if median.None? then coerced
    else FillGaps(coerced, median.value)
  }

  /** Every gap of a column replaced by the number v. */
  function FillGaps(col: seq<Cell>, v: real): (r: seq<Cell>)
    ensures |r| == |col|
    ensures forall i :: 0 <= i < |col| ==> if col[i].Missing? then r[i] == Num(v) else r[i] == col[i]
  {
    seq(|col|, i requires 0 <= i < |col| => if col[i].Missing? then Num(v) else col[i])
  }

  /** The value a categorical column's gaps receive: its mode, or 未知 when it has no value. */
  function CategoricalFill(col: seq<Cell>): (v: Cell)
    ensures v != Missing
    ensures Present(col) != [] ==> IsMode(Present(col), v)
    ensures Present(col) == [] ==> v == Text(Unknown)
  {
    match Mode(Present(col))
    case Some(c) => c
    case None => Text(Unknown)
  }

  /** One categorical column after `fillna(mode()[0] or '未知')`. */
  function FillCategoricalColumn(col: seq<Cell>): (r: seq<Cell>)
    ensures |r| == |col|
    ensures forall i :: 0 <= i < |col| ==> r[i] == if col[i] == Missing then CategoricalFill(col) else col[i]
  {
    var fill := CategoricalFill(col);
    seq(|col|, i requires 0 <= i < |col| => if col[i] == Missing then fill else col[i])
  }

  /** What cleaning does to the column called `name`. */
  function CleanedColumn(name: string, col: seq<Cell>, parse: string -> Option<real>): (r: seq<Cell>)
    ensures |r| == |col|
  {
    if name in NumericColumns then FillNumericColumn(col, parse)
    else if name in CategoricalColumns then FillCategoricalColumn(col)
    else col
  }

  /** One pass of the numeric loop: coerce and fill the column if the frame has it. */
  function ImputeNumeric(t: Table, name: string, parse: string -> Option<real>): (r: Table)
    requires WellFormed(t)
    ensures WellFormed(r) && r.columns == t.columns && |r.rows| == |t.rows|
  {
    match IndexOf(t.columns, name)
    case None => t
    case Some(j) => SetColumn(t, j, FillNumericColumn(Column(t, j), parse))
  }

  /** One pass of the categorical loop. */
  function ImputeCategorical(t: Table, name: string): (r: Table)
    requires WellFormed(t)
    ensures WellFormed(r) && r.columns == t.columns && |r.rows| == |t.rows|
  {
    match IndexOf(t.columns, name)
    case None => t
    case Some(j) => SetColumn(t, j, FillCategoricalColumn(Column(t, j)))
  }

  /** The frame after the numeric loop has visited `names`, in order. */
  function ImputeNumericColumns(t: Table, names: seq<string>, parse: string -> Option<real>): (r: Table)
    requires WellFormed(t)
    ensures WellFormed(r) && r.columns == t.columns && |r.rows| == |t.rows|
    decreases |names|
  {
    if names == [] then t
    else ImputeNumeric(ImputeNumericColumns(t, names[..|names| - 1], parse), names[|names| - 1], parse)
  }

  /** The frame after the categorical loop has visited `names`, in order. */
  function ImputeCategoricalColumns(t: Table, names: seq<string>): (r: Table)
    requires WellFormed(t)
    ensures WellFormed(r) && r.columns == t.columns && |r.rows| == |t.rows|
    decreases |names|
  {
    if names == [] then t
    else ImputeCategorical(ImputeCategoricalColumns(t, names[..|names| - 1]), names[|names| - 1])
  }

  /** Visiting one more name of the numeric list is one more numeric pass. */
  lemma ImputeNumericStep(t: Table, names: seq<string>, parse: string -> Option<real>, k: nat)
    requires WellFormed(t) && k < |names|
    ensures ImputeNumericColumns(t, names[..k + 1], parse)
            == ImputeNumeric(ImputeNumericColumns(t, names[..k], parse), names[k], parse)
  {
    assert names[..k + 1][..k] == names[..k];
  }

  /** Visiting one more name of the categorical list is one more categorical pass. */
  lemma ImputeCategoricalStep(t: Table, names: seq<string>, k: nat)
    requires WellFormed(t) && k < |names|
    ensures ImputeCategoricalColumns(t, names[..k + 1])
            == ImputeCategorical(ImputeCategoricalColumns(t, names[..k]), names[k])
  {
    assert names[..k + 1][..k] == names[..k];
  }

  /** Both fill loops of `clean_data`, before duplicates are dropped. */
  function Impute(t: Table, parse: string -> Option<real>): (r: Table)
    requires WellFormed(t)
    ensures WellFormed(r) && r.columns == t.columns && |r.rows| == |t.rows|
  {
    ImputeCategoricalColumns(ImputeNumericColumns(t, NumericColumns, parse), CategoricalColumns)
  }

  /** `clean_data`: the filled copy of the raw frame without duplicate rows. */
  function Clean(t: Table, parse: string -> Option<real>): (r: Table)
    requires WellFormed(t)
    ensures WellFormed(r) && r.columns == t.columns
  {
    var filled := Impute(t, parse);
    var kept := Dedup(filled.rows);
    assert forall i :: 0 <= i < |kept| ==> kept[i] in filled.rows;
    Table(filled.columns, kept)
  }

  /** The numeric loop changes a column only if it visits its name, and then only by filling it. */
  lemma {:induction false} ImputeNumericColumnsByColumn(t: Table, names: seq<string>, parse: string -> Option<real>, j: nat)
    requires WellFormed(t) && Distinct(names) && j < |t.columns|
    ensures Column(ImputeNumericColumns(t, names, parse), j) ==
              if t.columns[j] in names then FillNumericColumn(Column(t, j), parse) else Column(t, j)
    decreases |names|
  {
    if names != [] {
      var init := names[..|names| - 1];
      var last := names[|names| - 1];
      assert names == init + [last];
      var u := ImputeNumericColumns(t, init, parse);
      ImputeNumericColumnsByColumn(t, init, parse, j);
      if last in t.columns {
        var k := FirstIndex(t.columns, last);
        assert IndexOf(u.columns, last) == Some(k);
        if k == j {
          assert t.columns[j] !in init;
        }
      }
    }
  }

  /** The categorical loop changes a column only if it visits its name, and then only by filling it. */
  lemma {:induction false} ImputeCategoricalColumnsByColumn(t: Table, names: seq<string>, j: nat)
    requires WellFormed(t) && Distinct(names) && j < |t.columns|
    ensures Column(ImputeCategoricalColumns(t, names), j) ==
              if t.columns[j] in names then FillCategoricalColumn(Column(t, j)) else Column(t, j)
    decreases |names|
  {
    if names != [] {
      var init := names[..|names| - 1];
      var last := names[|names| - 1];
      assert names == init + [last];
      var u := ImputeCategoricalColumns(t, init);
      ImputeCategoricalColumnsByColumn(t, init, j);
      if last in t.columns {
        var k := FirstIndex(t.columns, last);
        assert IndexOf(u.columns, last) == Some(k);
        if k == j {
          assert t.columns[j] !in init;
        }
      }
    }
  }

  /**
   * Columns are cleaned independently: every column of the filled frame is
   * its own raw column, cleaned by the rule for its name; the medians and
   * modes are those of the raw columns.
   */
  lemma ImputeByColumn(t: Table, parse: string -> Option<real>, j: nat)
    requires WellFormed(t) && j < |t.columns|
    ensures Column(Impute(t, parse), j) == CleanedColumn(t.columns[j], Column(t, j), parse)
  {
    ColumnListsDistinct();
    var u := ImputeNumericColumns(t, NumericColumns, parse);
    ImputeNumericColumnsByColumn(t, NumericColumns, parse, j);
    ImputeCategoricalColumnsByColumn(u, CategoricalColumns, j);
  }

  /**
   * Duplicate removal in `clean_data`: the rows kept are distinct, they are
   * exactly the distinct filled rows, and they keep the order of their first
   * occurrence.
   */
  lemma CleanRows(t: Table, parse: string -> Option<real>)
    requires WellFormed(t)
    ensures var filled := Impute(t, parse);
            var r := Clean(t, parse);
      && Distinct(r.rows) && |r.rows| <= |t.rows|
      && (forall row :: row in r.rows <==> row in filled.rows)
      && forall a, b :: 0 <= a < b < |r.rows| ==>
           FirstIndex(filled.rows, r.rows[a]) < FirstIndex(filled.rows, r.rows[b])
  {
    DedupKeepsFirst(Impute(t, parse).rows);
  }

  /**
   * A listed numeric column after imputation: each cell is its coerced raw
   * value, and each gap holds the median of the coerced raw column when it
   * has a number.
   */
  lemma NumericImputed(t: Table, parse: string -> Option<real>, j: nat)
    requires WellFormed(t) && j < |t.columns| && t.columns[j] in NumericColumns
    ensures var raw := CoerceColumn(Column(t, j), parse);
            var filled := Impute(t, parse);
      forall i :: 0 <= i < |t.rows| ==>
        filled.rows[i][j] == if raw[i].Missing? && Numbers(raw) != [] then Num(Median(Numbers(raw)).value) else raw[i]
  {
    var filled := Impute(t, parse);
    ImputeByColumn(t, parse, j);
    assert forall i :: 0 <= i < |t.rows| ==> filled.rows[i][j] == Column(filled, j)[i];
  }

  /**
   * A listed numeric column after cleaning: no gap is left when the coerced
   * raw column had a number; otherwise (median NaN) every cell stays missing.
   */
  lemma NumericCleaning(t: Table, parse: string -> Option<real>, j: nat)
    requires WellFormed(t) && j < |t.columns| && t.columns[j] in NumericColumns
    ensures var raw := CoerceColumn(Column(t, j), parse);
      && (Numbers(raw) != [] ==> forall row: Row :: row in Clean(t, parse).rows ==> row[j].Num?)
      && (Numbers(raw) == [] ==> forall row :: row in Clean(t, parse).rows ==> row[j] == Missing)
  {
    var raw := CoerceColumn(Column(t, j), parse);
    var filled := Impute(t, parse);
    NumericImputed(t, parse, j);
    forall row: Row | row in Clean(t, parse).rows
      ensures Numbers(raw) != [] ==> row[j].Num?
      ensures Numbers(raw) == [] ==> row[j] == Missing
    {
      var i :| 0 <= i < |filled.rows| && filled.rows[i] == row;
    }
  }

  /**
   * A listed categorical column after cleaning: gaps hold the column's mode
   * (smallest value among the most frequent) or 未知 when the column has no
   * value, other cells are kept, and no gap remains.
   */
  lemma CategoricalCleaning(t: Table, parse: string -> Option<real>, j: nat)
    requires WellFormed(t) && j < |t.columns| && t.columns[j] in CategoricalColumns
    ensures var col := Column(t, j);
            var filled := Impute(t, parse);
      && (forall i :: 0 <= i < |t.rows| ==>
            filled.rows[i][j] == if col[i] == Missing then CategoricalFill(col) else col[i])
      && (Present(col) != [] ==> IsMode(Present(col), CategoricalFill(col)))
      && (Present(col) == [] ==> CategoricalFill(col) == Text(Unknown))
      && forall row :: row in Clean(t, parse).rows ==> row[j] != Missing
  {
    var filled := Impute(t, parse);
    CategoricalImputed(t, parse, j);
    forall row: Row | row in Clean(t, parse).rows
      ensures row[j] != Missing
    {
      var i :| 0 <= i < |filled.rows| && filled.rows[i] == row;
    }
  }

  /** Imputation fills each gap of a listed categorical column with the column's fill value. */
  lemma CategoricalImputed(t: Table, parse: string -> Option<real>, j: nat)
    requires WellFormed(t) && j < |t.columns| && t.columns[j] in CategoricalColumns
    ensures var col := Column(t, j);
            var filled := Impute(t, parse);
      forall i :: 0 <= i < |t.rows| ==>
        filled.rows[i][j] == if col[i] == Missing then CategoricalFill(col) else col[i]
  {
    var filled := Impute(t, parse);
    ColumnListsDistinct();
    ImputeByColumn(t, parse, j);
    assert forall i :: 0 <= i < |t.rows| ==> filled.rows[i][j] == Column(filled, j)[i];
  }

  /** A listed numeric column of a cleaned frame holds numbers and gaps, never a text. */
  lemma CleanedNumericColumn(t: Table, parse: string -> Option<real>, name: string)
    requires WellFormed(t) && name in t.columns && name in NumericColumns
    ensures var c := Clean(t, parse);
      forall i :: 0 <= i < |c.rows| ==> ColumnNamed(c, name)[i].Num? || ColumnNamed(c, name)[i] == Missing
  {
    var j := FirstIndex(t.columns, name);
    var c := Clean(t, parse);
    NumericCleaning(t, parse, j);
    forall i | 0 <= i < |c.rows|
      ensures ColumnNamed(c, name)[i].Num? || ColumnNamed(c, name)[i] == Missing
    {
      assert c.rows[i] in c.rows;
      assert ColumnNamed(c, name)[i] == c.rows[i][j];
    }
  }

  /** Columns in neither list, and the header, are left as they are. */
  lemma UnlistedColumnsUntouched(t: Table, parse: string -> Option<real>, j: nat)
    requires WellFormed(t) && j < |t.columns|
    requires t.columns[j] !in NumericColumns && t.columns[j] !in CategoricalColumns
    ensures Clean(t, parse).columns == t.columns
    ensures forall i :: 0 <= i < |t.rows| ==> Impute(t, parse).rows[i][j] == t.rows[i][j]
  {
    var filled := Impute(t, parse);
    ImputeByColumn(t, parse, j);
    assert forall i :: 0 <= i < |t.rows| ==> filled.rows[i][j] == Column(filled, j)[i];
  }

  /**
   * A frame cleaning leaves alone: numeric columns wholly numbers or wholly
   * missing, categorical columns without gaps, no duplicate rows.
   */
  predicate Settled(t: Table)
    requires WellFormed(t)
  {
    && (forall j :: 0 <= j < |t.columns| && t.columns[j] in NumericColumns ==>
          (forall i :: 0 <= i < |t.rows| ==> t.rows[i][j].Num?) ||
          (forall i :: 0 <= i < |t.rows| ==> t.rows[i][j] == Missing))
    && (forall j :: 0 <= j < |t.columns| && t.columns[j] in CategoricalColumns ==>
          forall i :: 0 <= i < |t.rows| ==> t.rows[i][j] != Missing)
    && Distinct(t.rows)
  }

  /** A numeric column that is wholly numbers or wholly missing is not changed by its fill. */
  lemma FillNumericSettled(col: seq<Cell>, parse: string -> Option<real>)
    requires (forall i :: 0 <= i < |col| ==> col[i].Num?) || (forall i :: 0 <= i < |col| ==> col[i] == Missing)
    ensures FillNumericColumn(col, parse) == col
  {
    var r := FillNumericColumn(col, parse);
    if !(forall i :: 0 <= i < |col| ==> col[i].Num?) {
      assert CoerceColumn(col, parse) == col;
    }
    assert forall i :: 0 <= i < |col| ==> r[i] == col[i];
  }

  /** Cleaning leaves a column as it is when its rule has nothing to fill. */
  lemma CleanedColumnSettled(name: string, col: seq<Cell>, parse: string -> Option<real>)
    requires name in NumericColumns ==>
               (forall i :: 0 <= i < |col| ==> col[i].Num?) || (forall i :: 0 <= i < |col| ==> col[i] == Missing)
    requires name in CategoricalColumns ==> forall i :: 0 <= i < |col| ==> col[i] != Missing
    ensures CleanedColumn(name, col, parse) == col
  {
    if name in NumericColumns {
      FillNumericSettled(col, parse);
    } else if name in CategoricalColumns {
      assert FillCategoricalColumn(col) == col;
    }
  }

  /** Imputation leaves each column of a settled frame as it is. */
  lemma ImputeSettledColumn(t: Table, parse: string -> Option<real>, j: nat)
    requires WellFormed(t) && Settled(t) && j < |t.columns|
    ensures Column(Impute(t, parse), j) == Column(t, j)
  {
    ImputeByColumn(t, parse, j);
    CleanedColumnSettled(t.columns[j], Column(t, j), parse);
  }

  /** Cleaning a frame with no gaps to fill and no duplicates returns it unchanged. */
  lemma CleanOfSettled(t: Table, parse: string -> Option<real>)
    requires WellFormed(t) && Settled(t)
    ensures Clean(t, parse) == t
  {
    var filled := Impute(t, parse);
    forall j | 0 <= j < |t.columns|
      ensures Column(filled, j) == Column(t, j)
    {
      ImputeSettledColumn(t, parse, j);
    }
    TableByColumns(filled, t);
    DedupOfDistinct(t.rows);
  }

  /** Whatever the raw frame, the cleaned frame is settled. */
  lemma CleanSettles(t: Table, parse: string -> Option<real>)
    requires WellFormed(t)
    ensures Settled(Clean(t, parse))
  {
    var r := Clean(t, parse);
    forall j | 0 <= j < |r.columns| && r.columns[j] in NumericColumns
      ensures (forall i :: 0 <= i < |r.rows| ==> r.rows[i][j].Num?) ||
              (forall i :: 0 <= i < |r.rows| ==> r.rows[i][j] == Missing)
    {
      NumericCleaning(t, parse, j);
      assert forall i :: 0 <= i < |r.rows| ==> r.rows[i] in r.rows;
    }
    forall j | 0 <= j < |r.columns| && r.columns[j] in CategoricalColumns
      ensures forall i :: 0 <= i < |r.rows| ==> r.rows[i][j] != Missing
    {
      CategoricalCleaning(t, parse, j);
      assert forall i :: 0 <= i < |r.rows| ==> r.rows[i] in r.rows;
    }
  }

  /** Cleaning twice is cleaning once. */
  lemma CleanIdempotent(t: Table, parse: string -> Option<real>)
    requires WellFormed(t)
    ensures Clean(Clean(t, parse), parse) == Clean(t, parse)
  {
    CleanSettles(t, parse);
    CleanOfSettled(Clean(t, parse), parse);
  }
}
