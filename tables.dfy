/**
 * The data frame of src/data_processing/data_loader.py, reduced to what the
 * pipeline relies on: named columns in order and rows of cells. A cell is a
 * number, a text or missing (pandas' NaN).
 */
module Tables {
  import opened Wrappers
  import opened Order

  datatype Cell = Missing | Num(value: real) | Text(text: string)

  type Row = seq<Cell>

  datatype Table = Table(columns: seq<string>, rows: seq<Row>)

  predicate Distinct<T(==)>(s: seq<T>) {
    forall i, j :: 0 <= i < j < |s| ==> s[i] != s[j]
  }

  /** Selecting fails exactly when some requested name is absent, and reports the absent names. */
  lemma SelectMissing(t: Table, names: seq<string>)
    requires WellFormed(t)
    ensures Select(t, names).Failure? <==> Absent(t.columns, names) != []
    ensures Select(t, names).Failure? ==> Select(t, names).error == Absent(t.columns, names)
  {
    var m := Absent(t.columns, names);
    if m != [] {
      assert m[0] in m;
    }
  }

  /** A run of s starting at b that matches a prefix of part grows by one matching element. */
  lemma SliceExtend<T>(s: seq<T>, b: nat, m: nat, part: seq<T>)
    requires 0 < m <= |part| && b + m <= |s|
    requires s[b..b + (m - 1)] == part[..m - 1] && s[b + (m - 1)] == part[m - 1]
    ensures s[b..b + m] == part[..m]
  {
    assert s[b..b + m] == s[b..b + (m - 1)] + [s[b + (m - 1)]];
    assert part[..m] == part[..m - 1] + [part[m - 1]];
  }

  /** An empty run of s matches the empty prefix of part. */
  lemma SliceNone<T>(s: seq<T>, b: nat, m: nat, part: seq<T>)
    requires m == 0 && b <= |s|
    ensures s[b..b + m] == part[..m]
  {
  }

  /** Taking as many elements as a sequence has gives the sequence back. */
  lemma TakeAll<T>(s: seq<T>, n: nat)
    requires n == |s|
    ensures s[..n] == s
  {
  }

  /** Dropping the last element keeps a sequence distinct, and that element differs from the rest. */
  lemma DistinctInit<T>(s: seq<T>, k: nat)
    requires Distinct(s) && k < |s| - 1
    ensures Distinct(s[..|s| - 1]) && s[k] != s[|s| - 1]
  {
  }

  lemma DistinctConcat<T>(a: seq<T>, b: seq<T>)
    requires Distinct(a) && Distinct(b) && forall x :: x in b ==> x !in a
    ensures Distinct(a + b)
  {
    forall i, j | 0 <= i < j < |a + b|
      ensures (a + b)[i] != (a + b)[j]
    {
      if j >= |a| {
        assert (a + b)[j] == b[j - |a|] && b[j - |a|] in b;
        if i >= |a| {
          assert (a + b)[i] == b[i - |a|];
        }
      }
    }
  }

  /** A frame as the readers produce it: distinct column names, every row as wide as the header. */
  predicate WellFormed(t: Table) {
    && Distinct(t.columns)
    && forall i :: 0 <= i < |t.rows| ==> |t.rows[i]| == |t.columns|
  }

  /** Position of the first occurrence of `x` in `s`. */
  function FirstIndex<T(==)>(s: seq<T>, x: T): (k: nat)
    requires x in s
    ensures k < |s| && s[k] == x && x !in s[..k]
    decreases |s|
  {
    if s[0] == x then 0
    else
      var k := FirstIndex(s[1..], x);
      assert s[..k + 1] == [s[0]] + s[1..][..k];
      k + 1
  }

  /** `name in data.columns`, with the column's position. */
  function IndexOf(names: seq<string>, name: string): (r: Option<nat>)
    ensures r.None? <==> name !in names
    ensures r.Some? ==> r.value < |names| && names[r.value] == name
  {
    if name in names then Some(FirstIndex(names, name)) else None
  }

  lemma IndexOfDistinct(names: seq<string>, j: nat)
    requires Distinct(names) && j < |names|
    ensures IndexOf(names, names[j]) == Some(j)
  {
  }

  /** `data[name]` for the column at position j. */
  function Column(t: Table, j: nat): (col: seq<Cell>)
    requires WellFormed(t) && j < |t.columns|
    ensures |col| == |t.rows|
    ensures forall i :: 0 <= i < |t.rows| ==> col[i] == t.rows[i][j]
  {
    seq(|t.rows|, i requires 0 <= i < |t.rows| => t.rows[i][j])
  }

  /** Two frames with the same header and the same columns are the same frame. */
  lemma TableByColumns(t: Table, u: Table)
    requires WellFormed(t) && WellFormed(u)
    requires t.columns == u.columns && |t.rows| == |u.rows|
    requires forall j :: 0 <= j < |t.columns| ==> Column(t, j) == Column(u, j)
    ensures t == u
  {
    forall i | 0 <= i < |t.rows|
      ensures t.rows[i] == u.rows[i]
    {
      forall j | 0 <= j < |t.columns|
        ensures t.rows[i][j] == u.rows[i][j]
      {
        assert Column(t, j)[i] == Column(u, j)[i];
      }
    }
  }

  /** `data[name]` by name. */
  function ColumnNamed(t: Table, name: string): (col: seq<Cell>)
    requires WellFormed(t) && name in t.columns
    ensures |col| == |t.rows|
  {
    Column(t, FirstIndex(t.columns, name))
  }

  /** Overwrites the column at position j, cell by cell. */
  function SetColumn(t: Table, j: nat, col: seq<Cell>): (r: Table)
    requires WellFormed(t) && j < |t.columns| && |col| == |t.rows|
    ensures WellFormed(r) && r.columns == t.columns && |r.rows| == |t.rows|
    ensures Column(r, j) == col
    ensures forall k :: 0 <= k < |t.columns| && k != j ==> Column(r, k) == Column(t, k)
  {
    Table(t.columns, seq(|t.rows|, i requires 0 <= i < |t.rows| => t.rows[i][j := col[i]]))
  }

  /** `data[name] = col`: replaces the column of that name, or appends one. */
  function AddColumn(t: Table, name: string, col: seq<Cell>): (r: Table)
    requires WellFormed(t) && |col| == |t.rows|
    ensures WellFormed(r) && |r.rows| == |t.rows|
    ensures r.columns == if name in t.columns then t.columns else t.columns + [name]
    ensures name in r.columns && Column(r, FirstIndex(r.columns, name)) == col
    ensures forall k :: 0 <= k < |t.columns| && t.columns[k] != name ==> Column(r, k) == Column(t, k)
  {
    if name in t.columns then
      SetColumn(t, FirstIndex(t.columns, name), col)
    else
      var r := Table(t.columns + [name], seq(|t.rows|, i requires 0 <= i < |t.rows| => t.rows[i] + [col[i]]));
      assert FirstIndex(r.columns, name) == |t.columns|;
      r
  }

  /**
   * After `data[name] = col` the frame has the old names and `name`; the
   * column under `name` is `col` and every other column is as it was.
   */
  lemma AddColumnNamed(t: Table, name: string, col: seq<Cell>)
    requires WellFormed(t) && |col| == |t.rows|
    ensures var r := AddColumn(t, name, col);
      && (forall n :: n in r.columns <==> n in t.columns || n == name)
      && ColumnNamed(r, name) == col
      && forall n :: n in t.columns && n != name ==> ColumnNamed(r, n) == ColumnNamed(t, n)
  {
    var r := AddColumn(t, name, col);
    forall n | n in t.columns && n != name
      ensures ColumnNamed(r, n) == ColumnNamed(t, n)
    {
      if name !in t.columns {
        FirstIndexOfPrefix(t.columns, [name], n);
      }
    }
  }

  /** `data[name] = col` reads back under `name`. */
  lemma AddColumnSelf(t: Table, name: string, col: seq<Cell>)
    requires WellFormed(t) && |col| == |t.rows|
    ensures name in AddColumn(t, name, col).columns
    ensures ColumnNamed(AddColumn(t, name, col), name) == col
  {
  }

  /** `data[name] = col` leaves the column under any other name as it was. */
  lemma AddColumnOther(t: Table, name: string, col: seq<Cell>, n: string)
    requires WellFormed(t) && |col| == |t.rows| && n in t.columns && n != name
    ensures n in AddColumn(t, name, col).columns
    ensures ColumnNamed(AddColumn(t, name, col), n) == ColumnNamed(t, n)
  {
    if name !in t.columns {
      FirstIndexOfPrefix(t.columns, [name], n);
    }
  }

  /** The requested names that are not columns of the frame, in request order. */
  function Absent(columns: seq<string>, names: seq<string>): (r: seq<string>)
    ensures forall n {:trigger n in r} :: n in r <==> n in names && n !in columns
    ensures |r| <= |names|
  {
    if names == [] then []
    else (if names[0] in columns then [] else [names[0]]) + Absent(columns, names[1..])
  }

  lemma {:induction false} AbsentAppend(columns: seq<string>, a: seq<string>, b: seq<string>)
    ensures Absent(columns, a + b) == Absent(columns, a) + Absent(columns, b)
    decreases |a|
  {
    if a == [] {
      assert a + b == b;
    } else {
      assert (a + b)[1..] == a[1..] + b;
      AbsentAppend(columns, a[1..], b);
    }
  }

  lemma {:induction false} AbsentNone(columns: seq<string>, names: seq<string>)
    requires forall n :: n in names ==> n in columns
    ensures Absent(columns, names) == []
    decreases |names|
  {
    if names != [] {
      AbsentNone(columns, names[1..]);
    }
  }

  lemma {:induction false} AbsentAll(columns: seq<string>, names: seq<string>)
    requires forall n :: n in names ==> n !in columns
    ensures Absent(columns, names) == names
    decreases |names|
  {
    if names != [] {
      AbsentAll(columns, names[1..]);
    }
  }

  /** Only which names are present matters to Absent. */
  lemma {:induction false} AbsentSamePresence(c1: seq<string>, c2: seq<string>, names: seq<string>)
    requires forall n :: n in names ==> (n in c1 <==> n in c2)
    ensures Absent(c1, names) == Absent(c2, names)
    decreases |names|
  {
    if names != [] {
      AbsentSamePresence(c1, c2, names[1..]);
    }
  }

  /** `data[names]`: the named columns in the given order, or KeyError with the absent names. */
  function Select(t: Table, names: seq<string>): (r: Result<Table, seq<string>>)
    requires WellFormed(t)
    ensures r.Failure? <==> exists n :: n in names && n !in t.columns
    ensures r.Failure? ==> r.error == Absent(t.columns, names) && r.error != []
    ensures r.Success? ==> && r.value.columns == names
                           && |r.value.rows| == |t.rows|
                           && (forall i :: 0 <= i < |t.rows| ==> |r.value.rows[i]| == |names|)
                           && (Distinct(names) ==> WellFormed(r.value))
    ensures r.Success? ==> forall i, k :: 0 <= i < |t.rows| && 0 <= k < |names| ==>
              r.value.rows[i][k] == t.rows[i][FirstIndex(t.columns, names[k])]
  {
    if exists n :: n in names && n !in t.columns then
      var missing := Absent(t.columns, names);
      var n :| n in names && n !in t.columns;
      assert n in missing;
      Failure(missing)
    else
      Success(Table(names, seq(|t.rows|, i requires 0 <= i < |t.rows| =>
        seq(|names|, k requires 0 <= k < |names| => t.rows[i][FirstIndex(t.columns, names[k])]))))
  }

  /** `fillna(v)` on a whole frame. */
  function FillMissing(t: Table, v: Cell): (r: Table)
    requires WellFormed(t) && v != Missing
    ensures WellFormed(r) && r.columns == t.columns && |r.rows| == |t.rows|
    ensures forall i, j :: 0 <= i < |t.rows| && 0 <= j < |t.columns| ==>
              && r.rows[i][j] != Missing
              && (t.rows[i][j] != Missing ==> r.rows[i][j] == t.rows[i][j])
              && (t.rows[i][j] == Missing ==> r.rows[i][j] == v)
  {
    Table(t.columns, seq(|t.rows|, i requires 0 <= i < |t.rows| =>
      seq(|t.rows[i]|, j requires 0 <= j < |t.rows[i]| => if t.rows[i][j] == Missing then v else t.rows[i][j])))
  }

  /** `drop_duplicates`: keeps the first of equal rows, in their original order. */
  function Dedup(s: seq<Row>): (r: seq<Row>)
    ensures |r| <= |s|
    ensures forall x :: x in r <==> x in s
    ensures Distinct(r)
    decreases |s|
  {
    if s == [] then []
    else
      var init := s[..|s| - 1];
      var last := s[|s| - 1];
      assert s == init + [last];
      var p := Dedup(init);
      if last in p then p else p + [last]
  }

  /**
   * Dedup keeps first occurrences: the rows it keeps appear in the order of
   * their first occurrence in the input.
   */
  lemma {:induction false} DedupKeepsFirst(s: seq<Row>)
    ensures forall a, b :: 0 <= a < b < |Dedup(s)| ==> FirstIndex(s, Dedup(s)[a]) < FirstIndex(s, Dedup(s)[b])
    decreases |s|
  {
    if s != [] {
      var init := s[..|s| - 1];
      var last := s[|s| - 1];
      assert s == init + [last];
      DedupKeepsFirst(init);
      var p := Dedup(init);
      forall x | x in init
        ensures FirstIndex(s, x) == FirstIndex(init, x)
      {
        FirstIndexOfPrefix(init, [last], x);
      }
      if last !in p {
        assert last !in init;
        assert FirstIndex(s, last) == |s| - 1;
      }
    }
  }

  lemma FirstIndexOfPrefix<T>(u: seq<T>, v: seq<T>, x: T)
    requires x in u
    ensures FirstIndex(u + v, x) == FirstIndex(u, x)
  {
    var k' := FirstIndex(u, x);
    assert (u + v)[k'] == x;
  }

  /** Without duplicate rows, dropping duplicates changes nothing. */
  lemma {:induction false} DedupOfDistinct(s: seq<Row>)
    requires Distinct(s)
    ensures Dedup(s) == s
    decreases |s|
  {
    if s != [] {
      var init := s[..|s| - 1];
      DedupOfDistinct(init);
      assert s[|s| - 1] !in init;
      assert s == init + [s[|s| - 1]];
    }
  }

  /** The order pandas uses to break ties between values: numbers first, then texts. */
  predicate CellLe(a: Cell, b: Cell) {
    match (a, b)
    case (Missing, _) => true
    case (_, Missing) => false
    case (Num(x), Num(y)) => x <= y
    case (Num(_), Text(_)) => true
    case (Text(_), Num(_)) => false
    case (Text(s), Text(u)) => LexLe(s, u)
  }

  lemma CellLeReflexive(a: Cell)
    ensures CellLe(a, a)
  {
    if a.Text? { LexLeReflexive(a.text); }
  }

  lemma CellLeTotal(a: Cell, b: Cell)
    ensures CellLe(a, b) || CellLe(b, a)
  {
    if a.Text? && b.Text? { LexLeTotal(a.text, b.text); }
  }

  lemma CellLeAntisymmetric(a: Cell, b: Cell)
    ensures CellLe(a, b) && CellLe(b, a) ==> a == b
  {
    if a.Text? && b.Text? { LexLeAntisymmetric(a.text, b.text); }
  }

  lemma CellLeTransitive(a: Cell, b: Cell, c: Cell)
    ensures CellLe(a, b) && CellLe(b, c) ==> CellLe(a, c)
  {
    if a.Text? && b.Text? && c.Text? { LexLeTransitive(a.text, b.text, c.text); }
  }
}
