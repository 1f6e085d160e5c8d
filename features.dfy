/**
 * `BridgeDataLoader.feature_engineering` as functions of the cleaned frame:
 * the frame augmented with one-hot structure columns, the mitigation flag and
 * the two ratios; the feature list; the feature matrix (selection of that list
 * with gaps set to 0); and the regression / classification targets.
 */
module Features {
  import opened Wrappers
  import opened Order
  import opened Tables

  /** The eight input columns every feature matrix starts with. */
  const BaseFeatures: seq<string> :=
    ["宽高比", "跨度_m", "长度_m", "自振频率_Hz", "一阶频率_Hz", "二阶频率_Hz", "涡振风速_m_s", "阻力比"]

  const StructureColumn: string := "结构形式"
  /** `get_dummies(prefix='结构')` with the default separator. */
  const StructurePrefix: string := "结构_"
  const MitigationColumn: string := "自证措施"
  const MitigationFlag: string := "有自证措施"
  /** The label that means "no mitigation measure". */
  const NoMitigation: string := "无"
  const SpanColumn: string := "跨度_m"
  const LengthColumn: string := "长度_m"
  const SpanRatio: string := "跨长比"
  const FirstFrequency: string := "一阶频率_Hz"
  const SecondFrequency: string := "二阶频率_Hz"
  const FrequencyRatio: string := "频率比"
  const AmplitudeColumn: string := "振幅_cm"
  const MitigatedAmplitudeColumn: string := "措施后振幅_cm"
  const OccurrenceColumn: string := "涡振发生"
  const RiskColumn: string := "风险等级"

  // ---------------------------------------------------------------------------
  // One-hot encoding of the structure form
  // ---------------------------------------------------------------------------

  /** Sorted in Python's string order, without repeats. */
  predicate StrictlyIncreasing(s: seq<string>) {
    forall i, j :: 0 <= i < j < |s| ==> LexLe(s[i], s[j]) && s[i] != s[j]
  }

  /** Adds `x` to a sorted list of distinct labels, keeping it sorted and distinct. */
  function InsertLabel(x: string, s: seq<string>): (r: seq<string>)
    requires StrictlyIncreasing(s)
    ensures StrictlyIncreasing(r)
    ensures forall y :: y in r <==> y in s || y == x
    decreases |s|
  {
    if s == [] then [x]
    else if x == s[0] then s
    else if LexLe(x, s[0]) then
      assert StrictlyIncreasing([x] + s) by {
        forall j | 0 < j < |s|
          ensures LexLe(x, s[j]) && x != s[j]
        {
          LexLeTransitive(x, s[0], s[j]);
          LexLeAntisymmetric(x, s[0]);
        }
      }
      [x] + s
    else
      var rest := InsertLabel(x, s[1..]);
      assert StrictlyIncreasing([s[0]] + rest) by {
        LexLeTotal(x, s[0]);
        forall j | 0 <= j < |rest|
          ensures LexLe(s[0], rest[j]) && s[0] != rest[j]
        {
          assert rest[j] in rest;
          if rest[j] != x {
            var k :| 0 <= k < |s[1..]| && s[1..][k] == rest[j];
            assert s[k + 1] == rest[j];
          }
        }
      }
      [s[0]] + rest
  }

  /**
   * The categories `get_dummies` makes columns for: the distinct labels of the
   * column, sorted. Gaps get no category.
   */
  function Categories(col: seq<Cell>): (r: seq<string>)
    ensures StrictlyIncreasing(r)
    ensures forall v :: v in r <==> Text(v) in col
    decreases |col|
  {
    if col == [] then []
    else
      var init := col[..|col| - 1];
      var rest := Categories(init);
      assert col == init + [col[|col| - 1]];
      match col[|col| - 1]
      case Text(v) => InsertLabel(v, rest)
      case _ => rest
  }

  /** The dummy column of one category: 1 where the row has that label, 0 elsewhere. */
  function Indicator(col: seq<Cell>, v: string): (r: seq<Cell>)
    ensures |r| == |col|
    ensures forall i :: 0 <= i < |col| ==> r[i] == if col[i] == Text(v) then Num(1.0) else Num(0.0)
  {
    seq(|col|, i requires 0 <= i < |col| => if col[i] == Text(v) then Num(1.0) else Num(0.0))
  }

  function IndicatorName(v: string): string {
    StructurePrefix + v
  }

  function IndicatorNames(cats: seq<string>): (r: seq<string>)
    ensures |r| == |cats|
    ensures forall k :: 0 <= k < |cats| ==> r[k] == IndicatorName(cats[k])
  {
    seq(|cats|, k requires 0 <= k < |cats| => IndicatorName(cats[k]))
  }

  lemma IndicatorNamesSnoc(cats: seq<string>)
    requires cats != []
    ensures IndicatorNames(cats) == IndicatorNames(cats[..|cats| - 1]) + [IndicatorName(cats[|cats| - 1])]
  {
  }

  /** A name that starts like a dummy column: 结, any character, then _. */
  predicate DummyLike(n: string) {
    |n| >= 3 && n[0] == '结' && n[2] == '_'
  }

  lemma IndicatorNameHead(v: string)
    ensures DummyLike(IndicatorName(v))
    ensures IndicatorName(v)[|StructurePrefix|..] == v
  {
    assert IndicatorName(v)[0] == StructurePrefix[0];
    assert IndicatorName(v)[2] == StructurePrefix[2];
  }

  /** Different labels give different dummy names. */
  lemma IndicatorNameInjective(w: string, v: string)
    ensures IndicatorName(w) == IndicatorName(v) ==> w == v
  {
    IndicatorNameHead(w);
    IndicatorNameHead(v);
  }

  /**
   * The fixed names: none looks like a dummy column, and the flag and the
   * two ratios are neither base features, nor columns the feature step
   * reads, nor targets, nor each other.
   */
  lemma FixedNames()
    ensures forall n :: n in BaseFeatures ==> !DummyLike(n)
    ensures forall n :: n in FixedColumns() ==> !DummyLike(n)
    ensures forall n :: n in [MitigationFlag, SpanRatio, FrequencyRatio] ==> !DummyLike(n) && n !in BaseFeatures && n !in FixedColumns()
    ensures MitigationFlag != SpanRatio && MitigationFlag != FrequencyRatio && SpanRatio != FrequencyRatio
    ensures Distinct(BaseFeatures)
    ensures forall n :: n in FixedColumns() ==> n !in BaseFeatures
  {
  }

  /** The columns feature engineering reads by name besides the base features. */
  function FixedColumns(): seq<string> {
    [StructureColumn, MitigationColumn, AmplitudeColumn, MitigatedAmplitudeColumn, OccurrenceColumn, RiskColumn]
  }

  lemma IndicatorNamesDistinct(cats: seq<string>)
    requires Distinct(cats)
    ensures Distinct(IndicatorNames(cats))
  {
    forall i, j | 0 <= i < j < |cats|
      ensures IndicatorName(cats[i]) != IndicatorName(cats[j])
    {
      IndicatorNameHead(cats[i]);
      IndicatorNameHead(cats[j]);
    }
  }

  /** `pd.concat([data, dummies], axis=1)`, one dummy column after another. */
  function AddIndicators(t: Table, col: seq<Cell>, cats: seq<string>): (r: Table)
    requires WellFormed(t) && |col| == |t.rows|
    ensures WellFormed(r) && |r.rows| == |t.rows|
    decreases |cats|
  {
    if cats == [] then t
    else
      var v := cats[|cats| - 1];
      AddColumn(AddIndicators(t, col, cats[..|cats| - 1]), IndicatorName(v), Indicator(col, v))
  }

  /** A name is a column after the concatenation exactly when it is the frame's own or a dummy name. */
  lemma {:induction false} AddIndicatorsNames(t: Table, col: seq<Cell>, cats: seq<string>, n: string)
    requires WellFormed(t) && |col| == |t.rows|
    ensures n in AddIndicators(t, col, cats).columns <==> n in t.columns || n in IndicatorNames(cats)
    decreases |cats|
  {
    if cats != [] {
      var init := cats[..|cats| - 1];
      var v := cats[|cats| - 1];
      var u := AddIndicators(t, col, init);
      assert AddIndicators(t, col, cats) == AddColumn(u, IndicatorName(v), Indicator(col, v));
      IndicatorNamesSnoc(cats);
      AddIndicatorsNames(t, col, init, n);
    }
  }

  /** The concatenation keeps every column whose name is not a dummy name. */
  lemma {:induction false} AddIndicatorsKeeps(t: Table, col: seq<Cell>, cats: seq<string>, n: string)
    requires WellFormed(t) && |col| == |t.rows| && n in t.columns && n !in IndicatorNames(cats)
    ensures n in AddIndicators(t, col, cats).columns
    ensures ColumnNamed(AddIndicators(t, col, cats), n) == ColumnNamed(t, n)
    decreases |cats|
  {
    if cats != [] {
      var init := cats[..|cats| - 1];
      var v := cats[|cats| - 1];
      var u := AddIndicators(t, col, init);
      assert AddIndicators(t, col, cats) == AddColumn(u, IndicatorName(v), Indicator(col, v));
      IndicatorNamesSnoc(cats);
      AddIndicatorsKeeps(t, col, init, n);
      AddColumnOther(u, IndicatorName(v), Indicator(col, v), n);
    }
  }

  /** Adding the dummy of another category keeps the dummy column of `w`. */
  lemma DummyKept(u: Table, col: seq<Cell>, v: string, w: string)
    requires WellFormed(u) && |col| == |u.rows| && w != v
    requires IndicatorName(w) in u.columns && ColumnNamed(u, IndicatorName(w)) == Indicator(col, w)
    ensures var r := AddColumn(u, IndicatorName(v), Indicator(col, v));
      IndicatorName(w) in r.columns && ColumnNamed(r, IndicatorName(w)) == Indicator(col, w)
  {
    IndicatorNameInjective(w, v);
    AddColumnOther(u, IndicatorName(v), Indicator(col, v), IndicatorName(w));
  }

  /** Each dummy column of distinct categories holds its indicator. */
  lemma {:induction false} AddIndicatorsDummy(t: Table, col: seq<Cell>, cats: seq<string>, k: nat)
    requires WellFormed(t) && |col| == |t.rows| && Distinct(cats) && k < |cats|
    ensures IndicatorName(cats[k]) in AddIndicators(t, col, cats).columns
    ensures ColumnNamed(AddIndicators(t, col, cats), IndicatorName(cats[k])) == Indicator(col, cats[k])
    decreases |cats|
  {
    var init := cats[..|cats| - 1];
    var v := cats[|cats| - 1];
    var w := cats[k];
    var u := AddIndicators(t, col, init);
    var r := AddColumn(u, IndicatorName(v), Indicator(col, v));
    assert AddIndicators(t, col, cats) == r;
    if k < |init| {
      DistinctInit(cats, k);
      assert init[k] == w;
      AddIndicatorsDummy(t, col, init, k);
      DummyKept(u, col, v, w);
    } else {
      AddColumnSelf(u, IndicatorName(v), Indicator(col, v));
      assert ColumnNamed(r, IndicatorName(w)) == Indicator(col, w);
    }
  }

  lemma AddIndicatorsNamed(t: Table, col: seq<Cell>, cats: seq<string>)
    requires WellFormed(t) && |col| == |t.rows| && Distinct(cats)
    ensures var r := AddIndicators(t, col, cats);
      && (forall n :: n in r.columns <==> n in t.columns || n in IndicatorNames(cats))
      && (forall k :: 0 <= k < |cats| ==> ColumnNamed(r, IndicatorName(cats[k])) == Indicator(col, cats[k]))
      && forall n :: n in t.columns && n !in IndicatorNames(cats) ==> ColumnNamed(r, n) == ColumnNamed(t, n)
  {
    forall n
      ensures n in AddIndicators(t, col, cats).columns <==> n in t.columns || n in IndicatorNames(cats)
    {
      AddIndicatorsNames(t, col, cats, n);
    }
    forall k | 0 <= k < |cats|
      ensures ColumnNamed(AddIndicators(t, col, cats), IndicatorName(cats[k])) == Indicator(col, cats[k])
    {
      AddIndicatorsDummy(t, col, cats, k);
    }
    forall n | n in t.columns && n !in IndicatorNames(cats)
      ensures ColumnNamed(AddIndicators(t, col, cats), n) == ColumnNamed(t, n)
    {
      AddIndicatorsKeeps(t, col, cats, n);
    }
  }

  /** The categories of the structure column, or none when the frame has no such column. */
  function StructureCategories(t: Table): (r: seq<string>)
    requires WellFormed(t)
    ensures StrictlyIncreasing(r) && Distinct(r)
  {
    if StructureColumn in t.columns then Categories(ColumnNamed(t, StructureColumn)) else []
  }

  // ---------------------------------------------------------------------------
  // Mitigation flag and ratios
  // ---------------------------------------------------------------------------

  /** `(data['自证措施'] != '无').astype(int)`: 0 exactly for the label 无, a gap included as 1. */
  function MitigationFlags(col: seq<Cell>): (r: seq<Cell>)
    ensures |r| == |col|
    ensures forall i :: 0 <= i < |col| ==> (r[i] == Num(0.0) <==> col[i] == Text(NoMitigation))
    ensures forall i :: 0 <= i < |col| ==> (r[i] == Num(1.0) <==> col[i] != Text(NoMitigation))
  {
    seq(|col|, i requires 0 <= i < |col| => if col[i] == Text(NoMitigation) then Num(0.0) else Num(1.0))
  }

  /**
   * The quotients the model accepts: no text and no zero divisor. With a zero
   * divisor pandas gives ±inf, or NaN (later filled to 0.0) when the dividend
   * is zero or a gap; the model leaves out both.
   */
  predicate QuotientDefined(a: Cell, b: Cell) {
    !a.Text? && !b.Text? && (b.Num? ==> b.value != 0.0)
  }

  /** One cell of `a / b`: NaN (a gap) when either side is a gap. */
  function Quotient(a: Cell, b: Cell): (r: Cell)
    requires QuotientDefined(a, b)
    ensures r.Num? <==> a.Num? && b.Num?
    ensures r == Missing <==> a == Missing || b == Missing
    ensures r.Num? ==> r.value * b.value == a.value
  {
    if a.Num? && b.Num? then Num(a.value / b.value) else Missing
  }

  function Quotients(num: seq<Cell>, den: seq<Cell>): (r: seq<Cell>)
    requires |num| == |den| && forall i :: 0 <= i < |num| ==> QuotientDefined(num[i], den[i])
    ensures |r| == |num|
    ensures forall i :: 0 <= i < |num| ==> r[i] == Quotient(num[i], den[i])
  {
    seq(|num|, i requires 0 <= i < |num| => Quotient(num[i], den[i]))
  }

  predicate HasSpanAndLength(t: Table) {
    SpanColumn in t.columns && LengthColumn in t.columns
  }

  predicate HasFrequencies(t: Table) {
    FirstFrequency in t.columns && SecondFrequency in t.columns
  }

  /** Both ratios the frame gives rise to are finite or NaN in every row. */
  predicate RatiosDefined(t: Table)
    requires WellFormed(t)
  {
    && (HasSpanAndLength(t) ==>
          var span, length := ColumnNamed(t, SpanColumn), ColumnNamed(t, LengthColumn);
          forall i :: 0 <= i < |t.rows| ==> QuotientDefined(span[i], length[i]))
    && (HasFrequencies(t) ==>
          var first, second := ColumnNamed(t, FirstFrequency), ColumnNamed(t, SecondFrequency);
          forall i :: 0 <= i < |t.rows| ==> QuotientDefined(second[i], first[i]))
  }

  // ---------------------------------------------------------------------------
  // The augmented frame and the feature list
  // ---------------------------------------------------------------------------

  /** The flag's name when the frame has a measure column. */
  function FlagNames(t: Table): seq<string> {
    if MitigationColumn in t.columns then [MitigationFlag] else []
  }

  function SpanRatioNames(t: Table): seq<string> {
    if HasSpanAndLength(t) then [SpanRatio] else []
  }

  function FrequencyRatioNames(t: Table): seq<string> {
    if HasFrequencies(t) then [FrequencyRatio] else []
  }

  /**
   * The names feature engineering adds after the eight base features, in
   * order. Presence is decided on the cleaned frame: the added columns never
   * carry the name of a column the later steps look for (GeneratedNames).
   */
  function GeneratedColumns(t: Table): seq<string>
    requires WellFormed(t)
  {
    IndicatorNames(StructureCategories(t)) + FlagNames(t) + SpanRatioNames(t) + FrequencyRatioNames(t)
  }

  /** `feature_columns` as it stands before the selection. */
  function FeatureColumns(t: Table): seq<string>
    requires WellFormed(t)
  {
    BaseFeatures + GeneratedColumns(t)
  }

  /**
   * `d` is `t` with the columns `added` set: its names are those of `t` and
   * `added`, and every other column of `t` is unchanged.
   */
  ghost predicate Extends(d: Table, t: Table, added: seq<string>)
    requires WellFormed(d) && WellFormed(t)
  {
    && (forall n :: n in d.columns <==> n in t.columns || n in added)
    && forall n :: n in t.columns && n !in added ==> ColumnNamed(d, n) == ColumnNamed(t, n)
  }

  lemma ExtendsTransitive(d3: Table, d2: Table, d1: Table, a1: seq<string>, a2: seq<string>)
    requires WellFormed(d1) && WellFormed(d2) && WellFormed(d3)
    requires Extends(d2, d1, a1) && Extends(d3, d2, a2)
    ensures Extends(d3, d1, a1 + a2)
  {
    forall n | n in d1.columns && n !in a1 + a2
      ensures ColumnNamed(d3, n) == ColumnNamed(d2, n)
    {
      assert n in d2.columns;
    }
  }

  /** Step one: the dummy columns of the structure form, when the frame has one. */
  function Dummied(t: Table): (d: Table)
    requires WellFormed(t)
    ensures WellFormed(d) && |d.rows| == |t.rows|
  {
    if StructureColumn in t.columns
    then AddIndicators(t, ColumnNamed(t, StructureColumn), StructureCategories(t))
    else t
  }

  /** Step two: the mitigation flag, when the frame has a measure column. */
  function Flagged(t: Table): (d: Table)
    requires WellFormed(t)
    ensures WellFormed(d) && |d.rows| == |t.rows|
  {
    var d1 := Dummied(t);
    if MitigationColumn in t.columns
    then AddColumn(d1, MitigationFlag, MitigationFlags(ColumnNamed(t, MitigationColumn)))
    else d1
  }

  /** Step three: the span-to-length ratio, when both columns exist. */
  function SpanRatioAdded(t: Table): (d: Table)
    requires WellFormed(t) && RatiosDefined(t)
    ensures WellFormed(d) && |d.rows| == |t.rows|
  {
    var d2 := Flagged(t);
    if HasSpanAndLength(t)
    then AddColumn(d2, SpanRatio, Quotients(ColumnNamed(t, SpanColumn), ColumnNamed(t, LengthColumn)))
    else d2
  }

  /** The augmented `data`: step four adds the frequency ratio, when both columns exist. */
  function Engineer(t: Table): (d: Table)
    requires WellFormed(t) && RatiosDefined(t)
    ensures WellFormed(d) && |d.rows| == |t.rows|
  {
    var d3 := SpanRatioAdded(t);
    if HasFrequencies(t)
    then AddColumn(d3, FrequencyRatio, Quotients(ColumnNamed(t, SecondFrequency), ColumnNamed(t, FirstFrequency)))
    else d3
  }

  /**
   * No added name is a base feature, a column the feature step reads, or a
   * target, and the added names differ from each other.
   */
  lemma GeneratedNames(t: Table)
    requires WellFormed(t)
    ensures forall n :: n in GeneratedColumns(t) ==> n !in BaseFeatures && n !in FixedColumns()
    ensures Distinct(GeneratedColumns(t))
  {
    var cats := StructureCategories(t);
    var names := IndicatorNames(cats);
    var flags := FlagNames(t) + SpanRatioNames(t) + FrequencyRatioNames(t);
    assert GeneratedColumns(t) == names + flags;
    forall k | 0 <= k < |cats|
      ensures DummyLike(names[k])
    {
      IndicatorNameHead(cats[k]);
    }
    IndicatorNamesDistinct(cats);
    FixedNames();
    assert forall n :: n in flags ==> n in [MitigationFlag, SpanRatio, FrequencyRatio];
    assert Distinct(flags);
    DistinctConcat(names, flags);
  }

  lemma DummiedColumns(t: Table)
    requires WellFormed(t)
    ensures Extends(Dummied(t), t, IndicatorNames(StructureCategories(t)))
    ensures StructureColumn in t.columns ==> forall v :: v in StructureCategories(t) ==>
              ColumnNamed(Dummied(t), IndicatorName(v)) == Indicator(ColumnNamed(t, StructureColumn), v)
  {
    var cats := StructureCategories(t);
    if StructureColumn in t.columns {
      AddIndicatorsNamed(t, ColumnNamed(t, StructureColumn), cats);
      forall v | v in cats
        ensures ColumnNamed(Dummied(t), IndicatorName(v)) == Indicator(ColumnNamed(t, StructureColumn), v)
      {
        var k :| 0 <= k < |cats| && cats[k] == v;
      }
    }
  }

  lemma FlaggedColumns(t: Table)
    requires WellFormed(t)
    ensures Extends(Flagged(t), Dummied(t), FlagNames(t))
    ensures MitigationColumn in t.columns ==>
              ColumnNamed(Flagged(t), MitigationFlag) == MitigationFlags(ColumnNamed(t, MitigationColumn))
  {
    if MitigationColumn in t.columns {
      AddColumnNamed(Dummied(t), MitigationFlag, MitigationFlags(ColumnNamed(t, MitigationColumn)));
    }
  }

  lemma SpanRatioColumns(t: Table)
    requires WellFormed(t) && RatiosDefined(t)
    ensures Extends(SpanRatioAdded(t), Flagged(t), SpanRatioNames(t))
    ensures HasSpanAndLength(t) ==>
              ColumnNamed(SpanRatioAdded(t), SpanRatio) == Quotients(ColumnNamed(t, SpanColumn), ColumnNamed(t, LengthColumn))
  {
    if HasSpanAndLength(t) {
      AddColumnNamed(Flagged(t), SpanRatio, Quotients(ColumnNamed(t, SpanColumn), ColumnNamed(t, LengthColumn)));
    }
  }

  lemma FrequencyRatioColumns(t: Table)
    requires WellFormed(t) && RatiosDefined(t)
    ensures Extends(Engineer(t), SpanRatioAdded(t), FrequencyRatioNames(t))
    ensures HasFrequencies(t) ==>
              ColumnNamed(Engineer(t), FrequencyRatio) == Quotients(ColumnNamed(t, SecondFrequency), ColumnNamed(t, FirstFrequency))
  {
    if HasFrequencies(t) {
      AddColumnNamed(SpanRatioAdded(t), FrequencyRatio, Quotients(ColumnNamed(t, SecondFrequency), ColumnNamed(t, FirstFrequency)));
    }
  }

  /**
   * The augmented frame holds the cleaned frame's own column under every
   * name feature engineering does not set.
   */
  lemma EngineerExtends(t: Table)
    requires WellFormed(t) && RatiosDefined(t)
    ensures Extends(Engineer(t), t, GeneratedColumns(t))
  {
    var a1, a2, a3, a4 := IndicatorNames(StructureCategories(t)), FlagNames(t), SpanRatioNames(t), FrequencyRatioNames(t);
    DummiedColumns(t);
    FlaggedColumns(t);
    SpanRatioColumns(t);
    FrequencyRatioColumns(t);
    ExtendsTransitive(Flagged(t), Dummied(t), t, a1, a2);
    ExtendsTransitive(SpanRatioAdded(t), Flagged(t), t, a1 + a2, a3);
    ExtendsTransitive(Engineer(t), SpanRatioAdded(t), t, a1 + a2 + a3, a4);
  }

  /** Each dummy column survives the later steps. */
  lemma EngineerDummies(t: Table, v: string)
    requires WellFormed(t) && RatiosDefined(t)
    requires StructureColumn in t.columns && v in StructureCategories(t)
    ensures IndicatorName(v) in Engineer(t).columns
    ensures ColumnNamed(Engineer(t), IndicatorName(v)) == Indicator(ColumnNamed(t, StructureColumn), v)
  {
    var a2, a3, a4 := FlagNames(t), SpanRatioNames(t), FrequencyRatioNames(t);
    DummiedColumns(t);
    FlaggedColumns(t);
    SpanRatioColumns(t);
    FrequencyRatioColumns(t);
    FixedNames();
    IndicatorNameHead(v);
    assert IndicatorName(v) !in a2 && IndicatorName(v) !in a3 && IndicatorName(v) !in a4;
    var k :| 0 <= k < |StructureCategories(t)| && StructureCategories(t)[k] == v;
    assert IndicatorName(v) in Dummied(t).columns by {
      assert IndicatorNames(StructureCategories(t))[k] == IndicatorName(v);
    }
  }

  /** The flag survives the two ratio steps. */
  lemma EngineerFlag(t: Table)
    requires WellFormed(t) && RatiosDefined(t) && MitigationColumn in t.columns
    ensures MitigationFlag in Engineer(t).columns
    ensures ColumnNamed(Engineer(t), MitigationFlag) == MitigationFlags(ColumnNamed(t, MitigationColumn))
  {
    FlaggedColumns(t);
    SpanRatioColumns(t);
    FrequencyRatioColumns(t);
    FixedNames();
  }

  /** The span-to-length ratio survives the frequency step. */
  lemma EngineerSpanRatio(t: Table)
    requires WellFormed(t) && RatiosDefined(t) && HasSpanAndLength(t)
    ensures SpanRatio in Engineer(t).columns
    ensures ColumnNamed(Engineer(t), SpanRatio) == Quotients(ColumnNamed(t, SpanColumn), ColumnNamed(t, LengthColumn))
  {
    SpanRatioColumns(t);
    FrequencyRatioColumns(t);
    FixedNames();
  }

  lemma EngineerFrequencyRatio(t: Table)
    requires WellFormed(t) && RatiosDefined(t) && HasFrequencies(t)
    ensures FrequencyRatio in Engineer(t).columns
    ensures ColumnNamed(Engineer(t), FrequencyRatio) == Quotients(ColumnNamed(t, SecondFrequency), ColumnNamed(t, FirstFrequency))
  {
    FrequencyRatioColumns(t);
  }

  /** The feature list is as long as its five parts together. */
  lemma FeatureColumnsCount(t: Table)
    requires WellFormed(t)
    ensures |FeatureColumns(t)|
            == |BaseFeatures| + |StructureCategories(t)| + |FlagNames(t)| + |SpanRatioNames(t)| + |FrequencyRatioNames(t)|
  {
    FeatureColumnsShape(t);
  }

  /**
   * The feature list: the eight base names first, then one name per
   * category, then the flag and the ratios when their source columns exist;
   * no name twice and never one of the amplitude columns.
   */
  lemma FeatureColumnsShape(t: Table)
    requires WellFormed(t)
    ensures var cats := StructureCategories(t);
      var fc := FeatureColumns(t);
      && |fc| == |BaseFeatures| + |cats| + |FlagNames(t)| + |SpanRatioNames(t)| + |FrequencyRatioNames(t)|
      && fc[..|BaseFeatures|] == BaseFeatures
      && fc[|BaseFeatures|..|BaseFeatures| + |cats|] == IndicatorNames(cats)
      && Distinct(fc)
      && AmplitudeColumn !in fc && MitigatedAmplitudeColumn !in fc
  {
    var cats := StructureCategories(t);
    var gen := GeneratedColumns(t);
    GeneratedNames(t);
    FixedNames();
    DistinctConcat(BaseFeatures, gen);
    assert FeatureColumns(t)[|BaseFeatures|..] == gen;
    assert gen[..|cats|] == IndicatorNames(cats);
    assert AmplitudeColumn in FixedColumns() && MitigatedAmplitudeColumn in FixedColumns();
  }

  /** `data[feature_columns].fillna(0)`, or KeyError with the absent names. */
  function FeatureMatrix(t: Table): (r: Result<Table, seq<string>>)
    requires WellFormed(t) && RatiosDefined(t)
  {
    FeatureColumnsShape(t);
    match Select(Engineer(t), FeatureColumns(t))
    case Failure(missing) => Failure(missing)
    case Success(f) => Success(FillMissing(f, Num(0.0)))
  }

  /** A column with its gaps set to 0. */
  function ZeroFilled(col: seq<Cell>): (r: seq<Cell>)
    ensures |r| == |col|
    ensures forall i :: 0 <= i < |col| ==> r[i] != Missing && (col[i] != Missing ==> r[i] == col[i])
    ensures forall i :: 0 <= i < |col| && col[i] == Missing ==> r[i] == Num(0.0)
  {
    seq(|col|, i requires 0 <= i < |col| => if col[i] == Missing then Num(0.0) else col[i])
  }

  /** The feature names absent from the augmented frame are the base features absent from the cleaned one. */
  lemma EngineeredAbsent(t: Table)
    requires WellFormed(t) && RatiosDefined(t)
    ensures Absent(Engineer(t).columns, FeatureColumns(t)) == Absent(t.columns, BaseFeatures)
  {
    var d := Engineer(t);
    var gen := GeneratedColumns(t);
    EngineerExtends(t);
    GeneratedNames(t);
    AbsentAppend(d.columns, BaseFeatures, gen);
    AbsentSamePresence(d.columns, t.columns, BaseFeatures);
    AbsentNone(d.columns, gen);
  }

  /**
   * The feature step fails exactly when some base feature is absent from the
   * cleaned frame, and reports those names: every added name is a column of
   * the augmented frame.
   */
  lemma FeatureMatrixMissing(t: Table)
    requires WellFormed(t) && RatiosDefined(t)
    ensures FeatureMatrix(t).Failure? <==> Absent(t.columns, BaseFeatures) != []
    ensures FeatureMatrix(t).Failure? ==> FeatureMatrix(t).error == Absent(t.columns, BaseFeatures)
  {
    EngineeredAbsent(t);
    EngineerExtends(t);
    SelectMissing(Engineer(t), FeatureColumns(t));
  }

  /**
   * The feature step fails exactly when a base feature is not a column of the
   * cleaned frame, and then reports those names in list order.
   */
  lemma FeatureMatrixFailure(t: Table)
    requires WellFormed(t) && RatiosDefined(t)
    ensures FeatureMatrix(t).Failure? <==> exists b :: b in BaseFeatures && b !in t.columns
    ensures FeatureMatrix(t).Failure? ==> FeatureMatrix(t).error == Absent(t.columns, BaseFeatures)
  {
    FeatureMatrixMissing(t);
    var m := Absent(t.columns, BaseFeatures);
    if m != [] {
      assert m[0] in m;
    }
    if exists b :: b in BaseFeatures && b !in t.columns {
      var b :| b in BaseFeatures && b !in t.columns;
      assert b in m;
    }
  }

  /**
   * A feature matrix has the feature list as header, one row per cleaned
   * row, no gaps, and under each name the augmented frame's column with
   * gaps set to 0.
   */
  lemma FeatureMatrixColumns(t: Table)
    requires WellFormed(t) && RatiosDefined(t) && FeatureMatrix(t).Success?
    ensures var f := FeatureMatrix(t).value;
      var fc := FeatureColumns(t);
      && WellFormed(f) && f.columns == fc && |f.rows| == |t.rows|
      && (forall i, k :: 0 <= i < |f.rows| && 0 <= k < |fc| ==> f.rows[i][k] != Missing)
      && forall k :: 0 <= k < |fc| ==>
           (fc[k] in Engineer(t).columns && Column(f, k) == ZeroFilled(ColumnNamed(Engineer(t), fc[k])))
  {
    var d := Engineer(t);
    var fc := FeatureColumns(t);
    FeatureColumnsShape(t);
    var s := Select(d, fc);
    var f := FillMissing(s.value, Num(0.0));
    forall k | 0 <= k < |fc|
      ensures fc[k] in d.columns && Column(f, k) == ZeroFilled(ColumnNamed(d, fc[k]))
    {
      assert fc[k] in fc;
    }
  }

  // ---------------------------------------------------------------------------
  // Properties of the feature matrix
  // ---------------------------------------------------------------------------

  /** The feature matrix's header and row count. */
  lemma FeatureMatrixSize(t: Table)
    requires WellFormed(t) && RatiosDefined(t) && FeatureMatrix(t).Success?
    ensures WellFormed(FeatureMatrix(t).value)
    ensures FeatureMatrix(t).value.columns == FeatureColumns(t) && |FeatureMatrix(t).value.rows| == |t.rows|
  {
    FeatureMatrixColumns(t);
  }

  /** The k-th dummy name sits right after the base features. */
  lemma DummyColumnName(t: Table, k: nat)
    requires WellFormed(t) && k < |StructureCategories(t)|
    ensures |BaseFeatures| + k < |FeatureColumns(t)|
    ensures FeatureColumns(t)[|BaseFeatures| + k] == IndicatorName(StructureCategories(t)[k])
  {
    var names := IndicatorNames(StructureCategories(t));
    var rest := FlagNames(t) + SpanRatioNames(t) + FrequencyRatioNames(t);
    assert FeatureColumns(t) == BaseFeatures + names + rest;
    assert (BaseFeatures + names + rest)[|BaseFeatures| + k] == names[k];
  }

  /** One cell of the feature matrix: the augmented frame's cell under that feature's name, or 0 for a gap. */
  lemma FeatureCell(t: Table, i: nat, k: nat)
    requires WellFormed(t) && RatiosDefined(t) && FeatureMatrix(t).Success?
    requires i < |t.rows| && k < |FeatureColumns(t)|
    ensures FeatureColumns(t)[k] in Engineer(t).columns
    ensures FeatureMatrix(t).value.columns == FeatureColumns(t) && i < |FeatureMatrix(t).value.rows|
    ensures FeatureMatrix(t).value.rows[i][k] == ZeroFilled(ColumnNamed(Engineer(t), FeatureColumns(t)[k]))[i]
  {
    FeatureMatrixColumns(t);
    assert Column(FeatureMatrix(t).value, k)[i] == FeatureMatrix(t).value.rows[i][k];
  }

  /** The dummy feature of the k-th category: 1 where the row has that label, 0 elsewhere. */
  lemma DummyFeature(t: Table, i: nat, k: nat)
    requires WellFormed(t) && RatiosDefined(t) && FeatureMatrix(t).Success?
    requires StructureColumn in t.columns && i < |t.rows| && k < |StructureCategories(t)|
    ensures var f := FeatureMatrix(t).value;
      var cats := StructureCategories(t);
      var b := |BaseFeatures|;
      && b + k < |f.columns| && i < |f.rows|
      && f.columns[b + k] == IndicatorName(cats[k])
      && f.rows[i][b + k] == Indicator(ColumnNamed(t, StructureColumn), cats[k])[i]
      && (f.rows[i][b + k] == Num(1.0) || f.rows[i][b + k] == Num(0.0))
  {
    var cats := StructureCategories(t);
    DummyColumnName(t, k);
    FeatureCell(t, i, |BaseFeatures| + k);
    assert cats[k] in cats;
    EngineerDummies(t, cats[k]);
  }

  /**
   * One-hot: a row whose structure form is a label has 1 in the dummy column
   * of that label and 0 in every other dummy column.
   */
  lemma OneHot(t: Table, i: nat)
    requires WellFormed(t) && RatiosDefined(t) && FeatureMatrix(t).Success?
    requires StructureColumn in t.columns && i < |t.rows| && ColumnNamed(t, StructureColumn)[i].Text?
    ensures var f := FeatureMatrix(t).value;
      var cats := StructureCategories(t);
      var b := |BaseFeatures|;
      && i < |f.rows| && b + |cats| <= |f.rows[i]|
      && exists k :: && 0 <= k < |cats| && ColumnNamed(t, StructureColumn)[i] == Text(cats[k])
                     && f.rows[i][b..b + |cats|] == OneHotRow(|cats|, k)
  {
    var cats := StructureCategories(t);
    var col := ColumnNamed(t, StructureColumn);
    LabelHasCategory(t, i);
    var k :| 0 <= k < |cats| && col[i] == Text(cats[k]);
    OneHotAt(t, i, k);
  }

  /** The dummy values of a row whose label is the k-th of n categories. */
  function OneHotRow(n: nat, k: nat): (r: seq<Cell>)
    requires k < n
    ensures |r| == n && r[k] == Num(1.0)
    ensures forall j :: 0 <= j < n && j != k ==> r[j] == Num(0.0)
  {
    seq(n, j => if j == k then Num(1.0) else Num(0.0))
  }

  /** The dummies of a row whose label is the k-th category form the one-hot row of k. */
  lemma OneHotAt(t: Table, i: nat, k: nat)
    requires WellFormed(t) && RatiosDefined(t) && FeatureMatrix(t).Success?
    requires StructureColumn in t.columns && i < |t.rows| && k < |StructureCategories(t)|
    requires ColumnNamed(t, StructureColumn)[i] == Text(StructureCategories(t)[k])
    ensures var f := FeatureMatrix(t).value;
      var cats := StructureCategories(t);
      var b := |BaseFeatures|;
      && i < |f.rows| && b + |cats| <= |f.rows[i]|
      && f.rows[i][b..b + |cats|] == OneHotRow(|cats|, k)
  {
    DummiesPrefix(t, i, k, |StructureCategories(t)|);
    TakeAll(OneHotRow(|StructureCategories(t)|, k), |StructureCategories(t)|);
  }

  /** The first m dummies of a row whose label is the k-th category are the first m cells of its one-hot row. */
  lemma {:induction false} DummiesPrefix(t: Table, i: nat, k: nat, m: nat)
    requires WellFormed(t) && RatiosDefined(t) && FeatureMatrix(t).Success?
    requires StructureColumn in t.columns && i < |t.rows| && k < |StructureCategories(t)| && m <= |StructureCategories(t)|
    requires ColumnNamed(t, StructureColumn)[i] == Text(StructureCategories(t)[k])
    ensures i < |FeatureMatrix(t).value.rows| && |BaseFeatures| + |StructureCategories(t)| <= |FeatureMatrix(t).value.rows[i]|
    ensures FeatureMatrix(t).value.rows[i][|BaseFeatures|..|BaseFeatures| + m] == OneHotRow(|StructureCategories(t)|, k)[..m]
    decreases m
  {
    DummyRowSize(t, i);
    if m > 0 {
      DummiesPrefix(t, i, k, m - 1);
      DummyCellOneHot(t, i, k, m - 1);
      SliceExtend(FeatureMatrix(t).value.rows[i], |BaseFeatures|, m, OneHotRow(|StructureCategories(t)|, k));
    } else {
      SliceNone(FeatureMatrix(t).value.rows[i], |BaseFeatures|, m, OneHotRow(|StructureCategories(t)|, k));
    }
  }

  /** A row of the feature matrix is long enough to hold every dummy. */
  lemma DummyRowSize(t: Table, i: nat)
    requires WellFormed(t) && RatiosDefined(t) && FeatureMatrix(t).Success? && i < |t.rows|
    ensures i < |FeatureMatrix(t).value.rows|
    ensures |BaseFeatures| + |StructureCategories(t)| <= |FeatureMatrix(t).value.rows[i]|
  {
    FeatureMatrixSize(t);
    FeatureColumnsCount(t);
  }

  /** The j-th dummy of a row whose label is the k-th category is 1 when j is k and 0 otherwise. */
  lemma DummyCellOneHot(t: Table, i: nat, k: nat, j: nat)
    requires WellFormed(t) && RatiosDefined(t) && FeatureMatrix(t).Success?
    requires StructureColumn in t.columns && i < |t.rows| && k < |StructureCategories(t)| && j < |StructureCategories(t)|
    requires ColumnNamed(t, StructureColumn)[i] == Text(StructureCategories(t)[k])
    ensures var f := FeatureMatrix(t).value;
      var b := |BaseFeatures|;
      && i < |f.rows| && b + j < |f.rows[i]|
      && f.rows[i][b + j] == OneHotRow(|StructureCategories(t)|, k)[j]
  {
    var cats := StructureCategories(t);
    FeatureMatrixSize(t);
    DummyFeature(t, i, j);
    if j < k {
      assert cats[j] != cats[k];
    } else if k < j {
      assert cats[k] != cats[j];
    }
  }

  /** Every label of the structure column is one of its categories. */
  lemma LabelHasCategory(t: Table, i: nat)
    requires WellFormed(t) && StructureColumn in t.columns && i < |t.rows|
    requires ColumnNamed(t, StructureColumn)[i].Text?
    ensures exists k :: 0 <= k < |StructureCategories(t)| && ColumnNamed(t, StructureColumn)[i] == Text(StructureCategories(t)[k])
  {
    var col := ColumnNamed(t, StructureColumn);
    var cats := StructureCategories(t);
    assert Text(col[i].text) in col;
    var k :| 0 <= k < |cats| && cats[k] == col[i].text;
    assert col[i] == Text(cats[k]);
  }

  /** The flag is 0 exactly for the rows whose measure is 无, and 1 for every other row. */
  lemma MitigationFlagValues(t: Table, i: nat)
    requires WellFormed(t) && RatiosDefined(t) && FeatureMatrix(t).Success?
    requires MitigationColumn in t.columns && i < |t.rows|
    ensures var f := FeatureMatrix(t).value;
      var k := |BaseFeatures| + |StructureCategories(t)|;
      && k < |f.columns| && i < |f.rows| && f.columns[k] == MitigationFlag
      && (f.rows[i][k] == Num(0.0) <==> ColumnNamed(t, MitigationColumn)[i] == Text(NoMitigation))
      && (f.rows[i][k] == Num(1.0) <==> ColumnNamed(t, MitigationColumn)[i] != Text(NoMitigation))
      && f.rows[i][k].Num?
  {
    var k := |BaseFeatures| + |StructureCategories(t)|;
    var fc := FeatureColumns(t);
    FeatureMatrixColumns(t);
    assert fc[k] == MitigationFlag;
    FeatureCell(t, i, k);
    EngineerFlag(t);
  }

  /**
   * The span-to-length ratio in the matrix is the quotient of the two
   * columns where both are numbers and 0 where either is a gap.
   */
  lemma SpanRatioValues(t: Table, i: nat)
    requires WellFormed(t) && RatiosDefined(t) && FeatureMatrix(t).Success?
    requires HasSpanAndLength(t) && i < |t.rows|
    ensures var f := FeatureMatrix(t).value;
      var span, length := ColumnNamed(t, SpanColumn)[i], ColumnNamed(t, LengthColumn)[i];
      var k := |BaseFeatures| + |StructureCategories(t)| + |FlagNames(t)|;
      && k < |f.columns| && i < |f.rows| && f.columns[k] == SpanRatio
      && f.rows[i][k] == (if span.Num? && length.Num? then Num(span.value / length.value) else Num(0.0))
      && f.rows[i][k].Num?
  {
    var k := |BaseFeatures| + |StructureCategories(t)| + |FlagNames(t)|;
    SpanRatioName(t);
    FeatureCell(t, i, k);
    SpanRatioCell(t, i);
  }

  /** The span ratio's name sits right after the flag in the feature list. */
  lemma SpanRatioName(t: Table)
    requires WellFormed(t) && HasSpanAndLength(t)
    ensures var k := |BaseFeatures| + |StructureCategories(t)| + |FlagNames(t)|;
      k < |FeatureColumns(t)| && FeatureColumns(t)[k] == SpanRatio
  {
    var front := BaseFeatures + IndicatorNames(StructureCategories(t)) + FlagNames(t);
    assert FeatureColumns(t) == front + [SpanRatio] + FrequencyRatioNames(t);
    assert FeatureColumns(t)[|front|] == SpanRatio;
  }

  /** The augmented frame's span ratio, gaps set to 0, is the quotient of span by length, or 0. */
  lemma SpanRatioCell(t: Table, i: nat)
    requires WellFormed(t) && RatiosDefined(t) && HasSpanAndLength(t) && i < |t.rows|
    ensures SpanRatio in Engineer(t).columns && i < |ColumnNamed(Engineer(t), SpanRatio)|
    ensures var span, length := ColumnNamed(t, SpanColumn)[i], ColumnNamed(t, LengthColumn)[i];
      ZeroFilled(ColumnNamed(Engineer(t), SpanRatio))[i]
        == (if span.Num? && length.Num? then Num(span.value / length.value) else Num(0.0))
  {
    EngineerSpanRatio(t);
  }

  /**
   * The second-to-first frequency ratio is the last feature when both
   * frequency columns exist: quotient where both are numbers, else 0.
   */
  lemma FrequencyRatioValues(t: Table, i: nat)
    requires WellFormed(t) && RatiosDefined(t) && FeatureMatrix(t).Success?
    requires HasFrequencies(t) && i < |t.rows|
    ensures var f := FeatureMatrix(t).value;
      var first, second := ColumnNamed(t, FirstFrequency)[i], ColumnNamed(t, SecondFrequency)[i];
      var k := |f.columns| - 1;
      && k >= 0 && i < |f.rows| && f.columns[k] == FrequencyRatio
      && f.rows[i][k] == (if first.Num? && second.Num? then Num(second.value / first.value) else Num(0.0))
      && f.rows[i][k].Num?
  {
    var k := |FeatureColumns(t)| - 1;
    FrequencyRatioName(t);
    FeatureMatrixSize(t);
    FeatureCell(t, i, k);
    FrequencyRatioCell(t, i);
  }

  /** The frequency ratio's name ends the feature list. */
  lemma FrequencyRatioName(t: Table)
    requires WellFormed(t) && HasFrequencies(t)
    ensures |FeatureColumns(t)| > 0 && FeatureColumns(t)[|FeatureColumns(t)| - 1] == FrequencyRatio
  {
    var front := BaseFeatures + IndicatorNames(StructureCategories(t)) + FlagNames(t) + SpanRatioNames(t);
    assert FeatureColumns(t) == front + [FrequencyRatio];
  }

  /** The augmented frame's frequency ratio, gaps set to 0, is the second frequency over the first, or 0. */
  lemma FrequencyRatioCell(t: Table, i: nat)
    requires WellFormed(t) && RatiosDefined(t) && HasFrequencies(t) && i < |t.rows|
    ensures FrequencyRatio in Engineer(t).columns && i < |ColumnNamed(Engineer(t), FrequencyRatio)|
    ensures var first, second := ColumnNamed(t, FirstFrequency)[i], ColumnNamed(t, SecondFrequency)[i];
      ZeroFilled(ColumnNamed(Engineer(t), FrequencyRatio))[i]
        == (if first.Num? && second.Num? then Num(second.value / first.value) else Num(0.0))
  {
    EngineerFrequencyRatio(t);
  }

  /** The base features carry the cleaned frame's own values, gaps set to 0. */
  lemma BaseFeatureValues(t: Table, i: nat, k: nat)
    requires WellFormed(t) && RatiosDefined(t) && FeatureMatrix(t).Success?
    requires i < |t.rows| && k < |BaseFeatures|
    ensures BaseFeatures[k] in t.columns
    ensures FeatureMatrix(t).value.rows[i][k] == ZeroFilled(ColumnNamed(t, BaseFeatures[k]))[i]
  {
    var f := FeatureMatrix(t).value;
    var fc := FeatureColumns(t);
    FeatureMatrixColumns(t);
    FeatureColumnsShape(t);
    EngineerExtends(t);
    GeneratedNames(t);
    assert fc[k] == BaseFeatures[k];
    assert BaseFeatures[k] in BaseFeatures;
    assert Column(f, k)[i] == f.rows[i][k];
  }

  /**
   * When the span, length and frequency columns hold no text, the ratios are
   * defined exactly when no denominator is 0.
   */
  lemma RatiosDefinedWithoutText(t: Table)
    requires WellFormed(t)
    requires HasSpanAndLength(t) ==> NoText(ColumnNamed(t, SpanColumn)) && NoText(ColumnNamed(t, LengthColumn))
    requires HasFrequencies(t) ==> NoText(ColumnNamed(t, FirstFrequency)) && NoText(ColumnNamed(t, SecondFrequency))
    ensures RatiosDefined(t) <==>
      && (HasSpanAndLength(t) ==> forall i :: 0 <= i < |t.rows| ==> ColumnNamed(t, LengthColumn)[i] != Num(0.0))
      && (HasFrequencies(t) ==> forall i :: 0 <= i < |t.rows| ==> ColumnNamed(t, FirstFrequency)[i] != Num(0.0))
  {
  }

  /** A column without texts: numbers and gaps only. */
  predicate NoText(col: seq<Cell>) {
    forall i :: 0 <= i < |col| ==> !col[i].Text?
  }

  /** A base feature cell is a number when that base column holds no text. */
  lemma BaseCellNumeric(t: Table, i: nat, k: nat)
    requires WellFormed(t) && RatiosDefined(t) && FeatureMatrix(t).Success?
    requires forall name :: name in BaseFeatures && name in t.columns ==> NoText(ColumnNamed(t, name))
    requires i < |t.rows| && k < |BaseFeatures|
    ensures FeatureMatrix(t).value.rows[i][k].Num?
  {
    var name := BaseFeatures[k];
    BaseFeatureValues(t, i, k);
    assert name in BaseFeatures;
    assert !ColumnNamed(t, name)[i].Text?;
  }

  /** The span-ratio cell, when the frame has one, is a number. */
  lemma SpanCellNumeric(t: Table, i: nat, k: nat)
    requires WellFormed(t) && RatiosDefined(t) && FeatureMatrix(t).Success?
    requires i < |t.rows| && k < |FeatureColumns(t)|
    requires k == |BaseFeatures| + |StructureCategories(t)| + |FlagNames(t)| && HasSpanAndLength(t)
    ensures FeatureMatrix(t).value.rows[i][k].Num?
  {
    SpanRatioValues(t, i);
  }

  /** The cell past the span ratio is the frequency ratio, a number. */
  lemma FrequencyCellNumeric(t: Table, i: nat, k: nat)
    requires WellFormed(t) && RatiosDefined(t) && FeatureMatrix(t).Success?
    requires i < |t.rows| && k < |FeatureColumns(t)|
    requires k == |BaseFeatures| + |StructureCategories(t)| + |FlagNames(t)| + |SpanRatioNames(t)|
    ensures FeatureMatrix(t).value.rows[i][k].Num?
  {
    FeatureColumnsCount(t);
    assert HasFrequencies(t);
    FeatureMatrixSize(t);
    FrequencyRatioValues(t, i);
  }

  /** A ratio cell (after the dummies and the flag) is a number. */
  lemma RatioCellNumeric(t: Table, i: nat, k: nat)
    requires WellFormed(t) && RatiosDefined(t) && FeatureMatrix(t).Success?
    requires i < |t.rows| && k < |FeatureColumns(t)|
    requires |BaseFeatures| + |StructureCategories(t)| + |FlagNames(t)| <= k
    ensures FeatureMatrix(t).value.rows[i][k].Num?
  {
    var m := |BaseFeatures| + |StructureCategories(t)| + |FlagNames(t)|;
    FeatureColumnsCount(t);
    if k < m + |SpanRatioNames(t)| {
      SpanCellNumeric(t, i, k);
    } else {
      FrequencyCellNumeric(t, i, k);
    }
  }

  /** The flag cell, when the frame has a mitigation column, is a number. */
  lemma FlagCellNumeric(t: Table, i: nat, k: nat)
    requires WellFormed(t) && RatiosDefined(t) && FeatureMatrix(t).Success?
    requires i < |t.rows| && k == |BaseFeatures| + |StructureCategories(t)| && MitigationColumn in t.columns
    ensures k < |FeatureMatrix(t).value.columns| && i < |FeatureMatrix(t).value.rows|
    ensures FeatureMatrix(t).value.rows[i][k].Num?
  {
    MitigationFlagValues(t, i);
  }

  /** A cell after the dummies is a number: the flag or a ratio. */
  lemma FlagOrRatioCellNumeric(t: Table, i: nat, k: nat)
    requires WellFormed(t) && RatiosDefined(t) && FeatureMatrix(t).Success?
    requires i < |t.rows| && |BaseFeatures| + |StructureCategories(t)| <= k < |FeatureColumns(t)|
    ensures FeatureMatrix(t).value.rows[i][k].Num?
  {
    var d := |BaseFeatures| + |StructureCategories(t)|;
    if k < d + |FlagNames(t)| {
      FlagCellNumeric(t, i, k);
    } else {
      RatioCellNumeric(t, i, k);
    }
  }

  /** A cell after the base features is a number: a dummy, the flag or a ratio. */
  lemma GeneratedCellNumeric(t: Table, i: nat, k: nat)
    requires WellFormed(t) && RatiosDefined(t) && FeatureMatrix(t).Success?
    requires i < |t.rows| && |BaseFeatures| <= k < |FeatureColumns(t)|
    ensures FeatureMatrix(t).value.rows[i][k].Num?
  {
    if k < |BaseFeatures| + |StructureCategories(t)| {
      DummyFeature(t, i, k - |BaseFeatures|);
    } else {
      FlagOrRatioCellNumeric(t, i, k);
    }
  }

  /** When the base features hold no text, one cell of the feature matrix is a number. */
  lemma FeatureCellNumeric(t: Table, i: nat, k: nat)
    requires WellFormed(t) && RatiosDefined(t) && FeatureMatrix(t).Success?
    requires forall name :: name in BaseFeatures && name in t.columns ==> NoText(ColumnNamed(t, name))
    requires i < |t.rows| && k < |FeatureColumns(t)|
    ensures FeatureMatrix(t).value.rows[i][k].Num?
  {
    if k < |BaseFeatures| {
      BaseCellNumeric(t, i, k);
    } else {
      GeneratedCellNumeric(t, i, k);
    }
  }

  /** When the base features hold no text, every cell of the feature matrix is a number. */
  lemma FeaturesAreNumbers(t: Table)
    requires WellFormed(t) && RatiosDefined(t) && FeatureMatrix(t).Success?
    requires forall name :: name in BaseFeatures && name in t.columns ==> NoText(ColumnNamed(t, name))
    ensures var f := FeatureMatrix(t).value;
      forall i, k :: 0 <= i < |f.rows| && 0 <= k < |f.columns| ==> f.rows[i][k].Num?
  {
    var f := FeatureMatrix(t).value;
    FeatureMatrixSize(t);
    forall i, k | 0 <= i < |f.rows| && 0 <= k < |f.columns|
      ensures f.rows[i][k].Num?
    {
      FeatureCellNumeric(t, i, k);
    }
  }

  const SpanLength: seq<string> := [SpanColumn, LengthColumn]

  /** Four bridges described only by span and length. */
  function SpanLengthFrame(): (t: Table)
    ensures WellFormed(t)
  {
    Table(SpanLength,
          [[Num(10.0), Num(100.0)], [Num(20.0), Num(100.0)],
           [Num(30.0), Num(150.0)], [Num(40.0), Num(200.0)]])
  }

  /** Spans 10, 20, 30, 40 over lengths 100, 100, 150, 200 give the ratios 0.1, 0.2, 0.2, 0.2. */
  lemma SpanRatioExample()
    ensures RatiosDefined(SpanLengthFrame())
    ensures ColumnNamed(Engineer(SpanLengthFrame()), SpanRatio) == [Num(0.1), Num(0.2), Num(0.2), Num(0.2)]
  {
    var t := SpanLengthFrame();
    SpanLengthColumns();
    EngineerSpanRatio(t);
    SpanLengthQuotients();
  }

  /** The example frame has span and length but no frequencies, and these columns. */
  lemma SpanLengthColumns()
    ensures var t := SpanLengthFrame();
      && HasSpanAndLength(t) && !HasFrequencies(t)
      && ColumnNamed(t, SpanColumn) == [Num(10.0), Num(20.0), Num(30.0), Num(40.0)]
      && ColumnNamed(t, LengthColumn) == [Num(100.0), Num(100.0), Num(150.0), Num(200.0)]
  {
    var t := SpanLengthFrame();
    assert FirstIndex(t.columns, SpanColumn) == 0;
    assert FirstIndex(t.columns, LengthColumn) == 1;
    assert ColumnNamed(t, SpanColumn) == [Num(10.0), Num(20.0), Num(30.0), Num(40.0)];
    assert ColumnNamed(t, LengthColumn) == [Num(100.0), Num(100.0), Num(150.0), Num(200.0)];
  }

  /** The four span-over-length quotients of the example. */
  lemma SpanLengthQuotients()
    ensures Quotients([Num(10.0), Num(20.0), Num(30.0), Num(40.0)], [Num(100.0), Num(100.0), Num(150.0), Num(200.0)])
            == [Num(0.1), Num(0.2), Num(0.2), Num(0.2)]
  {
    var q := Quotients([Num(10.0), Num(20.0), Num(30.0), Num(40.0)], [Num(100.0), Num(100.0), Num(150.0), Num(200.0)]);
    assert q[0] == Num(0.1) && q[1] == Num(0.2) && q[2] == Num(0.2) && q[3] == Num(0.2);
  }

  /**
   * The same frame lacks six base features (宽高比 and the five from
   * 自振频率_Hz on), so the feature step stops with KeyError naming them.
   */
  lemma MissingBaseExample()
    ensures RatiosDefined(SpanLengthFrame())
    ensures FeatureMatrix(SpanLengthFrame()) == Failure([BaseFeatures[0]] + BaseFeatures[3..])
  {
    SpanRatioExample();
    SpanLengthAbsent();
    FeatureMatrixFailure(SpanLengthFrame());
  }

  /** None of the last five base features is span or length. */
  lemma SpanLengthAbsentTail()
    ensures Absent(SpanLength, BaseFeatures[3..]) == BaseFeatures[3..]
  {
    var b := BaseFeatures[3..];
    assert b == ["自振频率_Hz", "一阶频率_Hz", "二阶频率_Hz", "涡振风速_m_s", "阻力比"];
    assert forall n :: n in b ==> n !in SpanLength;
    AbsentAll(SpanLength, b);
  }

  /** Of the first three base features only 宽高比 is missing. */
  lemma SpanLengthAbsentHead()
    ensures Absent(SpanLength, BaseFeatures[..3]) == [BaseFeatures[0]]
  {
    var h := BaseFeatures[..3];
    assert h == ["宽高比", SpanColumn, LengthColumn];
    assert h[1..] == [SpanColumn, LengthColumn];
    assert h[1..][1..] == [LengthColumn];
    assert Absent(SpanLength, [LengthColumn]) == [];
    assert Absent(SpanLength, h[1..]) == [];
    assert h[0] !in SpanLength;
  }

  lemma SpanLengthAbsent()
    ensures Absent(SpanLength, BaseFeatures) == [BaseFeatures[0]] + BaseFeatures[3..]
  {
    var b := BaseFeatures;
    SpanLengthAbsentHead();
    SpanLengthAbsentTail();
    AbsentAppend(SpanLength, b[..3], b[3..]);
    assert b[..3] + b[3..] == b;
  }

  // ---------------------------------------------------------------------------
  // Targets
  // ---------------------------------------------------------------------------

  /** `self.targets`: the amplitude, and the occurrence and risk columns when present (None otherwise). */
  datatype Targets = Targets(amplitude: seq<Cell>, occurrence: Option<seq<Cell>>, riskLevel: Option<seq<Cell>>)

  /**
   * The targets of a frame, or None when it has no amplitude column (then
   * the loader keeps whatever targets it had).
   */
  function TargetsOf(t: Table): (r: Option<Targets>)
    requires WellFormed(t)
    ensures r.Some? <==> AmplitudeColumn in t.columns
    ensures r.Some? ==> && r.value.amplitude == ColumnNamed(t, AmplitudeColumn)
                        && (r.value.occurrence.Some? <==> OccurrenceColumn in t.columns)
                        && (r.value.riskLevel.Some? <==> RiskColumn in t.columns)
                        && (r.value.occurrence.Some? ==> r.value.occurrence.value == ColumnNamed(t, OccurrenceColumn))
                        && (r.value.riskLevel.Some? ==> r.value.riskLevel.value == ColumnNamed(t, RiskColumn))
  {
    if AmplitudeColumn in t.columns then
      Some(Targets(ColumnNamed(t, AmplitudeColumn),
                   if OccurrenceColumn in t.columns then Some(ColumnNamed(t, OccurrenceColumn)) else None,
                   if RiskColumn in t.columns then Some(ColumnNamed(t, RiskColumn)) else None))
    else None
  }

  /**
   * The source reads the targets from the augmented frame; they are the
   * cleaned frame's own columns, since feature engineering never sets a
   * target's name.
   */
  lemma TargetsFromAugmented(t: Table)
    requires WellFormed(t) && RatiosDefined(t)
    ensures TargetsOf(Engineer(t)) == TargetsOf(t)
  {
    EngineerExtends(t);
    GeneratedNames(t);
  }
}
