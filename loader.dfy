/**
 * The `BridgeDataLoader` of src/data_processing/data_loader.py: an object
 * holding the raw frame, the cleaned frame, the feature matrix, the targets
 * and the scaled features, each filled in by one stage. A stage whose input
 * is not there yet returns None and changes nothing.
 */
module Loader {
  import opened Wrappers
  import opened Tables
  import Cleaning
  import Features

  datatype Format = Csv | Excel

  /** `s.endswith(suffix)`, case-sensitive. */
  predicate EndsWith(s: string, suffix: string) {
    |suffix| <= |s| && s[|s| - |suffix|..] == suffix
  }

  /** The reader `load_data` picks by the path's suffix; None stands for the ValueError on any other suffix. */
  function FormatOf(path: string): (r: Option<Format>)
    ensures r == Some(Csv) <==> EndsWith(path, ".csv")
    ensures r == Some(Excel) <==> EndsWith(path, ".xlsx")
    ensures r.None? <==> !EndsWith(path, ".csv") && !EndsWith(path, ".xlsx")
  {
    if EndsWith(path, ".csv") then
      assert path[|path| - 1] == 'v';
      Some(Csv)
    else if EndsWith(path, ".xlsx") then Some(Excel)
    else None
  }

  /** The suffix test is exact: a CSV path, an Excel path, and an upper-case suffix that neither reader accepts. */
  lemma FormatExamples()
    ensures FormatOf("data/bridge_vortex_data.csv") == Some(Csv)
    ensures FormatOf("bridges.xlsx") == Some(Excel)
    ensures FormatOf("bridges.CSV").None? && FormatOf("bridges.xls").None?
  {
    assert "data/bridge_vortex_data.csv"[23..] == ".csv";
    assert "bridges.xlsx"[7..] == ".xlsx";
    assert "bridges.CSV"[7..] != ".csv";
    assert "bridges.xls"[7..] != ".csv";
  }

  /** What `feature_engineering` ends in. */
  datatype FeatureOutcome =
    | NotCleaned                                                // no cleaned frame yet: returns None
    | MissingColumns(names: seq<string>)                        // KeyError from `data[feature_columns]`
    | Engineered(features: Table, targets: Option<Features.Targets>)

  /** What `split_data` hands to `train_test_split`. */
  datatype SplitRequest = SplitRequest(features: Table, amplitude: seq<Cell>, testSize: real, seed: int)

  /** `split_data`'s default arguments. */
  const DefaultTestSize: real := 0.25
  const DefaultSeed: int := 42

  /**
   * A feature matrix as the feature stage leaves it: well formed, the eight
   * base features first, no gaps, and neither amplitude column among the
   * inputs.
   */
  predicate FeatureFrame(f: Table) {
    && WellFormed(f)
    && |f.columns| >= |Features.BaseFeatures|
    && f.columns[..|Features.BaseFeatures|] == Features.BaseFeatures
    && Features.AmplitudeColumn !in f.columns
    && Features.MitigatedAmplitudeColumn !in f.columns
    && forall i, k :: 0 <= i < |f.rows| && 0 <= k < |f.columns| ==> f.rows[i][k] != Missing
  }

  /** A built feature matrix is a feature frame: base features first, no amplitude column, no gap. */
  lemma FeatureMatrixIsFrame(t: Table)
    requires WellFormed(t) && Features.RatiosDefined(t) && Features.FeatureMatrix(t).Success?
    ensures FeatureFrame(Features.FeatureMatrix(t).value)
  {
    Features.FeatureMatrixColumns(t);
    Features.FeatureColumnsShape(t);
  }

  /**
   * What `feature_engineering` yields on the cleaned frame `t` when the
   * loader held `held` as targets: the missing base features, or the
   * feature matrix (a feature frame) with the frame's targets, falling back
   * to `held` when the frame has no amplitude column.
   */
  function EngineerStep(t: Table, held: Option<Features.Targets>): (r: FeatureOutcome)
    requires WellFormed(t) && Features.RatiosDefined(t)
    ensures !r.NotCleaned?
    ensures r.MissingColumns? <==> Features.FeatureMatrix(t).Failure?
    ensures r.MissingColumns? ==> r.names == Features.FeatureMatrix(t).error
    ensures r.Engineered? ==> r.features == Features.FeatureMatrix(t).value && FeatureFrame(r.features)
    ensures r.Engineered? && Features.AmplitudeColumn in t.columns ==> r.targets == Features.TargetsOf(t)
    ensures r.Engineered? && Features.AmplitudeColumn !in t.columns ==> r.targets == held
  {
    match Features.FeatureMatrix(t)
    case Failure(names) => MissingColumns(names)
    case Success(f) =>
      FeatureMatrixIsFrame(t);
      var found := Features.TargetsOf(t);
      Engineered(f, if found.Some? then found else held)
  }

  /** The numeric loop of `clean_data`: each listed column present is coerced and filled, in list order. */
  method FillNumericColumns(raw: Table, parse: string -> Option<real>) returns (data: Table)
    requires WellFormed(raw)
    ensures data == Cleaning.ImputeNumericColumns(raw, Cleaning.NumericColumns, parse)
  {
    data := raw;
    for k := 0 to |Cleaning.NumericColumns|
      invariant data == Cleaning.ImputeNumericColumns(raw, Cleaning.NumericColumns[..k], parse)
    {
      Cleaning.ImputeNumericStep(raw, Cleaning.NumericColumns, parse, k);
      match IndexOf(data.columns, Cleaning.NumericColumns[k]) {
        case Some(j) =>
          data := SetColumn(data, j, Cleaning.FillNumericColumn(Column(data, j), parse));
        case None =>
      }
    }
    assert Cleaning.NumericColumns[..|Cleaning.NumericColumns|] == Cleaning.NumericColumns;
  }

  /** The categorical loop of `clean_data`. */
  method FillCategoricalColumns(numeric: Table) returns (data: Table)
    requires WellFormed(numeric)
    ensures data == Cleaning.ImputeCategoricalColumns(numeric, Cleaning.CategoricalColumns)
  {
    data := numeric;
    for k := 0 to |Cleaning.CategoricalColumns|
      invariant data == Cleaning.ImputeCategoricalColumns(numeric, Cleaning.CategoricalColumns[..k])
    {
      Cleaning.ImputeCategoricalStep(numeric, Cleaning.CategoricalColumns, k);
      match IndexOf(data.columns, Cleaning.CategoricalColumns[k]) {
        case Some(j) =>
          data := SetColumn(data, j, Cleaning.FillCategoricalColumn(Column(data, j)));
        case None =>
      }
    }
    assert Cleaning.CategoricalColumns[..|Cleaning.CategoricalColumns|] == Cleaning.CategoricalColumns;
  }

  /**
   * On a cleaned frame the ratios are defined exactly when no denominator
   * is 0: cleaning leaves no text in the span, length and frequency columns.
   */
  lemma CleanedRatiosDefined(raw: Table, parse: string -> Option<real>)
    requires WellFormed(raw)
    ensures var t := Cleaning.Clean(raw, parse);
      Features.RatiosDefined(t) <==>
        && (Features.HasSpanAndLength(t) ==>
              forall i :: 0 <= i < |t.rows| ==> ColumnNamed(t, Features.LengthColumn)[i] != Num(0.0))
        && (Features.HasFrequencies(t) ==>
              forall i :: 0 <= i < |t.rows| ==> ColumnNamed(t, Features.FirstFrequency)[i] != Num(0.0))
  {
    var t := Cleaning.Clean(raw, parse);
    assert Features.SpanColumn in Cleaning.NumericColumns && Features.LengthColumn in Cleaning.NumericColumns;
    assert Features.FirstFrequency in Cleaning.NumericColumns && Features.SecondFrequency in Cleaning.NumericColumns;
    if Features.HasSpanAndLength(t) {
      Cleaning.CleanedNumericColumn(raw, parse, Features.SpanColumn);
      Cleaning.CleanedNumericColumn(raw, parse, Features.LengthColumn);
    }
    if Features.HasFrequencies(t) {
      Cleaning.CleanedNumericColumn(raw, parse, Features.FirstFrequency);
      Cleaning.CleanedNumericColumn(raw, parse, Features.SecondFrequency);
    }
    Features.RatiosDefinedWithoutText(t);
  }

  /** Every cell of a feature matrix built from a cleaned frame is a number. */
  lemma CleanedFeaturesAreNumbers(raw: Table, parse: string -> Option<real>)
    requires WellFormed(raw)
    requires Features.RatiosDefined(Cleaning.Clean(raw, parse))
    requires Features.FeatureMatrix(Cleaning.Clean(raw, parse)).Success?
    ensures var f := Features.FeatureMatrix(Cleaning.Clean(raw, parse)).value;
      forall i, k :: 0 <= i < |f.rows| && 0 <= k < |f.columns| ==> f.rows[i][k].Num?
  {
    var t := Cleaning.Clean(raw, parse);
    forall name | name in Features.BaseFeatures && name in t.columns
      ensures Features.NoText(ColumnNamed(t, name))
    {
      assert name in Cleaning.NumericColumns;
      Cleaning.CleanedNumericColumn(raw, parse, name);
    }
    Features.FeaturesAreNumbers(t);
  }

  class BridgeDataLoader {
    const dataPath: string
    var rawData: Option<Table>
    var processedData: Option<Table>
    var features: Option<Table>
    var targets: Option<Features.Targets>
    /** Absent until `normalize_features` first runs (the attribute the source tests with `hasattr`). */
    var featuresNormalized: Option<Table>

    /**
     * Every stage's output is there only if its input stage has run, the
     * frames are well formed and the feature matrix has its shape.
     */
    ghost predicate Valid()
      reads this
    {
      && (rawData.Some? ==> WellFormed(rawData.value))
      && (processedData.Some? ==> WellFormed(processedData.value))
      && (features.Some? ==> FeatureFrame(features.value))
      && (processedData.Some? ==> rawData.Some?)
      && (features.Some? ==> processedData.Some?)
      && (targets.Some? ==> features.Some?)
      && (featuresNormalized.Some? ==> features.Some?)
    }

    constructor (path: string)
      ensures Valid()
      ensures dataPath == path
      ensures rawData.None? && processedData.None? && features.None? && targets.None? && featuresNormalized.None?
    {
      dataPath := path;
      rawData := None;
      processedData := None;
      features := None;
      targets := None;
      featuresNormalized := None;
    }

    /**
     * `load_data`: reads the file with the reader its suffix selects. A
     * reader failure (None) or an unknown suffix returns None and keeps the
     * previous raw frame.
     */
    method LoadData(read: Format -> Option<Table>) returns (r: Option<Table>)
      requires Valid()
      requires read(Csv).Some? ==> WellFormed(read(Csv).value)
      requires read(Excel).Some? ==> WellFormed(read(Excel).value)
      modifies this
      ensures Valid()
      ensures FormatOf(dataPath).None? ==> r.None?
      ensures FormatOf(dataPath).Some? ==> r == read(FormatOf(dataPath).value)
      ensures rawData == if r.Some? then r else old(rawData)
      ensures processedData == old(processedData) && features == old(features)
      ensures targets == old(targets) && featuresNormalized == old(featuresNormalized)
    {
      var format := FormatOf(dataPath);
      if format.None? {
        return None;
      }
      r := read(format.value);
      if r.Some? {
        rawData := r;
      }
    }

    /**
     * `clean_data`: the numeric loop, the categorical loop and the removal
     * of duplicate rows, on a copy of the raw frame.
     */
    method CleanData(parse: string -> Option<real>) returns (r: Option<Table>)
      requires Valid()
      modifies this
      ensures Valid()
      ensures r.None? <==> old(rawData).None?
      ensures r.Some? ==> r.value == Cleaning.Clean(old(rawData).value, parse)
      ensures processedData == if r.Some? then r else old(processedData)
      ensures rawData == old(rawData) && features == old(features)
      ensures targets == old(targets) && featuresNormalized == old(featuresNormalized)
    {
      if rawData.None? {
        return None;
      }
      var numeric := FillNumericColumns(rawData.value, parse);
      var data := FillCategoricalColumns(numeric);
      data := Table(data.columns, Dedup(data.rows));
      assert data == Cleaning.Clean(rawData.value, parse);
      processedData := Some(data);
      r := Some(data);
    }

    /**
     * `feature_engineering`: the feature matrix and, when the cleaned frame
     * has an amplitude column, new targets. A missing base feature raises
     * KeyError before anything is stored.
     */
    method FeatureEngineering() returns (r: FeatureOutcome)
      requires Valid()
      requires processedData.Some? ==> Features.RatiosDefined(processedData.value)
      modifies this
      ensures Valid()
      ensures old(processedData).None? ==> r == NotCleaned
      ensures old(processedData).Some? ==> r == EngineerStep(old(processedData).value, old(targets))
      ensures r.Engineered? ==> features == Some(r.features) && targets == r.targets
      ensures !r.Engineered? ==> features == old(features) && targets == old(targets)
      ensures rawData == old(rawData) && processedData == old(processedData)
      ensures featuresNormalized == old(featuresNormalized)
    {
      if processedData.None? {
        return NotCleaned;
      }
      r := EngineerStep(processedData.value, targets);
      if r.Engineered? {
        StoreFeatures(r.features, r.targets);
      }
    }

    /** Keeps a feature frame and the targets that go with it. */
    method StoreFeatures(f: Table, kept: Option<Features.Targets>)
      requires Valid() && processedData.Some? && FeatureFrame(f)
      modifies this
      ensures Valid()
      ensures features == Some(f) && targets == kept
      ensures rawData == old(rawData) && processedData == old(processedData)
      ensures featuresNormalized == old(featuresNormalized)
    {
      features, targets := Some(f), kept;
    }

    /**
     * `normalize_features`: the scaler's fit-and-transform of the feature
     * rows (a parameter here), under the feature matrix's column names.
     */
    method NormalizeFeatures(fitTransform: seq<Row> -> seq<Row>) returns (r: Option<Table>)
      requires Valid()
      modifies this
      ensures Valid()
      ensures r.None? <==> old(features).None?
      ensures r.Some? ==> r.value == Table(old(features).value.columns, fitTransform(old(features).value.rows))
      ensures featuresNormalized == if r.Some? then r else old(featuresNormalized)
      ensures rawData == old(rawData) && processedData == old(processedData)
      ensures features == old(features) && targets == old(targets)
    {
      if features.None? {
        return None;
      }
      var f := features.value;
      r := Some(Table(f.columns, fitTransform(f.rows)));
      featuresNormalized := r;
    }

    /**
     * `split_data`: needs features and targets; hands the scaled features
     * if they were ever computed, else the raw feature matrix, with the
     * amplitude target to the splitter.
     */
    method SplitData(testSize: real, seed: int) returns (r: Option<SplitRequest>)
      requires Valid()
      ensures r.None? <==> features.None? || targets.None?
      ensures r.Some? ==> && r.value.amplitude == targets.value.amplitude
                          && r.value.testSize == testSize && r.value.seed == seed
                          && r.value.features == if featuresNormalized.Some? then featuresNormalized.value else features.value
    {
      if features.None? || targets.None? {
        return None;
      }
      var chosen := if featuresNormalized.Some? then featuresNormalized.value else features.value;
      r := Some(SplitRequest(chosen, targets.value.amplitude, testSize, seed));
    }

    /** `split_data()` called without arguments: a quarter of the rows for testing, seed 42. */
    method SplitDataWithDefaults() returns (r: Option<SplitRequest>)
      requires Valid()
      ensures r.None? <==> features.None? || targets.None?
      ensures r.Some? ==> && r.value.amplitude == targets.value.amplitude
                          && r.value.testSize == 0.25 && r.value.seed == 42
                          && r.value.features == if featuresNormalized.Some? then featuresNormalized.value else features.value
    {
      r := SplitData(DefaultTestSize, DefaultSeed);
    }
  }
}
