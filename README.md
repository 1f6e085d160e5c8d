# Bridge vortex-induced vibration risk: a Dafny model

This project models the core of a system that assesses the risk of
vortex-induced vibration of bridges. It covers two parts.

- **The data pipeline**, `BridgeDataLoader`. The loader reads a CSV or Excel
  file of bridge records. It cleans the records: numeric fields get their
  median, categorical fields their mode or 未知, and duplicate rows are
  dropped. It then derives the feature matrix: eight base measurements, a
  one-hot encoding of the structure form (结构形式), a mitigation flag
  (有自证措施), the span-to-length ratio (跨长比) and the frequency ratio
  (频率比), with gaps set to 0. It also collects the targets. Last, it scales
  the features and prepares the train/test split.
- **The models**. These are the layer lists built by the single-task
  network `BridgeVortexNN` and the multi-task network
  `BridgeVortexMultiTaskNN`, and the keys of the multi-task forward pass.
  The `RiskAssessmentModel` wrapper turns a predicted amplitude into a risk
  tier (低风险 / 中风险 / 高风险) with a score. It writes a report on the
  first sample and gives the recommendations for each tier.

The modules are:

| file | module | content |
|---|---|---|
| wrappers.dfy | Wrappers | `Option`, `Result` |
| order.dfy | Order | Python's order on strings |
| tables.dfy | Tables | data frames: cells, named columns, selection, `fillna`, `drop_duplicates` |
| stats.dfy | Stats | pandas' `median` and `mode()[0]` |
| cleaning.dfy | Cleaning | `clean_data` as a function of the raw frame |
| features.dfy | Features | `feature_engineering` as functions of the cleaned frame |
| loader.dfy | Loader | the `BridgeDataLoader` class, whose stages update its fields |
| risk.dfy | Risk | `assess_risk`, `generate_report`, `_get_recommendations` |
| network.dfy | Network | layer lists of both networks, and a forward pass over widths only |

Each loader method of the `Loader.BridgeDataLoader` class is proved against a
function of the old state (`Cleaning.Clean`, `Features.FeatureMatrix`,
`Features.TargetsOf`). The properties the pipeline relies on are proved as
lemmas about those functions:

- cleaning is idempotent;
- no gap survives in a categorical column;
- the one-hot columns are exclusive;
- the feature list has no repeated name and never holds an amplitude;
- every feature cell built from a cleaned frame is a number.

Three loops become methods proved against those functions: the constructors'
layer loops, the loop of `assess_risk`, and the two fill loops of
`clean_data`.

## Model

| member | source | states |
|---|---|---|
| Order.LexLeReflexive | src/data_processing/data_loader.py:95 | Python's string order, by which `get_dummies` sorts categories, is reflexive |
| Order.LexLeTotal | src/data_processing/data_loader.py:95 | any two strings are comparable in that order |
| Order.LexLeAntisymmetric | src/data_processing/data_loader.py:95 | two strings each at most the other are equal |
| Order.LexLeTransitive | src/data_processing/data_loader.py:95 | the string order is transitive |
| Tables.IndexOf | src/data_processing/data_loader.py:61 | `col in data.columns`: None exactly when the name is absent, else a position holding that name |
| Tables.Column | src/data_processing/data_loader.py:62 | `data[col]`: one cell per row, the row's cell at that position |
| Tables.ColumnNamed | src/data_processing/data_loader.py:62 | `data[col]` by name: one cell per row |
| Tables.SetColumn | src/data_processing/data_loader.py:62-63 | assigning a column changes that column only; header and row count kept |
| Tables.AddColumn | src/data_processing/data_loader.py:101 | `data[name] = col` replaces the column of that name or appends one; other columns kept |
| Tables.AddColumnSelf | src/data_processing/data_loader.py:101 | the assigned column reads back under its name |
| Tables.AddColumnOther | src/data_processing/data_loader.py:101 | every other named column reads back unchanged |
| Tables.AddColumnNamed | src/data_processing/data_loader.py:96-111 | after the assignment, the names are the old names plus the new one; the new column reads back; every other named column is unchanged |
| Tables.Absent | src/data_processing/data_loader.py:114 | the requested names missing from the frame, in request order |
| Tables.AbsentAppend | src/data_processing/data_loader.py:114 | the missing names of a concatenated request are those of each part, concatenated |
| Tables.Select | src/data_processing/data_loader.py:114 | `data[feature_columns]` fails exactly when a name is absent, and reports the absent names; otherwise it has the requested header and each cell is taken from the named column |
| Tables.SelectMissing | src/data_processing/data_loader.py:114 | the selection fails exactly when the list of absent names is non-empty, and reports that list |
| Tables.FillMissing | src/data_processing/data_loader.py:114 | `fillna(v)` leaves no gap, puts v in every gap and keeps every present cell |
| Tables.Dedup | src/data_processing/data_loader.py:72 | `drop_duplicates` keeps exactly the distinct rows of the input, with no repeat and no more rows |
| Tables.DedupKeepsFirst | src/data_processing/data_loader.py:72 | the kept rows are in the order of their first occurrence |
| Tables.DedupOfDistinct | src/data_processing/data_loader.py:72 | a frame without repeated rows is unchanged |
| Tables.CellLeReflexive | src/data_processing/data_loader.py:69 | the tie-break order among mode candidates is reflexive |
| Tables.CellLeTotal | src/data_processing/data_loader.py:69 | that order is total |
| Tables.CellLeAntisymmetric | src/data_processing/data_loader.py:69 | that order is antisymmetric |
| Tables.CellLeTransitive | src/data_processing/data_loader.py:69 | that order is transitive |
| Stats.Insert | src/data_processing/data_loader.py:63 | insertion into a sorted list keeps it sorted and adds exactly the element (multiset) |
| Stats.SortReals | src/data_processing/data_loader.py:63 | the sorted values are a sorted permutation of the input |
| Stats.Median | src/data_processing/data_loader.py:63 | the median is undefined (NaN) exactly for a column without numbers |
| Stats.Middle | src/data_processing/data_loader.py:63 | the middle is the mean of the two middle values (one and the same value for an odd length), so for a sorted list it lies between them; MiddleSplitsHalf states what it splits |
| Stats.CountPermutation | src/data_processing/data_loader.py:63 | how many values lie on one side of m does not depend on their order |
| Stats.MiddleSplitsHalf | src/data_processing/data_loader.py:63 | at least half of a sorted list is at most its middle value, at least half is at least it; for odd length the middle is one of the values |
| Stats.MedianSplitsHalf | src/data_processing/data_loader.py:63 | the median splits the values into halves, whatever their order; for an odd count it is one of them |
| Stats.ModeAmong | src/data_processing/data_loader.py:69 | the winner among the first n values is one of them, and beats or ties each while being smallest among the ties |
| Stats.Mode | src/data_processing/data_loader.py:69 | `mode()` is empty exactly for an empty column; otherwise `mode()[0]` is the most frequent value, smallest among ties |
| Stats.ModeUnique | src/data_processing/data_loader.py:69 | that value is unique |
| Cleaning.ColumnListsDistinct | src/data_processing/data_loader.py:56-66 | the two column lists have no repeats and share no name |
| Cleaning.Coerce | src/data_processing/data_loader.py:62 | `to_numeric(errors='coerce')` yields a number or a gap and keeps numbers and gaps; a text becomes the number it reads as, or a gap when it does not read as one |
| Cleaning.CoerceColumn | src/data_processing/data_loader.py:62 | the coercion applied cell by cell |
| Cleaning.Numbers | src/data_processing/data_loader.py:63 | each number occurs in the result as often as it occurs as a cell of the column, so the result is empty exactly when no cell is a number |
| Cleaning.Present | src/data_processing/data_loader.py:69 | the non-missing cells hold no gap, and every other value occurs in them as often as in the column |
| Cleaning.FillNumericColumn | src/data_processing/data_loader.py:62-63 | a numeric column after coercion and filling: numbers and gaps only; coerced numbers kept; gaps get the median; all gaps when there is no number |
| Cleaning.CategoricalFill | src/data_processing/data_loader.py:69 | the fill value is the mode of the present values, or 未知 when there is none; never a gap |
| Cleaning.FillCategoricalColumn | src/data_processing/data_loader.py:69 | gaps get the fill value and other cells are kept |
| Cleaning.CleanedColumn | src/data_processing/data_loader.py:60-69 | the rule cleaning applies to the column of a given name keeps its length; definition of the per-name rule, whose contents are stated by FillNumericColumn, FillCategoricalColumn and ImputeByColumn |
| Cleaning.ImputeNumeric | src/data_processing/data_loader.py:61-63 | filling one numeric column keeps the header and the row count |
| Cleaning.ImputeCategorical | src/data_processing/data_loader.py:68-69 | filling one categorical column keeps the header and the row count |
| Cleaning.ImputeNumericColumns | src/data_processing/data_loader.py:60-63 | the numeric loop keeps the header and the row count |
| Cleaning.ImputeCategoricalColumns | src/data_processing/data_loader.py:67-69 | the categorical loop keeps the header and the row count |
| Cleaning.ImputeNumericStep | src/data_processing/data_loader.py:60-63 | one more pass of the numeric loop fills the next listed name in the frame left by the earlier passes |
| Cleaning.ImputeCategoricalStep | src/data_processing/data_loader.py:67-69 | the same for the categorical loop |
| Cleaning.Impute | src/data_processing/data_loader.py:56-69 | both fill loops keep the header and the row count |
| Cleaning.Clean | src/data_processing/data_loader.py:45-76 | cleaning keeps the header and the well-formedness of the frame |
| Cleaning.ImputeNumericColumnsByColumn | src/data_processing/data_loader.py:60-63 | the numeric loop fills a column exactly when its name is listed, and otherwise leaves it |
| Cleaning.ImputeCategoricalColumnsByColumn | src/data_processing/data_loader.py:67-69 | the same for the categorical loop |
| Cleaning.ImputeByColumn | src/data_processing/data_loader.py:56-69 | each filled column is its raw column cleaned by the rule for its name; medians and modes come from the raw columns |
| Cleaning.NumericImputed | src/data_processing/data_loader.py:60-63 | each cell of a listed numeric column after the fill loops: the median of the coerced numbers in a gap when there is one, else the coerced cell |
| Cleaning.CleanRows | src/data_processing/data_loader.py:72 | the cleaned rows are distinct, no more than the raw rows, exactly the filled rows, in order of first occurrence |
| Cleaning.NumericCleaning | src/data_processing/data_loader.py:60-72 | after cleaning, a listed numeric column holds only numbers when its coerced raw column had one, and is all gaps otherwise |
| Cleaning.CategoricalImputed | src/data_processing/data_loader.py:67-69 | each cell of a listed categorical column after the fill loop: the column's mode or 未知 in a gap, else the cell itself |
| Cleaning.CategoricalCleaning | src/data_processing/data_loader.py:67-69 | a listed categorical column after cleaning: gaps hold the mode or 未知, other cells kept, no gap left |
| Cleaning.CleanedNumericColumn | src/data_processing/data_loader.py:60-63 | no cell of a listed numeric column of a cleaned frame is a text |
| Cleaning.UnlistedColumnsUntouched | src/data_processing/data_loader.py:52-74 | cleaning keeps the header and every column in neither list |
| Cleaning.FillNumericSettled | src/data_processing/data_loader.py:62-63 | a column wholly numbers or wholly missing is unchanged by the numeric fill |
| Cleaning.CleanedColumnSettled | src/data_processing/data_loader.py:60-69 | a column with nothing to fill under its name's rule is unchanged by that rule |
| Cleaning.ImputeSettledColumn | src/data_processing/data_loader.py:56-69 | every column of a settled frame is unchanged by the fill loops |
| Cleaning.CleanOfSettled | src/data_processing/data_loader.py:45-76 | a frame with nothing to fill and no duplicates is unchanged by cleaning |
| Cleaning.CleanSettles | src/data_processing/data_loader.py:45-76 | every cleaned frame is settled |
| Cleaning.CleanIdempotent | src/data_processing/data_loader.py:45-76 | cleaning twice is cleaning once |
| Features.InsertLabel | src/data_processing/data_loader.py:95 | inserting a label into the sorted category list keeps it sorted and without repeats, and adds exactly that label |
| Features.Categories | src/data_processing/data_loader.py:95 | the categories are sorted, without repeats, and are exactly the texts of the column; gaps get none |
| Features.Indicator | src/data_processing/data_loader.py:95 | a dummy column is 1 where the row has the label and 0 elsewhere |
| Features.IndicatorNames | src/data_processing/data_loader.py:95-97 | one name `结构_<label>` per category, in category order |
| Features.IndicatorNamesSnoc | src/data_processing/data_loader.py:95-97 | the names of the categories with one more at the end are the earlier names plus its name |
| Features.IndicatorNameHead | src/data_processing/data_loader.py:95 | each dummy name starts with 结构_ and ends with its label |
| Features.IndicatorNameInjective | src/data_processing/data_loader.py:95 | different labels give different dummy names |
| Features.FixedNames | src/data_processing/data_loader.py:87-121 | no fixed name looks like a dummy name; the flag and the ratios are not base features, not read columns and not targets, and they differ from each other |
| Features.IndicatorNamesDistinct | src/data_processing/data_loader.py:95-97 | different categories give different dummy names |
| Features.AddIndicators | src/data_processing/data_loader.py:96 | the concatenation keeps the frame well formed and the row count |
| Features.AddIndicatorsNames | src/data_processing/data_loader.py:96 | a name is in the concatenated frame exactly when it was a column before or is a dummy name |
| Features.AddIndicatorsKeeps | src/data_processing/data_loader.py:96 | a column that is not a dummy name is kept unchanged by the concatenation |
| Features.DummyKept | src/data_processing/data_loader.py:96 | adding one dummy column keeps the dummy column of every other label |
| Features.AddIndicatorsDummy | src/data_processing/data_loader.py:96 | each category's dummy column is in the concatenated frame and holds its indicator |
| Features.AddIndicatorsNamed | src/data_processing/data_loader.py:96 | after the concatenation, the names are the old ones plus the dummy names; each dummy column is its indicator; other columns are unchanged |
| Features.StructureCategories | src/data_processing/data_loader.py:93-97 | the categories of 结构形式, sorted and distinct, or none when the frame lacks the column |
| Features.MitigationFlags | src/data_processing/data_loader.py:101 | the flag is 0 exactly where the measure is 无 and 1 for every other row, a gap included |
| Features.Quotient | src/data_processing/data_loader.py:105-111 | a cell of `a / b` is a number exactly when both sides are numbers, and then it times the divisor gives the dividend |
| Features.Quotients | src/data_processing/data_loader.py:105-111 | the quotient taken row by row |
| Features.RatiosDefined | src/data_processing/data_loader.py:105-111 | definition of when both ratio columns are accepted: no text in them (pandas raises TypeError) and no zero denominator (pandas yields ±inf for a non-zero numerator, or NaN, filled to 0.0, for a zero or missing numerator); RatiosDefinedWithoutText and Loader.CleanedRatiosDefined characterise it |
| Features.ExtendsTransitive | src/data_processing/data_loader.py:93-111 | two successive column additions add the union of their names and keep every other column |
| Features.Dummied | src/data_processing/data_loader.py:93-97 | the dummy step keeps the frame well formed and the row count |
| Features.Flagged | src/data_processing/data_loader.py:99-102 | the flag step keeps the frame well formed and the row count |
| Features.SpanRatioAdded | src/data_processing/data_loader.py:105-107 | the span-ratio step keeps the frame well formed and the row count |
| Features.Engineer | src/data_processing/data_loader.py:84-111 | the augmented frame is well formed with one row per cleaned row |
| Features.GeneratedNames | src/data_processing/data_loader.py:97-111 | no added name is a base feature, a column the step reads or a target, and the added names are distinct |
| Features.DummiedColumns | src/data_processing/data_loader.py:93-97 | the dummy step adds exactly the dummy names, each holding its indicator, and keeps the other columns |
| Features.FlaggedColumns | src/data_processing/data_loader.py:99-102 | the flag step adds 有自证措施, which holds the flags, when 自证措施 exists, and keeps the other columns |
| Features.SpanRatioColumns | src/data_processing/data_loader.py:105-107 | the span step adds 跨长比 = 跨度_m / 长度_m when both exist, and keeps the other columns |
| Features.FrequencyRatioColumns | src/data_processing/data_loader.py:109-111 | the frequency step adds 频率比 = 二阶频率_Hz / 一阶频率_Hz when both exist, and keeps the other columns |
| Features.EngineerExtends | src/data_processing/data_loader.py:84-111 | the augmented frame holds the cleaned frame's column under every name not generated |
| Features.EngineerDummies | src/data_processing/data_loader.py:93-111 | each dummy column survives the later steps unchanged |
| Features.EngineerFlag | src/data_processing/data_loader.py:99-111 | the flag column survives the ratio steps |
| Features.EngineerSpanRatio | src/data_processing/data_loader.py:105-111 | the span ratio survives the frequency step |
| Features.EngineerFrequencyRatio | src/data_processing/data_loader.py:109-111 | the frequency ratio is in the augmented frame |
| Features.GeneratedColumns | src/data_processing/data_loader.py:93-111 | definition of the names the step appends, in order; GeneratedNames states that they are distinct and clash with no base, read or target name |
| Features.FeatureColumns | src/data_processing/data_loader.py:87-111 | definition of `feature_columns` before the selection; FeatureColumnsShape and FeatureColumnsCount state its layout |
| Features.FeatureColumnsShape | src/data_processing/data_loader.py:87-111 | the feature list: its length is the sum of the parts; the eight base names come first, then the dummy names; no repeats; no amplitude column |
| Features.FeatureColumnsCount | src/data_processing/data_loader.py:87-111 | the feature list holds eight base names, one dummy per category, then the flag and ratio names that were added |
| Features.ZeroFilled | src/data_processing/data_loader.py:114 | `fillna(0)` on a column leaves no gap, keeps present cells and puts 0 in gaps |
| Features.FeatureMatrix | src/data_processing/data_loader.py:87-114 | definition of `data[feature_columns].fillna(0)`; FeatureMatrixFailure, FeatureMatrixColumns, OneHot and FeaturesAreNumbers state its properties |
| Features.EngineeredAbsent | src/data_processing/data_loader.py:84-114 | the feature names missing from the augmented frame are exactly the base features missing from the cleaned frame |
| Features.FeatureMatrixMissing | src/data_processing/data_loader.py:114 | the selection fails exactly when some base feature is absent from the cleaned frame, and reports the absent ones |
| Features.FeatureMatrixFailure | src/data_processing/data_loader.py:114 | the selection fails exactly when a base feature is not a column of the cleaned frame, and then reports those names in list order |
| Features.FeatureMatrixColumns | src/data_processing/data_loader.py:114 | the feature matrix has the feature list as header, one row per cleaned row and no gap; each column is the augmented column with gaps set to 0 |
| Features.FeatureMatrixSize | src/data_processing/data_loader.py:114 | the feature matrix is well formed, has the feature list as header and one row per cleaned row |
| Features.FeatureCell | src/data_processing/data_loader.py:114 | a feature cell is the augmented frame's cell under that name, or 0 for a gap |
| Features.DummyColumnName | src/data_processing/data_loader.py:95-97 | the k-th dummy name comes right after the eight base features and is named after the k-th category |
| Features.DummyFeature | src/data_processing/data_loader.py:95-114 | the k-th dummy feature is named after the k-th category and is that category's indicator |
| Features.OneHot | src/data_processing/data_loader.py:93-114 | a row whose structure form is a label has, across its dummy columns, 1 under that label and 0 under every other label |
| Features.OneHotRow | src/data_processing/data_loader.py:95 | the one-hot pattern of the k-th of n categories: 1 at k, 0 elsewhere |
| Features.OneHotAt | src/data_processing/data_loader.py:93-114 | the dummy columns of a row labelled with the k-th category form the one-hot pattern of k |
| Features.DummiesPrefix | src/data_processing/data_loader.py:93-114 | the same for the first m dummy columns, by induction on m |
| Features.DummyCellOneHot | src/data_processing/data_loader.py:95-114 | the j-th dummy of a row labelled with the k-th category is 1 when j is k and 0 otherwise |
| Features.LabelHasCategory | src/data_processing/data_loader.py:95 | every label of 结构形式 is one of its categories |
| Features.MitigationFlagValues | src/data_processing/data_loader.py:99-114 | in the matrix, the flag follows the dummies and is 0 iff the measure is 无, else 1 |
| Features.SpanRatioValues | src/data_processing/data_loader.py:105-114 | the span ratio follows the flag and is span/length where both are numbers, else 0 |
| Features.SpanRatioName | src/data_processing/data_loader.py:105-107 | 跨长比 follows the dummies and the flag in the feature list |
| Features.SpanRatioCell | src/data_processing/data_loader.py:105-114 | the augmented span ratio with gaps set to 0 is span/length where both are numbers, else 0 |
| Features.FrequencyRatioValues | src/data_processing/data_loader.py:109-114 | the frequency ratio is last and is second/first where both are numbers, else 0 |
| Features.FrequencyRatioName | src/data_processing/data_loader.py:109-111 | 频率比 ends the feature list |
| Features.FrequencyRatioCell | src/data_processing/data_loader.py:109-114 | the augmented frequency ratio with gaps set to 0 is second/first where both are numbers, else 0 |
| Features.BaseFeatureValues | src/data_processing/data_loader.py:87-114 | base features carry the cleaned frame's values with gaps set to 0 |
| Features.RatiosDefinedWithoutText | src/data_processing/data_loader.py:105-111 | when the ratio columns hold no text, both ratios are defined exactly when no denominator cell is 0 |
| Features.BaseCellNumeric | src/data_processing/data_loader.py:87-114 | a base feature cell is a number when the cleaned base columns hold no text |
| Features.GeneratedCellNumeric | src/data_processing/data_loader.py:93-114 | every added feature cell is a number |
| Features.FlagOrRatioCellNumeric | src/data_processing/data_loader.py:99-114 | an added cell after the dummies is a number |
| Features.FlagCellNumeric | src/data_processing/data_loader.py:99-114 | the flag cell is a number |
| Features.RatioCellNumeric | src/data_processing/data_loader.py:105-114 | a ratio cell is a number |
| Features.SpanCellNumeric | src/data_processing/data_loader.py:105-114 | the span-ratio cell is a number |
| Features.FrequencyCellNumeric | src/data_processing/data_loader.py:109-114 | the frequency-ratio cell is a number |
| Features.FeatureCellNumeric | src/data_processing/data_loader.py:87-114 | every feature cell is a number when the cleaned base columns hold no text |
| Features.FeaturesAreNumbers | src/data_processing/data_loader.py:87-114 | every cell of the feature matrix is then a number |
| Features.SpanRatioExample | src/data_processing/data_loader.py:105-107 | on a four-row frame, the ratios are 0.1, 0.2, 0.2 and 0.2 |
| Features.SpanLengthColumns | src/data_processing/data_loader.py:105-111 | the example frame has span and length but no frequencies |
| Features.MissingBaseExample | src/data_processing/data_loader.py:114 | a frame with only span and length reports the other six base features as missing |
| Features.TargetsOf | src/data_processing/data_loader.py:117-122 | targets exist exactly when 振幅_cm exists; then they hold that column, and 涡振发生 and 风险等级 exactly when present |
| Features.TargetsFromAugmented | src/data_processing/data_loader.py:117-122 | the targets read from the augmented frame are the cleaned frame's own columns |
| Loader.FormatOf | src/data_processing/data_loader.py:32-37 | a path ending in .csv selects the CSV reader, .xlsx the Excel reader, and any other suffix fails |
| Loader.FormatExamples | src/data_processing/data_loader.py:32-37 | the suffix test is case-sensitive and exact (.CSV and .xls fail) |
| Loader.EndsWith | src/data_processing/data_loader.py:32-34 | definition of `str.endswith`; FormatOf and FormatExamples state how it picks the reader |
| Loader.FillNumericColumns | src/data_processing/data_loader.py:60-63 | the numeric loop computes the numeric imputation of the listed columns |
| Loader.FillCategoricalColumns | src/data_processing/data_loader.py:67-69 | the categorical loop computes the categorical imputation |
| Loader.CleanedRatiosDefined | src/data_processing/data_loader.py:56-111 | on a cleaned frame, both ratios are defined exactly when no denominator cell is 0 |
| Loader.CleanedFeaturesAreNumbers | src/data_processing/data_loader.py:45-114 | every cell of a feature matrix built from a cleaned frame is a number |
| Loader.FeatureMatrixIsFrame | src/data_processing/data_loader.py:114 | a feature matrix is a frame the loader can store |
| Loader.EngineerStep | src/data_processing/data_loader.py:78-125 | the outcome of the feature step on a cleaned frame: missing names exactly when the selection fails; otherwise the feature matrix and the targets, or the previous targets without 振幅_cm |
| Loader.BridgeDataLoader.constructor | src/data_processing/data_loader.py:14-27 | a new loader has the path and no stage output |
| Loader.BridgeDataLoader.LoadData | src/data_processing/data_loader.py:29-43 | returns the reader's frame for the path's suffix and stores it; an unknown suffix or a reader failure returns None and keeps the old raw frame |
| Loader.BridgeDataLoader.CleanData | src/data_processing/data_loader.py:45-76 | without raw data it returns None and changes nothing; otherwise it stores and returns the cleaned raw frame |
| Loader.BridgeDataLoader.FeatureEngineering | src/data_processing/data_loader.py:78-125 | without cleaned data it returns None; a missing base feature raises KeyError with the absent names and stores nothing; otherwise it stores the feature matrix, and the targets only when 振幅_cm exists |
| Loader.BridgeDataLoader.StoreFeatures | src/data_processing/data_loader.py:114-122 | stores the feature matrix and the targets and leaves the raw, cleaned and scaled frames as they were |
| Loader.BridgeDataLoader.NormalizeFeatures | src/data_processing/data_loader.py:127-140 | without features it returns None; otherwise it stores the scaled rows under the feature names |
| Loader.BridgeDataLoader.SplitData | src/data_processing/data_loader.py:142-155 | without features or targets it returns None; otherwise it splits the scaled features if any were ever computed, else the raw ones, against the amplitude target |
| Loader.BridgeDataLoader.SplitDataWithDefaults | src/data_processing/data_loader.py:142-155 | `split_data()` without arguments: the same outcome with test size 0.25 and seed 42 |
| Risk.Min | src/models/bridge_vortex_model.py:214 | `min` is a lower bound that is one of its arguments |
| Risk.Classify | src/models/bridge_vortex_model.py:205-215 | 低风险 iff a < low, 中风险 iff low <= a < medium, 高风险 iff a >= medium; scores lie in [0.1,0.4), [0.4,0.8) and [0.8,1.0] for a >= 0; the score is 1.0 from the high breakpoint on |
| Risk.AssessRisk | src/models/bridge_vortex_model.py:195-224 | one score and one label per prediction, in order, each the classification of that prediction |
| Risk.Recommendations | src/models/bridge_vortex_model.py:240-263 | 3, 4 and 5 recommendations for the three tiers; the single referral for any other label, and only for such labels |
| Risk.GenerateReport | src/models/bridge_vortex_model.py:226-238 | reports sample 0 with its classification and that tier's 3 to 5 recommendations; no predictions means no report |
| Risk.TierIgnoresHighBreakpoint | src/models/bridge_vortex_model.py:177-215 | the tier does not depend on the high breakpoint |
| Risk.DefaultTiers | src/models/bridge_vortex_model.py:177-215 | with the default thresholds: 低风险 below 1 cm, 中风险 on [1, 10), 高风险 from 10 cm |
| Risk.DefaultBoundaryScores | src/models/bridge_vortex_model.py:177-215 | default scores at 0.5, 1, 10 and 25 cm, and 1.0 from 40 cm on |
| Risk.DefaultScoreMonotoneAndContinuous | src/models/bridge_vortex_model.py:205-215 | the default score never decreases and grows at most 0.3 per cm, so it has no jump at the breakpoints |
| Risk.RecommendationsGrowWithAmplitude | src/models/bridge_vortex_model.py:205-263 | a larger amplitude never gets fewer recommendations |
| Network.Propagate | src/models/bridge_vortex_model.py:58-60 | definition of a shape-level pass through a module list; PropagateAppend, BlocksChain and SingleTaskShape state its results |
| Network.Block | src/models/bridge_vortex_model.py:35-40 | definition of the modules one hidden width adds; BlockChain and BlockAt state their shape |
| Network.Blocks | src/models/bridge_vortex_model.py:35-40 | definition of the list the hidden-width loop builds; BlocksLength, BlocksPrefix and BlocksChain state its shape |
| Network.PropagateAppend | src/models/bridge_vortex_model.py:45 | running two layer lists in sequence is running their concatenation |
| Network.BlockChain | src/models/bridge_vortex_model.py:36-39 | one hidden block takes the previous width to the hidden width |
| Network.BlocksChain | src/models/bridge_vortex_model.py:35-40 | the hidden blocks take the input width to the last hidden width |
| Network.BlocksLength | src/models/bridge_vortex_model.py:35-40 | four modules per hidden width with batch norm, three without |
| Network.BlocksPrefix | src/models/bridge_vortex_model.py:35-40 | the blocks of a prefix of the widths are a prefix of the list |
| Network.BlocksStep | src/models/bridge_vortex_model.py:35-40 | one more hidden width appends one more block after the blocks of the earlier widths |
| Network.BlockAt | src/models/bridge_vortex_model.py:35-40 | the k-th block is Linear(previous width, k-th width), ReLU, [BatchNorm], Dropout |
| Network.SingleTaskShape | src/models/bridge_vortex_model.py:31-45 | BridgeVortexNN has 4·|hidden|+1 modules; the k-th block is as written; the last module maps to the output width; widths chain from input to output |
| Network.SingleTaskBlock | src/models/bridge_vortex_model.py:35-40 | modules 4k to 4k+3 of BridgeVortexNN are Linear, ReLU, BatchNorm and Dropout for the k-th hidden width |
| Network.SingleTaskLayers | src/models/bridge_vortex_model.py:31-45 | definition of BridgeVortexNN's module list; SingleTaskShape states its shape |
| Network.BuildSingleTask | src/models/bridge_vortex_model.py:31-45 | the constructor's loop builds that layer list |
| Network.BranchShape | src/models/bridge_vortex_model.py:95-131 | a branch has 3·|hidden|+1 modules, starts from the trunk width and ends at its output width |
| Network.Branch | src/models/bridge_vortex_model.py:94-131 | definition of one branch's module list; BranchShape states its shape |
| Network.MultiTaskLayers | src/models/bridge_vortex_model.py:82-131 | definition of the trunk and the three branches; MultiTaskHeads states their shape |
| Network.Forward | src/models/bridge_vortex_model.py:144-158 | definition of `forward` on widths; MultiTaskHeads states its keys and widths |
| Network.MultiTaskHeads | src/models/bridge_vortex_model.py:82-158 | the trunk ends at the last shared width and every branch starts there; the forward pass yields exactly the keys amplitude, occurrence and risk, with widths 1, 2 and the class count |
| Network.BuildMultiTask | src/models/bridge_vortex_model.py:82-131 | the constructor's four loops build that network |
| Network.DefaultShapes | src/models/bridge_vortex_model.py:13-131 | at the default arguments BridgeVortexNN has 13 modules and maps to width 1; the multi-task trunk has 8 modules ending at 32, each branch 4, and forward yields widths 1, 2 and 3 |

## Left out

- Reading files. The CSV and Excel readers are a parameter of `LoadData`. They are assumed to return frames with distinct column names. A reader's exception is the parameter returning None.
- Console output. Every `print` in the loader is omitted.
- `pd.to_numeric`'s reading of a text as a number. It is the parameter `parse`.
- `StandardScaler.fit_transform` is a parameter of `NormalizeFeatures`. The mean and variance arithmetic is not modelled.
- `train_test_split` is not modelled. `SplitData` returns what it would hand the splitter: the features, the amplitude target, the test size and the seed.
- `LabelEncoder` is created in the constructor and never used, so it is not modelled.
- `save_processed_data` writes a file, so it is not modelled.
- Tensor arithmetic, weights, the initialisation of both networks, and `predict_amplitude` are not modelled. Layers are kept as their kinds and widths; predictions are given to `AssessRisk` and `GenerateReport` as a sequence of reals.
- Floating point. Reals are exact, so rounding in the scores and the median is not modelled.
- Loader.BridgeDataLoader.FeatureEngineering: requires both ratios to be defined (`Features.RatiosDefined`). That rules out a text in a ratio column, where pandas raises TypeError, and every zero denominator. With a zero denominator pandas yields ±inf for a non-zero numerator. For a zero or missing numerator it yields NaN, which the `fillna(0)` of the feature matrix turns into an ordinary 0.0, so the model also leaves out those finite cases. `Loader.CleanedRatiosDefined` shows that after cleaning only the zero denominator remains.
- Features.Categories: only text labels get a dummy column. Non-text labels of 结构形式 (pandas would render them as strings) are not modelled. Dummies are numbers 1/0 rather than booleans.
- Features.AddIndicators: a dummy name equal to an existing column replaces that column. pandas' `concat` would keep both, but no dummy name can equal a column the pipeline reads (`Features.FixedNames`).
- Stats.Mode: ties between a number and a text put the number first. pandas does not fix an order for mixed types.
- Risk.GenerateReport: with no predictions the code fails with an uncaught IndexError when it reads element `[0]` (src/models/bridge_vortex_model.py:232-235). The model returns None instead.
- Cleaning.FillNumericColumn: `fillna(..., inplace=True)` on `data[col]` follows pandas' behaviour before copy-on-write, in which the fill reaches the frame.
- Loader.BridgeDataLoader.SplitData: `features_normalized` is never cleared, so after a later feature step `split_data` may use stale scaled features. The model keeps this behaviour, as the code does.
- Risk.Classify: the 高风险 tier starts at the medium breakpoint (10 cm), as the code does. The comment on the thresholds says 40 cm, which is only where the score reaches 1.0.
- Features.FeatureMatrixFailure: a missing base feature raises KeyError in the code, which this model follows. Skipping such a column is not modelled.
