# dualPredictor data preprocessing, modelled in Dafny

This project models the two functions in `dualPredictor/df_preprocess.py`
that prepare tabular data for the dual predictor:

- `check_df_forms(df_train, df_test)` is schema alignment. When the two
  column lists differ, both frames are cut down to the columns they share,
  in the training frame's order. The numbers of kept and dropped columns are
  reported (module `Align`).
- `data_preprocessing(df, target_col, id_col, drop_cols, scaler, imputer)`
  is the preprocessing pipeline (module `Preprocess`). In order, it:
  1. drops the requested columns;
  2. in fit mode (`scaler is None`), drops the rows whose target is missing;
  3. moves the id column into the row index;
  4. splits off the target;
  5. label-encodes the object columns;
  6. standard-scales the numeric columns;
  7. imputes what is still missing with a KNN imputer;
  8. puts the row labels of the frame back on the result.

It returns the features, the target, the scaler and the imputer.

Supporting modules:

- `Frame` is the data-frame abstraction: named columns with an explicit
  Numeric/Categorical tag, row labels and cells that are `Missing`,
  `Num(real)` or `Text(string)`. It also holds the sequence utilities.
- `LabelEncoding` is sklearn's `LabelEncoder`. Its classes are the sorted
  distinct strings, with NaN last.
- `Lex` is Python's string order.
- `Results` holds `Option` and `Result`.

StandardScaler's statistics, its scaling of a single value and the KNN
imputer's neighbour estimate are numerical work. They enter the model as the
uninterpreted functions of a `Numerics` record. The model states what
surrounds them: which data they are fit on, which columns and cells they
touch, the errors below, and what is handed back. The inputs on which the
library raises other errors, or behaves differently, are listed under
"Left out".

The model represents five kinds of error raised by pandas and scikit-learn.
Each is an `Error` value:

- `MissingColumns` is pandas' `KeyError` for an absent label.
- `ScalerRejects` is StandardScaler's `ValueError`. It is raised for an
  empty numeric block, or for a block whose columns differ from those the
  scaler was fit on.
- `InvalidImputer` is KNNImputer's parameter check at `fit_transform`. It
  rejects `n_neighbors` below 1, `weights` other than "uniform" and
  "distance", and `metric` other than "nan_euclidean".
- `ImputerRejectsNaN` is KNNImputer's input check. An imputer whose
  `missing_values` is not NaN raises a `ValueError` when the matrix it is
  given holds a NaN.
- `ImputedShapeMismatch` is the `DataFrame` constructor's shape error. It
  arises when a supplied imputer with `keep_empty_features=False` drops an
  all-missing column.

Behaviour of the code worth knowing:

- The label encoding is rebuilt from the rows of every call. No mapping is
  persisted, so the same string can receive different codes in a fit call
  and an apply call. `LabelEncoding.CodesDependOnColumn` exhibits this.
- A supplied imputer is refit on the data of the call (`fit_transform`).
  Its earlier fitted state is never used; see
  `Preprocess.SuppliedImputerRefit`.
- `set_index` does not check that the id values are unique. A repeated id is
  therefore not an error.
- When there is no numeric feature, StandardScaler raises, so the call
  fails with `ScalerRejects`.
- A fresh StandardScaler fit on a numeric column with no observed value
  has NaN statistics for it, so every cell of that column leaves the scaler
  as NaN. `Scaler.blank` records those columns; a supplied scaler fit on
  such a column does the same to later data (`Preprocess.ScaleCell`).
- KNNImputer fills the cells equal to its `missing_values`. With the
  default NaN these are the NaN cells. With another marker only the cells
  holding it are filled, and any NaN in the matrix is an error.
- The imputed frame is rebuilt with positional labels 0, 1, 2, and so on.
  `X.set_index(df.index)` then puts back the labels of `df` by position, so
  the features and the target share their labels (`Preprocess.Process`).

## Model

| member | source | states |
|---|---|---|
| Align.Common | dualPredictor/df_preprocess.py:19 | the common names are exactly the training names that the test frame also has; they are distinct and in training order |
| Align.CheckForms | dualPredictor/df_preprocess.py:12-29 | equal column lists return both frames unchanged, and only then is the report `Unchanged`; otherwise both frames hold exactly the shared columns, in training order, with their cells, kinds, labels and row counts; kept plus dropped equals each side's column count, and the dropped count is the number of names the other side lacks |
| Align.Restricted | dualPredictor/df_preprocess.py:18-29 | the unequal-columns branch: both frames hold exactly the shared names, in training order, with their cells, kinds, labels and row counts, and the report counts the kept columns and the names each side lacks |
| Align.KeptCounts | dualPredictor/df_preprocess.py:26-27 | the kept count plus each side's dropped count is that side's column count |
| Align.Idempotent | dualPredictor/df_preprocess.py:14-16 | aligning the aligned frames again takes the equal-columns branch and changes nothing |
| LabelEncoding.Insert | dualPredictor/df_preprocess.py:67-68 | inserting a string into a sorted class list keeps it sorted and adds exactly that string |
| LabelEncoding.Classes | dualPredictor/df_preprocess.py:67-68 | the classes are sorted in Python string order and are exactly the strings occurring in the column |
| LabelEncoding.Encode | dualPredictor/df_preprocess.py:66-68 | one code per cell, each below the class count; equal codes exactly for equal cells; codes follow string order, with NaN after every string; every code below the class count is used |
| LabelEncoding.CodesOneToOne | dualPredictor/df_preprocess.py:67-68 | against a duplicate-free list of the column's strings, codes stay within range and are equal exactly when the cells are equal |
| LabelEncoding.CodesMonotone | dualPredictor/df_preprocess.py:67-68 | against the sorted classes, a smaller string gets a smaller code and NaN gets a code above every string |
| LabelEncoding.CodesOnto | dualPredictor/df_preprocess.py:67-68 | every code below the class count is the code of some cell |
| LabelEncoding.ClassCountIsDistinctValues | dualPredictor/df_preprocess.py:67-68 | the number of classes is the number of distinct cell values, NaN included |
| LabelEncoding.CodesDependOnColumn | dualPredictor/df_preprocess.py:66-68 | the code of "b" is 1 in a column that also holds "a", but 0 in a column holding only "b": the encoding is not stable across calls |
| Frame.SelectNamed | dualPredictor/df_preprocess.py:22-23 | `df[common_cols]`: the result has exactly the listed columns, in the listed order, with their kinds, cells and row labels |
| Frame.Drop | dualPredictor/df_preprocess.py:42 | dropping a set of names keeps the other columns in order, with their kinds, cells and row labels |
| LabelEncoding.ClassCount | dualPredictor/df_preprocess.py:67-68 | a column of strings and NaN has no class exactly when it is empty |
| LabelEncoding.Code | dualPredictor/df_preprocess.py:67-68 | a cell's code is at most the number of strings, and a listed string's code is its position in the list |
| Preprocess.Prepare | dualPredictor/df_preprocess.py:39-54 | the prepared features are well formed and share their row labels and row count with the target |
| Preprocess.NumericColumns | dualPredictor/df_preprocess.py:62 | `num_cols` lists exactly the numeric columns of `X` |
| Preprocess.CategoricalColumns | dualPredictor/df_preprocess.py:63 | `cat_cols` lists exactly the object columns of `X` |
| Preprocess.Scaled | dualPredictor/df_preprocess.py:73-75 | shape only: scaling keeps the column list, the row labels and the row count |
| Preprocess.Refit | dualPredictor/df_preprocess.py:79-85 | the imputer that gets fit is fit on the given matrix; with none supplied it has 2 neighbours, keeps empty columns and has the default arguments; otherwise it has the supplied imputer's arguments |
| Preprocess.Imputed | dualPredictor/df_preprocess.py:81-85 | shape only: the rebuilt frame keeps the column list and row count, and carries positional labels 0, 1, 2, ... |
| Preprocess.Transform | dualPredictor/df_preprocess.py:65-85 | encoding, scaling and imputation never raise a KeyError; a successful one returns a scaler over `num_cols` and one row per row of `X`, the imputer being fit on as many rows |
| Preprocess.DropColumns | dualPredictor/df_preprocess.py:41-42 | fails exactly when a requested name is absent, with an error listing exactly the absent names; otherwise the remaining columns keep their order, kinds, labels and cells |
| Preprocess.PresentRows | dualPredictor/df_preprocess.py:45-46 | the row positions with an observed target, increasing, each one present exactly when its target is observed |
| Preprocess.MissingRows | dualPredictor/df_preprocess.py:45-46 | the row positions whose target is missing, each one present exactly when its target is missing |
| Preprocess.PresentRowsCount | dualPredictor/df_preprocess.py:45-46 | the fit-mode row filter keeps the row count less the number of rows whose target is missing |
| Preprocess.DropMissingTarget | dualPredictor/df_preprocess.py:45-46 | raises a KeyError exactly when the target column is absent; otherwise keeps exactly the rows with an observed target, with their labels, in order |
| Preprocess.SetIndex | dualPredictor/df_preprocess.py:49-50 | raises a KeyError exactly when the id column is absent; otherwise each row is labelled by its id value, and the id column leaves while the other columns keep their cells |
| Preprocess.SplitTarget | dualPredictor/df_preprocess.py:53-54 | raises a KeyError exactly when the target column is absent; otherwise the features lose only the target column, and the target holds each row's target cell on the same labels |
| Preprocess.Surviving | dualPredictor/df_preprocess.py:44-46 | the source rows that reach the output: every row in apply mode; in fit mode, exactly the rows with an observed target, in order |
| Preprocess.PrepareOutcome | dualPredictor/df_preprocess.py:39-54 | the steps up to the target split succeed exactly when every drop name exists and the target and id columns exist and survive the earlier steps; an absent drop name yields the drop's error |
| Preprocess.PrepareFeatures | dualPredictor/df_preprocess.py:41-53 | each feature row holds the cells of the surviving source row at the same position |
| Preprocess.PrepareColumns | dualPredictor/df_preprocess.py:41-53 | the feature names are the source names minus the dropped, target and id names, in source order |
| Preprocess.PrepareTarget | dualPredictor/df_preprocess.py:44-54 | the target holds the target cell of each surviving row; its labels are the id values when an id column is named, the source labels otherwise |
| Preprocess.Partition | dualPredictor/df_preprocess.py:61-63 | `num_cols` and `cat_cols` split the feature columns by kind, each column in exactly one list, each list in table order |
| Preprocess.NumericFeatures | dualPredictor/df_preprocess.py:62 | a name is a numeric feature exactly when it is a source column, not removed, and numeric |
| Preprocess.PreparedNumeric | dualPredictor/df_preprocess.py:41-62 | `num_cols` of the prepared features is the list of numeric source columns that survive the removals, in source order |
| Preprocess.Encoded | dualPredictor/df_preprocess.py:65-68 | all columns become numeric, with the same names and rows; numeric cells are untouched; each object cell becomes its column's label code |
| Preprocess.EncodedBlock | dualPredictor/df_preprocess.py:65-73 | encoding leaves `X[num_cols]` as it was, so the scaler is fit on the original numeric values |
| Preprocess.ScaledEmpty | dualPredictor/df_preprocess.py:65-81 | after encoding and scaling, a column is NaN throughout exactly when it is numeric and either has no observed value or the scaler's fit saw none of it |
| Preprocess.TransformOutcome | dualPredictor/df_preprocess.py:70-85 | the transformation fails exactly when the scaler rejects the numeric block, when a supplied imputer fails the parameter check, when a supplied imputer whose `missing_values` is not NaN is given a NaN, or when a supplied imputer that drops empty columns meets a column it treats as missing throughout; the first of these names the error |
| Preprocess.TransformArtifacts | dualPredictor/df_preprocess.py:70-85 | the returned scaler covers `num_cols`; a supplied one is returned as it was; a fresh one is fit on the numeric block and saw no value of exactly the empty numeric columns; the imputer keeps the supplied constructor arguments (by default 2 neighbours, keep empty columns, every other argument at its default) and is fit on one row per row of `X` |
| Preprocess.TransformFitData | dualPredictor/df_preprocess.py:65-85 | the imputer is fit on the encoded and scaled matrix: label codes in object columns, scaled values (NaN kept) in numeric ones |
| Preprocess.TransformFeatures | dualPredictor/df_preprocess.py:78-85 | the imputed features are well formed, have the same column names, are all numeric, carry positional labels, and contain no missing cell |
| Preprocess.ImputedCell | dualPredictor/df_preprocess.py:65-85 | one imputed cell. With NaN as `missing_values`: its label code, its scaled observed value, or, where the value is missing or the scaler saw nothing of the column, 0 when the column reaches the imputer without a value and the neighbours' estimate otherwise. With another marker and a non-NaN input: the input cell, or the estimate (0 when the whole column holds the marker) where it equals the marker |
| Preprocess.TransformCells | dualPredictor/df_preprocess.py:65-85 | every transformed cell is as `TransformedCell` describes: the imputer's input is the label code or the scaled value, and the output cell is that input or the fill chosen by the `missing_values` rules of `ImputedCell` |
| Preprocess.TransformCell | dualPredictor/df_preprocess.py:65-85 | the same for one cell, stated directly on the cell |
| Preprocess.Process | dualPredictor/df_preprocess.py:87 | the features and the target of a successful call share their row labels |
| Preprocess.ProcessOutcome | dualPredictor/df_preprocess.py:39-85 | a missing column gives a KeyError, listing exactly the absent drop names when those are the cause; otherwise, in terms of the surviving source rows, the call succeeds exactly when the scaler accepts the numeric features and the rows, the imputer passes the parameter check, a non-NaN `missing_values` meets no NaN, and either the imputer keeps empty columns or no feature is missing throughout; the first failing condition names the error |
| Preprocess.ProcessRows | dualPredictor/df_preprocess.py:44-54 | features and target have one row per surviving source row, in source order, on shared labels; fit mode keeps exactly the rows with an observed target, apply mode keeps every row |
| Preprocess.ProcessRowCount | dualPredictor/df_preprocess.py:44-46 | fit mode returns the source row count less the number of missing targets; apply mode returns the source row count |
| Preprocess.ProcessTarget | dualPredictor/df_preprocess.py:44-54 | the target holds one value per surviving row, that row's target cell, never missing in fit mode, labelled by the row's id value or its source label |
| Preprocess.ProcessColumns | dualPredictor/df_preprocess.py:41-85 | the feature columns are exactly the source columns minus the dropped, target and id columns, in source order; all are numeric and no cell is missing |
| Preprocess.ProcessArtifacts | dualPredictor/df_preprocess.py:70-85 | the scaler covers the numeric features; a supplied scaler comes back unchanged; a fresh one is fit on the surviving rows' numeric block and saw no value of exactly the numeric features no surviving row observed; the imputer keeps a supplied imputer's `n_neighbors`, `keep_empty_features` and other arguments (the defaults otherwise) and is refit on one row per surviving row |
| Preprocess.CellOfPrepared | dualPredictor/df_preprocess.py:65-85 | one transformed cell as `CellFromSource` states it, in terms of the surviving source rows: the imputer's input is the code among the column's sorted strings or the scaled value; the output is that input, the estimate, or 0, by the `missing_values` rules |
| Preprocess.EncodedOfPrepared | dualPredictor/df_preprocess.py:66-68 | an object cell's code is its position among the sorted distinct strings of that column in the surviving rows |
| Preprocess.ProcessCells | dualPredictor/df_preprocess.py:65-87 | every output cell is as `CellFromSource` states, in terms of the source cell under the same name in the surviving row |
| Preprocess.ProcessCell | dualPredictor/df_preprocess.py:65-87 | the same for one row and one feature name |
| Preprocess.FreshBlank | dualPredictor/df_preprocess.py:71-73 | a scaler fit on `X[num_cols]` saw no value of a numeric column exactly when that column of `X` has no observed value |
| Preprocess.ScaledNaNCell | dualPredictor/df_preprocess.py:65-75 | an encoded and scaled cell is a number or NaN, and NaN exactly when the column is numeric and the value is missing or the scaler saw nothing of the column |
| Preprocess.ScaledNaN | dualPredictor/df_preprocess.py:65-75 | the matrix given to the imputer holds a NaN exactly when some numeric cell of `X` is missing or lies in a column the scaler saw nothing of |
| Preprocess.SourceBlank | dualPredictor/df_preprocess.py:44-73 | a fresh scaler saw no value of a numeric feature exactly when no surviving source row observed it |
| Preprocess.SourceCellNaN | dualPredictor/df_preprocess.py:41-75 | the cell the imputer gets from a surviving source row is a number or NaN, and NaN exactly when the feature is numeric and the source value is missing or the scaler saw nothing of it |
| Preprocess.SourceEmpty | dualPredictor/df_preprocess.py:41-81 | with NaN as `missing_values`, a feature is missing throughout the imputer's input exactly when it is numeric and either no surviving row observed it or the scaler saw nothing of it |
| Preprocess.SourceNaNCells | dualPredictor/df_preprocess.py:41-75 | the imputer's input holds a NaN exactly when some surviving row has a numeric feature that is missing or that the scaler saw nothing of |
| Preprocess.ScalerOfPrepared | dualPredictor/df_preprocess.py:71-75 | the scaler used on the prepared features is the supplied one, or one fit on the surviving rows' numeric source values |
| Preprocess.ProcessFitData | dualPredictor/df_preprocess.py:65-85 | the returned imputer is fit on one row per surviving row, holding that row's encoded and scaled source cells in feature order |
| Preprocess.TransformSameRefit | dualPredictor/df_preprocess.py:78-85 | imputers built with the same constructor arguments (`n_neighbors`, `keep_empty_features`, `weights`, `metric`, `missing_values`, `add_indicator`, `copy`) yield the same transformation, whatever they were fit on |
| Preprocess.ProcessSameRefit | dualPredictor/df_preprocess.py:78-85 | imputers built with the same constructor arguments yield the same call result, whatever they were fit on |
| Preprocess.SuppliedImputerRefit | dualPredictor/df_preprocess.py:78-85 | a supplied imputer's fitted state is never used: imputers with the same constructor arguments give the same result, and `KNNImputer(n_neighbors=2, keep_empty_features=True)` with every other argument at its default acts as if none were given |
| Preprocess.DropNothing | dualPredictor/df_preprocess.py:45-46 | with every target observed, `dropna` leaves the table as it is |
| Preprocess.PrepareModesAgree | dualPredictor/df_preprocess.py:41-54 | with every target observed and the target not dropped, fit and apply modes prepare the same features and target |
| Preprocess.TransformReapply | dualPredictor/df_preprocess.py:70-85 | applying the scaler and imputer returned by fitting reproduces the fitted transformation |
| Preprocess.FitThenApply | dualPredictor/df_preprocess.py:39-89 | on a table with every target observed, a fit call followed by an apply call with its scaler and imputer returns the same features, target, scaler and imputer |

## Left out

- Printing: `check_df_forms` prints its kept and dropped counts, and the
  model returns them in `Align.Report` instead.
- StandardScaler and KNNImputer numerics (mean, variance, distances,
  neighbour averaging) are floating-point library code. They are the
  uninterpreted functions of `Preprocess.Numerics`. So `Preprocess.TransformCells`
  and `Preprocess.ProcessCells` state which function, statistics, slot and row
  determine each cell, not the resulting number.
- dtype inference by `select_dtypes` is replaced by an explicit kind per
  column. Columns of other dtypes (bool, datetime, int32) are not modelled.
  Mixed-type object columns, on which LabelEncoder raises a `TypeError`, are
  ruled out by the kind tag. So are object columns that hold only numbers,
  which LabelEncoder encodes without error: `Frame.Fits` allows no `Num`
  cell in a categorical column.
- Preprocess.TransformOutcome: a supplied imputer built with
  `add_indicator=True` is modelled as if it had `add_indicator=False`.
  KNNImputer then appends one indicator column per feature with a missing
  cell. The DataFrame built at line 85 then has more values per row than
  `X.columns` has labels, and pandas raises a `ValueError`, unless the
  all-missing columns the imputer drops balance the count. The model
  ignores the indicator columns, so it predicts neither this error nor the
  misplaced columns of the balanced case.
- Preprocess.TransformOutcome: the value `Num(real)` has no infinity.
  StandardScaler raises a `ValueError` on an infinite value at lines 73 and
  75, and the model cannot state that error.
- Preprocess.TransformOutcome: a supplied scaler is always a fitted one.
  An unfitted `StandardScaler` passed in raises `NotFittedError` at line 75;
  the `Scaler` value cannot represent it.
- Preprocess.ProcessOutcome: it inherits the three gaps above (an imputer
  with `add_indicator=True`, infinite values, an unfitted scaler).
- Preprocess.ImputedCell: a `missing_values` marker is a `Cell`, so a
  numeric or string marker is represented but `None` cannot be told apart
  from NaN. With a non-NaN marker the model states the output only for
  cells whose input is not NaN, since such an input makes the call fail.
- A callable `weights` or `metric`, which KNNImputer accepts, cannot be
  represented: `KnnOptions` holds strings only.
- NaN and `None` are both `Missing`. Integer and floating-point values are
  both `Num(real)`.
- LabelEncoding.Encode: sklearn sorts `None` and NaN as two classes, both
  after every string, so a column holding both gets two trailing codes. The
  model has one `Missing` value and gives both the single last code.
- LabelEncoding.ClassCountIsDistinctValues: for the same reason, a column
  holding both `None` and NaN has one class more in sklearn than the model
  counts.
- Repeated column names are excluded by `Frame.Valid`: pandas selects every
  copy of a repeated label, which the model does not represent.
- `drop_cols=None` is modelled as the empty list. `df.drop(columns=[])` does
  nothing, as the `None` branch does.
- Object identity and in-place mutation of the caller's scaler and imputer
  are left out. `scaler.transform` does not change the scaler, so returning
  it by value is equivalent. A supplied imputer is different:
  `imputer.fit_transform` refits the caller's own object in place, and that
  same object is returned. The model returns a new `Imputer` value with the
  same content, so it does not state that the caller's object changes.
- `dualPredictor/model_plot.py` (plotting) is not part of this model.
