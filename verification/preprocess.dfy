/**
  `data_preprocessing`: drop the requested columns, in fit mode drop the rows
  whose target is missing, move the id column into the row index, split off
  the target, label-encode the object columns, scale the numeric columns and
  impute what is still missing. Scaling and imputation are scikit-learn
  numerics and appear here only through uninterpreted functions.
 */
module Preprocess {
  import opened Results
  import opened Frame
  import LabelEncoding

  /**
    A fitted StandardScaler: the numeric columns it was fit on
    (`feature_names_in_`), its learnt statistics, left uninterpreted, and the
    slots of the columns in which its fit saw no value. The mean and scale
    learnt for such a column are NaN, so `transform` turns every value there
    into NaN.
   */
  datatype Scaler = Scaler(columns: seq<Name>, stats: seq<real>, blank: set<nat>)

  /** The scaler's fit saw no value in column `n`. */
  predicate SawNothing(sc: Scaler, n: Name) {
    n in sc.columns && Position(sc.columns, n) in sc.blank
  }

  /**
    The KNNImputer constructor arguments besides `n_neighbors` and
    `keep_empty_features`: `weights`, `metric`, `missing_values` (`Missing`
    standing for NaN), `add_indicator` and `copy`. A callable `weights` or
    `metric` is not represented.
   */
  datatype KnnOptions = KnnOptions(weights: string, metric: string, missingValues: Cell, addIndicator: bool, copy: bool)

  /** KNNImputer's defaults for those arguments. */
  const DefaultOptions := KnnOptions("uniform", "nan_euclidean", Missing, false, true)

  /** A KNNImputer: its settings and the matrix it was last fit on. */
  datatype Imputer = Imputer(neighbors: nat, keepEmpty: bool, options: KnnOptions, fitData: seq<Row>)

  /**
    The numerical work scikit-learn does, left uninterpreted: fitting the
    scaler statistics on the numeric block, scaling one observed value of the
    numeric column in slot `m`, and the nearest-neighbour estimate for a
    missing cell of a row.
   */
  datatype Numerics = Numerics(
    fitScale: seq<Row> -> seq<real>,
    scale: (seq<real>, nat, real) -> real,
    fill: (Imputer, Row, nat) -> real)

  /** The target series `y` with its row index. */
  datatype Target = Target(index: seq<Label>, values: seq<Cell>)

  datatype Prepared = Prepared(x: Table, y: Target)

  datatype Processed = Processed(features: Table, target: Target, scaler: Scaler, imputer: Imputer)

  datatype Error =
    | MissingColumns(names: seq<Name>)  // pandas KeyError: labels not found
    | ScalerRejects                     // StandardScaler ValueError on its input
    | InvalidImputer                    // KNNImputer parameter validation (InvalidParameterError)
    | ImputerRejectsNaN                 // KNNImputer input check: NaN with a non-NaN `missing_values`
    | ImputedShapeMismatch              // DataFrame built with more labels than imputed columns

  /** `KNNImputer(n_neighbors=2, keep_empty_features=True)`. */
  const Neighbors: nat := 2

  // ---------------------------------------------------------------------------
  // Column and row handling

  /** `df.drop(columns=drop_cols)`; `drop_cols=None` is the empty list. */
  function DropColumns(t: Table, drop: seq<Name>): (r: Result<Table, Error>)
    requires Valid(t)
    ensures r.Failure? <==> exists n :: n in drop && n !in Names(t.columns)
    ensures r.Failure? ==> r.error.MissingColumns?
    ensures r.Failure? ==> forall n :: n in r.error.names <==> n in drop && n !in Names(t.columns)
    ensures r.Success? ==>
      && Valid(r.value)
      && Names(r.value.columns) == Filter(Names(t.columns), SetOf(drop))
      && r.value.index == t.index && |r.value.rows| == |t.rows|
      && (forall n :: HasColumn(r.value, n) ==> KindOf(r.value, n) == KindOf(t, n))
      && (forall i, n :: 0 <= i < |t.rows| && HasColumn(r.value, n) ==> At(r.value, i, n) == At(t, i, n))
  {
    var absent := Filter(drop, SetOf(Names(t.columns)));
    if |absent| > 0 then
      assert absent[0] in absent;
      Failure(MissingColumns(absent))
    else
      assert forall n :: n in drop ==> n in Names(t.columns);
      Success(Drop(t, SetOf(drop)))
  }

  /** The positions of the rows whose `target` cell is not missing, in order. */
  function PresentRows(t: Table, target: Name): (rs: seq<nat>)
    requires Shaped(t) && HasColumn(t, target)
    ensures Increasing(rs)
    ensures forall m :: 0 <= m < |rs| ==> rs[m] < |t.rows|
    ensures forall k: nat :: k in rs <==> k < |t.rows| && At(t, k, target) != Missing
  {
    var flags := seq(|t.rows|, k requires 0 <= k < |t.rows| => At(t, k, target) != Missing);
    assert forall k :: 0 <= k < |t.rows| ==> (flags[k] <==> At(t, k, target) != Missing);
    Where(flags)
  }

  /** The positions of the rows whose `target` cell is missing, in order. */
  function MissingRows(t: Table, target: Name): (rs: seq<nat>)
    requires Shaped(t) && HasColumn(t, target)
    ensures forall k: nat :: k in rs <==> k < |t.rows| && At(t, k, target) == Missing
  {
    var flags := seq(|t.rows|, k requires 0 <= k < |t.rows| => At(t, k, target) == Missing);
    assert forall k :: 0 <= k < |t.rows| ==> (flags[k] <==> At(t, k, target) == Missing);
    Where(flags)
  }

  /** The fit-mode row filter keeps all rows but the N whose target is missing. */
  lemma PresentRowsCount(t: Table, target: Name)
    requires Shaped(t) && HasColumn(t, target)
    ensures |PresentRows(t, target)| == |t.rows| - |MissingRows(t, target)|
  {
    WhereSplit(seq(|t.rows|, k requires 0 <= k < |t.rows| => At(t, k, target) != Missing),
               seq(|t.rows|, k requires 0 <= k < |t.rows| => At(t, k, target) == Missing));
  }

  /** `df.dropna(subset=[target_col])`. */
  function DropMissingTarget(t: Table, target: Name): (r: Result<Table, Error>)
    requires Valid(t)
    ensures r.Failure? <==> !HasColumn(t, target)
    ensures r.Failure? ==> r.error == MissingColumns([target])
    ensures r.Success? ==>
      && Valid(r.value)
      && r.value.columns == t.columns
      && r.value.rows == Pick(t.rows, PresentRows(t, target))
      && r.value.index == Pick(t.index, PresentRows(t, target))
  {
    if !HasColumn(t, target) then
      Failure(MissingColumns([target]))
    else
      SelectRowsValid(t, PresentRows(t, target));
      Success(SelectRows(t, PresentRows(t, target)))
  }

  /** `df.set_index(id_col)`: the id values become the row labels and the column leaves the table. */
  function SetIndex(t: Table, id: Name): (r: Result<Table, Error>)
    requires Valid(t)
    ensures r.Failure? <==> !HasColumn(t, id)
    ensures r.Failure? ==> r.error == MissingColumns([id])
    ensures r.Success? ==>
      && Valid(r.value)
      && Names(r.value.columns) == Filter(Names(t.columns), {id})
      && |r.value.rows| == |t.rows|
      && (forall i :: 0 <= i < |t.rows| ==> r.value.index[i] == Key(At(t, i, id)))
      && (forall n :: HasColumn(r.value, n) ==> KindOf(r.value, n) == KindOf(t, n))
      && (forall i, n :: 0 <= i < |t.rows| && HasColumn(r.value, n) ==> At(r.value, i, n) == At(t, i, n))
  {
    if !HasColumn(t, id) then
      Failure(MissingColumns([id]))
    else
      var keyed := Table(t.columns, seq(|t.rows|, i requires 0 <= i < |t.rows| => Key(At(t, i, id))), t.rows);
      Success(Drop(keyed, {id}))
  }

  /** `X = df.drop(target_col, axis=1)` and `y = df[target_col]`. */
  function SplitTarget(t: Table, target: Name): (r: Result<Prepared, Error>)
    requires Valid(t)
    ensures r.Failure? <==> !HasColumn(t, target)
    ensures r.Failure? ==> r.error == MissingColumns([target])
    ensures r.Success? ==>
      && Valid(r.value.x)
      && Names(r.value.x.columns) == Filter(Names(t.columns), {target})
      && r.value.x.index == t.index == r.value.y.index
      && |r.value.x.rows| == |t.rows| == |r.value.y.values|
      && (forall i :: 0 <= i < |t.rows| ==> r.value.y.values[i] == At(t, i, target))
      && (forall n :: HasColumn(r.value.x, n) ==> KindOf(r.value.x, n) == KindOf(t, n))
      && (forall i, n :: 0 <= i < |t.rows| && HasColumn(r.value.x, n) ==> At(r.value.x, i, n) == At(t, i, n))
  {
    if !HasColumn(t, target) then
      Failure(MissingColumns([target]))
    else
      var y := Target(t.index, seq(|t.rows|, i requires 0 <= i < |t.rows| => At(t, i, target)));
      Success(Prepared(Drop(t, {target}), y))
  }

  /** `df.drop(columns=drop_cols)` followed, in fit mode, by `df.dropna(subset=[target_col])`. */
  function Filtered(t: Table, target: Name, drop: seq<Name>, fit: bool): (r: Result<Table, Error>)
    requires Valid(t)
    ensures r.Success? ==> Valid(r.value)
  {
    match DropColumns(t, drop)
    case Failure(e) => Failure(e)
    case Success(d) => if fit then DropMissingTarget(d, target) else Success(d)
  }

  /** The filtered table with `df.set_index(id_col)` applied when an id column is named. */
  function Indexed(t: Table, target: Name, id: Option<Name>, drop: seq<Name>, fit: bool): (r: Result<Table, Error>)
    requires Valid(t)
    ensures r.Success? ==> Valid(r.value)
  {
    match Filtered(t, target, drop, fit)
    case Failure(e) => Failure(e)
    case Success(f) => if id.Some? then SetIndex(f, id.value) else Success(f)
  }

  /** Steps up to the target split; `fit` is `scaler is None`. */
  function Prepare(t: Table, target: Name, id: Option<Name>, drop: seq<Name>, fit: bool): (r: Result<Prepared, Error>)
    requires Valid(t)
    ensures r.Success? ==> Valid(r.value.x) && r.value.x.index == r.value.y.index
    ensures r.Success? ==> |r.value.x.rows| == |r.value.y.values|
  {
    match Indexed(t, target, id, drop, fit)
    case Failure(e) => Failure(e)
    case Success(k) => SplitTarget(k, target)
  }

  /** Every column name that the preparation removes from the feature side. */
  function Removed(target: Name, id: Option<Name>, drop: seq<Name>): set<Name> {
    SetOf(drop) + {target} + (if id.Some? then {id.value} else {})
  }

  lemma RemovedMembers(target: Name, id: Option<Name>, drop: seq<Name>, n: Name)
    ensures n in Removed(target, id, drop) <==> n in drop || n == target || (id.Some? && n == id.value)
  {
  }

  /** When the preparation steps raise no KeyError. */
  predicate PrepareOk(t: Table, target: Name, id: Option<Name>, drop: seq<Name>) {
    && (forall n :: n in drop ==> n in Names(t.columns))
    && target in Names(t.columns) && target !in drop
    && (id.Some? ==> id.value in Names(t.columns) && id.value !in drop && id.value != target)
  }

  /**
    The source rows that reach the output, in order: every row in apply mode,
    the rows whose target is present in fit mode.
   */
  function Surviving(t: Table, target: Name, fit: bool): (rs: seq<nat>)
    requires Shaped(t) && HasColumn(t, target)
    ensures Increasing(rs)
    ensures forall m :: 0 <= m < |rs| ==> rs[m] < |t.rows|
    ensures fit ==> forall k: nat :: k in rs <==> k < |t.rows| && At(t, k, target) != Missing
    ensures !fit ==> |rs| == |t.rows| && forall m :: 0 <= m < |rs| ==> rs[m] == m
  {
    if fit then PresentRows(t, target) else Identity(|t.rows|)
  }

  lemma PresentRowsAgree(a: Table, t: Table, target: Name)
    requires Shaped(a) && Shaped(t) && HasColumn(a, target) && HasColumn(t, target)
    requires |a.rows| == |t.rows|
    requires forall k :: 0 <= k < |t.rows| ==> At(a, k, target) == At(t, k, target)
    ensures PresentRows(a, target) == PresentRows(t, target)
  {
    var fa := seq(|a.rows|, k requires 0 <= k < |a.rows| => At(a, k, target) != Missing);
    var ft := seq(|t.rows|, k requires 0 <= k < |t.rows| => At(t, k, target) != Missing);
    assert fa == ft;
  }

  /** The preparation fails with a KeyError exactly when a named column is absent when it is needed. */
  lemma PrepareOutcome(t: Table, target: Name, id: Option<Name>, drop: seq<Name>, fit: bool)
    requires Valid(t)
    ensures Prepare(t, target, id, drop, fit).Success? <==> PrepareOk(t, target, id, drop)
    ensures Prepare(t, target, id, drop, fit).Failure? ==> Prepare(t, target, id, drop, fit).error.MissingColumns?
    ensures (exists n :: n in drop && n !in Names(t.columns)) ==>
      Prepare(t, target, id, drop, fit) == Failure(DropColumns(t, drop).error)
  {
  }

  /** `a` holds, under every one of its column names, the cells of the source rows `rs` of `t`. */
  ghost predicate Traces(a: Table, t: Table, rs: seq<nat>) {
    && Valid(a) && Valid(t)
    && |a.rows| == |rs|
    && (forall m :: 0 <= m < |rs| ==> rs[m] < |t.rows|)
    && (forall n :: HasColumn(a, n) ==> HasColumn(t, n) && KindOf(a, n) == KindOf(t, n))
    && (forall i, n :: 0 <= i < |rs| && HasColumn(a, n) ==> HasColumn(t, n) && At(a, i, n) == At(t, rs[i], n))
  }

  function Identity(n: nat): (rs: seq<nat>)
    ensures |rs| == n && forall m :: 0 <= m < n ==> rs[m] == m
  {
    seq(n, k requires 0 <= k < n => k)
  }

  lemma TracesSame(a: Table, t: Table)
    requires Valid(a) && Valid(t) && |a.rows| == |t.rows|
    requires forall n :: HasColumn(a, n) ==> HasColumn(t, n) && KindOf(a, n) == KindOf(t, n)
    requires forall i, n :: 0 <= i < |t.rows| && HasColumn(a, n) ==> HasColumn(t, n) && At(a, i, n) == At(t, i, n)
    ensures Traces(a, t, Identity(|t.rows|))
  {
  }

  lemma TracesSelectRows(t: Table, rs: seq<nat>)
    requires Valid(t)
    requires forall m :: 0 <= m < |rs| ==> rs[m] < |t.rows|
    ensures Valid(SelectRows(t, rs))
    ensures Traces(SelectRows(t, rs), t, rs)
  {
    SelectRowsValid(t, rs);
  }

  lemma TracesCompose(a: Table, b: Table, t: Table, rs: seq<nat>, qs: seq<nat>)
    requires Traces(a, b, rs) && Traces(b, t, qs)
    ensures forall m :: 0 <= m < |rs| ==> rs[m] < |qs|
    ensures Traces(a, t, Pick(qs, rs))
  {
  }

  lemma FilteredRows(t: Table, target: Name, drop: seq<Name>, fit: bool)
    requires Valid(t)
    requires Filtered(t, target, drop, fit).Success?
    requires target in Names(t.columns) && target !in drop
    ensures var f := Filtered(t, target, drop, fit).value;
      var rs := Surviving(t, target, fit);
      && Traces(f, t, rs)
      && Names(f.columns) == Filter(Names(t.columns), SetOf(drop))
      && |f.index| == |rs|
      && (forall i :: 0 <= i < |rs| ==> f.index[i] == t.index[rs[i]])
  {
    var d := DropColumns(t, drop).value;
    TracesSame(d, t);
    assert HasColumn(d, target);
    if fit {
      DropMissingTraces(d, t, target);
    }
  }

  /** Dropping the rows whose target is missing keeps the trace to the rows `Surviving` names in fit mode. */
  lemma DropMissingTraces(d: Table, t: Table, target: Name)
    requires Traces(d, t, Identity(|t.rows|)) && HasColumn(d, target) && d.index == t.index
    ensures HasColumn(t, target)
    ensures var f := DropMissingTarget(d, target).value;
      var rs := Surviving(t, target, true);
      && Traces(f, t, rs) && f.columns == d.columns
      && |f.index| == |rs| && (forall i :: 0 <= i < |rs| ==> f.index[i] == t.index[rs[i]])
  {
    PresentRowsAgree(d, t, target);
    var ps := PresentRows(d, target);
    TracesSelectRows(d, ps);
    TracesCompose(SelectRows(d, ps), d, t, ps, Identity(|t.rows|));
    assert Pick(Identity(|t.rows|), ps) == ps;
  }

  lemma SetIndexTraces(f: Table, t: Table, rs: seq<nat>, id: Name)
    requires Traces(f, t, rs) && HasColumn(f, id)
    ensures var k := SetIndex(f, id).value;
      && Traces(k, t, rs)
      && |k.index| == |rs|
      && (forall i :: 0 <= i < |rs| ==> k.index[i] == Key(At(t, rs[i], id)))
  {
    var k := SetIndex(f, id).value;
    TracesSame(k, f);
    TracesCompose(k, f, t, Identity(|f.rows|), rs);
    assert Pick(rs, Identity(|f.rows|)) == rs;
  }

  lemma IndexedRows(t: Table, target: Name, id: Option<Name>, drop: seq<Name>, fit: bool)
    requires Valid(t)
    requires Indexed(t, target, id, drop, fit).Success?
    requires target in Names(t.columns) && target !in drop
    requires id.Some? ==> id.value != target
    ensures var k := Indexed(t, target, id, drop, fit).value;
      var rs := Surviving(t, target, fit);
      && Traces(k, t, rs)
      && HasColumn(k, target)
      && Names(k.columns) == Filter(Names(t.columns), SetOf(drop) + (if id.Some? then {id.value} else {}))
      && |k.index| == |rs|
      && (forall i :: 0 <= i < |rs| ==>
            k.index[i] == if id.Some? then Key(At(t, rs[i], id.value)) else t.index[rs[i]])
  {
    FilteredRows(t, target, drop, fit);
    var rs := Surviving(t, target, fit);
    var f := Filtered(t, target, drop, fit).value;
    if id.Some? {
      assert HasColumn(f, id.value);
      SetIndexTraces(f, t, rs, id.value);
      FilterTwice(Names(t.columns), SetOf(drop), {id.value});
    } else {
      assert SetOf(drop) + {} == SetOf(drop);
    }
  }

  lemma SplitTraces(k: Table, t: Table, rs: seq<nat>, target: Name)
    requires Traces(k, t, rs) && HasColumn(k, target)
    ensures var p := SplitTarget(k, target).value;
      && Traces(p.x, t, rs)
      && p.x.index == p.y.index == k.index
      && |p.y.values| == |rs|
      && (forall i :: 0 <= i < |rs| ==> p.y.values[i] == At(t, rs[i], target))
  {
    var p := SplitTarget(k, target).value;
    TracesSame(p.x, k);
    TracesCompose(p.x, k, t, Identity(|k.rows|), rs);
    assert Pick(rs, Identity(|k.rows|)) == rs;
  }

  /**
    Every feature row holds, under each of its column names, the cells of the
    source row that `Surviving` names at the same position.
   */
  lemma PrepareFeatures(t: Table, target: Name, id: Option<Name>, drop: seq<Name>, fit: bool)
    requires Valid(t)
    requires Prepare(t, target, id, drop, fit).Success?
    ensures PrepareOk(t, target, id, drop)
    ensures Traces(Prepare(t, target, id, drop, fit).value.x, t, Surviving(t, target, fit))
  {
    PrepareOutcome(t, target, id, drop, fit);
    IndexedRows(t, target, id, drop, fit);
    var k := Indexed(t, target, id, drop, fit).value;
    SplitTraces(k, t, Surviving(t, target, fit), target);
  }

  lemma RemovedFilter(ns: seq<Name>, target: Name, id: Option<Name>, drop: seq<Name>)
    ensures Filter(Filter(ns, SetOf(drop) + (if id.Some? then {id.value} else {})), {target})
         == Filter(ns, Removed(target, id, drop))
  {
    var ids: set<Name> := if id.Some? then {id.value} else {};
    FilterTwice(ns, SetOf(drop) + ids, {target});
    assert Removed(target, id, drop) == SetOf(drop) + ids + {target};
  }

  /** The feature columns are the source columns minus the dropped, id and target columns, in source order. */
  lemma PrepareColumns(t: Table, target: Name, id: Option<Name>, drop: seq<Name>, fit: bool)
    requires Valid(t)
    requires Prepare(t, target, id, drop, fit).Success?
    ensures Names(Prepare(t, target, id, drop, fit).value.x.columns) == Filter(Names(t.columns), Removed(target, id, drop))
  {
    var ids: set<Name> := if id.Some? then {id.value} else {};
    var k := Indexed(t, target, id, drop, fit).value;
    assert HasColumn(k, target) && Names(k.columns) == Filter(Names(t.columns), SetOf(drop) + ids) by {
      PrepareOutcome(t, target, id, drop, fit);
      IndexedRows(t, target, id, drop, fit);
    }
    RemovedFilter(Names(t.columns), target, id, drop);
  }

  /**
    The target series: the target cell of every surviving source row, on the
    same row labels as the features (the id values when an id column is
    named, the source labels otherwise).
   */
  lemma PrepareTarget(t: Table, target: Name, id: Option<Name>, drop: seq<Name>, fit: bool)
    requires Valid(t)
    requires Prepare(t, target, id, drop, fit).Success?
    ensures PrepareOk(t, target, id, drop)
    ensures var p := Prepare(t, target, id, drop, fit).value;
      var rs := Surviving(t, target, fit);
      && p.x.index == p.y.index
      && |p.x.rows| == |p.y.values| == |rs| == |p.y.index|
      && (forall i :: 0 <= i < |rs| ==> p.y.values[i] == At(t, rs[i], target))
      && (forall i :: 0 <= i < |rs| ==>
            p.y.index[i] == if id.Some? then Key(At(t, rs[i], id.value)) else t.index[rs[i]])
  {
    PrepareOutcome(t, target, id, drop, fit);
    IndexedRows(t, target, id, drop, fit);
    var k := Indexed(t, target, id, drop, fit).value;
    SplitTraces(k, t, Surviving(t, target, fit), target);
  }

  // ---------------------------------------------------------------------------
  // Type partition, encoding, scaling and imputation

  /** The positions of the columns of one kind, in column order. */
  function KindPositions(x: Table, k: Kind): (ks: seq<nat>)
    ensures Increasing(ks)
    ensures forall m :: 0 <= m < |ks| ==> ks[m] < |x.columns|
    ensures forall j: nat :: j in ks <==> j < |x.columns| && x.columns[j].kind == k
  {
    var flags := seq(|x.columns|, j requires 0 <= j < |x.columns| => x.columns[j].kind == k);
    assert forall j :: 0 <= j < |x.columns| ==> (flags[j] <==> x.columns[j].kind == k);
    Where(flags)
  }

  /** The names of the columns of one kind, in column order. */
  function ColumnsOfKind(x: Table, k: Kind): seq<Name> {
    Pick(Names(x.columns), KindPositions(x, k))
  }

  /** `X.select_dtypes(include=['int64', 'float64']).columns.tolist()` */
  function NumericColumns(x: Table): (ns: seq<Name>)
    requires Valid(x)
    ensures forall n :: n in ns <==> HasColumn(x, n) && KindOf(x, n) == Numeric
  {
    KindMembers(x, Numeric);
    ColumnsOfKind(x, Numeric)
  }

  /** `X.select_dtypes(include=['object']).columns.tolist()` */
  function CategoricalColumns(x: Table): (ns: seq<Name>)
    requires Valid(x)
    ensures forall n :: n in ns <==> HasColumn(x, n) && KindOf(x, n) == Categorical
  {
    KindMembers(x, Categorical);
    ColumnsOfKind(x, Categorical)
  }

  /** A name is listed for a kind exactly when the table has a column of that name and kind. */
  lemma KindMembers(x: Table, k: Kind)
    requires Valid(x)
    ensures forall n :: n in ColumnsOfKind(x, k) <==> HasColumn(x, n) && KindOf(x, n) == k
  {
    var ns, ks := Names(x.columns), KindPositions(x, k);
    forall n | n in ColumnsOfKind(x, k)
      ensures HasColumn(x, n) && KindOf(x, n) == k
    {
      var m :| 0 <= m < |ks| && ColumnsOfKind(x, k)[m] == n;
      PositionOfDistinct(ns, ks[m]);
    }
    forall n | HasColumn(x, n) && KindOf(x, n) == k
      ensures n in ColumnsOfKind(x, k)
    {
      var m := Position(ks, Position(ns, n));
      assert ColumnsOfKind(x, k)[m] == n;
    }
  }

  /** The names listed for a kind follow the column order. */
  lemma KindOrder(x: Table, k: Kind)
    requires Valid(x)
    ensures InOrder(Names(x.columns), ColumnsOfKind(x, k))
  {
    var ns, ks := Names(x.columns), KindPositions(x, k);
    forall a, b | 0 <= a < b < |ks|
      ensures Before(ns, ColumnsOfKind(x, k)[a], ColumnsOfKind(x, k)[b])
    {
      PositionOfDistinct(ns, ks[a]);
      PositionOfDistinct(ns, ks[b]);
    }
  }

  /**
    The two lists split the feature columns: each column is in exactly one,
    according to its kind, and each list keeps the table's column order.
   */
  lemma Partition(x: Table)
    requires Valid(x)
    ensures forall n :: n in NumericColumns(x) <==> HasColumn(x, n) && KindOf(x, n) == Numeric
    ensures forall n :: n in CategoricalColumns(x) <==> HasColumn(x, n) && KindOf(x, n) == Categorical
    ensures forall n :: !(n in NumericColumns(x) && n in CategoricalColumns(x))
    ensures |NumericColumns(x)| + |CategoricalColumns(x)| == |x.columns|
    ensures InOrder(Names(x.columns), NumericColumns(x))
    ensures InOrder(Names(x.columns), CategoricalColumns(x))
  {
    KindMembers(x, Numeric);
    KindMembers(x, Categorical);
    KindOrder(x, Numeric);
    KindOrder(x, Categorical);
    var flags := seq(|x.columns|, j requires 0 <= j < |x.columns| => x.columns[j].kind == Numeric);
    var other := seq(|x.columns|, j requires 0 <= j < |x.columns| => x.columns[j].kind == Categorical);
    assert KindPositions(x, Numeric) == Where(flags);
    assert KindPositions(x, Categorical) == Where(other);
    WhereSplit(flags, other);
  }

  /** The cells of a categorical column of a valid table are strings or missing. */
  lemma CategoricalIsTextual(x: Table, j: nat)
    requires Valid(x) && j < |x.columns| && x.columns[j].kind == Categorical
    ensures LabelEncoding.Textual(ColumnAt(x, j))
  {
    assert forall i :: 0 <= i < |x.rows| ==> Fits(x.columns[j].kind, x.rows[i][j]);
  }

  /** `le.fit_transform(X[col])` for the categorical column at position `j`, as numbers. */
  function EncodedColumn(x: Table, j: nat): (col: seq<Cell>)
    requires Valid(x) && j < |x.columns| && x.columns[j].kind == Categorical
    ensures |col| == |x.rows|
  {
    CategoricalIsTextual(x, j);
    var codes := LabelEncoding.Encode(ColumnAt(x, j));
    seq(|x.rows|, i requires 0 <= i < |x.rows| => Num(codes[i] as real))
  }

  /**
    The loop over `cat_cols`: every categorical column is replaced by its
    label codes (a fresh LabelEncoder per column and per call) and becomes
    numeric; numeric columns are left alone.
   */
  function Encoded(x: Table): (e: Table)
    requires Valid(x)
    ensures Valid(e)
    ensures Names(e.columns) == Names(x.columns) && e.index == x.index && |e.rows| == |x.rows|
    ensures forall j :: 0 <= j < |e.columns| ==> e.columns[j].kind == Numeric
    ensures forall i, j :: 0 <= i < |x.rows| && 0 <= j < |x.columns| && x.columns[j].kind == Numeric ==>
      e.rows[i][j] == x.rows[i][j]
    ensures forall i, j :: 0 <= i < |x.rows| && 0 <= j < |x.columns| && x.columns[j].kind == Categorical ==>
      e.rows[i][j] == EncodedColumn(x, j)[i]
  {
    var cols := seq(|x.columns|, j requires 0 <= j < |x.columns| => Column(x.columns[j].name, Numeric));
    assert Names(cols) == Names(x.columns);
    Table(cols, x.index,
          seq(|x.rows|, i requires 0 <= i < |x.rows| =>
            seq(|x.columns|, j requires 0 <= j < |x.columns| =>
              if x.columns[j].kind == Categorical then EncodedColumn(x, j)[i] else x.rows[i][j])))
  }

  /** The block of numeric columns `X[num_cols]` before encoding, rows in order. */
  function NumericBlock(x: Table): seq<Row>
    requires Shaped(x)
  {
    Select(x, KindPositions(x, Numeric)).rows
  }

  /**
    When StandardScaler raises a ValueError on `X[num_cols]`: no numeric
    column, no row, or (transform) column names other than those it was fit on.
   */
  predicate ScalerRejectsInput(scaler: Option<Scaler>, numeric: seq<Name>, rowCount: nat) {
    |numeric| == 0 || rowCount == 0 || (scaler.Some? && scaler.value.columns != numeric)
  }

  /**
    Scales an observed value of the numeric column in slot `m`; NaN stays NaN,
    and a column the fit saw no value of becomes NaN.
   */
  function ScaleCell(ops: Numerics, sc: Scaler, m: nat, c: Cell): Cell {
    if !c.Num? then c
    else if m in sc.blank then Missing
    else Num(ops.scale(sc.stats, m, c.x))
  }

  /** No row of `block` holds a value in slot `m`. */
  predicate NoValueAt(block: seq<Row>, m: nat) {
    forall i :: 0 <= i < |block| ==> m < |block[i]| && block[i][m] == Missing
  }

  /** The slots below `width` in which no row of `block` holds a value. */
  function BlankSlots(block: seq<Row>, width: nat): (b: set<nat>)
    ensures forall m: nat :: m in b <==> m < width && NoValueAt(block, m)
  {
    set m: nat | m < width && NoValueAt(block, m)
  }

  /** `StandardScaler().fit(block)` for the columns `ns`. */
  function FitScaler(ns: seq<Name>, block: seq<Row>, ops: Numerics): Scaler {
    Scaler(ns, ops.fitScale(block), BlankSlots(block, |ns|))
  }

  /** `X[num_cols] = scaler.transform(X[num_cols])`. */
  function Scaled(e: Table, num: seq<nat>, sc: Scaler, ops: Numerics): (s: Table)
    requires Shaped(e)
    ensures s.columns == e.columns && s.index == e.index && Shaped(s) && |s.rows| == |e.rows|
  {
    Table(e.columns, e.index,
          seq(|e.rows|, i requires 0 <= i < |e.rows| =>
            seq(|e.columns|, j requires 0 <= j < |e.columns| =>
              if j in num then ScaleCell(ops, sc, Position(num, j), e.rows[i][j]) else e.rows[i][j])))
  }

  /** Column `j` holds no observed value. */
  predicate EmptyColumn(s: Table, j: nat)
    requires Shaped(s) && j < |s.columns|
  {
    forall i :: 0 <= i < |s.rows| ==> s.rows[i][j] == Missing
  }

  /**
    A cell the imputer treats as missing when its `missing_values` is `mv`:
    NaN, or a value equal to `mv`.
   */
  predicate Absent(mv: Cell, c: Cell) {
    !c.Num? || c == mv
  }

  /** Every row holds a cell the imputer treats as missing in column `j`. */
  predicate AllAbsent(rows: seq<Row>, j: nat, mv: Cell) {
    forall i :: 0 <= i < |rows| ==> j < |rows[i]| && Absent(mv, rows[i][j])
  }

  predicate HasAbsentColumn(s: Table, mv: Cell)
    requires Shaped(s)
  {
    exists j :: 0 <= j < |s.columns| && AllAbsent(s.rows, j, mv)
  }

  /** Some cell is NaN. */
  predicate HasNaN(s: Table)
    requires Shaped(s)
  {
    exists i, j :: 0 <= i < |s.rows| && 0 <= j < |s.columns| && s.rows[i][j] == Missing
  }

  /**
    The imputer after `imputer.fit_transform(X)`: a fresh
    `KNNImputer(n_neighbors=2, keep_empty_features=True)` when none is given,
    otherwise the given one with its settings, refit on `X` all the same.
   */
  function Refit(imputer: Option<Imputer>, data: seq<Row>): (imp: Imputer)
    ensures imp.fitData == data
    ensures imputer.None? ==> imp.neighbors == Neighbors && imp.keepEmpty && imp.options == DefaultOptions
    ensures imputer.Some? ==>
      && imp.neighbors == imputer.value.neighbors && imp.keepEmpty == imputer.value.keepEmpty
      && imp.options == imputer.value.options
  {
    match imputer
    case None => Imputer(Neighbors, true, DefaultOptions, data)
    case Some(given) => Imputer(given.neighbors, given.keepEmpty, given.options, data)
  }

  /**
    The parameter check `fit_transform` makes before fitting: `n_neighbors`
    at least 1, `weights` one of "uniform" and "distance", and `metric`
    "nan_euclidean".
   */
  predicate ValidSettings(imp: Imputer) {
    imp.neighbors >= 1 && imp.options.weights in {"uniform", "distance"} && imp.options.metric == "nan_euclidean"
  }

  /** Whether the imputer that gets fit passes the parameter check. */
  predicate AcceptsImputer(imputer: Option<Imputer>) {
    imputer.None? || ValidSettings(imputer.value)
  }

  /** The row labels of a freshly built DataFrame: 0, 1, 2, ... */
  function RangeIndex(n: nat): (ix: seq<Label>)
    ensures |ix| == n && forall i :: 0 <= i < n ==> ix[i] == Pos(i)
  {
    seq(n, i requires 0 <= i < n => Pos(i))
  }

  /**
    `pd.DataFrame(imp.fit_transform(X), columns=X.columns)`: a cell the
    imputer does not treat as missing is kept, one it does gets the
    neighbours' estimate, and a column it treats as missing throughout is
    kept and filled with 0. The rebuilt frame carries the positional labels
    0, 1, 2, ... rather than those of `X`.
   */
  function Imputed(s: Table, imp: Imputer, ops: Numerics): (f: Table)
    requires Shaped(s)
    ensures f.columns == s.columns && f.index == RangeIndex(|s.rows|) && Shaped(f) && |f.rows| == |s.rows|
  {
    Table(s.columns, RangeIndex(|s.rows|),
          seq(|s.rows|, i requires 0 <= i < |s.rows| =>
            seq(|s.columns|, j requires 0 <= j < |s.columns| =>
              if !Absent(imp.options.missingValues, s.rows[i][j]) then s.rows[i][j]
              else if AllAbsent(s.rows, j, imp.options.missingValues) then Num(0.0)
              else Num(ops.fill(imp, s.rows[i], j)))))
  }

  datatype Transformed = Transformed(features: Table, scaler: Scaler, imputer: Imputer)

  /** The scaler the transformation uses: the one supplied, or `StandardScaler().fit(X[num_cols])`. */
  function ScalerOf(x: Table, scaler: Option<Scaler>, ops: Numerics): (sc: Scaler)
    requires Valid(x)
  {
    if scaler.Some? then scaler.value
    else
      FitScaler(NumericColumns(x), Select(Encoded(x), KindPositions(x, Numeric)).rows, ops)
  }

  /** The features after label encoding and scaling with `sc`, before imputation. */
  function ScaledOf(x: Table, sc: Scaler, ops: Numerics): (s: Table)
    requires Valid(x)
    ensures Shaped(s) && s.columns == Encoded(x).columns && |s.rows| == |x.rows|
  {
    Scaled(Encoded(x), KindPositions(x, Numeric), sc, ops)
  }

  /** Encoding, scaling and imputation of the feature table `X`. */
  function Transform(x: Table, scaler: Option<Scaler>, imputer: Option<Imputer>, ops: Numerics): (r: Result<Transformed, Error>)
    requires Valid(x)
    ensures r.Failure? ==> !r.error.MissingColumns?
    ensures r.Success? ==>
      && r.value.scaler.columns == NumericColumns(x)
      && |r.value.features.rows| == |x.rows| == |r.value.imputer.fitData|
  {
    if ScalerRejectsInput(scaler, NumericColumns(x), |x.rows|) then
      Failure(ScalerRejects)
    else
      var sc := ScalerOf(x, scaler, ops);
      var s := ScaledOf(x, sc, ops);
      var imp := Refit(imputer, s.rows);
      var mv := imp.options.missingValues;
      if !ValidSettings(imp) then
        Failure(InvalidImputer)
      else if mv != Missing && HasNaN(s) then
        Failure(ImputerRejectsNaN)
      else if !imp.keepEmpty && HasAbsentColumn(s, mv) then
        Failure(ImputedShapeMismatch)
      else
        Success(Transformed(Imputed(s, imp, ops), sc, imp))
  }

  /** A numeric column's slot in `num_cols` is the position of its name there. */
  lemma SlotOfName(x: Table, j: nat)
    requires Valid(x) && j < |x.columns| && x.columns[j].kind == Numeric
    ensures x.columns[j].name in NumericColumns(x)
    ensures Position(KindPositions(x, Numeric), j) == Position(NumericColumns(x), x.columns[j].name)
  {
    var num := KindPositions(x, Numeric);
    var ns := Names(x.columns);
    var m := Position(num, j);
    assert NumericColumns(x)[m] == ns[j];
    assert Distinct(NumericColumns(x)) by {
      forall a, b | 0 <= a < b < |num|
        ensures NumericColumns(x)[a] != NumericColumns(x)[b]
      {
        assert num[a] < num[b];
      }
    }
    PositionOfDistinct(NumericColumns(x), m);
  }

  /** Whether the imputer that ends up fitted keeps all-missing columns. */
  predicate KeepsEmpty(imputer: Option<Imputer>) {
    imputer.None? || imputer.value.keepEmpty
  }

  /** The `missing_values` of the imputer that gets fit. */
  function Marker(imputer: Option<Imputer>): Cell {
    if imputer.Some? then imputer.value.options.missingValues else DefaultOptions.missingValues
  }

  /**
    Column `j` of `X` reaches the imputer without a value: a numeric column
    that has none, or one the scaler's fit saw no value of.
   */
  predicate Unseen(x: Table, sc: Scaler, j: nat)
    requires Shaped(x) && j < |x.columns|
  {
    x.columns[j].kind == Numeric && (EmptyColumn(x, j) || SawNothing(sc, x.columns[j].name))
  }

  /**
    Cell `(i, j)` of `X` reaches the imputer as NaN: a missing numeric value,
    or any value of a column the scaler's fit saw no value of.
   */
  predicate ReachesNaNAt(x: Table, sc: Scaler, i: nat, j: nat)
    requires Shaped(x) && i < |x.rows| && j < |x.columns|
  {
    x.columns[j].kind == Numeric && (x.rows[i][j] == Missing || SawNothing(sc, x.columns[j].name))
  }

  /** Some cell of `X` reaches the imputer as NaN. */
  predicate ReachesNaN(x: Table, sc: Scaler)
    requires Shaped(x)
  {
    exists i, j :: 0 <= i < |x.rows| && 0 <= j < |x.columns| && ReachesNaNAt(x, sc, i, j)
  }

  /** A freshly fit scaler saw nothing of a column exactly when its slot of the block holds no value. */
  lemma FitBlank(ns: seq<Name>, block: seq<Row>, ops: Numerics, n: Name)
    requires n in ns
    ensures SawNothing(FitScaler(ns, block, ops), n) <==> NoValueAt(block, Position(ns, n))
  {
  }

  /** Slot `m` of a column selection holds no value exactly when column `ks[m]` is empty. */
  lemma SelectEmpty(x: Table, ks: seq<nat>, m: nat)
    requires Shaped(x) && (forall k :: 0 <= k < |ks| ==> ks[k] < |x.columns|) && m < |ks|
    ensures NoValueAt(Select(x, ks).rows, m) <==> EmptyColumn(x, ks[m])
  {
    var r := Select(x, ks);
    assert |r.columns| == |ks|;
    assert forall i :: 0 <= i < |x.rows| ==> m < |r.rows[i]| && r.rows[i][m] == x.rows[i][ks[m]];
  }

  /** A scaler fit on `X` saw no value of exactly the numeric columns of `X` that have none. */
  lemma FreshBlank(x: Table, ops: Numerics, j: nat)
    requires Valid(x) && j < |x.columns| && x.columns[j].kind == Numeric
    ensures SawNothing(ScalerOf(x, None, ops), x.columns[j].name) <==> EmptyColumn(x, j)
  {
    var num := KindPositions(x, Numeric);
    EncodedBlock(x);
    assert ScalerOf(x, None, ops) == FitScaler(NumericColumns(x), NumericBlock(x), ops);
    SlotOfName(x, j);
    var m := Position(num, j);
    FitBlank(NumericColumns(x), NumericBlock(x), ops, x.columns[j].name);
    SelectEmpty(x, num, m);
  }

  /**
    After encoding and scaling, a column is NaN throughout exactly when it
    reaches the imputer without a value.
   */
  lemma ScaledEmpty(x: Table, sc: Scaler, ops: Numerics, j: nat)
    requires Valid(x) && sc.columns == NumericColumns(x) && |x.rows| > 0 && j < |x.columns|
    ensures AllAbsent(ScaledOf(x, sc, ops).rows, j, Missing) <==> Unseen(x, sc, j)
  {
    var s := ScaledOf(x, sc, ops);
    forall i | 0 <= i < |x.rows|
      ensures j < |s.rows[i]| && (s.rows[i][j].Num? || s.rows[i][j] == Missing)
      ensures s.rows[i][j] == Missing <==> ReachesNaNAt(x, sc, i, j)
    {
      ScaledNaNCell(x, sc, ops, i, j);
    }
    AbsentWhereReached(s.rows, x, sc, j);
  }

  /** Rows whose NaN cells in column `j` are those reaching the imputer as NaN are missing throughout exactly when column `j` is unseen. */
  lemma AbsentWhereReached(rows: seq<Row>, x: Table, sc: Scaler, j: nat)
    requires Shaped(x) && |rows| == |x.rows| > 0 && j < |x.columns|
    requires forall i :: 0 <= i < |x.rows| ==> j < |rows[i]| && (rows[i][j].Num? || rows[i][j] == Missing)
    requires forall i :: 0 <= i < |x.rows| ==> (rows[i][j] == Missing <==> ReachesNaNAt(x, sc, i, j))
    ensures AllAbsent(rows, j, Missing) <==> Unseen(x, sc, j)
  {
    assert AllAbsent(rows, j, Missing) <==> forall i :: 0 <= i < |x.rows| ==> ReachesNaNAt(x, sc, i, j);
    if x.columns[j].kind == Numeric && !SawNothing(sc, x.columns[j].name) {
      forall i | 0 <= i < |x.rows|
        ensures ReachesNaNAt(x, sc, i, j) <==> x.rows[i][j] == Missing
      {
      }
    } else if x.columns[j].kind == Categorical {
      assert !ReachesNaNAt(x, sc, 0, j);
    }
  }

  /** A cell of the encoded and scaled features is NaN exactly when it reaches the imputer as NaN. */
  lemma ScaledNaNCell(x: Table, sc: Scaler, ops: Numerics, i: nat, j: nat)
    requires Valid(x) && sc.columns == NumericColumns(x)
    requires i < |x.rows| && j < |x.columns|
    ensures j < |ScaledOf(x, sc, ops).rows[i]|
    ensures ScaledOf(x, sc, ops).rows[i][j].Num? || ScaledOf(x, sc, ops).rows[i][j] == Missing
    ensures ScaledOf(x, sc, ops).rows[i][j] == Missing <==> ReachesNaNAt(x, sc, i, j)
  {
    ScaledCell(x, sc, ops, i, j);
    assert Fits(x.columns[j].kind, x.rows[i][j]);
  }

  /** A table whose NaN cells are those reaching the imputer as NaN holds a NaN exactly when one does. */
  lemma NaNWhereReached(s: Table, x: Table, sc: Scaler)
    requires Shaped(s) && Shaped(x) && |s.rows| == |x.rows| && |s.columns| == |x.columns|
    requires forall i, j :: 0 <= i < |x.rows| && 0 <= j < |x.columns| ==>
      (s.rows[i][j] == Missing <==> ReachesNaNAt(x, sc, i, j))
    ensures HasNaN(s) <==> ReachesNaN(x, sc)
  {
  }

  /** The encoded and scaled features hold a NaN exactly when some cell of `X` reaches the imputer as NaN. */
  lemma ScaledNaN(x: Table, sc: Scaler, ops: Numerics)
    requires Valid(x) && sc.columns == NumericColumns(x)
    ensures HasNaN(ScaledOf(x, sc, ops)) <==> ReachesNaN(x, sc)
  {
    var s := ScaledOf(x, sc, ops);
    assert |s.columns| == |x.columns| by { assert |Names(Encoded(x).columns)| == |Names(x.columns)|; }
    forall i, j | 0 <= i < |x.rows| && 0 <= j < |x.columns|
      ensures s.rows[i][j] == Missing <==> ReachesNaNAt(x, sc, i, j)
    {
      ScaledNaNCell(x, sc, ops, i, j);
    }
    NaNWhereReached(s, x, sc);
  }

  /** The checks of `Transform` in the order it makes them, in terms of the imputer it was handed. */
  lemma TransformSteps(x: Table, scaler: Option<Scaler>, imputer: Option<Imputer>, ops: Numerics)
    requires Valid(x)
    ensures var r := Transform(x, scaler, imputer, ops);
      var sc := ScalerOf(x, scaler, ops);
      var s := ScaledOf(x, sc, ops);
      var mv := Marker(imputer);
      && (ScalerRejectsInput(scaler, NumericColumns(x), |x.rows|) ==> r == Failure(ScalerRejects))
      && (!ScalerRejectsInput(scaler, NumericColumns(x), |x.rows|) ==>
            && sc.columns == NumericColumns(x)
            && r == if !AcceptsImputer(imputer) then Failure(InvalidImputer)
                    else if mv != Missing && HasNaN(s) then Failure(ImputerRejectsNaN)
                    else if !KeepsEmpty(imputer) && HasAbsentColumn(s, mv) then Failure(ImputedShapeMismatch)
                    else Success(Transformed(Imputed(s, Refit(imputer, s.rows), ops), sc, Refit(imputer, s.rows))))
  {
  }

  /**
    The transformation raises exactly when StandardScaler rejects the numeric
    block, when a supplied imputer fails KNNImputer's parameter check, when a
    supplied imputer with a `missing_values` other than NaN meets a NaN, or
    when a supplied imputer that drops columns it treats as missing
    throughout meets one; the first of these decides the error. With NaN as
    `missing_values` such a column is one that reaches the imputer without a
    value; with another value it is one holding that value throughout.
   */
  lemma TransformOutcome(x: Table, scaler: Option<Scaler>, imputer: Option<Imputer>, ops: Numerics)
    requires Valid(x)
    ensures var r := Transform(x, scaler, imputer, ops);
      var sc := ScalerOf(x, scaler, ops);
      var mv := Marker(imputer);
      && (r.Success? <==>
            && !ScalerRejectsInput(scaler, NumericColumns(x), |x.rows|)
            && AcceptsImputer(imputer)
            && (mv == Missing || !ReachesNaN(x, sc))
            && (KeepsEmpty(imputer) ||
                if mv == Missing then forall j :: 0 <= j < |x.columns| ==> !Unseen(x, sc, j)
                else !HasAbsentColumn(ScaledOf(x, sc, ops), mv)))
      && (r.Failure? ==>
            r.error == if ScalerRejectsInput(scaler, NumericColumns(x), |x.rows|) then ScalerRejects
                       else if !AcceptsImputer(imputer) then InvalidImputer
                       else if mv != Missing && ReachesNaN(x, sc) then ImputerRejectsNaN
                       else ImputedShapeMismatch)
  {
    if !ScalerRejectsInput(scaler, NumericColumns(x), |x.rows|) {
      var sc := ScalerOf(x, scaler, ops);
      var s := ScaledOf(x, sc, ops);
      var imp := Refit(imputer, s.rows);
      assert imp.options.missingValues == Marker(imputer);
      assert imp.keepEmpty == KeepsEmpty(imputer);
      assert ValidSettings(imp) == AcceptsImputer(imputer);
      ScaledNaN(x, sc, ops);
      if Marker(imputer) == Missing {
        assert |s.columns| == |x.columns| by { assert |Names(Encoded(x).columns)| == |Names(x.columns)|; }
        assert HasAbsentColumn(s, Missing) <==> exists j :: 0 <= j < |x.columns| && Unseen(x, sc, j) by {
          forall j | 0 <= j < |x.columns|
            ensures AllAbsent(s.rows, j, Missing) <==> Unseen(x, sc, j)
          {
            ScaledEmpty(x, sc, ops, j);
          }
        }
      }
    }
  }

  /** Encoding leaves the block of numeric columns as it is. */
  lemma EncodedBlock(x: Table)
    requires Valid(x)
    ensures Select(Encoded(x), KindPositions(x, Numeric)).rows == NumericBlock(x)
  {
    var e := Encoded(x);
    var num := KindPositions(x, Numeric);
    var a, b := Select(e, num).rows, Select(x, num).rows;
    assert |a| == |b|;
    forall i | 0 <= i < |a|
      ensures a[i] == b[i]
    {
      assert |a[i]| == |b[i]| == |num|;
      forall m | 0 <= m < |num|
        ensures a[i][m] == b[i][m]
      {
        assert a[i][m] == e.rows[i][num[m]];
      }
    }
  }

  /** The scaler and imputer handed back by a successful transformation. */
  lemma TransformArtifacts(x: Table, scaler: Option<Scaler>, imputer: Option<Imputer>, ops: Numerics)
    requires Valid(x)
    requires Transform(x, scaler, imputer, ops).Success?
    ensures var r := Transform(x, scaler, imputer, ops).value;
      && r.scaler.columns == NumericColumns(x)
      && (scaler.Some? ==> r.scaler == scaler.value)
      && (scaler.None? ==> r.scaler.stats == ops.fitScale(NumericBlock(x)))
      && (scaler.None? ==> forall j :: 0 <= j < |x.columns| && x.columns[j].kind == Numeric ==>
            (SawNothing(r.scaler, x.columns[j].name) <==> EmptyColumn(x, j)))
      && (imputer.None? ==> r.imputer.neighbors == Neighbors && r.imputer.keepEmpty && r.imputer.options == DefaultOptions)
      && (imputer.Some? ==>
            && r.imputer.neighbors == imputer.value.neighbors && r.imputer.keepEmpty == imputer.value.keepEmpty
            && r.imputer.options == imputer.value.options)
      && |r.imputer.fitData| == |x.rows|
  {
    EncodedBlock(x);
    TransformValue(x, scaler, imputer, ops);
    if scaler.None? {
      forall j | 0 <= j < |x.columns| && x.columns[j].kind == Numeric
        ensures SawNothing(ScalerOf(x, None, ops), x.columns[j].name) <==> EmptyColumn(x, j)
      {
        FreshBlank(x, ops, j);
      }
    }
  }

  /** A successful transformation is the imputation of the scaled features with the refit imputer. */
  lemma TransformValue(x: Table, scaler: Option<Scaler>, imputer: Option<Imputer>, ops: Numerics)
    requires Valid(x)
    requires Transform(x, scaler, imputer, ops).Success?
    ensures var sc := ScalerOf(x, scaler, ops);
      var s := ScaledOf(x, sc, ops);
      && sc.columns == NumericColumns(x)
      && Transform(x, scaler, imputer, ops).value == Transformed(Imputed(s, Refit(imputer, s.rows), ops), sc, Refit(imputer, s.rows))
  {
  }

  /**
    One cell of the encoded and scaled features: the label code in a
    categorical column, the scaled value (or NaN) in a numeric one.
   */
  lemma ScaledCell(x: Table, sc: Scaler, ops: Numerics, i: nat, j: nat)
    requires Valid(x) && sc.columns == NumericColumns(x)
    requires i < |x.rows| && j < |x.columns|
    ensures var s := ScaledOf(x, sc, ops);
      && j < |s.rows[i]|
      && (x.columns[j].kind == Categorical ==> s.rows[i][j] == EncodedColumn(x, j)[i])
      && (x.columns[j].kind == Numeric ==>
            && x.columns[j].name in sc.columns
            && s.rows[i][j] == ScaleCell(ops, sc, Position(sc.columns, x.columns[j].name), x.rows[i][j]))
  {
    var e := Encoded(x);
    var num := KindPositions(x, Numeric);
    assert |e.columns| == |x.columns| by { assert |Names(e.columns)| == |Names(x.columns)|; }
    ScaledAt(e, num, sc, ops, i, j);
    assert j in num <==> x.columns[j].kind == Numeric;
    if x.columns[j].kind == Numeric {
      SlotOfName(x, j);
    }
  }

  /** One cell of `Scaled`. */
  lemma ScaledAt(e: Table, num: seq<nat>, sc: Scaler, ops: Numerics, i: nat, j: nat)
    requires Shaped(e) && i < |e.rows| && j < |e.columns|
    ensures j < |Scaled(e, num, sc, ops).rows[i]|
    ensures Scaled(e, num, sc, ops).rows[i][j] ==
      if j in num then ScaleCell(ops, sc, Position(num, j), e.rows[i][j]) else e.rows[i][j]
  {
  }

  /**
    What the imputer sees in a cell after encoding and scaling with `sc`: the
    label code in a categorical column, the scaled value (or NaN) in a
    numeric one.
   */
  predicate ScaledFromSource(x: Table, sc: Scaler, ops: Numerics, c: Cell, i: nat, j: nat)
    requires Valid(x) && i < |x.rows| && j < |x.columns|
  {
    && (x.columns[j].kind == Categorical ==> c == EncodedColumn(x, j)[i])
    && (x.columns[j].kind == Numeric ==>
          && x.columns[j].name in sc.columns
          && c == ScaleCell(ops, sc, Position(sc.columns, x.columns[j].name), x.rows[i][j]))
  }

  /** `ScaledCell` for every cell. */
  lemma ScaledCells(x: Table, sc: Scaler, ops: Numerics)
    requires Valid(x) && sc.columns == NumericColumns(x)
    ensures var s := ScaledOf(x, sc, ops);
      && (forall i :: 0 <= i < |x.rows| ==> |s.rows[i]| == |x.columns|)
      && (forall i, j :: 0 <= i < |x.rows| && 0 <= j < |x.columns| ==> ScaledFromSource(x, sc, ops, s.rows[i][j], i, j))
  {
    var s := ScaledOf(x, sc, ops);
    assert |Names(Encoded(x).columns)| == |Names(x.columns)|;
    forall i, j | 0 <= i < |x.rows| && 0 <= j < |x.columns|
      ensures ScaledFromSource(x, sc, ops, s.rows[i][j], i, j)
    {
      ScaledCell(x, sc, ops, i, j);
    }
  }

  /** The imputer is fit on the encoded and scaled features, as `ScaledFromSource` describes them. */
  lemma TransformFitData(x: Table, scaler: Option<Scaler>, imputer: Option<Imputer>, ops: Numerics)
    requires Valid(x)
    requires Transform(x, scaler, imputer, ops).Success?
    ensures var r := Transform(x, scaler, imputer, ops).value;
      && |r.imputer.fitData| == |x.rows|
      && (forall i :: 0 <= i < |x.rows| ==> |r.imputer.fitData[i]| == |x.columns|)
      && (forall i, j :: 0 <= i < |x.rows| && 0 <= j < |x.columns| ==>
            ScaledFromSource(x, r.scaler, ops, r.imputer.fitData[i][j], i, j))
  {
    TransformValue(x, scaler, imputer, ops);
    ScaledCells(x, ScalerOf(x, scaler, ops), ops);
  }

  /**
    The feature table after a successful transformation: same columns in the
    same order, now all numeric, the positional labels 0, 1, 2, ... of the
    rebuilt frame, and no missing cell left.
   */
  lemma TransformFeatures(x: Table, scaler: Option<Scaler>, imputer: Option<Imputer>, ops: Numerics)
    requires Valid(x)
    requires Transform(x, scaler, imputer, ops).Success?
    ensures var f := Transform(x, scaler, imputer, ops).value.features;
      && Valid(f)
      && Names(f.columns) == Names(x.columns)
      && (forall j :: 0 <= j < |f.columns| ==> f.columns[j].kind == Numeric)
      && f.index == RangeIndex(|x.rows|) && |f.rows| == |x.rows|
      && (forall i, j :: 0 <= i < |f.rows| && 0 <= j < |f.columns| ==> f.rows[i][j].Num?)
  {
    TransformValue(x, scaler, imputer, ops);
    var sc := ScalerOf(x, scaler, ops);
    var s := ScaledOf(x, sc, ops);
    ScaledValid(Encoded(x), KindPositions(x, Numeric), sc, ops);
    ImputedComplete(s, Refit(imputer, s.rows), ops);
  }

  /** Scaling keeps an all-numeric table well formed. */
  lemma ScaledValid(e: Table, num: seq<nat>, sc: Scaler, ops: Numerics)
    requires Valid(e) && forall j :: 0 <= j < |e.columns| ==> e.columns[j].kind == Numeric
    ensures Valid(Scaled(e, num, sc, ops))
  {
    var s := Scaled(e, num, sc, ops);
    forall i, j | 0 <= i < |s.rows| && 0 <= j < |s.columns|
      ensures Fits(s.columns[j].kind, s.rows[i][j])
    {
      assert e.columns[j].kind == Numeric && Fits(e.columns[j].kind, e.rows[i][j]);
    }
  }

  /** Imputing an all-numeric table leaves no missing cell. */
  lemma ImputedComplete(s: Table, imp: Imputer, ops: Numerics)
    requires Valid(s) && forall j :: 0 <= j < |s.columns| ==> s.columns[j].kind == Numeric
    ensures var f := Imputed(s, imp, ops);
      && Valid(f)
      && forall i, j :: 0 <= i < |f.rows| && 0 <= j < |f.columns| ==> f.rows[i][j].Num?
  {
    var f := Imputed(s, imp, ops);
    forall i, j | 0 <= i < |f.rows| && 0 <= j < |f.columns|
      ensures f.rows[i][j].Num?
    {
      var mv := imp.options.missingValues;
      assert f.rows[i][j] ==
        if !Absent(mv, s.rows[i][j]) then s.rows[i][j]
        else if AllAbsent(s.rows, j, mv) then Num(0.0)
        else Num(ops.fill(imp, s.rows[i], j));
    }
  }

  /**
    One cell of the imputed features, in terms of the cell of `X` it comes
    from. With NaN as `missing_values`: the label code in a categorical
    column; in a numeric column the scaled value where one was observed and
    the scaler saw the column, and otherwise the neighbours' estimate, or 0
    when the column reaches the imputer without a value. With another
    `missing_values` and no NaN: the encoded and scaled cell, replaced by the
    estimate (or 0 when the whole column holds it) where it equals that value.
   */
  lemma ImputedCell(x: Table, sc: Scaler, imp: Imputer, ops: Numerics, i: nat, j: nat)
    requires Valid(x) && sc.columns == NumericColumns(x)
    requires i < |x.rows| && j < |x.columns|
    ensures var s := ScaledOf(x, sc, ops);
      var f := Imputed(s, imp, ops);
      var mv := imp.options.missingValues;
      var estimate := Num(ops.fill(imp, s.rows[i], j));
      && j < |f.rows[i]| && j < |s.rows[i]|
      && (mv == Missing ==>
            && (x.columns[j].kind == Categorical ==> f.rows[i][j] == EncodedColumn(x, j)[i])
            && (x.columns[j].kind == Numeric && x.rows[i][j].Num? && !SawNothing(sc, x.columns[j].name) ==>
                  && x.columns[j].name in sc.columns
                  && f.rows[i][j] == Num(ops.scale(sc.stats, Position(sc.columns, x.columns[j].name), x.rows[i][j].x)))
            && (x.columns[j].kind == Numeric && (x.rows[i][j] == Missing || SawNothing(sc, x.columns[j].name)) ==>
                  f.rows[i][j] == if Unseen(x, sc, j) then Num(0.0) else estimate))
      && (mv != Missing && s.rows[i][j] != Missing ==>
            f.rows[i][j] ==
              if s.rows[i][j] == mv then (if AllAbsent(s.rows, j, mv) then Num(0.0) else estimate)
              else s.rows[i][j])
  {
    var s := ScaledOf(x, sc, ops);
    assert |s.columns| == |x.columns| by { assert |Names(Encoded(x).columns)| == |Names(x.columns)|; }
    ImputedAt(s, imp, ops, i, j);
    ScaledCell(x, sc, ops, i, j);
    assert Fits(x.columns[j].kind, x.rows[i][j]);
    if imp.options.missingValues == Missing && x.columns[j].kind == Numeric {
      ScaledEmpty(x, sc, ops, j);
    }
  }

  /** One cell of `Imputed`. */
  lemma ImputedAt(s: Table, imp: Imputer, ops: Numerics, i: nat, j: nat)
    requires Shaped(s) && i < |s.rows| && j < |s.columns|
    ensures j < |Imputed(s, imp, ops).rows[i]| && j < |s.rows[i]|
    ensures var mv := imp.options.missingValues;
      Imputed(s, imp, ops).rows[i][j] ==
        if !Absent(mv, s.rows[i][j]) then s.rows[i][j]
        else if AllAbsent(s.rows, j, mv) then Num(0.0)
        else Num(ops.fill(imp, s.rows[i], j))
  {
  }

  /**
    What a cell of the transformed features holds, in terms of the cell of
    `X` it comes from, as `ImputedCell` states it; the imputer's input cell
    is as `ScaledFromSource` describes.
   */
  predicate TransformedCell(x: Table, r: Transformed, ops: Numerics, i: nat, j: nat)
    requires Valid(x) && i < |x.rows| && j < |x.columns|
    requires i < |r.features.rows| && j < |r.features.rows[i]| && i < |r.imputer.fitData| && j < |r.imputer.fitData[i]|
  {
    var c := r.features.rows[i][j];
    var v := r.imputer.fitData[i][j];
    var mv := r.imputer.options.missingValues;
    var estimate := Num(ops.fill(r.imputer, r.imputer.fitData[i], j));
    && ScaledFromSource(x, r.scaler, ops, v, i, j)
    && (mv == Missing ==>
          && (x.columns[j].kind == Categorical ==> c == EncodedColumn(x, j)[i])
          && (x.columns[j].kind == Numeric && x.rows[i][j].Num? && !SawNothing(r.scaler, x.columns[j].name) ==>
                && x.columns[j].name in r.scaler.columns
                && c == Num(ops.scale(r.scaler.stats, Position(r.scaler.columns, x.columns[j].name), x.rows[i][j].x)))
          && (x.columns[j].kind == Numeric && (x.rows[i][j] == Missing || SawNothing(r.scaler, x.columns[j].name)) ==>
                c == if Unseen(x, r.scaler, j) then Num(0.0) else estimate))
    && (mv != Missing && v != Missing ==>
          c == if v == mv then (if AllAbsent(r.imputer.fitData, j, mv) then Num(0.0) else estimate) else v)
  }

  /** `ImputedCell` for every cell. */
  lemma ImputedCells(x: Table, sc: Scaler, imp: Imputer, ops: Numerics)
    requires Valid(x) && sc.columns == NumericColumns(x)
    requires imp.fitData == ScaledOf(x, sc, ops).rows
    ensures var r := Transformed(Imputed(ScaledOf(x, sc, ops), imp, ops), sc, imp);
      && |r.features.rows| == |x.rows| == |r.imputer.fitData|
      && (forall i :: 0 <= i < |x.rows| ==> |r.features.rows[i]| == |x.columns| == |r.imputer.fitData[i]|)
      && (forall i, j :: 0 <= i < |x.rows| && 0 <= j < |x.columns| ==> TransformedCell(x, r, ops, i, j))
  {
    var r := Transformed(Imputed(ScaledOf(x, sc, ops), imp, ops), sc, imp);
    assert |Names(Encoded(x).columns)| == |Names(x.columns)|;
    forall i, j | 0 <= i < |x.rows| && 0 <= j < |x.columns|
      ensures TransformedCell(x, r, ops, i, j)
    {
      ImputedCell(x, sc, imp, ops, i, j);
      ScaledCell(x, sc, ops, i, j);
    }
  }

  /** The cells of the transformed features, as `TransformedCell` describes them. */
  lemma TransformCells(x: Table, scaler: Option<Scaler>, imputer: Option<Imputer>, ops: Numerics)
    requires Valid(x)
    requires Transform(x, scaler, imputer, ops).Success?
    ensures var r := Transform(x, scaler, imputer, ops).value;
      && |r.features.rows| == |x.rows| == |r.imputer.fitData|
      && (forall i :: 0 <= i < |x.rows| ==> |r.features.rows[i]| == |x.columns| == |r.imputer.fitData[i]|)
      && (forall i, j :: 0 <= i < |x.rows| && 0 <= j < |x.columns| ==> TransformedCell(x, r, ops, i, j))
  {
    TransformValue(x, scaler, imputer, ops);
    var sc := ScalerOf(x, scaler, ops);
    ImputedCells(x, sc, Refit(imputer, ScaledOf(x, sc, ops).rows), ops);
  }

  /** One cell of `TransformCells`. */
  lemma TransformCell(x: Table, scaler: Option<Scaler>, imputer: Option<Imputer>, ops: Numerics, i: nat, j: nat)
    requires Valid(x)
    requires Transform(x, scaler, imputer, ops).Success?
    requires i < |x.rows| && j < |x.columns|
    ensures var r := Transform(x, scaler, imputer, ops).value;
      && i < |r.features.rows| && j < |r.features.rows[i]| && i < |r.imputer.fitData| && j < |r.imputer.fitData[i]|
      && TransformedCell(x, r, ops, i, j)
  {
    TransformValue(x, scaler, imputer, ops);
    var sc := ScalerOf(x, scaler, ops);
    ImputedCell(x, sc, Refit(imputer, ScaledOf(x, sc, ops).rows), ops, i, j);
    ScaledCell(x, sc, ops, i, j);
  }

  // ---------------------------------------------------------------------------
  // The whole of data_preprocessing

  /**
    `data_preprocessing(df, target_col, id_col, drop_cols, scaler, imputer)`,
    returning `(X, y, scaler, imputer)`. Fit mode is `scaler is None`.
   */
  function Process(t: Table, target: Name, id: Option<Name>, drop: seq<Name>,
                   scaler: Option<Scaler>, imputer: Option<Imputer>, ops: Numerics): (r: Result<Processed, Error>)
    requires Valid(t)
    ensures r.Success? ==> r.value.features.index == r.value.target.index
  {
    match Prepare(t, target, id, drop, scaler.None?)
    case Failure(e) => Failure(e)
    case Success(p) =>
      match Transform(p.x, scaler, imputer, ops)
      case Failure(e) => Failure(e)
      case Success(tr) =>
        // `X.set_index(df.index)` puts back the row labels of `df`
        Success(Processed(Table(tr.features.columns, p.x.index, tr.features.rows), p.y, tr.scaler, tr.imputer))
  }

  /** A successful call is the prepared target with the transformed features relabelled. */
  lemma ProcessSuccess(t: Table, target: Name, id: Option<Name>, drop: seq<Name>,
                       scaler: Option<Scaler>, imputer: Option<Imputer>, ops: Numerics)
    requires Valid(t)
    requires Process(t, target, id, drop, scaler, imputer, ops).Success?
    ensures Prepare(t, target, id, drop, scaler.None?).Success?
    ensures var p := Prepare(t, target, id, drop, scaler.None?).value;
      && Transform(p.x, scaler, imputer, ops).Success?
      && var tr := Transform(p.x, scaler, imputer, ops).value;
         Process(t, target, id, drop, scaler, imputer, ops).value ==
           Processed(Table(tr.features.columns, p.x.index, tr.features.rows), p.y, tr.scaler, tr.imputer)
  {
  }

  /** The feature column names the preparation leaves, in source order. */
  function FeatureNames(t: Table, target: Name, id: Option<Name>, drop: seq<Name>): seq<Name> {
    Filter(Names(t.columns), Removed(target, id, drop))
  }

  /** The numeric feature columns, in source order: the columns the scaler works on. */
  function NumericFeatures(t: Table, target: Name, id: Option<Name>, drop: seq<Name>): (nf: seq<Name>)
    requires Valid(t)
    ensures forall n :: n in nf <==>
      n in Names(t.columns) && n !in Removed(target, id, drop) && KindOf(t, n) == Numeric
  {
    Partition(t);
    Filter(NumericColumns(t), Removed(target, id, drop))
  }

  /** Some surviving row holds an observed value in column `n`. */
  predicate Observed(t: Table, rs: seq<nat>, n: Name)
    requires Shaped(t) && HasColumn(t, n)
    requires forall m :: 0 <= m < |rs| ==> rs[m] < |t.rows|
  {
    exists m :: 0 <= m < |rs| && At(t, rs[m], n) != Missing
  }

  /** Column `n` of the surviving rows, in order. */
  function SurvivingColumn(t: Table, rs: seq<nat>, n: Name): (col: seq<Cell>)
    requires Shaped(t) && HasColumn(t, n)
    requires forall m :: 0 <= m < |rs| ==> rs[m] < |t.rows|
    ensures |col| == |rs| && forall m :: 0 <= m < |rs| ==> col[m] == At(t, rs[m], n)
  {
    seq(|rs|, m requires 0 <= m < |rs| => At(t, rs[m], n))
  }

  /** The numeric feature block of the surviving rows, columns in the order of `ns`. */
  function SurvivingBlock(t: Table, rs: seq<nat>, ns: seq<Name>): (rows: seq<Row>)
    requires Shaped(t) && forall n :: n in ns ==> HasColumn(t, n)
    requires forall m :: 0 <= m < |rs| ==> rs[m] < |t.rows|
    ensures |rows| == |rs|
    ensures forall i :: 0 <= i < |rs| ==> |rows[i]| == |ns| && forall k :: 0 <= k < |ns| ==> rows[i][k] == At(t, rs[i], ns[k])
  {
    seq(|rs|, i requires 0 <= i < |rs| => seq(|ns|, k requires 0 <= k < |ns| => At(t, rs[i], ns[k])))
  }

  /**
    The scaler a call uses, stated on the source: the one supplied, or one
    fit on the numeric features `nf` of the surviving rows.
   */
  function SourceScaler(t: Table, rs: seq<nat>, nf: seq<Name>, scaler: Option<Scaler>, ops: Numerics): Scaler
    requires Shaped(t) && forall n :: n in nf ==> HasColumn(t, n)
    requires forall m :: 0 <= m < |rs| ==> rs[m] < |t.rows|
  {
    if scaler.Some? then scaler.value else FitScaler(nf, SurvivingBlock(t, rs, nf), ops)
  }

  /**
    What the imputer is given for surviving row `i` under feature `n` when
    the scaler is `sc`: the label code among the column's surviving cells for
    a categorical feature, the scaled value (or NaN) for a numeric one.
   */
  function SourceCell(t: Table, rs: seq<nat>, sc: Scaler, ops: Numerics, i: nat, n: Name): Cell
    requires Shaped(t) && HasColumn(t, n) && i < |rs|
    requires forall m :: 0 <= m < |rs| ==> rs[m] < |t.rows|
  {
    var c := At(t, rs[i], n);
    if KindOf(t, n) == Categorical then Num(LabelEncoding.Code(LabelEncoding.Classes(SurvivingColumn(t, rs, n)), c) as real)
    else if n in sc.columns then ScaleCell(ops, sc, Position(sc.columns, n), c)
    else c
  }

  /** Every surviving row gives the imputer a cell it treats as missing under feature `n`. */
  predicate AbsentThroughout(t: Table, rs: seq<nat>, sc: Scaler, ops: Numerics, n: Name, mv: Cell)
    requires Shaped(t) && HasColumn(t, n)
    requires forall m :: 0 <= m < |rs| ==> rs[m] < |t.rows|
  {
    forall i :: 0 <= i < |rs| ==> Absent(mv, SourceCell(t, rs, sc, ops, i, n))
  }

  /** Some cell the imputer is given under the features `fs` is NaN. */
  predicate SourceNaN(t: Table, rs: seq<nat>, fs: seq<Name>, sc: Scaler, ops: Numerics)
    requires Shaped(t) && forall n :: n in fs ==> HasColumn(t, n)
    requires forall m :: 0 <= m < |rs| ==> rs[m] < |t.rows|
  {
    exists i, n :: 0 <= i < |rs| && n in fs && SourceCell(t, rs, sc, ops, i, n) == Missing
  }

  /** A scaler fit on the surviving rows saw no value of exactly the numeric features none of those rows observed. */
  lemma SourceBlank(t: Table, rs: seq<nat>, nf: seq<Name>, ops: Numerics, n: Name)
    requires Shaped(t) && forall k :: k in nf ==> HasColumn(t, k)
    requires forall m :: 0 <= m < |rs| ==> rs[m] < |t.rows|
    requires n in nf
    ensures SawNothing(SourceScaler(t, rs, nf, None, ops), n) <==> !Observed(t, rs, n)
  {
    var block := SurvivingBlock(t, rs, nf);
    var p := Position(nf, n);
    assert forall i :: 0 <= i < |rs| ==> p < |block[i]| && block[i][p] == At(t, rs[i], n);
  }

  /**
    A cell the imputer is given is a number or NaN, and NaN exactly when the
    feature is numeric and its value is missing or the scaler saw nothing of it.
   */
  lemma SourceCellNaN(t: Table, rs: seq<nat>, sc: Scaler, ops: Numerics, i: nat, n: Name)
    requires Valid(t) && HasColumn(t, n) && i < |rs|
    requires forall m :: 0 <= m < |rs| ==> rs[m] < |t.rows|
    ensures var v := SourceCell(t, rs, sc, ops, i, n);
      && (v.Num? || v == Missing)
      && (v == Missing <==> KindOf(t, n) == Numeric && (At(t, rs[i], n) == Missing || SawNothing(sc, n)))
  {
    var j := Position(Names(t.columns), n);
    assert Fits(t.columns[j].kind, t.rows[rs[i]][j]);
  }

  /**
    With NaN as `missing_values`, the imputer treats a feature as missing
    throughout exactly when it is numeric and no surviving row observed it or
    the scaler saw nothing of it.
   */
  lemma SourceEmpty(t: Table, rs: seq<nat>, sc: Scaler, ops: Numerics, n: Name)
    requires Valid(t) && HasColumn(t, n) && |rs| > 0
    requires forall m :: 0 <= m < |rs| ==> rs[m] < |t.rows|
    ensures AbsentThroughout(t, rs, sc, ops, n, Missing) <==>
      KindOf(t, n) == Numeric && (!Observed(t, rs, n) || SawNothing(sc, n))
  {
    forall i | 0 <= i < |rs|
      ensures Absent(Missing, SourceCell(t, rs, sc, ops, i, n)) <==>
        KindOf(t, n) == Numeric && (At(t, rs[i], n) == Missing || SawNothing(sc, n))
    {
      SourceCellNaN(t, rs, sc, ops, i, n);
    }
    if KindOf(t, n) == Categorical {
      assert !Absent(Missing, SourceCell(t, rs, sc, ops, 0, n));
    } else if !SawNothing(sc, n) {
      assert AbsentThroughout(t, rs, sc, ops, n, Missing) <==> forall i :: 0 <= i < |rs| ==> At(t, rs[i], n) == Missing;
    }
  }

  /** Row `i` of numeric feature `n` reaches the imputer as NaN: it is missing, or the scaler saw nothing of `n`. */
  predicate SourceGap(t: Table, rs: seq<nat>, sc: Scaler, i: nat, n: Name)
    requires Shaped(t) && HasColumn(t, n) && i < |rs|
    requires forall m :: 0 <= m < |rs| ==> rs[m] < |t.rows|
  {
    KindOf(t, n) == Numeric && (At(t, rs[i], n) == Missing || SawNothing(sc, n))
  }

  /** The imputer is given a NaN exactly when some numeric feature of a surviving row is missing or unseen by the scaler. */
  lemma SourceNaNCells(t: Table, rs: seq<nat>, fs: seq<Name>, sc: Scaler, ops: Numerics)
    requires Valid(t) && forall n :: n in fs ==> HasColumn(t, n)
    requires forall m :: 0 <= m < |rs| ==> rs[m] < |t.rows|
    ensures SourceNaN(t, rs, fs, sc, ops) <==> exists i, n :: 0 <= i < |rs| && n in fs && SourceGap(t, rs, sc, i, n)
  {
    forall i, n | 0 <= i < |rs| && n in fs
      ensures SourceCell(t, rs, sc, ops, i, n) == Missing <==> SourceGap(t, rs, sc, i, n)
    {
      SourceCellNaN(t, rs, sc, ops, i, n);
    }
  }

  /** The numeric columns of the prepared features are the numeric feature columns of the source. */
  lemma PreparedNumeric(t: Table, target: Name, id: Option<Name>, drop: seq<Name>, fit: bool)
    requires Valid(t)
    requires Prepare(t, target, id, drop, fit).Success?
    ensures NumericColumns(Prepare(t, target, id, drop, fit).value.x) == NumericFeatures(t, target, id, drop)
  {
    var x := Prepare(t, target, id, drop, fit).value.x;
    PrepareFeatures(t, target, id, drop, fit);
    PrepareColumns(t, target, id, drop, fit);
    NumericOfFiltered(x, t, Surviving(t, target, fit), Removed(target, id, drop));
  }

  /** Selecting the numeric columns commutes with removing named columns. */
  lemma NumericOfFiltered(x: Table, t: Table, rs: seq<nat>, gone: set<Name>)
    requires Traces(x, t, rs)
    requires Names(x.columns) == Filter(Names(t.columns), gone)
    ensures NumericColumns(x) == Filter(NumericColumns(t), gone)
  {
    var ns, f := Names(t.columns), Names(x.columns);
    var a, b := NumericColumns(x), Filter(NumericColumns(t), gone);
    assert forall n :: n in a <==> n in b by {
      KindMembers(x, Numeric);
      KindMembers(t, Numeric);
      forall n | n in f
        ensures KindOf(x, n) == KindOf(t, n)
      {
      }
    }
    assert InOrder(ns, a) by {
      DistinctInOrder(ns);
      InOrderFilter(ns, ns, gone);
      KindOrder(x, Numeric);
      InOrderThrough(ns, f, a);
    }
    assert InOrder(ns, b) by {
      KindOrder(t, Numeric);
      InOrderFilter(ns, NumericColumns(t), gone);
    }
    InOrderUnique(ns, a, b);
  }

  /** A column of the prepared features is empty exactly when no surviving source row observed it. */
  lemma PreparedEmpty(x: Table, t: Table, rs: seq<nat>, j: nat)
    requires Traces(x, t, rs) && j < |x.columns|
    ensures HasColumn(t, Names(x.columns)[j])
    ensures EmptyColumn(x, j) <==> !Observed(t, rs, Names(x.columns)[j])
  {
    var n := Names(x.columns)[j];
    PositionOfDistinct(Names(x.columns), j);
    assert forall i :: 0 <= i < |rs| ==> x.rows[i][j] == At(x, i, n) == At(t, rs[i], n);
  }

  /** Every numeric column of the prepared features is non-empty exactly when each was observed in a surviving source row. */
  lemma ObservedAgree(x: Table, t: Table, rs: seq<nat>)
    requires Traces(x, t, rs)
    ensures forall n :: n in NumericColumns(x) ==> HasColumn(t, n)
    ensures (forall j :: 0 <= j < |x.columns| && x.columns[j].kind == Numeric ==> !EmptyColumn(x, j))
        <==> (forall n :: n in NumericColumns(x) ==> Observed(t, rs, n))
  {
    var ns := Names(x.columns);
    Partition(x);
    forall j | 0 <= j < |x.columns|
      ensures HasColumn(t, ns[j])
      ensures EmptyColumn(x, j) <==> !Observed(t, rs, ns[j])
      ensures ns[j] in NumericColumns(x) <==> x.columns[j].kind == Numeric
    {
      PreparedEmpty(x, t, rs, j);
      PositionOfDistinct(ns, j);
    }
    forall n | n in NumericColumns(x)
      ensures n == ns[Position(ns, n)]
    {
    }
  }

  /**
    `data_preprocessing` raises a KeyError when a named column is absent, then
    the scaler's ValueError when there is no numeric feature, no surviving row
    or (apply mode) a numeric feature list other than the one it was fit on,
    then KNNImputer's parameter error for a supplied imputer that fails the
    check, then, for a supplied imputer whose `missing_values` is not NaN,
    its rejection of a NaN among the cells it is given, then the shape error
    when a supplied imputer that drops columns it treats as missing
    throughout meets one. Otherwise it returns.
   */
  lemma ProcessOutcome(t: Table, target: Name, id: Option<Name>, drop: seq<Name>,
                       scaler: Option<Scaler>, imputer: Option<Imputer>, ops: Numerics)
    requires Valid(t)
    ensures var r := Process(t, target, id, drop, scaler, imputer, ops);
      !PrepareOk(t, target, id, drop) ==> r.Failure? && r.error.MissingColumns?
    ensures var r := Process(t, target, id, drop, scaler, imputer, ops);
      (exists n :: n in drop && n !in Names(t.columns)) ==>
        && r.Failure? && r.error.MissingColumns?
        && forall n :: n in r.error.names <==> n in drop && n !in Names(t.columns)
    ensures PrepareOk(t, target, id, drop) ==>
      var r := Process(t, target, id, drop, scaler, imputer, ops);
      var rs := Surviving(t, target, scaler.None?);
      var nf := NumericFeatures(t, target, id, drop);
      var fs := FeatureNames(t, target, id, drop);
      var sc := SourceScaler(t, rs, nf, scaler, ops);
      var mv := Marker(imputer);
      && (r.Success? <==>
            && !ScalerRejectsInput(scaler, nf, |rs|)
            && AcceptsImputer(imputer)
            && (mv == Missing || !SourceNaN(t, rs, fs, sc, ops))
            && (KeepsEmpty(imputer) || forall n :: n in fs ==> !AbsentThroughout(t, rs, sc, ops, n, mv)))
      && (r.Failure? ==>
            r.error == if ScalerRejectsInput(scaler, nf, |rs|) then ScalerRejects
                       else if !AcceptsImputer(imputer) then InvalidImputer
                       else if mv != Missing && SourceNaN(t, rs, fs, sc, ops) then ImputerRejectsNaN
                       else ImputedShapeMismatch)
  {
    var fit := scaler.None?;
    PrepareOutcome(t, target, id, drop, fit);
    if PrepareOk(t, target, id, drop) {
      var x := Prepare(t, target, id, drop, fit).value.x;
      PrepareFeatures(t, target, id, drop, fit);
      PrepareColumns(t, target, id, drop, fit);
      PreparedNumeric(t, target, id, drop, fit);
      PreparedOutcome(x, t, Surviving(t, target, fit), scaler, imputer, ops);
    }
  }

  /** `ProcessOutcome` for the transformation of prepared features, stated on the surviving source rows. */
  lemma PreparedOutcome(x: Table, t: Table, rs: seq<nat>, scaler: Option<Scaler>, imputer: Option<Imputer>, ops: Numerics)
    requires Traces(x, t, rs)
    ensures forall n :: n in NumericColumns(x) ==> HasColumn(t, n)
    ensures forall n :: n in Names(x.columns) ==> HasColumn(t, n)
    ensures var r := Transform(x, scaler, imputer, ops);
      var nf := NumericColumns(x);
      var fs := Names(x.columns);
      var sc := SourceScaler(t, rs, nf, scaler, ops);
      var mv := Marker(imputer);
      && (r.Success? <==>
            && !ScalerRejectsInput(scaler, nf, |rs|)
            && AcceptsImputer(imputer)
            && (mv == Missing || !SourceNaN(t, rs, fs, sc, ops))
            && (KeepsEmpty(imputer) || forall n :: n in fs ==> !AbsentThroughout(t, rs, sc, ops, n, mv)))
      && (r.Failure? ==>
            r.error == if ScalerRejectsInput(scaler, nf, |rs|) then ScalerRejects
                       else if !AcceptsImputer(imputer) then InvalidImputer
                       else if mv != Missing && SourceNaN(t, rs, fs, sc, ops) then ImputerRejectsNaN
                       else ImputedShapeMismatch)
  {
    ScalerOfPrepared(x, t, rs, scaler, ops);
    TransformSteps(x, scaler, imputer, ops);
    if !ScalerRejectsInput(scaler, NumericColumns(x), |x.rows|) {
      InputOfPrepared(x, t, rs, ScalerOf(x, scaler, ops), ops, Marker(imputer));
    }
  }

  /**
    The rows of a successful call: features and target share their labels
    and row `i` of both comes from the source row that `Surviving` names at
    `i`: every row in apply mode, exactly the rows with an observed target,
    in source order, in fit mode.
   */
  lemma ProcessRows(t: Table, target: Name, id: Option<Name>, drop: seq<Name>,
                    scaler: Option<Scaler>, imputer: Option<Imputer>, ops: Numerics)
    requires Valid(t)
    requires Process(t, target, id, drop, scaler, imputer, ops).Success?
    ensures PrepareOk(t, target, id, drop)
    ensures var r := Process(t, target, id, drop, scaler, imputer, ops).value;
      var rs := Surviving(t, target, scaler.None?);
      && r.features.index == r.target.index
      && |r.features.rows| == |rs| == |r.target.values| == |r.target.index|
      && Increasing(rs)
      && (scaler.None? ==> forall k: nat :: k in rs <==> k < |t.rows| && At(t, k, target) != Missing)
      && (scaler.Some? ==> |rs| == |t.rows| && forall m :: 0 <= m < |rs| ==> rs[m] == m)
  {
    var fit := scaler.None?;
    ProcessSuccess(t, target, id, drop, scaler, imputer, ops);
    var p := Prepare(t, target, id, drop, fit).value;
    assert |Transform(p.x, scaler, imputer, ops).value.features.rows| == |p.x.rows| by {
      TransformFeatures(p.x, scaler, imputer, ops);
    }
    assert PrepareOk(t, target, id, drop) by {
      PrepareOutcome(t, target, id, drop, fit);
    }
    PrepareTarget(t, target, id, drop, fit);
  }

  /**
    Row counts of a successful call: in fit mode the source row count less
    the number of rows whose target is missing, in apply mode the source row
    count.
   */
  lemma ProcessRowCount(t: Table, target: Name, id: Option<Name>, drop: seq<Name>,
                        scaler: Option<Scaler>, imputer: Option<Imputer>, ops: Numerics)
    requires Valid(t)
    requires Process(t, target, id, drop, scaler, imputer, ops).Success?
    ensures HasColumn(t, target)
    ensures var r := Process(t, target, id, drop, scaler, imputer, ops).value;
      && |r.features.rows| == |r.target.values|
      && |r.target.values| == if scaler.None? then |t.rows| - |MissingRows(t, target)| else |t.rows|
  {
    ProcessRows(t, target, id, drop, scaler, imputer, ops);
    PresentRowsCount(t, target);
  }

  /**
    The target series `y` holds the target cell of each surviving source row
    of `rs`, never missing in fit mode, labelled by the id value when an id
    column is named and by the source label otherwise.
   */
  predicate TargetFromSource(y: Target, t: Table, target: Name, id: Option<Name>, rs: seq<nat>, fit: bool)
    requires Shaped(t) && HasColumn(t, target) && (id.Some? ==> HasColumn(t, id.value))
    requires forall m :: 0 <= m < |rs| ==> rs[m] < |t.rows|
  {
    && |y.values| == |rs| == |y.index|
    && (forall i :: 0 <= i < |rs| ==> y.values[i] == At(t, rs[i], target))
    && (fit ==> forall i :: 0 <= i < |rs| ==> y.values[i] != Missing)
    && (forall i :: 0 <= i < |rs| ==>
          y.index[i] == if id.Some? then Key(At(t, rs[i], id.value)) else t.index[rs[i]])
  }

  /** The target series of a successful call, as `TargetFromSource` describes it. */
  lemma ProcessTarget(t: Table, target: Name, id: Option<Name>, drop: seq<Name>,
                      scaler: Option<Scaler>, imputer: Option<Imputer>, ops: Numerics)
    requires Valid(t)
    requires Process(t, target, id, drop, scaler, imputer, ops).Success?
    ensures PrepareOk(t, target, id, drop)
    ensures TargetFromSource(Process(t, target, id, drop, scaler, imputer, ops).value.target,
                             t, target, id, Surviving(t, target, scaler.None?), scaler.None?)
  {
    ProcessTargetIsPrepared(t, target, id, drop, scaler, imputer, ops);
    PreparedTarget(t, target, id, drop, scaler.None?);
  }

  /** The target series of a successful call is the one `Prepare` splits off. */
  lemma ProcessTargetIsPrepared(t: Table, target: Name, id: Option<Name>, drop: seq<Name>,
                                scaler: Option<Scaler>, imputer: Option<Imputer>, ops: Numerics)
    requires Valid(t)
    requires Process(t, target, id, drop, scaler, imputer, ops).Success?
    ensures Prepare(t, target, id, drop, scaler.None?).Success?
    ensures Process(t, target, id, drop, scaler, imputer, ops).value.target == Prepare(t, target, id, drop, scaler.None?).value.y
  {
  }

  /** The target series `Prepare` splits off, as `TargetFromSource` describes it. */
  lemma PreparedTarget(t: Table, target: Name, id: Option<Name>, drop: seq<Name>, fit: bool)
    requires Valid(t)
    requires Prepare(t, target, id, drop, fit).Success?
    ensures PrepareOk(t, target, id, drop)
    ensures TargetFromSource(Prepare(t, target, id, drop, fit).value.y, t, target, id, Surviving(t, target, fit), fit)
  {
    PrepareTarget(t, target, id, drop, fit);
    var rs := Surviving(t, target, fit);
    if fit {
      forall i | 0 <= i < |rs|
        ensures At(t, rs[i], target) != Missing
      {
        assert rs[i] in rs;
      }
    }
  }

  /** `TransformFeatures` once the features take back the row labels of `X`. */
  lemma ReindexedFeatures(x: Table, scaler: Option<Scaler>, imputer: Option<Imputer>, ops: Numerics)
    requires Valid(x)
    requires Transform(x, scaler, imputer, ops).Success?
    ensures var g := Transform(x, scaler, imputer, ops).value.features;
      var f := Table(g.columns, x.index, g.rows);
      && Valid(f) && Names(f.columns) == Names(x.columns)
      && (forall j :: 0 <= j < |f.columns| ==> f.columns[j].kind == Numeric)
      && (forall i, j :: 0 <= i < |f.rows| && 0 <= j < |f.columns| ==> f.rows[i][j].Num?)
  {
    var g := Transform(x, scaler, imputer, ops).value.features;
    TransformFeatures(x, scaler, imputer, ops);
    Reindexed(g, x.index);
  }

  /**
    The feature columns of a successful call: the source columns other than
    the dropped, id and target columns, in source order, all numeric, with no
    missing cell.
   */
  lemma ProcessColumns(t: Table, target: Name, id: Option<Name>, drop: seq<Name>,
                       scaler: Option<Scaler>, imputer: Option<Imputer>, ops: Numerics)
    requires Valid(t)
    requires Process(t, target, id, drop, scaler, imputer, ops).Success?
    ensures var f := Process(t, target, id, drop, scaler, imputer, ops).value.features;
      && Valid(f)
      && Names(f.columns) == FeatureNames(t, target, id, drop)
      && (forall n :: n in Names(f.columns) <==>
            n in Names(t.columns) && n !in drop && n != target && (id.Some? ==> n != id.value))
      && (forall j :: 0 <= j < |f.columns| ==> f.columns[j].kind == Numeric)
      && (forall i, j :: 0 <= i < |f.rows| && 0 <= j < |f.columns| ==> f.rows[i][j].Num?)
  {
    var fit := scaler.None?;
    ProcessSuccess(t, target, id, drop, scaler, imputer, ops);
    var x := Prepare(t, target, id, drop, fit).value.x;
    var f := Process(t, target, id, drop, scaler, imputer, ops).value.features;
    assert Valid(x) && Names(x.columns) == FeatureNames(t, target, id, drop) by {
      PrepareOutcome(t, target, id, drop, fit);
      PrepareColumns(t, target, id, drop, fit);
    }
    ReindexedFeatures(x, scaler, imputer, ops);
    forall n
      ensures n in Names(f.columns) <==>
        n in Names(t.columns) && n !in drop && n != target && (id.Some? ==> n != id.value)
    {
      RemovedMembers(target, id, drop, n);
    }
  }

  /** Encoding leaves the numeric block of the prepared features equal to that of the surviving source rows. */
  lemma BlockOfPrepared(x: Table, t: Table, rs: seq<nat>)
    requires Traces(x, t, rs)
    ensures forall n :: n in NumericColumns(x) ==> HasColumn(t, n)
    ensures NumericBlock(x) == SurvivingBlock(t, rs, NumericColumns(x))
  {
    var num, ns := KindPositions(x, Numeric), Names(x.columns);
    var a, b := NumericBlock(x), SurvivingBlock(t, rs, NumericColumns(x));
    forall n | n in NumericColumns(x)
      ensures HasColumn(x, n)
    {
      var k :| 0 <= k < |num| && NumericColumns(x)[k] == n;
    }
    forall i | 0 <= i < |rs|
      ensures a[i] == b[i]
    {
      forall k | 0 <= k < |num|
        ensures a[i][k] == b[i][k]
      {
        PositionOfDistinct(ns, num[k]);
        assert a[i][k] == x.rows[i][num[k]] == At(x, i, ns[num[k]]);
      }
    }
  }

  /** The scaler the transformation of the prepared features uses is the one `SourceScaler` names. */
  lemma ScalerOfPrepared(x: Table, t: Table, rs: seq<nat>, scaler: Option<Scaler>, ops: Numerics)
    requires Traces(x, t, rs)
    ensures forall n :: n in NumericColumns(x) ==> HasColumn(t, n)
    ensures ScalerOf(x, scaler, ops) == SourceScaler(t, rs, NumericColumns(x), scaler, ops)
  {
    EncodedBlock(x);
    BlockOfPrepared(x, t, rs);
  }

  /** A cell of the encoded and scaled prepared features is the `SourceCell` of its surviving row and name. */
  lemma ScaledOfPrepared(x: Table, t: Table, rs: seq<nat>, sc: Scaler, ops: Numerics, i: nat, n: Name)
    requires Traces(x, t, rs) && sc.columns == NumericColumns(x)
    requires i < |rs| && n in Names(x.columns)
    ensures HasColumn(t, n)
    ensures var j := Position(Names(x.columns), n);
      && j < |ScaledOf(x, sc, ops).rows[i]|
      && ScaledOf(x, sc, ops).rows[i][j] == SourceCell(t, rs, sc, ops, i, n)
  {
    var j := Position(Names(x.columns), n);
    ScaledCell(x, sc, ops, i, j);
    assert x.rows[i][j] == At(x, i, n) == At(t, rs[i], n);
    assert KindOf(x, n) == x.columns[j].kind == KindOf(t, n);
    if x.columns[j].kind == Categorical {
      EncodedOfPrepared(x, t, rs, i, n);
    }
  }

  /** A column of the encoded and scaled prepared features is missing throughout exactly when `AbsentThroughout` says so. */
  lemma AbsentOfPrepared(x: Table, t: Table, rs: seq<nat>, sc: Scaler, ops: Numerics, j: nat, mv: Cell)
    requires Traces(x, t, rs) && sc.columns == NumericColumns(x) && j < |x.columns|
    ensures HasColumn(t, Names(x.columns)[j])
    ensures AllAbsent(ScaledOf(x, sc, ops).rows, j, mv) <==> AbsentThroughout(t, rs, sc, ops, Names(x.columns)[j], mv)
  {
    var n := Names(x.columns)[j];
    PositionOfDistinct(Names(x.columns), j);
    forall i | 0 <= i < |rs|
      ensures j < |ScaledOf(x, sc, ops).rows[i]| && ScaledOf(x, sc, ops).rows[i][j] == SourceCell(t, rs, sc, ops, i, n)
    {
      ScaledOfPrepared(x, t, rs, sc, ops, i, n);
    }
  }

  /** Row `i`, column `j` of `rows` is the `SourceCell` of surviving row `i` under the name `ns[j]`. */
  predicate MatchesSource(rows: seq<Row>, t: Table, rs: seq<nat>, ns: seq<Name>, sc: Scaler, ops: Numerics)
    requires Shaped(t) && (forall n :: n in ns ==> HasColumn(t, n)) && |rows| == |rs|
    requires forall m :: 0 <= m < |rs| ==> rs[m] < |t.rows|
  {
    forall i, j :: 0 <= i < |rs| && 0 <= j < |ns| ==> j < |rows[i]| && rows[i][j] == SourceCell(t, rs, sc, ops, i, ns[j])
  }

  /** The encoded and scaled prepared features match the source cell by cell. */
  lemma ScaledMatchesSource(x: Table, t: Table, rs: seq<nat>, sc: Scaler, ops: Numerics)
    requires Traces(x, t, rs) && sc.columns == NumericColumns(x)
    ensures forall n :: n in Names(x.columns) ==> HasColumn(t, n)
    ensures |ScaledOf(x, sc, ops).rows| == |rs|
    ensures MatchesSource(ScaledOf(x, sc, ops).rows, t, rs, Names(x.columns), sc, ops)
  {
    var ns := Names(x.columns);
    forall i, j | 0 <= i < |rs| && 0 <= j < |ns|
      ensures HasColumn(t, ns[j])
      ensures j < |ScaledOf(x, sc, ops).rows[i]| && ScaledOf(x, sc, ops).rows[i][j] == SourceCell(t, rs, sc, ops, i, ns[j])
    {
      PositionOfDistinct(ns, j);
      ScaledOfPrepared(x, t, rs, sc, ops, i, ns[j]);
    }
  }

  /** A table matching the source holds a NaN exactly when the imputer is given one. */
  lemma MatchedNaN(s: Table, t: Table, rs: seq<nat>, sc: Scaler, ops: Numerics)
    requires Shaped(s) && Shaped(t) && Distinct(Names(s.columns)) && |s.rows| == |rs|
    requires (forall n :: n in Names(s.columns) ==> HasColumn(t, n))
    requires forall m :: 0 <= m < |rs| ==> rs[m] < |t.rows|
    requires MatchesSource(s.rows, t, rs, Names(s.columns), sc, ops)
    ensures HasNaN(s) <==> SourceNaN(t, rs, Names(s.columns), sc, ops)
  {
    var ns := Names(s.columns);
    if SourceNaN(t, rs, ns, sc, ops) {
      var i, n :| 0 <= i < |rs| && n in ns && SourceCell(t, rs, sc, ops, i, n) == Missing;
      assert s.rows[i][Position(ns, n)] == Missing;
    }
    if HasNaN(s) {
      var i, j :| 0 <= i < |s.rows| && 0 <= j < |s.columns| && s.rows[i][j] == Missing;
      assert SourceCell(t, rs, sc, ops, i, ns[j]) == Missing;
    }
  }

  /** A table matching the source has a column missing throughout exactly when `AbsentThroughout` holds of some name. */
  lemma MatchedAbsent(s: Table, t: Table, rs: seq<nat>, sc: Scaler, ops: Numerics, mv: Cell)
    requires Shaped(s) && Shaped(t) && Distinct(Names(s.columns)) && |s.rows| == |rs|
    requires (forall n :: n in Names(s.columns) ==> HasColumn(t, n))
    requires forall m :: 0 <= m < |rs| ==> rs[m] < |t.rows|
    requires MatchesSource(s.rows, t, rs, Names(s.columns), sc, ops)
    ensures HasAbsentColumn(s, mv) <==> exists n :: n in Names(s.columns) && AbsentThroughout(t, rs, sc, ops, n, mv)
  {
    var ns := Names(s.columns);
    if exists n :: n in ns && AbsentThroughout(t, rs, sc, ops, n, mv) {
      var n :| n in ns && AbsentThroughout(t, rs, sc, ops, n, mv);
      var j := Position(ns, n);
      assert AllAbsent(s.rows, j, mv) by {
        forall i | 0 <= i < |s.rows|
          ensures j < |s.rows[i]| && Absent(mv, s.rows[i][j])
        {
          assert Absent(mv, SourceCell(t, rs, sc, ops, i, n));
        }
      }
    }
    if HasAbsentColumn(s, mv) {
      var j :| 0 <= j < |s.columns| && AllAbsent(s.rows, j, mv);
      assert AbsentThroughout(t, rs, sc, ops, ns[j], mv) by {
        forall i | 0 <= i < |rs|
          ensures Absent(mv, SourceCell(t, rs, sc, ops, i, ns[j]))
        {
          assert Absent(mv, s.rows[i][j]);
        }
      }
    }
  }

  /** What the imputer meets in the prepared features, stated on the source. */
  lemma InputOfPrepared(x: Table, t: Table, rs: seq<nat>, sc: Scaler, ops: Numerics, mv: Cell)
    requires Traces(x, t, rs) && sc.columns == NumericColumns(x)
    ensures forall n :: n in Names(x.columns) ==> HasColumn(t, n)
    ensures HasNaN(ScaledOf(x, sc, ops)) <==> SourceNaN(t, rs, Names(x.columns), sc, ops)
    ensures HasAbsentColumn(ScaledOf(x, sc, ops), mv) <==>
      exists n :: n in Names(x.columns) && AbsentThroughout(t, rs, sc, ops, n, mv)
  {
    var s := ScaledOf(x, sc, ops);
    ScaledMatchesSource(x, t, rs, sc, ops);
    assert Names(s.columns) == Names(x.columns) by {
      assert s.columns == Encoded(x).columns;
      assert Names(Encoded(x).columns) == Names(x.columns);
    }
    MatchedNaN(s, t, rs, sc, ops);
    MatchedAbsent(s, t, rs, sc, ops, mv);
  }

  /**
    The scaler and imputer a successful call returns: a supplied scaler comes
    back as it was, a fresh one is fit on the numeric features of the
    surviving rows and saw no value of exactly those none of them observed;
    either way its columns are the numeric feature columns. The imputer keeps
    the settings of a supplied one (the defaults otherwise) and is always
    refit on this call's data, one row per surviving row (`ProcessFitData`
    states what those rows hold).
   */
  lemma ProcessArtifacts(t: Table, target: Name, id: Option<Name>, drop: seq<Name>,
                         scaler: Option<Scaler>, imputer: Option<Imputer>, ops: Numerics)
    requires Valid(t)
    requires Process(t, target, id, drop, scaler, imputer, ops).Success?
    ensures PrepareOk(t, target, id, drop)
    ensures forall n :: n in FeatureNames(t, target, id, drop) ==> HasColumn(t, n)
    ensures var r := Process(t, target, id, drop, scaler, imputer, ops).value;
      var rs := Surviving(t, target, scaler.None?);
      var nf := NumericFeatures(t, target, id, drop);
      var fs := FeatureNames(t, target, id, drop);
      && r.scaler.columns == nf
      && r.scaler == SourceScaler(t, rs, nf, scaler, ops)
      && (scaler.Some? ==> r.scaler == scaler.value)
      && (scaler.None? ==> r.scaler.stats == ops.fitScale(SurvivingBlock(t, rs, nf)))
      && (scaler.None? ==> forall n :: n in nf ==> (SawNothing(r.scaler, n) <==> !Observed(t, rs, n)))
      && (imputer.None? ==> r.imputer.neighbors == Neighbors && r.imputer.keepEmpty && r.imputer.options == DefaultOptions)
      && (imputer.Some? ==>
            && r.imputer.neighbors == imputer.value.neighbors && r.imputer.keepEmpty == imputer.value.keepEmpty
            && r.imputer.options == imputer.value.options)
      && |r.imputer.fitData| == |rs|
  {
    var fit := scaler.None?;
    PrepareOutcome(t, target, id, drop, fit);
    var x := Prepare(t, target, id, drop, fit).value.x;
    var rs := Surviving(t, target, fit);
    var nf := NumericFeatures(t, target, id, drop);
    var fs := FeatureNames(t, target, id, drop);
    var r := Process(t, target, id, drop, scaler, imputer, ops).value;
    PrepareFeatures(t, target, id, drop, fit);
    PrepareColumns(t, target, id, drop, fit);
    PreparedNumeric(t, target, id, drop, fit);
    assert r.scaler == SourceScaler(t, rs, nf, scaler, ops) by {
      ScalerOfPrepared(x, t, rs, scaler, ops);
      TransformValue(x, scaler, imputer, ops);
    }
    BlockOfPrepared(x, t, rs);
    TransformArtifacts(x, scaler, imputer, ops);
    if fit {
      forall n | n in nf
        ensures SawNothing(r.scaler, n) <==> !Observed(t, rs, n)
      {
        SourceBlank(t, rs, nf, ops, n);
      }
    }
  }

  /**
    The imputer a successful call returns is fit on one row per surviving
    row, holding that row's `SourceCell`s in feature order.
   */
  lemma ProcessFitData(t: Table, target: Name, id: Option<Name>, drop: seq<Name>,
                       scaler: Option<Scaler>, imputer: Option<Imputer>, ops: Numerics)
    requires Valid(t)
    requires Process(t, target, id, drop, scaler, imputer, ops).Success?
    ensures PrepareOk(t, target, id, drop)
    ensures forall n :: n in FeatureNames(t, target, id, drop) ==> HasColumn(t, n)
    ensures var r := Process(t, target, id, drop, scaler, imputer, ops).value;
      var rs := Surviving(t, target, scaler.None?);
      var fs := FeatureNames(t, target, id, drop);
      && |r.imputer.fitData| == |rs|
      && (forall i :: 0 <= i < |rs| ==> |r.imputer.fitData[i]| == |fs|)
      && (forall i, n :: 0 <= i < |rs| && n in fs ==>
            r.imputer.fitData[i][Position(fs, n)] == SourceCell(t, rs, r.scaler, ops, i, n))
  {
    var fit := scaler.None?;
    var r := Process(t, target, id, drop, scaler, imputer, ops).value;
    var rs := Surviving(t, target, fit);
    var fs := FeatureNames(t, target, id, drop);
    PrepareOutcome(t, target, id, drop, fit);
    assert |r.imputer.fitData| == |rs| by {
      ProcessArtifacts(t, target, id, drop, scaler, imputer, ops);
    }
    forall i, n | 0 <= i < |rs| && n in fs
      ensures HasColumn(t, n) && Position(fs, n) < |r.imputer.fitData[i]|
      ensures r.imputer.fitData[i][Position(fs, n)] == SourceCell(t, rs, r.scaler, ops, i, n)
    {
      ProcessCell(t, target, id, drop, scaler, imputer, ops, i, n);
    }
    assert forall i :: 0 <= i < |rs| ==> |r.imputer.fitData[i]| == |fs| by {
      var x := Prepare(t, target, id, drop, fit).value.x;
      PrepareFeatures(t, target, id, drop, fit);
      PrepareColumns(t, target, id, drop, fit);
      TransformCells(x, scaler, imputer, ops);
    }
  }

  /** One cell of the transformed prepared features, in terms of the surviving source rows. */
  lemma CellOfPrepared(x: Table, t: Table, rs: seq<nat>, scaler: Option<Scaler>, imputer: Option<Imputer>,
                       ops: Numerics, i: nat, n: Name)
    requires Traces(x, t, rs)
    requires Transform(x, scaler, imputer, ops).Success?
    requires i < |rs| && n in Names(x.columns)
    ensures HasColumn(t, n)
    ensures var tr := Transform(x, scaler, imputer, ops).value;
      var j := Position(Names(x.columns), n);
      && |tr.features.rows| == |rs| && |tr.imputer.fitData| == |rs|
      && j < |tr.features.rows[i]| && j < |tr.imputer.fitData[i]|
      && CellFromSource(t, rs, Names(x.columns), tr.features.rows, tr.scaler, tr.imputer, ops, i, n)
  {
    var j := Position(Names(x.columns), n);
    var tr := Transform(x, scaler, imputer, ops).value;
    TransformValue(x, scaler, imputer, ops);
    TransformCell(x, scaler, imputer, ops, i, j);
    ScaledOfPrepared(x, t, rs, tr.scaler, ops, i, n);
    PreparedEmpty(x, t, rs, j);
    AbsentOfPrepared(x, t, rs, tr.scaler, ops, j, tr.imputer.options.missingValues);
    assert x.rows[i][j] == At(x, i, n) == At(t, rs[i], n);
    assert KindOf(x, n) == x.columns[j].kind == KindOf(t, n);
    if x.columns[j].kind == Categorical {
      EncodedOfPrepared(x, t, rs, i, n);
    }
  }

  /** A label code of the prepared features, in terms of the surviving source rows. */
  lemma EncodedOfPrepared(x: Table, t: Table, rs: seq<nat>, i: nat, n: Name)
    requires Traces(x, t, rs)
    requires i < |rs| && n in Names(x.columns)
    requires x.columns[Position(Names(x.columns), n)].kind == Categorical
    ensures EncodedColumn(x, Position(Names(x.columns), n))[i] ==
      Num(LabelEncoding.Code(LabelEncoding.Classes(SurvivingColumn(t, rs, n)), At(t, rs[i], n)) as real)
  {
    var j := Position(Names(x.columns), n);
    var col := ColumnAt(x, j);
    assert col == SurvivingColumn(t, rs, n) by {
      forall m | 0 <= m < |rs|
        ensures col[m] == At(t, rs[m], n)
      {
        assert col[m] == x.rows[m][j] == At(x, m, n);
      }
    }
    CategoricalIsTextual(x, j);
    assert EncodedColumn(x, j)[i] == Num(LabelEncoding.Encode(col)[i] as real);
  }

  /**
    What the imputer is given and what it returns in surviving row `i` under
    feature `n`, where `rows` holds the output and `fs` the feature names.
    The imputer's input cell is the `SourceCell`. With NaN as
    `missing_values`: for a categorical column, the position of the cell's
    string among the sorted distinct strings of that column in this call's
    rows (missing after all of them); for an observed numeric value in a
    column the scaler saw, the value scaled with the statistics of its
    column; for a missing numeric value or a column the scaler saw nothing
    of, the neighbours' estimate, or 0 when the column has no observed value
    among the surviving rows or the scaler saw nothing of it. With another
    `missing_values` and no NaN given: the input cell, replaced by the
    estimate (or 0 when the whole column holds that value) where it equals
    that value.
   */
  predicate CellFromSource(t: Table, rs: seq<nat>, fs: seq<Name>, rows: seq<Row>, sc: Scaler, imp: Imputer,
                           ops: Numerics, i: nat, n: Name)
    requires Shaped(t) && HasColumn(t, n) && n in fs && i < |rs|
    requires forall m :: 0 <= m < |rs| ==> rs[m] < |t.rows|
    requires i < |rows| && Position(fs, n) < |rows[i]| && i < |imp.fitData| && Position(fs, n) < |imp.fitData[i]|
  {
    var j := Position(fs, n);
    var c := At(t, rs[i], n);
    var v := imp.fitData[i][j];
    var out := rows[i][j];
    var mv := imp.options.missingValues;
    var estimate := Num(ops.fill(imp, imp.fitData[i], j));
    && v == SourceCell(t, rs, sc, ops, i, n)
    && (mv == Missing ==>
          && (KindOf(t, n) == Categorical ==>
                out == Num(LabelEncoding.Code(LabelEncoding.Classes(SurvivingColumn(t, rs, n)), c) as real))
          && (KindOf(t, n) == Numeric && c.Num? && !SawNothing(sc, n) ==>
                n in sc.columns && out == Num(ops.scale(sc.stats, Position(sc.columns, n), c.x)))
          && (KindOf(t, n) == Numeric && (c == Missing || SawNothing(sc, n)) ==>
                out == if Observed(t, rs, n) && !SawNothing(sc, n) then estimate else Num(0.0)))
    && (mv != Missing && v != Missing ==>
          out == if v != mv then v else if AbsentThroughout(t, rs, sc, ops, n, mv) then Num(0.0) else estimate)
  }

  /** Every cell of a successful call is as `CellFromSource` describes. */
  lemma ProcessCells(t: Table, target: Name, id: Option<Name>, drop: seq<Name>,
                     scaler: Option<Scaler>, imputer: Option<Imputer>, ops: Numerics)
    requires Valid(t)
    requires Process(t, target, id, drop, scaler, imputer, ops).Success?
    ensures PrepareOk(t, target, id, drop)
    ensures var r := Process(t, target, id, drop, scaler, imputer, ops).value;
      var rs := Surviving(t, target, scaler.None?);
      var fs := FeatureNames(t, target, id, drop);
      && |r.features.rows| == |rs| == |r.imputer.fitData|
      && (forall n :: n in fs ==> HasColumn(t, n))
      && (forall i :: 0 <= i < |rs| ==> |r.features.rows[i]| == |fs| == |r.imputer.fitData[i]|)
      && (forall i, n :: 0 <= i < |rs| && n in fs ==>
            CellFromSource(t, rs, fs, r.features.rows, r.scaler, r.imputer, ops, i, n))
  {
    var fit := scaler.None?;
    PrepareOutcome(t, target, id, drop, fit);
    var x := Prepare(t, target, id, drop, fit).value.x;
    var r := Process(t, target, id, drop, scaler, imputer, ops).value;
    var rs := Surviving(t, target, fit);
    var fs := FeatureNames(t, target, id, drop);
    assert |r.features.rows| == |rs| == |r.imputer.fitData| && Names(x.columns) == fs by {
      PrepareFeatures(t, target, id, drop, fit);
      PrepareColumns(t, target, id, drop, fit);
      TransformCells(x, scaler, imputer, ops);
    }
    assert forall i :: 0 <= i < |rs| ==> |r.features.rows[i]| == |fs| == |r.imputer.fitData[i]| by {
      PrepareFeatures(t, target, id, drop, fit);
      TransformCells(x, scaler, imputer, ops);
    }
    forall i, n | 0 <= i < |rs| && n in fs
      ensures HasColumn(t, n)
      ensures CellFromSource(t, rs, fs, r.features.rows, r.scaler, r.imputer, ops, i, n)
    {
      ProcessCell(t, target, id, drop, scaler, imputer, ops, i, n);
    }
    forall n | n in fs
      ensures HasColumn(t, n)
    {
    }
  }

  /** One cell of `ProcessCells`. */
  lemma ProcessCell(t: Table, target: Name, id: Option<Name>, drop: seq<Name>,
                    scaler: Option<Scaler>, imputer: Option<Imputer>, ops: Numerics, i: nat, n: Name)
    requires Valid(t)
    requires Process(t, target, id, drop, scaler, imputer, ops).Success?
    requires PrepareOk(t, target, id, drop)
    requires i < |Surviving(t, target, scaler.None?)| && n in FeatureNames(t, target, id, drop)
    ensures HasColumn(t, n)
    ensures var r := Process(t, target, id, drop, scaler, imputer, ops).value;
      var rs := Surviving(t, target, scaler.None?);
      var fs := FeatureNames(t, target, id, drop);
      && i < |r.features.rows| && Position(fs, n) < |r.features.rows[i]|
      && i < |r.imputer.fitData| && Position(fs, n) < |r.imputer.fitData[i]|
      && CellFromSource(t, rs, fs, r.features.rows, r.scaler, r.imputer, ops, i, n)
  {
    var fit := scaler.None?;
    PrepareOutcome(t, target, id, drop, fit);
    var x := Prepare(t, target, id, drop, fit).value.x;
    var rs := Surviving(t, target, fit);
    PrepareFeatures(t, target, id, drop, fit);
    PrepareColumns(t, target, id, drop, fit);
    CellOfPrepared(x, t, rs, scaler, imputer, ops, i, n);
  }

  /** Every constructor argument of the imputer that gets fit. */
  function Settings(imputer: Option<Imputer>): (nat, bool, KnnOptions) {
    match imputer
    case None => (Neighbors, true, DefaultOptions)
    case Some(given) => (given.neighbors, given.keepEmpty, given.options)
  }

  /** Imputers built with the same arguments give the same transformation. */
  lemma TransformSameRefit(x: Table, scaler: Option<Scaler>, a: Option<Imputer>, b: Option<Imputer>, ops: Numerics)
    requires Valid(x)
    requires Settings(a) == Settings(b)
    ensures Transform(x, scaler, a, ops) == Transform(x, scaler, b, ops)
  {
    if !ScalerRejectsInput(scaler, NumericColumns(x), |x.rows|) {
      var s := ScaledOf(x, ScalerOf(x, scaler, ops), ops);
      assert Refit(a, s.rows) == Refit(b, s.rows);
    }
  }

  /**
    A supplied imputer's fitted state is never used: it is refit on the data
    of this call, so imputers with the same constructor arguments give the
    same result, and one built with `n_neighbors=2, keep_empty_features=True`
    and every other argument at its default acts as if none were given.
   */
  lemma SuppliedImputerRefit(t: Table, target: Name, id: Option<Name>, drop: seq<Name>,
                             scaler: Option<Scaler>, a: Imputer, b: Imputer, ops: Numerics)
    requires Valid(t)
    requires a.neighbors == b.neighbors && a.keepEmpty == b.keepEmpty && a.options == b.options
    ensures Process(t, target, id, drop, scaler, Some(a), ops) == Process(t, target, id, drop, scaler, Some(b), ops)
    ensures a.neighbors == Neighbors && a.keepEmpty && a.options == DefaultOptions ==>
      Process(t, target, id, drop, scaler, Some(a), ops) == Process(t, target, id, drop, scaler, None, ops)
  {
    ProcessSameRefit(t, target, id, drop, scaler, Some(a), Some(b), ops);
    if a.neighbors == Neighbors && a.keepEmpty && a.options == DefaultOptions {
      ProcessSameRefit(t, target, id, drop, scaler, Some(a), None, ops);
    }
  }

  lemma ProcessSameRefit(t: Table, target: Name, id: Option<Name>, drop: seq<Name>,
                         scaler: Option<Scaler>, a: Option<Imputer>, b: Option<Imputer>, ops: Numerics)
    requires Valid(t)
    requires Settings(a) == Settings(b)
    ensures Process(t, target, id, drop, scaler, a, ops) == Process(t, target, id, drop, scaler, b, ops)
  {
    var p := Prepare(t, target, id, drop, scaler.None?);
    if p.Failure? {
      assert Process(t, target, id, drop, scaler, a, ops) == Failure(p.error);
      assert Process(t, target, id, drop, scaler, b, ops) == Failure(p.error);
    } else {
      var x := p.value.x;
      TransformSameRefit(x, scaler, a, b, ops);
      var ta := Transform(x, scaler, a, ops);
      if ta.Failure? {
        assert Process(t, target, id, drop, scaler, a, ops) == Failure(ta.error);
      } else {
        assert Process(t, target, id, drop, scaler, a, ops) ==
          Success(Processed(Table(ta.value.features.columns, x.index, ta.value.features.rows), p.value.y, ta.value.scaler, ta.value.imputer));
      }
    }
  }

  /** Every row has an observed target. */
  predicate TargetComplete(t: Table, target: Name)
    requires Shaped(t) && HasColumn(t, target)
  {
    forall k :: 0 <= k < |t.rows| ==> At(t, k, target) != Missing
  }

  /** With every target observed, `dropna(subset=[target_col])` keeps the table as it is. */
  lemma DropNothing(t: Table, target: Name)
    requires Valid(t) && HasColumn(t, target) && TargetComplete(t, target)
    ensures DropMissingTarget(t, target) == Success(t)
  {
    var rs := PresentRows(t, target);
    assert |rs| == |t.rows| by {
      PresentRowsCount(t, target);
      WhereNone(seq(|t.rows|, k requires 0 <= k < |t.rows| => At(t, k, target) == Missing));
    }
    IncreasingFull(rs);
    assert Pick(t.rows, rs) == t.rows;
    assert Pick(t.index, rs) == t.index;
  }

  /** With every target observed, the preparation is the same in fit and in apply mode. */
  lemma PrepareModesAgree(t: Table, target: Name, id: Option<Name>, drop: seq<Name>)
    requires Valid(t) && HasColumn(t, target) && TargetComplete(t, target) && target !in drop
    ensures Prepare(t, target, id, drop, true) == Prepare(t, target, id, drop, false)
  {
    var d := DropColumns(t, drop);
    if d.Success? {
      assert TargetComplete(d.value, target) by {
        forall k | 0 <= k < |t.rows|
          ensures At(d.value, k, target) != Missing
        {
          assert At(d.value, k, target) == At(t, k, target);
        }
      }
      DropNothing(d.value, target);
    }
    assert Filtered(t, target, drop, true) == Filtered(t, target, drop, false);
  }

  /** Applying the scaler and imputer that fitting returned reproduces the fitted transformation. */
  lemma TransformReapply(x: Table, ops: Numerics)
    requires Valid(x)
    requires Transform(x, None, None, ops).Success?
    ensures var r := Transform(x, None, None, ops).value;
      Transform(x, Some(r.scaler), Some(r.imputer), ops) == Success(r)
  {
    var r := Transform(x, None, None, ops).value;
    TransformArtifacts(x, None, None, ops);
    TransformSameRefit(x, Some(r.scaler), Some(r.imputer), None, ops);
    assert r.scaler == ScalerOf(x, None, ops);
  }

  /**
    Fitting on a table whose every target is observed and then applying the
    returned scaler and imputer to the same table reproduces the fitted
    output: the apply path uses the scaler's statistics unchanged and the
    supplied imputer ends in the state fitting left it in.
   */
  lemma FitThenApply(t: Table, target: Name, id: Option<Name>, drop: seq<Name>, ops: Numerics)
    requires Valid(t) && HasColumn(t, target) && TargetComplete(t, target)
    requires Process(t, target, id, drop, None, None, ops).Success?
    ensures var r := Process(t, target, id, drop, None, None, ops).value;
      Process(t, target, id, drop, Some(r.scaler), Some(r.imputer), ops) == Success(r)
  {
    ProcessSuccess(t, target, id, drop, None, None, ops);
    var p := Prepare(t, target, id, drop, true).value;
    var tr := Transform(p.x, None, None, ops).value;
    assert target !in drop by {
      PrepareColumns(t, target, id, drop, true);
    }
    PrepareModesAgree(t, target, id, drop);
    TransformReapply(p.x, ops);
    assert Process(t, target, id, drop, Some(tr.scaler), Some(tr.imputer), ops) ==
      Success(Processed(Table(tr.features.columns, p.x.index, tr.features.rows), p.y, tr.scaler, tr.imputer));
  }
}
