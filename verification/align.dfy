/**
  Schema alignment of a training and a test table (`check_df_forms`): when the
  two column lists differ, both tables are cut down to the columns they share,
  in the training table's order.
 */
module Align {
  import opened Frame

  /** What the alignment reports: nothing to do, or how many columns each side kept and lost. */
  datatype Report = Unchanged | Reduced(kept: nat, droppedTrain: nat, droppedTest: nat)

  datatype Aligned = Aligned(train: Table, test: Table, report: Report)

  /**
    `df_train.columns.intersection(df_test.columns)`: the training names that
    the test table also has, in training order.
   */
  function Common(train: seq<Name>, test: seq<Name>): (c: seq<Name>)
    ensures forall n :: n in c <==> n in train && n in test
    ensures Distinct(train) ==> Distinct(c)
    ensures Distinct(train) ==>
      forall a, b :: 0 <= a < b < |c| ==> Position(train, c[a]) < Position(train, c[b])
  {
    var c := Filter(train, SetOf(train) - SetOf(test));
    if Distinct(train) then
      FilterDistinct(train, SetOf(train) - SetOf(test));
      FilterOrdered(train, SetOf(train) - SetOf(test));
      c
    else
      c
  }

  /** The number of names of `ns` that `other` lacks. */
  function Lacking(ns: seq<Name>, other: seq<Name>): nat {
    |Filter(ns, SetOf(other))|
  }

  /**
    `check_df_forms(df_train, df_test)`. Identical column lists return both
    tables as they are; otherwise both are restricted to the common columns
    and the kept and dropped counts of each side are reported.
   */
  function CheckForms(train: Table, test: Table): (r: Aligned)
    requires Valid(train) && Valid(test)
    ensures Valid(r.train) && Valid(r.test)
    ensures r.report == Unchanged <==> Names(train.columns) == Names(test.columns)
    ensures r.report == Unchanged ==> r.train == train && r.test == test
    ensures Names(r.train.columns) == Names(r.test.columns)
    ensures forall n :: n in Names(r.train.columns) <==> n in Names(train.columns) && n in Names(test.columns)
    ensures forall a, b :: 0 <= a < b < |r.train.columns| ==>
      Position(Names(train.columns), Names(r.train.columns)[a]) < Position(Names(train.columns), Names(r.train.columns)[b])
    ensures r.train.index == train.index && |r.train.rows| == |train.rows|
    ensures r.test.index == test.index && |r.test.rows| == |test.rows|
    ensures forall i, n :: 0 <= i < |r.train.rows| && n in Names(r.train.columns) ==>
      At(r.train, i, n) == At(train, i, n) && KindOf(r.train, n) == KindOf(train, n)
    ensures forall i, n :: 0 <= i < |r.test.rows| && n in Names(r.test.columns) ==>
      At(r.test, i, n) == At(test, i, n) && KindOf(r.test, n) == KindOf(test, n)
    ensures r.report.Reduced? ==>
      && r.report.kept == |r.train.columns| == |r.test.columns|
      && r.report.kept + r.report.droppedTrain == |train.columns|
      && r.report.kept + r.report.droppedTest == |test.columns|
      && r.report.droppedTrain == Lacking(Names(train.columns), Names(test.columns))
      && r.report.droppedTest == Lacking(Names(test.columns), Names(train.columns))
  {
    if Names(train.columns) == Names(test.columns) then
      Aligned(train, test, Unchanged)
    else
      Restricted(train, test)
  }

  /** The differing-columns branch of `CheckForms`: both tables cut down to the common columns. */
  function Restricted(train: Table, test: Table): (r: Aligned)
    requires Valid(train) && Valid(test)
    ensures Valid(r.train) && Valid(r.test)
    ensures Names(r.train.columns) == Names(r.test.columns) == Common(Names(train.columns), Names(test.columns))
    ensures r.train.index == train.index && |r.train.rows| == |train.rows|
    ensures r.test.index == test.index && |r.test.rows| == |test.rows|
    ensures forall i, n :: 0 <= i < |r.train.rows| && HasColumn(r.train, n) ==>
      At(r.train, i, n) == At(train, i, n) && KindOf(r.train, n) == KindOf(train, n)
    ensures forall i, n :: 0 <= i < |r.test.rows| && HasColumn(r.test, n) ==>
      At(r.test, i, n) == At(test, i, n) && KindOf(r.test, n) == KindOf(test, n)
    ensures r.report == Reduced(|r.train.columns|, Lacking(Names(train.columns), Names(test.columns)),
                                Lacking(Names(test.columns), Names(train.columns)))
    ensures |r.train.columns| + Lacking(Names(train.columns), Names(test.columns)) == |train.columns|
    ensures |r.train.columns| + Lacking(Names(test.columns), Names(train.columns)) == |test.columns|
  {
    var trainNames := Names(train.columns);
    var testNames := Names(test.columns);
    var common := Common(trainNames, testNames);
    KeptCounts(trainNames, testNames);
    Aligned(SelectNamed(train, common), SelectNamed(test, common),
            Reduced(|common|, |trainNames| - |common|, |testNames| - |common|))
  }

  /**
    The number of common columns plus the number each side lacks is that
    side's column count.
   */
  lemma KeptCounts(train: seq<Name>, test: seq<Name>)
    requires Distinct(train) && Distinct(test)
    ensures |Common(train, test)| + Lacking(train, test) == |train|
    ensures |Common(train, test)| + Lacking(test, train) == |test|
  {
    FilterSplit(train, SetOf(train) - SetOf(test), SetOf(test));
    var fromTest := Filter(test, SetOf(test) - SetOf(train));
    FilterDistinct(test, SetOf(test) - SetOf(train));
    SameElementsSameLength(Common(train, test), fromTest);
    FilterSplit(test, SetOf(test) - SetOf(train), SetOf(train));
  }

  /** Aligning the aligned tables again takes the equal-columns branch and changes nothing. */
  lemma Idempotent(train: Table, test: Table)
    requires Valid(train) && Valid(test)
    ensures var r := CheckForms(train, test);
      CheckForms(r.train, r.test) == Aligned(r.train, r.test, Unchanged)
  {
  }
}
