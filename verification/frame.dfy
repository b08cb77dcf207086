/**
  The data-frame abstraction the preprocessing code works on: an ordered list
  of named, typed columns, a row index and row-major cells. The dtype pandas
  would infer is replaced by an explicit Numeric/Categorical tag per column
  (int64/float64 columns are Numeric, object columns are Categorical).
 */
module Frame {

  type Name = string

  datatype Kind = Numeric | Categorical

  /** One cell: NaN/None, a number, or a string. */
  datatype Cell = Missing | Num(x: real) | Text(s: string)

  datatype Column = Column(name: Name, kind: Kind)

  /** A row label: an ordinal position (the default RangeIndex) or an id value. */
  datatype Label = Pos(n: nat) | Key(c: Cell)

  type Row = seq<Cell>

  datatype Table = Table(columns: seq<Column>, index: seq<Label>, rows: seq<Row>)

  function Names(cols: seq<Column>): (ns: seq<Name>)
    ensures |ns| == |cols|
    ensures forall j :: 0 <= j < |cols| ==> ns[j] == cols[j].name
  {
    seq(|cols|, j requires 0 <= j < |cols| => cols[j].name)
  }

  predicate Distinct<T(==)>(s: seq<T>) {
    forall i, j :: 0 <= i < j < |s| ==> s[i] != s[j]
  }

  predicate Increasing(ks: seq<nat>) {
    forall a, b :: 0 <= a < b < |ks| ==> ks[a] < ks[b]
  }

  /** First position of `x` in `s`. */
  function Position<T(==)>(s: seq<T>, x: T): (p: nat)
    requires x in s
    ensures p < |s| && s[p] == x
    ensures forall q :: 0 <= q < p ==> s[q] != x
  {
    if s[0] == x then 0 else 1 + Position(s[1..], x)
  }

  lemma PositionOfDistinct<T>(s: seq<T>, p: nat)
    requires Distinct(s) && p < |s|
    ensures Position(s, s[p]) == p
  {
  }

  /** Strictly increasing naturals grow by at least one per step. */
  lemma {:induction false} IncreasingGap(ks: seq<nat>, a: nat, b: nat)
    requires Increasing(ks) && a <= b < |ks|
    ensures ks[a] + (b - a) <= ks[b]
    decreases b - a
  {
    if a < b {
      IncreasingGap(ks, a + 1, b);
    }
  }

  /** `n` strictly increasing positions below `n` are 0, 1, ..., n - 1. */
  lemma IncreasingFull(ks: seq<nat>)
    requires Increasing(ks)
    requires forall m :: 0 <= m < |ks| ==> ks[m] < |ks|
    ensures forall m :: 0 <= m < |ks| ==> ks[m] == m
  {
    forall m | 0 <= m < |ks|
      ensures ks[m] == m
    {
      IncreasingGap(ks, 0, m);
      IncreasingGap(ks, m, |ks| - 1);
    }
  }

  /** The elements of `s` at positions `ks`, in the order of `ks`. */
  function Pick<T>(s: seq<T>, ks: seq<nat>): (r: seq<T>)
    requires forall m :: 0 <= m < |ks| ==> ks[m] < |s|
    ensures |r| == |ks|
    ensures forall m :: 0 <= m < |ks| ==> r[m] == s[ks[m]]
  {
    seq(|ks|, m requires 0 <= m < |ks| => s[ks[m]])
  }

  /** The positions whose flag is set, in increasing order. */
  function Where(flags: seq<bool>): (ks: seq<nat>)
    ensures Increasing(ks)
    ensures forall m :: 0 <= m < |ks| ==> ks[m] < |flags| && flags[ks[m]]
    ensures forall k :: 0 <= k < |flags| && flags[k] ==> k in ks
  {
    if |flags| == 0 then []
    else Where(flags[..|flags| - 1]) + (if flags[|flags| - 1] then [|flags| - 1] else [])
  }

  /** The names of `ns` that are not in `gone`, in their original order. */
  function Filter(ns: seq<Name>, gone: set<Name>): (r: seq<Name>)
    ensures forall n :: n in r <==> n in ns && n !in gone
    ensures |r| <= |ns|
  {
    if |ns| == 0 then []
    else Filter(ns[..|ns| - 1], gone) + (if ns[|ns| - 1] in gone then [] else [ns[|ns| - 1]])
  }

  function Keep(ns: seq<Name>, gone: set<Name>): (flags: seq<bool>)
    ensures |flags| == |ns|
    ensures forall k :: 0 <= k < |ns| ==> (flags[k] <==> ns[k] !in gone)
  {
    seq(|ns|, k requires 0 <= k < |ns| => ns[k] !in gone)
  }

  function SetOf(ns: seq<Name>): (s: set<Name>)
    ensures forall n :: n in s <==> n in ns
  {
    set n | n in ns
  }

  lemma {:induction false} FilterAppend(x: seq<Name>, y: seq<Name>, gone: set<Name>)
    ensures Filter(x + y, gone) == Filter(x, gone) + Filter(y, gone)
  {
    if |y| == 0 {
      assert x + y == x;
    } else {
      assert (x + y)[..|x + y| - 1] == x + y[..|y| - 1];
      assert (x + y)[|x + y| - 1] == y[|y| - 1];
      FilterAppend(x, y[..|y| - 1], gone);
    }
  }

  /** Dropping `a` and then `b` drops exactly the names in either. */
  lemma {:induction false} FilterTwice(ns: seq<Name>, a: set<Name>, b: set<Name>)
    ensures Filter(Filter(ns, a), b) == Filter(ns, a + b)
  {
    if |ns| > 0 {
      var init := ns[..|ns| - 1];
      var last := ns[|ns| - 1];
      FilterTwice(init, a, b);
      FilterAppend(Filter(init, a), if last in a then [] else [last], b);
    }
  }

  lemma {:induction false} FilterDistinct(ns: seq<Name>, gone: set<Name>)
    requires Distinct(ns)
    ensures Distinct(Filter(ns, gone))
  {
    if |ns| > 0 {
      var init := ns[..|ns| - 1];
      assert Distinct(init);
      FilterDistinct(init, gone);
      assert ns[|ns| - 1] !in init;
    }
  }

  /** Selecting the kept positions picks exactly the filtered names. */
  lemma {:induction false} PickWhereKeep(ns: seq<Name>, gone: set<Name>)
    ensures Pick(ns, Where(Keep(ns, gone))) == Filter(ns, gone)
  {
    if |ns| > 0 {
      var init := ns[..|ns| - 1];
      assert Keep(ns, gone)[..|ns| - 1] == Keep(init, gone);
      PickWhereKeep(init, gone);
      PickLast(ns, Where(Keep(init, gone)));
    }
  }

  /** Picking positions before the last one, then possibly the last one too. */
  lemma PickLast<T>(s: seq<T>, ks: seq<nat>)
    requires |s| > 0 && forall m :: 0 <= m < |ks| ==> ks[m] < |s| - 1
    ensures Pick(s, ks) == Pick(s[..|s| - 1], ks)
    ensures Pick(s, ks + [|s| - 1]) == Pick(s[..|s| - 1], ks) + [s[|s| - 1]]
  {
    var e := ks + [|s| - 1];
    assert forall m :: 0 <= m < |e| ==> Pick(s, e)[m] == (Pick(s[..|s| - 1], ks) + [s[|s| - 1]])[m];
  }

  /** Filtering keeps the surviving names in their original relative order. */
  lemma {:induction false} FilterOrdered(ns: seq<Name>, gone: set<Name>)
    requires Distinct(ns)
    ensures forall a, b :: 0 <= a < b < |Filter(ns, gone)| ==>
      Position(ns, Filter(ns, gone)[a]) < Position(ns, Filter(ns, gone)[b])
  {
    if |ns| > 0 {
      var init := ns[..|ns| - 1];
      var r := Filter(ns, gone);
      var ri := Filter(init, gone);
      assert Distinct(init);
      FilterOrdered(init, gone);
      forall x | x in init
        ensures Position(ns, x) == Position(init, x)
      {
        PositionOfDistinct(ns, Position(init, x));
      }
      forall a, b | 0 <= a < b < |r|
        ensures Position(ns, r[a]) < Position(ns, r[b])
      {
        assert r[a] in ri;
        if b < |ri| {
          assert r[b] in ri;
        } else {
          PositionOfDistinct(ns, |ns| - 1);
        }
      }
    }
  }

  /** Every element of `a` occurs in `ns`, and `a` follows the order of `ns` strictly. */
  predicate InOrder(ns: seq<Name>, a: seq<Name>) {
    forall i, j :: 0 <= i < j < |a| ==> Before(ns, a[i], a[j])
  }

  /** `x` and `y` both occur in `ns`, `x` first. */
  predicate Before(ns: seq<Name>, x: Name, y: Name) {
    x in ns && y in ns && Position(ns, x) < Position(ns, y)
  }

  /** Dropping the head of an ordered list keeps it ordered and removes exactly the head. */
  lemma InOrderTail(ns: seq<Name>, a: seq<Name>)
    requires InOrder(ns, a) && |a| > 0
    ensures InOrder(ns, a[1..])
    ensures forall x :: x in a[1..] <==> x in a && x != a[0]
  {
    forall i, j | 0 <= i < j < |a| - 1
      ensures a[1..][i] in ns && a[1..][j] in ns && Position(ns, a[1..][i]) < Position(ns, a[1..][j])
    {
      assert a[1..][i] == a[i + 1] && a[1..][j] == a[j + 1];
    }
    forall x | x in a[1..]
      ensures x != a[0]
    {
      var k :| 1 <= k < |a| && a[k] == x;
      assert Position(ns, a[0]) < Position(ns, a[k]);
    }
    assert a == [a[0]] + a[1..];
  }

  /** The head of an ordered list comes first in `ns` among its elements. */
  lemma InOrderHead(ns: seq<Name>, a: seq<Name>, x: Name)
    requires InOrder(ns, a) && |a| > 0 && x in a && x != a[0]
    ensures a[0] in ns && x in ns && Position(ns, a[0]) < Position(ns, x)
  {
    var k :| 0 <= k < |a| && a[k] == x;
    assert k != 0;
  }

  /** Two lists with the same names, both in the order of `ns`, are the same list. */
  lemma {:induction false} InOrderUnique(ns: seq<Name>, a: seq<Name>, b: seq<Name>)
    requires InOrder(ns, a) && InOrder(ns, b)
    requires forall x :: x in a <==> x in b
    ensures a == b
  {
    if |b| > 0 {
      assert b[0] in a;
    }
    if |a| > 0 {
      assert a[0] in b;
      if a[0] != b[0] {
        InOrderHead(ns, a, b[0]);
        InOrderHead(ns, b, a[0]);
        assert false;
      }
      InOrderTail(ns, a);
      InOrderTail(ns, b);
      InOrderUnique(ns, a[1..], b[1..]);
      assert a == [a[0]] + a[1..] && b == [b[0]] + b[1..];
    }
  }

  lemma DistinctInOrder(ns: seq<Name>)
    requires Distinct(ns)
    ensures InOrder(ns, ns)
  {
    forall i, j | 0 <= i < j < |ns|
      ensures Position(ns, ns[i]) < Position(ns, ns[j])
    {
      PositionOfDistinct(ns, i);
      PositionOfDistinct(ns, j);
    }
  }

  /** Filtering an ordered list leaves it ordered. */
  lemma {:induction false} InOrderFilter(ns: seq<Name>, a: seq<Name>, gone: set<Name>)
    requires InOrder(ns, a)
    ensures InOrder(ns, Filter(a, gone))
  {
    if |a| > 0 {
      var init, last := a[..|a| - 1], a[|a| - 1];
      assert InOrder(ns, init) by {
        forall i, j | 0 <= i < j < |init|
          ensures init[i] in ns && init[j] in ns && Position(ns, init[i]) < Position(ns, init[j])
        {
          assert init[i] == a[i] && init[j] == a[j];
        }
      }
      InOrderFilter(ns, init, gone);
      var fi := Filter(init, gone);
      var r := Filter(a, gone);
      if last !in gone {
        assert r == fi + [last];
        forall i, j | 0 <= i < j < |r|
          ensures r[i] in ns && r[j] in ns && Position(ns, r[i]) < Position(ns, r[j])
        {
          if j < |fi| {
            assert r[i] == fi[i] && r[j] == fi[j];
          } else {
            assert r[i] == fi[i] && fi[i] in init;
            var k :| 0 <= k < |init| && init[k] == fi[i];
            assert a[k] == r[i] && a[|a| - 1] == r[j];
          }
        }
      } else {
        assert r == fi;
      }
    }
  }

  /** Order carries over: a list ordered by `f`, itself ordered by `ns`, is ordered by `ns`. */
  lemma InOrderThrough(ns: seq<Name>, f: seq<Name>, b: seq<Name>)
    requires InOrder(ns, f) && InOrder(f, b)
    ensures InOrder(ns, b)
  {
    forall i, j | 0 <= i < j < |b|
      ensures b[i] in ns && b[j] in ns && Position(ns, b[i]) < Position(ns, b[j])
    {
      assert b[i] in f && b[j] in f && Position(f, b[i]) < Position(f, b[j]);
      var p, q := Position(f, b[i]), Position(f, b[j]);
      assert f[p] == b[i] && f[q] == b[j];
      assert f[p] in ns && f[q] in ns && Position(ns, f[p]) < Position(ns, f[q]);
    }
  }

  /** No flag set, no position picked. */
  lemma {:induction false} WhereNone(flags: seq<bool>)
    requires forall k :: 0 <= k < |flags| ==> !flags[k]
    ensures Where(flags) == []
  {
    if |flags| > 0 {
      WhereNone(flags[..|flags| - 1]);
    }
  }

  /** Every position is picked by exactly one of a set of flags and its negation. */
  lemma {:induction false} WhereSplit(flags: seq<bool>, other: seq<bool>)
    requires |other| == |flags|
    requires forall k :: 0 <= k < |flags| ==> (other[k] <==> !flags[k])
    ensures |Where(flags)| + |Where(other)| == |flags|
  {
    if |flags| > 0 {
      WhereSplit(flags[..|flags| - 1], other[..|other| - 1]);
    }
  }

  /** Two filters that split every name between them share out the whole length. */
  lemma {:induction false} FilterSplit(ns: seq<Name>, g: set<Name>, h: set<Name>)
    requires forall n :: n in ns ==> (n in g <==> n !in h)
    ensures |Filter(ns, g)| + |Filter(ns, h)| == |ns|
  {
    if |ns| > 0 {
      FilterSplit(ns[..|ns| - 1], g, h);
    }
  }

  /** The elements of a duplicate-free sequence are as many as its length. */
  lemma {:induction false} DistinctCard<T>(s: seq<T>)
    requires Distinct(s)
    ensures |set x | x in s| == |s|
  {
    if |s| > 0 {
      var init := s[..|s| - 1];
      assert Distinct(init);
      DistinctCard(init);
      assert (set x | x in s) == (set x | x in init) + {s[|s| - 1]};
      assert s[|s| - 1] !in (set x | x in init);
    }
  }

  /** Two duplicate-free sequences with the same elements have the same length. */
  lemma SameElementsSameLength<T>(s: seq<T>, u: seq<T>)
    requires Distinct(s) && Distinct(u)
    requires forall x :: x in s <==> x in u
    ensures |s| == |u|
  {
    DistinctCard(s);
    DistinctCard(u);
    assert (set x | x in s) == (set x | x in u);
  }

  // ---------------------------------------------------------------------------
  // Tables

  predicate Fits(k: Kind, c: Cell) {
    match k
    case Numeric => !c.Text?
    case Categorical => !c.Num?
  }

  /** Every row has one cell per column and one label. */
  predicate Shaped(t: Table) {
    && |t.index| == |t.rows|
    && forall i :: 0 <= i < |t.rows| ==> |t.rows[i]| == |t.columns|
  }

  /** A well-formed table: rectangular, distinct column names, cells of the column's kind. */
  predicate Valid(t: Table) {
    && Shaped(t)
    && Distinct(Names(t.columns))
    && forall i, j :: 0 <= i < |t.rows| && 0 <= j < |t.columns| ==> Fits(t.columns[j].kind, t.rows[i][j])
  }

  /** Replacing the row labels by as many others keeps a table well formed. */
  lemma Reindexed(t: Table, index: seq<Label>)
    requires Valid(t) && |index| == |t.rows|
    ensures Valid(Table(t.columns, index, t.rows))
  {
  }

  predicate HasColumn(t: Table, n: Name) {
    n in Names(t.columns)
  }

  /** `df.loc[i-th row, n]` by row position. */
  function At(t: Table, i: nat, n: Name): Cell
    requires Shaped(t) && i < |t.rows| && HasColumn(t, n)
  {
    t.rows[i][Position(Names(t.columns), n)]
  }

  function KindOf(t: Table, n: Name): Kind
    requires HasColumn(t, n)
  {
    t.columns[Position(Names(t.columns), n)].kind
  }

  /** All cells of column position `j`, top to bottom. */
  function ColumnAt(t: Table, j: nat): (col: seq<Cell>)
    requires Shaped(t) && j < |t.columns|
    ensures |col| == |t.rows|
    ensures forall i :: 0 <= i < |t.rows| ==> col[i] == t.rows[i][j]
  {
    seq(|t.rows|, i requires 0 <= i < |t.rows| && Shaped(t) => t.rows[i][j])
  }

  /** `df.iloc[:, ks]`: the columns at positions `ks`, every row kept. */
  function Select(t: Table, ks: seq<nat>): (r: Table)
    requires Shaped(t)
    requires forall m :: 0 <= m < |ks| ==> ks[m] < |t.columns|
    ensures Shaped(r)
    ensures r.columns == Pick(t.columns, ks)
    ensures r.index == t.index && |r.rows| == |t.rows|
    ensures forall i, m :: 0 <= i < |t.rows| && 0 <= m < |ks| ==> r.rows[i][m] == t.rows[i][ks[m]]
  {
    Table(Pick(t.columns, ks), t.index,
          seq(|t.rows|, i requires 0 <= i < |t.rows| => Pick(t.rows[i], ks)))
  }

  /** `df.iloc[rs]`: the rows at positions `rs` with their labels, every column kept. */
  function SelectRows(t: Table, rs: seq<nat>): (r: Table)
    requires Shaped(t)
    requires forall m :: 0 <= m < |rs| ==> rs[m] < |t.rows|
    ensures Shaped(r)
    ensures r.columns == t.columns
    ensures r.index == Pick(t.index, rs) && r.rows == Pick(t.rows, rs)
  {
    Table(t.columns, Pick(t.index, rs), Pick(t.rows, rs))
  }

  lemma SelectValid(t: Table, ks: seq<nat>)
    requires Valid(t)
    requires forall m :: 0 <= m < |ks| ==> ks[m] < |t.columns|
    requires Distinct(ks)
    ensures Valid(Select(t, ks))
    ensures Names(Select(t, ks).columns) == Pick(Names(t.columns), ks)
    ensures forall m :: 0 <= m < |ks| ==> Position(Names(Select(t, ks).columns), Names(t.columns)[ks[m]]) == m
  {
    var r := Select(t, ks);
    var ns := Names(t.columns);
    assert Names(r.columns) == Pick(ns, ks);
    forall a, b | 0 <= a < b < |ks|
      ensures Names(r.columns)[a] != Names(r.columns)[b]
    {
      assert ks[a] != ks[b];
    }
    forall m | 0 <= m < |ks|
      ensures Position(Names(r.columns), ns[ks[m]]) == m
    {
      PositionOfDistinct(Names(r.columns), m);
    }
  }

  lemma SelectRowsValid(t: Table, rs: seq<nat>)
    requires Valid(t)
    requires forall m :: 0 <= m < |rs| ==> rs[m] < |t.rows|
    ensures Valid(SelectRows(t, rs))
  {
  }

  /**
    `df.drop(columns=gone)` for names known to exist, or more generally the
    table restricted to the columns whose names are not in `gone`.
   */
  function Drop(t: Table, gone: set<Name>): (r: Table)
    requires Valid(t)
    ensures Valid(r)
    ensures Names(r.columns) == Filter(Names(t.columns), gone)
    ensures r.index == t.index && |r.rows| == |t.rows|
    ensures forall n :: HasColumn(r, n) ==> KindOf(r, n) == KindOf(t, n)
    ensures forall i, n :: 0 <= i < |r.rows| && HasColumn(r, n) ==> At(r, i, n) == At(t, i, n)
  {
    var ks := Where(Keep(Names(t.columns), gone));
    SelectValid(t, ks);
    PickWhereKeep(Names(t.columns), gone);
    SelectPreserves(t, ks);
    Select(t, ks)
  }

  /** The first position in `names` of each element of `ns`. */
  function Positions(names: seq<Name>, ns: seq<Name>): (ks: seq<nat>)
    requires forall n :: n in ns ==> n in names
    ensures |ks| == |ns|
    ensures forall m :: 0 <= m < |ns| ==> ks[m] < |names| && names[ks[m]] == ns[m]
  {
    if |ns| == 0 then [] else [Position(names, ns[0])] + Positions(names, ns[1..])
  }

  /** `df[ns]`: the named columns, in the order of `ns`. */
  function SelectNamed(t: Table, ns: seq<Name>): (r: Table)
    requires Valid(t)
    requires Distinct(ns)
    requires forall n :: n in ns ==> n in Names(t.columns)
    ensures Valid(r)
    ensures Names(r.columns) == ns
    ensures r.index == t.index && |r.rows| == |t.rows|
    ensures forall n :: HasColumn(r, n) ==> KindOf(r, n) == KindOf(t, n)
    ensures forall i, n :: 0 <= i < |r.rows| && HasColumn(r, n) ==> At(r, i, n) == At(t, i, n)
  {
    var names := Names(t.columns);
    var ks := Positions(names, ns);
    assert forall m :: 0 <= m < |ks| ==> names[ks[m]] == ns[m];
    assert Distinct(ks) by {
      forall a, b | 0 <= a < b < |ks|
        ensures ks[a] != ks[b]
      {
        assert names[ks[a]] == ns[a] != ns[b] == names[ks[b]];
      }
    }
    SelectValid(t, ks);
    SelectPreserves(t, ks);
    Select(t, ks)
  }

  /** Cells and kinds are found under the same name after a selection of distinct positions. */
  lemma SelectPreserves(t: Table, ks: seq<nat>)
    requires Valid(t)
    requires forall m :: 0 <= m < |ks| ==> ks[m] < |t.columns|
    requires Distinct(ks)
    ensures forall n :: HasColumn(Select(t, ks), n) ==> HasColumn(t, n) && KindOf(Select(t, ks), n) == KindOf(t, n)
    ensures forall i, n :: 0 <= i < |t.rows| && HasColumn(Select(t, ks), n) ==> HasColumn(t, n) && At(Select(t, ks), i, n) == At(t, i, n)
  {
    var r := Select(t, ks);
    var ns := Names(t.columns);
    SelectValid(t, ks);
    forall n | HasColumn(r, n)
      ensures HasColumn(t, n)
      ensures KindOf(r, n) == KindOf(t, n)
      ensures forall i :: 0 <= i < |t.rows| ==> At(r, i, n) == At(t, i, n)
    {
      var m := Position(Names(r.columns), n);
      assert ns[ks[m]] == n;
      PositionOfDistinct(ns, ks[m]);
    }
  }
}
