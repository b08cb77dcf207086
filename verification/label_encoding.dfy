/**
  sklearn's `LabelEncoder().fit_transform(column)` on an object column: the
  classes are the distinct strings of the column in sorted order, followed by
  one class for a missing cell when the column has one; each cell is replaced
  by the position of its class. NaN and `None` are the one value `Missing`
  here and share that last class, where sklearn gives each its own.
 */
module LabelEncoding {
  import opened Frame
  import opened Lex

  /** Strictly ascending in Python string order. */
  predicate Sorted(cs: seq<string>) {
    forall i, j :: 0 <= i < j < |cs| ==> Less(cs[i], cs[j])
  }

  /** The cells of an object column: strings or missing, never numbers. */
  predicate Textual(col: seq<Cell>) {
    forall i :: 0 <= i < |col| ==> !col[i].Num?
  }

  lemma SortedDistinct(cs: seq<string>)
    requires Sorted(cs)
    ensures Distinct(cs)
  {
    forall i, j | 0 <= i < j < |cs|
      ensures cs[i] != cs[j]
    {
      if cs[i] == cs[j] {
        Irreflexive(cs[i]);
      }
    }
  }

  lemma BelowAll(s: string, cs: seq<string>)
    requires Sorted(cs) && |cs| > 0 && Less(s, cs[0])
    ensures forall j :: 0 <= j < |cs| ==> Less(s, cs[j])
  {
    forall j | 0 < j < |cs|
      ensures Less(s, cs[j])
    {
      Transitive(s, cs[0], cs[j]);
    }
  }

  /** Adds `s` to a sorted list of distinct strings, if it is not there already. */
  function Insert(s: string, cs: seq<string>): (r: seq<string>)
    requires Sorted(cs)
    ensures Sorted(r)
    ensures forall u :: u in r <==> u == s || u in cs
  {
    if |cs| == 0 then [s]
    else if s == cs[0] then cs
    else if Less(s, cs[0]) then
      BelowAll(s, cs);
      [s] + cs
    else
      Total(s, cs[0]);
      var rest := Insert(s, cs[1..]);
      assert forall u :: u in rest ==> Less(cs[0], u);
      [cs[0]] + rest
  }

  /** `le.classes_` without the trailing NaN class: the distinct strings of the column, sorted. */
  function Classes(col: seq<Cell>): (cs: seq<string>)
    ensures Sorted(cs)
    ensures forall s :: s in cs <==> Text(s) in col
  {
    if |col| == 0 then []
    else
      var init := col[..|col| - 1];
      var cs := Classes(init);
      assert col == init + [col[|col| - 1]];
      match col[|col| - 1]
      case Text(s) => Insert(s, cs)
      case _ => cs
  }

  /** `len(le.classes_)`: the distinct strings, plus one when NaN occurs. */
  function ClassCount(col: seq<Cell>): (n: nat)
    ensures Textual(col) ==> (n == 0 <==> |col| == 0)
  {
    |Classes(col)| + (if Missing in col then 1 else 0)
  }

  /** The code of one cell: its rank among the sorted classes, NaN last. */
  function Code(cs: seq<string>, c: Cell): (k: nat)
    ensures k <= |cs|
    ensures c.Text? && c.s in cs ==> k < |cs| && cs[k] == c.s
  {
    if c.Text? && c.s in cs then Position(cs, c.s) else |cs|
  }

  function Codes(cs: seq<string>, col: seq<Cell>): (codes: seq<nat>)
    ensures |codes| == |col|
    ensures forall i :: 0 <= i < |col| ==> codes[i] == Code(cs, col[i])
  {
    seq(|col|, i requires 0 <= i < |col| => Code(cs, col[i]))
  }

  /**
    `LabelEncoder().fit_transform(col)`. The codes are an order-preserving
    one-to-one numbering of the column's distinct values by 0 .. ClassCount-1,
    with a missing cell numbered after every string.
   */
  function Encode(col: seq<Cell>): (codes: seq<nat>)
    requires Textual(col)
    ensures |codes| == |col|
    ensures forall i :: 0 <= i < |col| ==> codes[i] < ClassCount(col)
    ensures forall i, j :: 0 <= i < |col| && 0 <= j < |col| ==> (codes[i] == codes[j] <==> col[i] == col[j])
    ensures forall i, j :: 0 <= i < |col| && 0 <= j < |col| && col[i].Text? && col[j].Text? && Less(col[i].s, col[j].s) ==>
      codes[i] < codes[j]
    ensures forall i, j :: 0 <= i < |col| && 0 <= j < |col| && col[i].Text? && col[j] == Missing ==> codes[i] < codes[j]
    ensures forall c: nat :: c < ClassCount(col) ==> c in codes
  {
    var cs := Classes(col);
    SortedDistinct(cs);
    CodesOneToOne(cs, col);
    CodesMonotone(cs, col);
    CodesOnto(col);
    Codes(cs, col)
  }

  lemma CodesOneToOne(cs: seq<string>, col: seq<Cell>)
    requires Textual(col) && Distinct(cs)
    requires forall s :: s in cs <==> Text(s) in col
    ensures forall i :: 0 <= i < |col| ==> Code(cs, col[i]) < |cs| + (if Missing in col then 1 else 0)
    ensures forall i, j :: 0 <= i < |col| && 0 <= j < |col| ==> (Code(cs, col[i]) == Code(cs, col[j]) <==> col[i] == col[j])
  {
  }

  lemma CodesMonotone(cs: seq<string>, col: seq<Cell>)
    requires Sorted(cs)
    requires forall s :: s in cs <==> Text(s) in col
    ensures forall i, j :: 0 <= i < |col| && 0 <= j < |col| && col[i].Text? && col[j].Text? && Less(col[i].s, col[j].s) ==>
      Code(cs, col[i]) < Code(cs, col[j])
    ensures forall i, j :: 0 <= i < |col| && 0 <= j < |col| && col[i].Text? && col[j] == Missing ==> Code(cs, col[i]) < Code(cs, col[j])
  {
    forall i, j | 0 <= i < |col| && 0 <= j < |col| && col[i].Text? && col[j].Text? && Less(col[i].s, col[j].s)
      ensures Code(cs, col[i]) < Code(cs, col[j])
    {
      var a, b := col[i].s, col[j].s;
      assert a in cs && b in cs;
      var p, q := Position(cs, a), Position(cs, b);
      if p == q {
        Irreflexive(a);
      } else if q < p {
        Transitive(a, b, a);
        Irreflexive(a);
      }
    }
  }

  lemma CodesOnto(col: seq<Cell>)
    ensures forall c: nat :: c < ClassCount(col) ==> c in Codes(Classes(col), col)
  {
    var cs := Classes(col);
    var codes := Codes(cs, col);
    SortedDistinct(cs);
    forall c: nat | c < ClassCount(col)
      ensures c in codes
    {
      if c < |cs| {
        assert Text(cs[c]) in col;
        var i :| 0 <= i < |col| && col[i] == Text(cs[c]);
        PositionOfDistinct(cs, c);
        assert codes[i] == c;
      } else {
        var i :| 0 <= i < |col| && col[i] == Missing;
        assert codes[i] == c;
      }
    }
  }

  /** ClassCount is the number of distinct values in the column, NaN included. */
  lemma ClassCountIsDistinctValues(col: seq<Cell>)
    requires Textual(col)
    ensures ClassCount(col) == |set c | c in col|
  {
    var cs := Classes(col);
    SortedDistinct(cs);
    var texts := seq(|cs|, k requires 0 <= k < |cs| => Text(cs[k]));
    assert Distinct(texts);
    DistinctCard(texts);
    var present := set c | c in col;
    var named := set c | c in texts;
    var gap: set<Cell> := if Missing in col then {Missing} else {};
    forall c | c in present
      ensures c in named + gap
    {
      if c.Text? {
        assert c.s in cs;
        var k := Position(cs, c.s);
        assert texts[k] == c;
      }
    }
    forall c | c in named
      ensures c in present
    {
      var k :| 0 <= k < |texts| && texts[k] == c;
      assert cs[k] in cs;
    }
    assert present == named + gap;
    assert Missing !in named;
    assert |named + gap| == |named| + |gap|;
  }

  /**
    The encoding is fitted on the column it is given: the same string can get
    different codes in two columns with different class sets.
   */
  lemma CodesDependOnColumn()
    ensures Encode([Text("a"), Text("b")]) == [0, 1]
    ensures Encode([Text("b")]) == [0]
  {
    var two := [Text("a"), Text("b")];
    assert Less("a", "b") && !Less("b", "a");
    assert two[..1] == [Text("a")];
    assert Classes(two[..1]) == ["a"];
    assert Insert("b", ["a"]) == ["a", "b"];
    assert Classes(two) == ["a", "b"];
    assert Classes([Text("b")]) == ["b"];
  }
}
