/**
  The choices offered for a filter column: an empty choice followed by the
  column's distinct values in order of first appearance, or a single
  placeholder when the sheet has no such column.
 */
module FilterOptions {
  import opened AccountTable

  /** No value occurs twice. */
  predicate Distinct(s: seq<string>) {
    forall i, j :: 0 <= i < j < |s| ==> s[i] != s[j]
  }

  /** The position where a value first occurs. */
  function IndexOf(s: seq<string>, x: string): (r: nat)
    requires x in s
    ensures r < |s| && s[r] == x && x !in s[..r]
  {
    if s[0] == x then 0
    else
      var k := IndexOf(s[1..], x);
      assert s[1..][..k] == s[1..k + 1];
      k + 1
  }

  /** A value's first position does not move when more values are appended. */
  lemma IndexOfPrefix(s: seq<string>, x: string, y: string)
    requires x in s
    ensures x in s + [y] && IndexOf(s + [y], x) == IndexOf(s, x)
  {
    var i := IndexOf(s, x);
    var j := IndexOf(s + [y], x);
    assert (s + [y])[..i] == s[..i];
    assert j < |s|;
    assert s[..j] == (s + [y])[..j];
  }

  /** The values of a sequence with repeats removed, each kept where it
      first appears. */
  function Unique(s: seq<string>): (r: seq<string>)
    ensures Distinct(r)
    ensures forall x :: x in r <==> x in s
    ensures forall i, j :: 0 <= i < j < |r| ==> IndexOf(s, r[i]) < IndexOf(s, r[j])
  {
    if |s| == 0 then []
    else
      var init := s[..|s| - 1];
      var last := s[|s| - 1];
      var d := Unique(init);
      assert s == init + [last];
      forall x | x in d
        ensures IndexOf(s, x) == IndexOf(init, x)
      {
        IndexOfPrefix(init, x, last);
      }
      if last in d then d
      else
        assert IndexOf(s, last) == |init| by {
          assert last !in init;
        }
        d + [last]
  }

  /** A filter column's values, row by row. */
  function ColumnValues(t: Frame, column: string): (r: seq<string>)
    requires column in t.columns
    ensures |r| == |t.rows|
    ensures forall i :: 0 <= i < |r| ==> column in t.rows[i] && r[i] == t.rows[i][column]
  {
    seq(|t.rows|, i requires 0 <= i < |t.rows| => t.rows[i][column])
  }

  /** The choice shown when the sheet lacks the column. */
  function Placeholder(column: string): string {
    "No " + column + " Column"
  }

  /** The choices for a filter column. */
  function Options(t: Frame, column: string): (r: seq<string>)
    ensures column !in t.columns ==> r == [Placeholder(column)]
    ensures column in t.columns ==> |r| >= 1 && r[0] == "" && Distinct(r[1..])
    ensures column in t.columns ==>
      forall v :: v in r[1..] <==> exists i :: 0 <= i < |t.rows| && t.rows[i][column] == v
    ensures column in t.columns ==> forall i :: 1 <= i < |r| ==> r[i] in ColumnValues(t, column)
    ensures column in t.columns ==>
      forall i, j :: 1 <= i < j < |r| ==> IndexOf(ColumnValues(t, column), r[i]) < IndexOf(ColumnValues(t, column), r[j])
  {
    if column in t.columns then
      var values := ColumnValues(t, column);
      var r := [""] + Unique(values);
      assert r[1..] == Unique(values);
      assert forall i :: 1 <= i < |r| ==> r[i] == Unique(values)[i - 1];
      r
    else [Placeholder(column)]
  }
}
