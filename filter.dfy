/** The filter of betterTableFlex.js (`set filter`): the indices of the rows
    one of whose fields, turned to text and lower-cased, contains the
    lower-cased query. */
module Filter {
  import opened Text
  import opened Records

  /** The test the filter's `reduce` callback runs on one row: some key's
      lower-cased value has `indexOf(query) > -1`. The callback's loop over
      `Object.keys(row)` stops at the first hit, which does not change the
      answer. A row with no fields is never kept, and the empty query keeps
      every other row. */
  predicate RowMatches(row: Record, query: string): (r: bool)
    ensures r ==> row != map[]
    ensures query == "" ==> (r <==> row != map[])
  {
    assert query == "" ==> forall k :: k in row ==> IndexOf(Lower(row[k]), query) == 0;
    exists k | k in row :: IndexOf(Lower(row[k]), query) > -1
  }

  /** What a match means: some field of the row, lower-cased, contains the
      query. */
  ghost predicate Matches(row: Record, query: string) {
    exists k :: k in row && Contains(Lower(row[k]), query)
  }

  /** The `indexOf` test is exactly containment. */
  lemma RowMatchesIffMatches(row: Record, query: string)
    ensures RowMatches(row, query) <==> Matches(row, query)
  {
    forall k | k in row
      ensures IndexOf(Lower(row[k]), query) > -1 <==> Contains(Lower(row[k]), query)
    {
      IndexOfFindsFirst(Lower(row[k]), query);
    }
  }

  /** The indices the `reduce` has collected after visiting the first `n`
      rows: in ascending order, each below `n`, and exactly those of the
      matching rows. */
  function Collected(data: seq<Record>, query: string, n: nat): (r: seq<int>)
    requires n <= |data|
    ensures forall j :: 0 <= j < |r| ==> 0 <= r[j] < n
    ensures forall i, j :: 0 <= i < j < |r| ==> r[i] < r[j]
    ensures forall k :: 0 <= k < n ==> (k in r <==> Matches(data[k], query))
  {
    if n == 0 then []
    else
      RowMatchesIffMatches(data[n - 1], query);
      Collected(data, query, n - 1) + (if RowMatches(data[n - 1], query) then [n - 1] else [])
  }

  /** The filtered list for a lower-cased, non-empty query over `rowData`. */
  function Indices(data: seq<Record>, query: string): (r: seq<int>)
    ensures forall j :: 0 <= j < |r| ==> 0 <= r[j] < |data|
    ensures forall i, j :: 0 <= i < j < |r| ==> r[i] < r[j]
    ensures forall k :: 0 <= k < |data| ==> (k in r <==> Matches(data[k], query))
  {
    Collected(data, query, |data|)
  }

  /** Typing more of the query never brings back a row: every row that
      matches `q1 + q2` matches `q1`. (Each filter call scans the whole of
      `rowData` again rather than the previous result, so this holds because
      of what a match is, not because of how the list is built.) */
  lemma RefinedQueryNarrows(data: seq<Record>, q1: string, q2: string)
    ensures forall k :: k in Indices(data, Lower(q1 + q2)) ==> k in Indices(data, Lower(q1))
  {
    LowerAppend(q1, q2);
    ContainsPrefix(Lower(q1), Lower(q2));
    forall k | k in Indices(data, Lower(q1 + q2))
      ensures k in Indices(data, Lower(q1))
    {
      var row := data[k];
      var c :| c in row && Contains(Lower(row[c]), Lower(q1 + q2));
      ContainsTransitive(Lower(row[c]), Lower(q1 + q2), Lower(q1));
    }
  }

  /** `"bob".indexOf("a")` is -1: no position of `"bob"` holds an `a`. */
  lemma BobHasNoA()
    ensures IndexOf("bob", "a") == -1
  {
    assert "bob"[0..1][0] == 'b' && "bob"[1..2][0] == 'o' && "bob"[2..3][0] == 'b';
    assert IndexOfFrom("bob", "a", 3) == -1;
    assert IndexOfFrom("bob", "a", 2) == -1;
    assert IndexOfFrom("bob", "a", 1) == -1;
  }

  /** The row test on the three rows of the example below. */
  lemma ExampleRowsMatch()
    ensures RowMatches(map["name" := "Amy"], "a")
    ensures !RowMatches(map["name" := "Bob"], "a")
    ensures RowMatches(map["name" := "Ana"], "a")
  {
    assert Lower("Amy") == "amy" && Lower("Bob") == "bob" && Lower("Ana") == "ana";
    assert IndexOf("amy", "a") == 0 && IndexOf("ana", "a") == 0;
    BobHasNoA();
    assert "name" in map["name" := "Amy"] && "name" in map["name" := "Ana"];
  }

  /** Three rows with one `name` field each, filtered by `"A"`: the two
      names that contain an `a` in either case are kept, in order. */
  lemma FilterExample()
    ensures Indices([map["name" := "Amy"], map["name" := "Bob"], map["name" := "Ana"]], Lower("A")) == [0, 2]
  {
    var data := [map["name" := "Amy"], map["name" := "Bob"], map["name" := "Ana"]];
    assert Lower("A") == "a";
    ExampleRowsMatch();
    assert Collected(data, "a", 1) == [0];
    assert Collected(data, "a", 2) == [0];
    assert Collected(data, "a", 3) == [0, 2];
    assert Indices(data, "a") == [0, 2];
  }
}
