/**
 * The part of a polars DataFrame the lookup tables rely on: named string columns, an ordered
 * sequence of rows, order-preserving `filter`, exactly-one `row(by_predicate=...)` and
 * `to_dict(as_series=False)`.
 */
module Frames {
  import opened Wrappers

  /** One row, column name to cell text. */
  type Row = map<string, string>

  datatype Frame = Frame(columns: seq<string>, rows: seq<Row>)

  /** The row has a cell in exactly the given columns. */
  predicate RowFits(columns: seq<string>, r: Row) {
    (forall c :: c in r ==> c in columns) && forall c :: c in columns ==> c in r
  }

  /** Column names are distinct and every row has a cell in exactly those columns. */
  predicate WellFormed(f: Frame) {
    (forall i, j :: 0 <= i < j < |f.columns| ==> f.columns[i] != f.columns[j])
    && forall r :: r in f.rows ==> RowFits(f.columns, r)
  }

  /** `df.filter(p)`: the rows satisfying `p`, in table order. */
  function Filter(rows: seq<Row>, p: Row -> bool): (kept: seq<Row>)
    ensures |kept| <= |rows|
    ensures forall r :: r in kept ==> r in rows && p(r)
    ensures forall i :: 0 <= i < |rows| && p(rows[i]) ==> rows[i] in kept
  {
    if |rows| == 0 then []
    else
      var n := |rows| - 1;
      assert forall i :: 0 <= i < n ==> rows[i] == rows[..n][i];
      Filter(rows[..n], p) + (if p(rows[n]) then [rows[n]] else [])
  }

  /** Filtering the rows keeps the table well-formed. */
  lemma FilterWellFormed(f: Frame, p: Row -> bool)
    requires WellFormed(f)
    ensures WellFormed(Frame(f.columns, Filter(f.rows, p)))
  {
  }

  /** The positions of the rows `Filter(rows, p)` keeps, ascending. */
  function Kept(rows: seq<Row>, p: Row -> bool): (idx: seq<nat>)
    ensures forall k :: 0 <= k < |idx| ==> idx[k] < |rows| && p(rows[idx[k]])
    ensures forall k, l :: 0 <= k < l < |idx| ==> idx[k] < idx[l]
    ensures forall i :: 0 <= i < |rows| && p(rows[i]) ==> i in idx
  {
    if |rows| == 0 then []
    else
      var n := |rows| - 1;
      assert forall i :: 0 <= i < n ==> rows[i] == rows[..n][i];
      Kept(rows[..n], p) + (if p(rows[n]) then [n] else [])
  }

  /** `Filter` is an order-preserving selection: its k-th row is the k-th matching row of the table. */
  lemma {:induction false} FilterSelectsInOrder(rows: seq<Row>, p: Row -> bool)
    ensures |Filter(rows, p)| == |Kept(rows, p)|
    ensures forall k :: 0 <= k < |Kept(rows, p)| ==> Filter(rows, p)[k] == rows[Kept(rows, p)[k]]
  {
    if |rows| > 0 {
      var n := |rows| - 1;
      var front := rows[..n];
      FilterSelectsInOrder(front, p);
      var f, idx := Filter(front, p), Kept(front, p);
      var F, K := Filter(rows, p), Kept(rows, p);
      assert F == f + (if p(rows[n]) then [rows[n]] else []);
      assert K == idx + (if p(rows[n]) then [n] else []);
      forall k | 0 <= k < |K|
        ensures F[k] == rows[K[k]]
      {
        if k < |idx| {
          assert F[k] == f[k] == front[idx[k]];
        }
      }
    }
  }

  /** When the first matching row is at `i`, the filter's first row is `rows[i]`. */
  lemma FilterFirst(rows: seq<Row>, p: Row -> bool, i: nat)
    requires i < |rows| && p(rows[i])
    requires forall j :: 0 <= j < i ==> !p(rows[j])
    ensures |Filter(rows, p)| > 0 && Filter(rows, p)[0] == rows[i]
  {
    FilterSelectsInOrder(rows, p);
    var idx := Kept(rows, p);
    assert i in idx;
  }

  /** The ways `row(by_predicate=...)` can fail. */
  datatype RowError = NoRowsReturned | TooManyRowsReturned

  /** `df.row(by_predicate=p)`: the single matching row, or an error for none or several. */
  function RowBy(rows: seq<Row>, p: Row -> bool): (r: Result<Row, RowError>)
    ensures r == Err(NoRowsReturned) <==> forall i :: 0 <= i < |rows| ==> !p(rows[i])
    ensures r == Err(TooManyRowsReturned) <==>
              exists i, j :: 0 <= i < j < |rows| && p(rows[i]) && p(rows[j])
    ensures forall i :: 0 <= i < |rows| && p(rows[i]) && (forall j :: 0 <= j < |rows| && j != i ==> !p(rows[j]))
              ==> r == Ok(rows[i])
  {
    var m := Filter(rows, p);
    FilterSelectsInOrder(rows, p);
    var idx := Kept(rows, p);
    if |m| == 0 then
      Err(NoRowsReturned)
    else if |m| > 1 then
      assert p(rows[idx[0]]) && p(rows[idx[1]]) && idx[0] < idx[1];
      Err(TooManyRowsReturned)
    else
      assert forall i :: 0 <= i < |rows| && p(rows[i]) ==> i == idx[0];
      Ok(m[0])
  }

  /** `df.to_dict(as_series=False)`: each column name to the list of its cells, in row order. */
  function ToColumns(f: Frame): (d: map<string, seq<string>>)
    requires WellFormed(f)
    ensures forall c :: c in d <==> c in f.columns
    ensures forall c :: c in d ==> |d[c]| == |f.rows|
    ensures forall c, i :: c in d && 0 <= i < |f.rows| ==> f.rows[i] in f.rows && d[c][i] == f.rows[i][c]
  {
    assert forall i :: 0 <= i < |f.rows| ==> f.rows[i] in f.rows;
    map c | c in f.columns :: seq(|f.rows|, i requires 0 <= i < |f.rows| => f.rows[i][c])
  }

  /** Row `i` read back from the column lists: each column name with its `i`-th entry. */
  function RowAt(d: map<string, seq<string>>, i: nat): Row
    requires forall c :: c in d ==> i < |d[c]|
  {
    map c | c in d :: d[c][i]
  }

  /** Reading row `i` back from `to_dict` gives the table's row `i`. */
  lemma RowAtToColumns(f: Frame, i: nat)
    requires WellFormed(f) && i < |f.rows|
    ensures RowAt(ToColumns(f), i) == f.rows[i]
  {
    var d := ToColumns(f);
    var row, original := RowAt(d, i), f.rows[i];
    assert original in f.rows;
    assert forall c :: c in row <==> c in original;
  }

  /**
   * The loop of `get_info`: for every index of column `key`, in order, append the row read back
   * from the column lists at that index.
   */
  method RowsFromColumns(d: map<string, seq<string>>, key: string) returns (rows: seq<Row>)
    requires key in d && forall c :: c in d ==> |d[c]| == |d[key]|
    ensures |rows| == |d[key]|
    ensures forall i :: 0 <= i < |rows| ==> rows[i] == RowAt(d, i)
  {
    rows := [];
    for i := 0 to |d[key]|
      invariant |rows| == i
      invariant forall k :: 0 <= k < i ==> rows[k] == RowAt(d, k)
    {
      rows := rows + [RowAt(d, i)];
    }
  }

  /** Reading every row back from `to_dict` gives the table's rows. */
  lemma RowsFromToColumns(f: Frame, rows: seq<Row>)
    requires WellFormed(f)
    requires |rows| == |f.rows|
    requires forall i :: 0 <= i < |rows| ==> rows[i] == RowAt(ToColumns(f), i)
    ensures rows == f.rows
  {
    forall i | 0 <= i < |rows|
      ensures rows[i] == f.rows[i]
    {
      RowAtToColumns(f, i);
    }
  }
}
