/**
 * `DyntaxaTaxon` (src/nodc_dyntaxa/dyntaxa_taxon.py): the taxon table, cleaned of comment rows
 * and given a short `taxon_id`, answering accepted-name lookups and column-value selections.
 */
module DyntaxaTaxon {
  import opened Wrappers
  import opened Text
  import opened Frames

  /** `first_col`: the URN-style identifier column. */
  const FirstCol: string := "taxonId"
  /** The derived column `_cleanup_data` adds. */
  const TaxonIdCol: string := "taxon_id"
  const NameCol: string := "scientificName"
  const StatusCol: string := "taxonomicStatus"
  const Accepted: string := "accepted"

  /** The lambda in `_cleanup_data`: the last `:`-separated piece of the identifier, stripped. */
  function ShortId(raw: string): string {
    var parts := Split(raw, ':');
    Strip(parts[|parts| - 1])
  }

  /** The short id is the text after the last `:`, stripped. */
  lemma ShortIdAfterLastColon(raw: string, k: nat)
    requires k < |raw| && raw[k] == ':' && ':' !in raw[k + 1..]
    ensures ShortId(raw) == Strip(raw[k + 1..])
  {
    LastPieceAfterLastSep(raw, ':', k);
  }

  /** Without a `:` the short id is the whole identifier, stripped. */
  lemma ShortIdWithoutColon(raw: string)
    requires ':' !in raw
    ensures ShortId(raw) == Strip(raw)
  {
    assert Split(raw, ':') == [raw];
  }

  /** A short id never contains `:`. */
  lemma ShortIdHasNoColon(raw: string)
    ensures ':' !in ShortId(raw)
  {
    var parts := Split(raw, ':');
    var last := parts[|parts| - 1];
    SplitPiecesLackSep(raw, ':');
    assert ShortId(raw) == Strip(last);
  }

  /** A comment row: its identifier starts with `#`. */
  predicate IsComment(r: Row) {
    FirstCol in r && StartsWith(r[FirstCol], "#")
  }

  predicate NotComment(r: Row) {
    !IsComment(r)
  }

  /** A row with its `taxon_id` cell set from its identifier. */
  function WithTaxonId(r: Row): Row {
    if FirstCol in r then r[TaxonIdCol := ShortId(r[FirstCol])] else r
  }

  function WithTaxonIdAll(rows: seq<Row>): (out: seq<Row>)
    ensures |out| == |rows|
    ensures forall i :: 0 <= i < |rows| ==> out[i] == WithTaxonId(rows[i])
  {
    if |rows| == 0 then [] else [WithTaxonId(rows[0])] + WithTaxonIdAll(rows[1..])
  }

  /** `with_columns(... .alias('taxon_id'))`: replaces the column in place, or appends it. */
  function AddTaxonIdColumn(f: Frame): Frame {
    Frame(if TaxonIdCol in f.columns then f.columns else f.columns + [TaxonIdCol], WithTaxonIdAll(f.rows))
  }

  /** `_cleanup_data`: comment rows dropped, then the `taxon_id` column derived. */
  function Cleanup(f: Frame): Frame {
    AddTaxonIdColumn(Frame(f.columns, Filter(f.rows, NotComment)))
  }

  /** The columns a cleaned table must have for the queries, with every row complete. */
  predicate Cleaned(f: Frame) {
    WellFormed(f) && FirstCol in f.columns && TaxonIdCol in f.columns
    && forall r :: r in f.rows ==> !IsComment(r) && r[TaxonIdCol] == ShortId(r[FirstCol])
  }

  /** Adding the column keeps the table well-formed, and every row's `taxon_id` is derived from its `taxonId`. */
  lemma AddTaxonIdColumnMeaning(f: Frame)
    requires WellFormed(f) && FirstCol in f.columns
    ensures WellFormed(AddTaxonIdColumn(f))
    ensures forall c :: c in AddTaxonIdColumn(f).columns <==> c in f.columns || c == TaxonIdCol
    ensures forall r :: r in AddTaxonIdColumn(f).rows ==> r[TaxonIdCol] == ShortId(r[FirstCol])
  {
    var g := AddTaxonIdColumn(f);
    forall i, j | 0 <= i < j < |g.columns|
      ensures g.columns[i] != g.columns[j]
    {
      if TaxonIdCol !in f.columns && j == |f.columns| {
        assert f.columns[i] in f.columns;
      }
    }
    forall r | r in g.rows
      ensures RowFits(g.columns, r) && r[TaxonIdCol] == ShortId(r[FirstCol])
    {
      var k :| 0 <= k < |g.rows| && g.rows[k] == r;
      var row := f.rows[k];
      assert row in f.rows;
      assert r == row[TaxonIdCol := ShortId(row[FirstCol])];
      assert r[FirstCol] == row[FirstCol];
    }
  }

  /**
   * What `_cleanup_data` promises: a well-formed table with a `taxon_id` column, no comment row,
   * each row's `taxon_id` derived from its `taxonId`, and the surviving rows in file order with
   * their other cells unchanged.
   */
  lemma CleanupMeaning(f: Frame)
    requires WellFormed(f) && FirstCol in f.columns
    ensures Cleaned(Cleanup(f))
    ensures forall c :: c in Cleanup(f).columns <==> c in f.columns || c == TaxonIdCol
    ensures |Cleanup(f).rows| == |Kept(f.rows, NotComment)|
    ensures forall k :: 0 <= k < |Kept(f.rows, NotComment)| ==>
              Cleanup(f).rows[k] == WithTaxonId(f.rows[Kept(f.rows, NotComment)[k]])
    ensures forall i :: 0 <= i < |f.rows| && NotComment(f.rows[i]) ==> WithTaxonId(f.rows[i]) in Cleanup(f).rows
  {
    var h := Frame(f.columns, Filter(f.rows, NotComment));
    FilterWellFormed(f, NotComment);
    AddTaxonIdColumnMeaning(h);
    FilterSelectsInOrder(f.rows, NotComment);
    var g := Cleanup(f);
    forall r | r in g.rows
      ensures !IsComment(r)
    {
      var k :| 0 <= k < |g.rows| && g.rows[k] == r;
      assert h.rows[k] in h.rows;
      assert r == WithTaxonId(h.rows[k]);
    }
    forall i | 0 <= i < |f.rows| && NotComment(f.rows[i])
      ensures WithTaxonId(f.rows[i]) in g.rows
    {
      assert f.rows[i] in h.rows;
      var k :| 0 <= k < |h.rows| && h.rows[k] == f.rows[i];
      assert g.rows[k] == WithTaxonId(f.rows[i]);
    }
    var idx := Kept(f.rows, NotComment);
    forall k | 0 <= k < |idx|
      ensures g.rows[k] == WithTaxonId(f.rows[idx[k]])
    {
      assert h.rows[k] == f.rows[idx[k]];
    }
    assert WellFormed(g) && FirstCol in g.columns && TaxonIdCol in g.columns;
  }

  /** A cleaned table with name and status columns has in every row the cells `get` reads. */
  lemma LookupReady(f: Frame)
    requires Cleaned(f) && NameCol in f.columns && StatusCol in f.columns
    ensures HasLookupColumns(f.rows)
  {
    forall r | r in f.rows
      ensures NameCol in r && StatusCol in r && TaxonIdCol in r
    {
      assert RowFits(f.columns, r);
    }
  }

  /** The rows `get` selects: the given scientific name, with accepted status. */
  predicate AcceptedAs(name: string, r: Row) {
    NameCol in r && StatusCol in r && r[NameCol] == name && r[StatusCol] == Accepted
  }

  /** `get`'s filter as a predicate on rows. */
  function AcceptedAsName(name: string): Row -> bool {
    r => AcceptedAs(name, r)
  }

  /** Every row has the cells `get` reads. */
  predicate HasLookupColumns(rows: seq<Row>) {
    forall r :: r in rows ==> NameCol in r && StatusCol in r && TaxonIdCol in r
  }

  /** `get` without its cache: the `taxon_id` of the first accepted row with that name, or `False` (`None`). */
  function AcceptedId(rows: seq<Row>, name: string): Option<string>
    requires HasLookupColumns(rows)
  {
    var result := Filter(rows, AcceptedAsName(name));
    if |result| == 0 then None else Some(result[0][TaxonIdCol])
  }

  /**
   * `get` answers `False` exactly when no row is accepted under that name (case-sensitive), and
   * otherwise the `taxon_id` of the first such row in table order; a non-accepted row is never read.
   */
  lemma AcceptedIdMeaning(rows: seq<Row>, name: string)
    requires HasLookupColumns(rows)
    ensures AcceptedId(rows, name).None? <==> forall i :: 0 <= i < |rows| ==> !AcceptedAs(name, rows[i])
    ensures forall i :: 0 <= i < |rows| && AcceptedAs(name, rows[i]) && (forall j :: 0 <= j < i ==> !AcceptedAs(name, rows[j]))
              ==> AcceptedId(rows, name) == Some(rows[i][TaxonIdCol])
  {
    var p := AcceptedAsName(name);
    var result := Filter(rows, p);
    if exists i :: 0 <= i < |rows| && AcceptedAs(name, rows[i]) {
      var i :| 0 <= i < |rows| && AcceptedAs(name, rows[i]);
      assert p(rows[i]);
      assert rows[i] in result;
    }
    if |result| > 0 {
      assert result[0] in result;
      var i :| 0 <= i < |rows| && rows[i] == result[0];
      assert AcceptedAs(name, rows[i]);
    }
    forall i | 0 <= i < |rows| && AcceptedAs(name, rows[i]) && (forall j :: 0 <= j < i ==> !AcceptedAs(name, rows[j]))
      ensures AcceptedId(rows, name) == Some(rows[i][TaxonIdCol])
    {
      FilterFirst(rows, p, i);
    }
  }

  /** A `get_info` answer: one row on its own, or the list of rows (empty when nothing matches). */
  datatype Info = One(row: Row) | Many(rows: seq<Row>)

  /** A row satisfies every `column == value` constraint. */
  predicate MatchesAll(constraints: map<string, string>, r: Row) {
    forall c :: c in constraints ==> c in r && r[c] == constraints[c]
  }

  /** `get_info`'s filter as a predicate on rows. */
  function MatchesAllOf(constraints: map<string, string>): Row -> bool {
    r => MatchesAll(constraints, r)
  }

  /** `DyntaxaTaxon`: the table `self._df` and the per-name cache `functools.cache` keeps for `get`. */
  class DyntaxaTaxon {
    var df: Frame
    var cache: map<string, Option<string>>

    ghost predicate Valid()
      reads this
    {
      Cleaned(df)
      && forall name :: name in cache ==> HasLookupColumns(df.rows) && cache[name] == AcceptedId(df.rows, name)
    }

    /**
     * `__init__`: `_load_file` then `_cleanup_data`. The filter on `filter_list` is computed and
     * its result discarded, so the table is the same with or without a filter list.
     */
    constructor (frame: Frame, filterList: Option<seq<string>>)
      requires WellFormed(frame) && FirstCol in frame.columns
      requires filterList.Some? && |filterList.value| > 0 ==> NameCol in frame.columns
      ensures df == Cleanup(frame) && cache == map[]
      ensures Valid()
    {
      df := frame;
      cache := map[];
      new;
      df := Frame(df.columns, Filter(df.rows, NotComment));
      df := AddTaxonIdColumn(df);
      if filterList.Some? && |filterList.value| > 0 {
        var names := filterList.value;
        var _ := Filter(df.rows, r => NameCol in r && Lower(r[NameCol]) in names);
      }
      assert df == Cleanup(frame);
      CleanupMeaning(frame);
    }

    /** `get`, memoised: a repeated name is answered from the cache, with the same answer a fresh lookup gives. */
    method Get(name: string) returns (r: Option<string>)
      requires Valid() && NameCol in df.columns && StatusCol in df.columns
      modifies this
      ensures Valid() && df == old(df) && HasLookupColumns(df.rows)
      ensures r == AcceptedId(df.rows, name)
      ensures cache == old(cache)[name := r]
    {
      LookupReady(df);
      if name in cache {
        r := cache[name];
        return;
      }
      r := AcceptedId(df.rows, name);
      cache := cache[name := r];
    }

    /**
     * `get_info(**constraints)`: the rows satisfying every constraint, each rebuilt from
     * `to_dict` with one entry per column; a single row is returned on its own.
     */
    method GetInfo(constraints: map<string, string>) returns (info: Info)
      requires Valid()
      requires forall c :: c in constraints ==> c in df.columns
      ensures var sel := Filter(df.rows, MatchesAllOf(constraints));
              if |sel| == 1 then info == One(sel[0]) else info == Many(sel)
    {
      var data := Frame(df.columns, Filter(df.rows, MatchesAllOf(constraints)));
      FilterWellFormed(df, MatchesAllOf(constraints));
      var columns := ToColumns(data);
      var rows := RowsFromColumns(columns, FirstCol);
      RowsFromToColumns(data, rows);
      if |rows| == 1 {
        return One(rows[0]);
      }
      return Many(rows);
    }
  }

  /** The rows of a `get_info` answer. */
  function InfoRows(info: Info): seq<Row> {
    match info
    case One(row) => [row]
    case Many(rows) => rows
  }

  /**
   * The rows `get_info` returns are exactly the matching rows, in table order, each with one
   * entry per column including `taxon_id`; a single match comes back on its own.
   */
  lemma GetInfoMeaning(f: Frame, constraints: map<string, string>, info: Info)
    requires Cleaned(f)
    requires var sel := Filter(f.rows, MatchesAllOf(constraints));
             if |sel| == 1 then info == One(sel[0]) else info == Many(sel)
    ensures info.One? <==> |Kept(f.rows, MatchesAllOf(constraints))| == 1
    ensures |InfoRows(info)| == |Kept(f.rows, MatchesAllOf(constraints))|
    ensures forall k :: 0 <= k < |InfoRows(info)| ==>
              InfoRows(info)[k] == f.rows[Kept(f.rows, MatchesAllOf(constraints))[k]]
    ensures forall r :: r in InfoRows(info) ==>
              MatchesAll(constraints, r) && RowFits(f.columns, r) && TaxonIdCol in r
  {
    var p := MatchesAllOf(constraints);
    FilterSelectsInOrder(f.rows, p);
    var sel := Filter(f.rows, p);
    assert InfoRows(info) == sel;
  }
}
