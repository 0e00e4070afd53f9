/**
 * `TranslateDyntaxa` (src/nodc_dyntaxa/translate_dyntaxa.py): a translation table from a taxon
 * name to its Dyntaxa name or to an alternative id, looked up by exact name.
 */
module TranslateDyntaxa {
  import opened Wrappers
  import opened Text
  import opened Frames

  const FromCol: string := "taxon_name_from"
  const ToCol: string := "taxon_name_to"
  const IdCol: string := "taxon_id (if not in DynTaxa)"

  /** A comment row: its source name starts with `#`. */
  predicate IsComment(r: Row) {
    FromCol in r && StartsWith(r[FromCol], "#")
  }

  predicate NotComment(r: Row) {
    !IsComment(r)
  }

  /** `_cleanup_data`: comment rows dropped, the rest in file order. */
  function Cleanup(f: Frame): Frame {
    Frame(f.columns, Filter(f.rows, NotComment))
  }

  /** The predicate both queries hand to `row(by_predicate=...)`. */
  function NameIs(name: string): Row -> bool {
    r => FromCol in r && r[FromCol] == name
  }

  /**
   * The ways the two queries can fail: the too-many-rows error of `row(by_predicate=...)`, which
   * they do not catch, and the KeyError of reading a column the table lacks from the row found.
   */
  datatype QueryError = TooManyRows | MissingColumn(col: string)

  /** Reading column `col` of a row found: its cell, or the KeyError when the row has no such column. */
  function CellOf(r: Row, col: string): Result<string, QueryError> {
    if col in r then Ok(r[col]) else Err(MissingColumn(col))
  }

  /**
   * The shared shape of `get` and `get_dyntaxa_id`: column `col` of the one row named `name`;
   * the no-rows error becomes `''`, the too-many-rows error is not caught.
   */
  function Lookup(rows: seq<Row>, name: string, col: string): Result<string, QueryError> {
    match RowBy(rows, NameIs(name))
    case Ok(row) => CellOf(row, col)
    case Err(NoRowsReturned) => Ok("")
    case Err(TooManyRowsReturned) => Err(TooManyRows)
  }

  /**
   * A name no row carries misses with `''`, whatever the columns; a name on two or more rows
   * fails; a name on exactly one row gives that row's cell, or the KeyError when it has none.
   */
  lemma LookupMeaning(rows: seq<Row>, name: string, col: string)
    ensures (forall i :: 0 <= i < |rows| ==> !NameIs(name)(rows[i])) ==> Lookup(rows, name, col) == Ok("")
    ensures Lookup(rows, name, col) == Err(TooManyRows) <==>
              exists i, j :: 0 <= i < j < |rows| && NameIs(name)(rows[i]) && NameIs(name)(rows[j])
    ensures forall i :: 0 <= i < |rows| && NameIs(name)(rows[i]) && (forall j :: 0 <= j < |rows| && j != i ==> !NameIs(name)(rows[j]))
              ==> Lookup(rows, name, col) == CellOf(rows[i], col)
  {
  }

  /** `TranslateDyntaxa`: the table `self._df`, set once during construction. */
  class TranslateDyntaxa {
    var df: Frame

    ghost predicate Valid()
      reads this
    {
      WellFormed(df) && FromCol in df.columns && forall r :: r in df.rows ==> !IsComment(r)
    }

    /** `__init__`: `_load_file`, then `_cleanup_data`. */
    constructor (frame: Frame)
      requires WellFormed(frame) && FromCol in frame.columns
      ensures df == Cleanup(frame)
      ensures Valid()
    {
      df := frame;
      new;
      df := Frame(df.columns, Filter(df.rows, NotComment));
      FilterWellFormed(frame, NotComment);
    }

    /**
     * `get`: the `taxon_name_to` of the row named exactly `name`, `''` when there is none; a table
     * without that column still answers `''` for a miss, and raises the KeyError for a hit.
     */
    function Get(name: string): (r: Result<string, QueryError>)
      reads this
      requires Valid()
      ensures (forall i :: 0 <= i < |df.rows| ==> !NameIs(name)(df.rows[i])) ==> r == Ok("")
      ensures r == Err(TooManyRows) <==> exists i, j :: 0 <= i < j < |df.rows| && NameIs(name)(df.rows[i]) && NameIs(name)(df.rows[j])
      ensures forall i :: 0 <= i < |df.rows| && NameIs(name)(df.rows[i]) && (forall j :: 0 <= j < |df.rows| && j != i ==> !NameIs(name)(df.rows[j]))
                ==> df.rows[i] in df.rows
                    && r == (if ToCol in df.columns then Ok(df.rows[i][ToCol]) else Err(MissingColumn(ToCol)))
    {
      LookupMeaning(df.rows, name, ToCol);
      Lookup(df.rows, name, ToCol)
    }

    /**
     * `get_dyntaxa_id`: the `taxon_id (if not in DynTaxa)` of the row named exactly `name`, `''`
     * when there is none; as `get`, a missing column only matters for a hit.
     */
    function GetDyntaxaId(name: string): (r: Result<string, QueryError>)
      reads this
      requires Valid()
      ensures (forall i :: 0 <= i < |df.rows| ==> !NameIs(name)(df.rows[i])) ==> r == Ok("")
      ensures r == Err(TooManyRows) <==> exists i, j :: 0 <= i < j < |df.rows| && NameIs(name)(df.rows[i]) && NameIs(name)(df.rows[j])
      ensures forall i :: 0 <= i < |df.rows| && NameIs(name)(df.rows[i]) && (forall j :: 0 <= j < |df.rows| && j != i ==> !NameIs(name)(df.rows[j]))
                ==> df.rows[i] in df.rows
                    && r == (if IdCol in df.columns then Ok(df.rows[i][IdCol]) else Err(MissingColumn(IdCol)))
    {
      LookupMeaning(df.rows, name, IdCol);
      Lookup(df.rows, name, IdCol)
    }
  }

  /** A name starting with `#` matches no row of a cleaned table, so both queries answer `''`. */
  lemma CommentNameMisses(t: TranslateDyntaxa, name: string)
    requires t.Valid()
    requires StartsWith(name, "#")
    ensures t.Get(name) == Ok("") && t.GetDyntaxaId(name) == Ok("")
  {
    forall i | 0 <= i < |t.df.rows|
      ensures !NameIs(name)(t.df.rows[i])
    {
      assert t.df.rows[i] in t.df.rows;
    }
  }

  /**
   * Both queries select with the same predicate: they fail on several rows together, miss
   * together, or read the two cells of one and the same row.
   */
  lemma QueriesAgree(t: TranslateDyntaxa, name: string)
    requires t.Valid()
    ensures t.Get(name) == Err(TooManyRows) <==> t.GetDyntaxaId(name) == Err(TooManyRows)
    ensures (forall i :: 0 <= i < |t.df.rows| ==> !NameIs(name)(t.df.rows[i])) ==> t.Get(name) == t.GetDyntaxaId(name) == Ok("")
    ensures t.Get(name) != Err(TooManyRows) && (exists i :: 0 <= i < |t.df.rows| && NameIs(name)(t.df.rows[i])) ==>
              exists i :: 0 <= i < |t.df.rows| && t.Get(name) == CellOf(t.df.rows[i], ToCol)
                          && t.GetDyntaxaId(name) == CellOf(t.df.rows[i], IdCol)
  {
    var rows := t.df.rows;
    if t.Get(name) != Err(TooManyRows) && exists i :: 0 <= i < |rows| && NameIs(name)(rows[i]) {
      var i :| 0 <= i < |rows| && NameIs(name)(rows[i]);
      assert forall j :: 0 <= j < |rows| && j != i ==> !NameIs(name)(rows[j]);
    }
  }
}
