/**
 * `RedListSpecies` (src/nodc_dyntaxa/red_list_species.py): the conservation-status list, each row
 * reachable under its taxon id, its Swedish name and its scientific name.
 */
module RedListSpecies {
  import opened Wrappers
  import opened Text
  import opened Ordering
  import opened Frames
  import opened Tsv

  /** `columns_as_keys`: the three columns whose values all index the same row. */
  const KeyColumns: seq<string> := ["taxonid", "svenskt namn", "vetenskapligt namn"]

  /** `_convert_header_col`: strip, then lower-case. */
  function ConvertHeaderCol(col: string): string {
    Lower(Strip(col))
  }

  /** A converted header name is lower-case, with no whitespace at either end. */
  lemma ConvertHeaderColShape(col: string)
    ensures IsLowerCase(ConvertHeaderCol(col))
    ensures |ConvertHeaderCol(col)| == |Strip(col)|
    ensures var c := ConvertHeaderCol(col); c != "" ==> !IsSpace(c[0]) && !IsSpace(c[|c| - 1])
  {
    LowerEach(Strip(col));
  }

  /** Converting a converted header name changes nothing. */
  lemma ConvertHeaderColIdempotent(col: string)
    ensures ConvertHeaderCol(ConvertHeaderCol(col)) == ConvertHeaderCol(col)
  {
    var c := ConvertHeaderCol(col);
    ConvertHeaderColShape(col);
    StripUnchanged(c);
    LowerOfLowerCase(c);
  }

  /** The header list `_load_file` builds from the cells of line 0. */
  function ConvertHeader(cells: seq<string>): seq<string> {
    if |cells| == 0 then [] else [ConvertHeaderCol(cells[0])] + ConvertHeader(cells[1..])
  }

  /** The header holds the converted cells, one for one. */
  lemma {:induction false} ConvertHeaderEach(cells: seq<string>)
    ensures |ConvertHeader(cells)| == |cells|
    ensures forall i :: 0 <= i < |cells| ==> ConvertHeader(cells)[i] == ConvertHeaderCol(cells[i])
  {
    if |cells| > 0 {
      ConvertHeaderEach(cells[1..]);
    }
  }

  /**
   * The errors `_load_file` raises: a KeyError for a missing key column, and the AttributeError
   * for `self._header` when a data line comes before any header was read.
   */
  datatype LoadError = MissingKey(key: string) | NoHeader

  /** What `_load_file` has built so far: `self._header` (absent until line 0 is read) and `self._data`. */
  datatype RedList = RedList(header: Option<seq<string>>, data: map<string, Row>)

  /** The values a row holds in the given columns. */
  function KeyValues(row: Row, cols: seq<string>): set<string> {
    if |cols| == 0 then {}
    else (if cols[0] in row then {row[cols[0]]} else {}) + KeyValues(row, cols[1..])
  }

  /** `k` is among the values of `row` in `cols` exactly when one of those columns holds it. */
  lemma {:induction false} KeyValuesMeaning(row: Row, cols: seq<string>, k: string)
    ensures k in KeyValues(row, cols) <==> exists c :: c in cols && c in row && row[c] == k
  {
    if |cols| > 0 {
      KeyValuesMeaning(row, cols[1..], k);
      assert forall c :: c in cols <==> c == cols[0] || c in cols[1..];
    }
  }

  /**
   * The inner loop of `_load_file`: for each key column in turn, store the row under the value it
   * holds in that column; a missing column raises a KeyError.
   */
  function StoreUnder(data: map<string, Row>, row: Row, cols: seq<string>): Result<map<string, Row>, LoadError>
    decreases |cols|
  {
    if |cols| == 0 then Ok(data)
    else if cols[0] !in row then Err(MissingKey(cols[0]))
    else StoreUnder(data[row[cols[0]] := row], row, cols[1..])
  }

  /**
   * The inner loop succeeds exactly when the row has every key column, and then the row is
   * stored under each of its key values while every other entry stays as it was.
   */
  lemma {:induction false} StoreUnderOk(data: map<string, Row>, row: Row, cols: seq<string>)
    ensures StoreUnder(data, row, cols).Ok? <==> forall c :: c in cols ==> c in row
    ensures StoreUnder(data, row, cols).Ok? ==>
              var d := StoreUnder(data, row, cols).value;
              && (forall k :: k in d <==> k in data || k in KeyValues(row, cols))
              && (forall k :: k in KeyValues(row, cols) ==> d[k] == row)
              && (forall k :: k in data && k !in KeyValues(row, cols) ==> d[k] == data[k])
    decreases |cols|
  {
    if |cols| > 0 {
      assert forall c :: c in cols <==> c == cols[0] || c in cols[1..];
      if cols[0] in row {
        StoreUnderOk(data[row[cols[0]] := row], row, cols[1..]);
      }
    }
  }

  /** When the inner loop fails, it names the first key column the row lacks. */
  lemma {:induction false} StoreUnderErr(data: map<string, Row>, row: Row, cols: seq<string>)
    requires StoreUnder(data, row, cols).Err?
    ensures exists i :: 0 <= i < |cols| && cols[i] !in row && StoreUnder(data, row, cols).error == MissingKey(cols[i])
                        && forall j :: 0 <= j < i ==> cols[j] in row
    decreases |cols|
  {
    if cols[0] in row {
      var rest := cols[1..];
      StoreUnderErr(data[row[cols[0]] := row], row, rest);
      var i :| 0 <= i < |rest| && rest[i] !in row && StoreUnder(data, row, cols).error == MissingKey(rest[i])
               && forall j :: 0 <= j < i ==> rest[j] in row;
      assert cols[i + 1] == rest[i];
      assert forall j :: 1 <= j < i + 1 ==> cols[j] == rest[j - 1];
    }
  }

  /** One iteration of `_load_file`'s loop, for physical line number `r`. */
  function Step(st: RedList, r: nat, line: Line): Result<RedList, LoadError> {
    match line
    case Blank => Ok(st)
    case Data(cells) =>
      if r == 0 then Ok(st.(header := Some(ConvertHeader(cells))))
      else if st.header.None? then Err(NoHeader)
      else
        match StoreUnder(st.data, Zip(st.header.value, cells), KeyColumns)
        case Err(e) => Err(e)
        case Ok(d) => Ok(st.(data := d))
  }

  /** `_load_file` after the first `n` lines, from no header and no data; the first error ends it. */
  function LoadUpTo(ps: seq<Line>, n: nat): Result<RedList, LoadError>
    requires n <= |ps|
  {
    if n == 0 then Ok(RedList(None, map[]))
    else
      match LoadUpTo(ps, n - 1)
      case Err(e) => Err(e)
      case Ok(st) => Step(st, n - 1, ps[n - 1])
  }

  /** `_load_file` over all the lines of the file. */
  function Load(lines: seq<string>): Result<RedList, LoadError> {
    LoadUpTo(ParseAll(lines), |lines|)
  }

  /** The header a load ends with: the converted cells of line 0, absent when line 0 is blank. */
  function HeaderOf(ps: seq<Line>): Option<seq<string>> {
    if |ps| > 0 && ps[0].Data? then Some(ConvertHeader(ps[0].cells)) else None
  }

  /** A line after the header that is not blank. */
  predicate IsDataLine(ps: seq<Line>, i: int) {
    0 < i < |ps| && ps[i].Data?
  }

  /** The dictionary `_load_file` builds from data line `i`. */
  function DataRow(ps: seq<Line>, i: nat): Row
    requires i < |ps| && ps[i].Data? && HeaderOf(ps).Some?
  {
    Zip(HeaderOf(ps).value, ps[i].cells)
  }

  /** Data line `i` holds the value `k` in one of its key columns. */
  predicate RowKeyed(ps: seq<Line>, i: nat, k: string) {
    IsDataLine(ps, i) && HeaderOf(ps).Some? && k in KeyValues(DataRow(ps, i), KeyColumns)
  }

  /** Every stored row holds its own key in one of the key columns. */
  ghost predicate Consistent(st: RedList) {
    forall k :: k in st.data ==> k in KeyValues(st.data[k], KeyColumns)
  }

  /** The first run of `LoadUpTo` that goes through line `n - 1`, unfolded. */
  lemma StepAt(ps: seq<Line>, n: nat)
    requires 0 < n <= |ps| && LoadUpTo(ps, n).Ok?
    ensures LoadUpTo(ps, n - 1).Ok?
    ensures LoadUpTo(ps, n) == Step(LoadUpTo(ps, n - 1).value, n - 1, ps[n - 1])
  {
  }

  /** Once the first `n` lines fail, every longer run fails with the same error. */
  lemma {:induction false} ErrorSticks(ps: seq<Line>, n: nat, m: nat)
    requires n <= m <= |ps| && LoadUpTo(ps, n).Err?
    ensures LoadUpTo(ps, m) == LoadUpTo(ps, n)
  {
    if n < m {
      ErrorSticks(ps, n, m - 1);
    }
  }

  /** A run that succeeds has the header of physical line 0, or none while that line is blank or unread. */
  lemma {:induction false} LoadHeader(ps: seq<Line>, n: nat)
    requires n <= |ps| && LoadUpTo(ps, n).Ok?
    ensures LoadUpTo(ps, n).value.header == if n > 0 then HeaderOf(ps) else None
  {
    if n > 1 {
      StepAt(ps, n);
      LoadHeader(ps, n - 1);
    }
  }

  /** A successful run keeps every stored row under one of its own key values. */
  lemma {:induction false} LoadConsistent(ps: seq<Line>, n: nat)
    requires n <= |ps| && LoadUpTo(ps, n).Ok?
    ensures Consistent(LoadUpTo(ps, n).value)
  {
    if n > 0 {
      StepAt(ps, n);
      LoadConsistent(ps, n - 1);
      var st := LoadUpTo(ps, n - 1).value;
      if n > 1 && ps[n - 1].Data? && st.header.Some? {
        StoreUnderOk(st.data, Zip(st.header.value, ps[n - 1].cells), KeyColumns);
      }
    }
  }

  /** While physical line 0 is blank nothing is stored, and the first data line fails for want of a header. */
  lemma {:induction false} NoHeaderYet(ps: seq<Line>, n: nat)
    requires n <= |ps| && (n > 0 ==> ps[0].Blank?)
    ensures LoadUpTo(ps, n) == Ok(RedList(None, map[])) || LoadUpTo(ps, n) == Err(NoHeader)
    ensures (exists i :: 0 < i < n && ps[i].Data?) ==> LoadUpTo(ps, n) == Err(NoHeader)
  {
    if n > 0 {
      NoHeaderYet(ps, n - 1);
      if (exists i :: 0 < i < n && ps[i].Data?) && !(exists i :: 0 < i < n - 1 && ps[i].Data?) {
        assert ps[n - 1].Data?;
      }
    }
  }

  /** With a blank physical line 0, any data line makes the load fail with the missing-header error. */
  lemma BlankHeaderFails(ps: seq<Line>, i: nat)
    requires |ps| > 0 && ps[0].Blank?
    requires IsDataLine(ps, i)
    ensures LoadUpTo(ps, |ps|) == Err(NoHeader)
  {
    NoHeaderYet(ps, |ps|);
  }

  /** A data line missing one of the three key columns makes the load fail. */
  lemma MissingKeyFails(ps: seq<Line>, i: nat, c: string)
    requires IsDataLine(ps, i) && HeaderOf(ps).Some?
    requires c in KeyColumns && c !in DataRow(ps, i)
    ensures LoadUpTo(ps, |ps|).Err?
  {
    if LoadUpTo(ps, i).Err? {
      ErrorSticks(ps, i, |ps|);
    } else {
      LoadHeader(ps, i);
      ErrorSticks(ps, i + 1, |ps|);
    }
  }

  /** Line `r`, read in state `st`, is a data line one of whose key columns holds `k`. */
  predicate StepAdds(st: RedList, r: nat, line: Line, k: string) {
    r > 0 && line.Data? && st.header.Some? && k in KeyValues(Zip(st.header.value, line.cells), KeyColumns)
  }

  /** One successful step keeps every key and adds the key values of the line it reads. */
  lemma StepKeys(st: RedList, r: nat, line: Line, k: string)
    requires Step(st, r, line).Ok?
    ensures k in Step(st, r, line).value.data <==> k in st.data || StepAdds(st, r, line, k)
  {
    if r > 0 && line.Data? {
      StoreUnderOk(st.data, Zip(st.header.value, line.cells), KeyColumns);
    }
  }

  /** After `n` lines the stored keys are exactly the key-column values of the data lines read so far. */
  lemma {:induction false} LoadKeys(ps: seq<Line>, n: nat, k: string)
    requires n <= |ps| && LoadUpTo(ps, n).Ok?
    ensures k in LoadUpTo(ps, n).value.data <==> exists i: nat :: i < n && RowKeyed(ps, i, k)
  {
    if n > 0 {
      StepAt(ps, n);
      LoadKeys(ps, n - 1, k);
      LoadHeader(ps, n - 1);
      var st := LoadUpTo(ps, n - 1).value;
      StepKeys(st, n - 1, ps[n - 1], k);
      if IsDataLine(ps, n - 1) && HeaderOf(ps).Some? {
        assert DataRow(ps, n - 1) == Zip(st.header.value, ps[n - 1].cells);
      }
      assert RowKeyed(ps, n - 1, k) <==> StepAdds(st, n - 1, ps[n - 1], k);
      if RowKeyed(ps, n - 1, k) {
        assert exists i: nat :: i < n && RowKeyed(ps, i, k);
      }
    }
  }

  /**
   * Data line `i` is what is stored under each of its key values `k`, unless a later data line
   * holds `k` in one of its key columns: the later row overwrites the earlier one. In particular
   * all three key values of a row lead to the same row.
   */
  lemma {:induction false} StoredRow(ps: seq<Line>, n: nat, i: nat, k: string)
    requires n <= |ps| && LoadUpTo(ps, n).Ok?
    requires i < n && RowKeyed(ps, i, k)
    requires forall j :: i < j < n ==> !RowKeyed(ps, j, k)
    ensures k in LoadUpTo(ps, n).value.data
    ensures LoadUpTo(ps, n).value.data[k] == DataRow(ps, i)
  {
    StepAt(ps, n);
    LoadHeader(ps, n - 1);
    var st := LoadUpTo(ps, n - 1).value;
    if i < n - 1 {
      StoredRow(ps, n - 1, i, k);
      if ps[n - 1].Data? {
        var row := Zip(st.header.value, ps[n - 1].cells);
        assert row == DataRow(ps, n - 1);
        assert !RowKeyed(ps, n - 1, k);
        StoreUnderOk(st.data, row, KeyColumns);
      }
    } else {
      var row := Zip(st.header.value, ps[n - 1].cells);
      assert row == DataRow(ps, i);
      StoreUnderOk(st.data, row, KeyColumns);
    }
  }

  /** `RedListSpecies`: `self._header` and `self._data`, filled in place by `_load_file`. */
  class RedListSpecies {
    var header: Option<seq<string>>
    var data: map<string, Row>

    ghost predicate Valid()
      reads this
    {
      Consistent(RedList(header, data))
    }

    /** The state `__init__` sets up before it calls `_load_file` (no `_header` attribute yet). */
    constructor ()
      ensures header == None && data == map[]
    {
      header := None;
      data := map[];
    }

    /** `__init__`: an empty list, then `_load_file`; an error aborts construction. */
    static method Open(lines: seq<string>) returns (r: Result<RedListSpecies, LoadError>)
      ensures r.Ok? <==> Load(lines).Ok?
      ensures r.Ok? ==> fresh(r.value) && r.value.Valid()
                        && Load(lines) == Ok(RedList(r.value.header, r.value.data))
      ensures r.Err? ==> Load(lines) == Err(r.error)
    {
      var s := new RedListSpecies();
      var failure := s.LoadFile(lines);
      if failure.Some? {
        return Err(failure.value);
      }
      return Ok(s);
    }

    /** `_load_file`: reads the lines in order, the header from line 0, each data row stored under its three key values. */
    method LoadFile(lines: seq<string>) returns (failure: Option<LoadError>)
      requires header == None && data == map[]
      modifies this
      ensures failure.None? <==> Load(lines).Ok?
      ensures failure.None? ==> Valid() && Load(lines) == Ok(RedList(header, data))
      ensures failure.Some? ==> Load(lines) == Err(failure.value)
    {
      ghost var ps := ParseAll(lines);
      var r := 0;
      while r < |lines|
        invariant r <= |lines|
        invariant LoadUpTo(ps, r) == Ok(RedList(header, data))
      {
        failure := ReadLine(ps, r, lines[r]);
        if failure.Some? {
          ErrorSticks(ps, r + 1, |lines|);
          return;
        }
        r := r + 1;
      }
      LoadConsistent(ps, r);
      failure := None;
    }

    /** One pass of `_load_file`'s loop body over physical line `r`. */
    method ReadLine(ghost ps: seq<Line>, r: nat, line: string) returns (failure: Option<LoadError>)
      requires r < |ps| && ps[r] == Parse(line)
      requires LoadUpTo(ps, r) == Ok(RedList(header, data))
      modifies this
      ensures failure.None? ==> LoadUpTo(ps, r + 1) == Ok(RedList(header, data))
      ensures failure.Some? ==> LoadUpTo(ps, r + 1) == Err(failure.value)
    {
      assert LoadUpTo(ps, r + 1) == Step(RedList(header, data), r, ps[r]);
      failure := None;
      if !IsBlank(line) {
        var splitLine := Cells(line);
        assert Parse(line) == Data(splitLine);
        if r == 0 {
          header := Some(ConvertHeader(splitLine));
        } else {
          if header.None? {
            return Some(NoHeader);
          }
          var lineDict := Zip(header.value, splitLine);
          ghost var before := data;
          var cols := KeyColumns;
          while cols != []
            invariant header == old(header)
            invariant StoreUnder(before, lineDict, KeyColumns) == StoreUnder(data, lineDict, cols)
          {
            var col := cols[0];
            if col !in lineDict {
              return Some(MissingKey(col));
            }
            data := data[lineDict[col] := lineDict];
            cols := cols[1..];
          }
        }
      }
    }

    /** `get_info`: the row stored under exactly `key` (no case or space folding), or `None`. */
    function GetInfo(key: string): (r: Option<Row>)
      reads this
      requires Valid()
      ensures r.Some? <==> key in data
      ensures r.Some? ==> r.value == data[key] && key in KeyValues(r.value, KeyColumns)
    {
      if key in data then Some(data[key]) else None
    }

    /** `keys`: the stored keys, sorted. */
    method Keys() returns (keys: seq<string>)
      ensures StrictlySorted(keys)
      ensures forall k :: k in keys <==> k in data
    {
      keys := SortedKeys(data);
    }
  }
}
