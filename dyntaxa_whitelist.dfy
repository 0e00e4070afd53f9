/**
 * `DyntaxaWhitelist` (src/nodc_dyntaxa/dyntaxa_whitelist.py): a tab-separated list of scientific
 * names, stored under a key that ignores case and spaces.
 */
module DyntaxaWhitelist {
  import opened Wrappers
  import opened Text
  import opened Ordering
  import opened Frames
  import opened Tsv

  /** `DyntaxaWhitelist.species_key`: the column each row is stored under. */
  const SpeciesKey := "scientific_name"
  /** The column `_load_file` reads into its (otherwise unused) set of ranks. */
  const RankKey := "rank"

  /** `_convert_key`: lower-case, then delete every space. */
  function ConvertKey(key: string): (k: string)
    ensures ' ' !in k
  {
    RemoveSpaces(Lower(key))
  }

  /** A converted key has no upper-case letter. */
  lemma ConvertKeyIsLowerCase(key: string)
    ensures IsLowerCase(ConvertKey(key))
  {
    var l := Lower(key);
    var k := RemoveSpaces(l);
    LowerEach(key);
    RemoveSpacesKeeps(l);
    forall i | 0 <= i < |k| ensures !('A' <= k[i] <= 'Z') {
      assert multiset(k)[k[i]] > 0;
      assert k[i] in l;
    }
  }

  /** Converting a converted key changes nothing. */
  lemma ConvertKeyIdempotent(key: string)
    ensures ConvertKey(ConvertKey(key)) == ConvertKey(key)
  {
    var k := ConvertKey(key);
    ConvertKeyIsLowerCase(key);
    LowerOfLowerCase(k);
  }

  /** Two characters that are equal, or the same ASCII letter in upper and lower case. */
  predicate SameUpToCase(x: char, y: char) {
    x == y
    || ('A' <= x <= 'Z' && y as int == x as int - 'A' as int + 'a' as int)
    || ('A' <= y <= 'Z' && x as int == y as int - 'A' as int + 'a' as int)
  }

  /** Names that differ only in the case of ASCII letters convert to the same key. */
  lemma ConvertKeyIgnoresCase(a: string, b: string)
    requires |a| == |b| && forall i :: 0 <= i < |a| ==> SameUpToCase(a[i], b[i])
    ensures ConvertKey(a) == ConvertKey(b)
  {
    LowerEach(a);
    LowerEach(b);
    assert Lower(a) == Lower(b);
  }

  /** Deleting one space anywhere in a name leaves its key as it is. */
  lemma ConvertKeyIgnoresSpace(a: string, b: string)
    ensures ConvertKey(a + " " + b) == ConvertKey(a + b)
  {
    LowerAppend(a + " ", b);
    LowerAppend(a, " ");
    LowerAppend(a, b);
    assert Lower(" ") == " ";
    RemoveSpacesAppend(Lower(a) + " ", Lower(b));
    RemoveSpacesAppend(Lower(a), " ");
    RemoveSpacesAppend(Lower(a), Lower(b));
  }

  /** The KeyError raised from `_load_file`, naming the missing column. */
  datatype LoadError = MissingKey(key: string)

  /** What `_load_file` has built so far: `self._header` and `self._data`. */
  datatype Whitelist = Whitelist(header: seq<string>, data: map<string, Row>)

  /** One iteration of `_load_file`'s loop, for physical line number `r`. */
  function Step(w: Whitelist, r: nat, line: Line): Result<Whitelist, LoadError> {
    match line
    case Blank => Ok(w)
    case Data(cells) =>
      if r == 0 then Ok(w.(header := cells))
      else
        var row := Zip(w.header, cells);
        if RankKey !in row then Err(MissingKey(RankKey))
        else if SpeciesKey !in row then Err(MissingKey(SpeciesKey))
        else Ok(w.(data := w.data[ConvertKey(row[SpeciesKey]) := row]))
  }

  /** `_load_file` after the first `n` lines, starting from the empty header and data; the first error ends it. */
  function LoadUpTo(ps: seq<Line>, n: nat): Result<Whitelist, LoadError>
    requires n <= |ps|
  {
    if n == 0 then Ok(Whitelist([], map[]))
    else
      match LoadUpTo(ps, n - 1)
      case Err(e) => Err(e)
      case Ok(w) => Step(w, n - 1, ps[n - 1])
  }

  /** `_load_file` over all the lines of the file. */
  function Load(lines: seq<string>): Result<Whitelist, LoadError> {
    LoadUpTo(ParseAll(lines), |lines|)
  }

  /** The header a load ends with: the cells of line 0, or nothing when line 0 is blank. */
  function HeaderOf(ps: seq<Line>): seq<string> {
    if |ps| > 0 && ps[0].Data? then ps[0].cells else []
  }

  /** A line after the header that is not blank. */
  predicate IsDataLine(ps: seq<Line>, i: int) {
    0 < i < |ps| && ps[i].Data?
  }

  /** The dictionary `_load_file` builds from data line `i`. */
  function DataRow(ps: seq<Line>, i: nat): Row
    requires i < |ps| && ps[i].Data?
  {
    Zip(HeaderOf(ps), ps[i].cells)
  }

  /** Data line `i` has a `scientific_name` cell that converts to `k`. */
  predicate NamesKey(ps: seq<Line>, i: nat, k: string) {
    IsDataLine(ps, i) && SpeciesKey in DataRow(ps, i) && ConvertKey(DataRow(ps, i)[SpeciesKey]) == k
  }

  /** Every stored row carries both key columns and is stored under its own converted name. */
  ghost predicate Consistent(w: Whitelist) {
    forall k :: k in w.data ==>
      RankKey in w.data[k] && SpeciesKey in w.data[k] && ConvertKey(w.data[k][SpeciesKey]) == k
  }

  /** Once the first `n` lines fail, every longer run fails with the same error. */
  lemma {:induction false} ErrorSticks(ps: seq<Line>, n: nat, m: nat)
    requires n <= m <= |ps| && LoadUpTo(ps, n).Err?
    ensures LoadUpTo(ps, m) == LoadUpTo(ps, n)
  {
    if n < m {
      ErrorSticks(ps, n, m - 1);
    }
  }

  /** A run that succeeds has the header from physical line 0, or `[]` while that line is blank or unread. */
  lemma {:induction false} LoadHeader(ps: seq<Line>, n: nat)
    requires n <= |ps| && LoadUpTo(ps, n).Ok?
    ensures LoadUpTo(ps, n).value.header == if n > 0 then HeaderOf(ps) else []
  {
    if n > 1 {
      LoadHeader(ps, n - 1);
    }
  }

  /** A successful run keeps the consistency of its entries. */
  lemma {:induction false} LoadConsistent(ps: seq<Line>, n: nat)
    requires n <= |ps| && LoadUpTo(ps, n).Ok?
    ensures Consistent(LoadUpTo(ps, n).value)
  {
    if n > 0 {
      LoadConsistent(ps, n - 1);
    }
  }

  /** What the first `n` lines build depends on those lines only. */
  lemma {:induction false} LoadUpToPrefix(ps: seq<Line>, more: seq<Line>, n: nat)
    requires n <= |ps|
    ensures LoadUpTo(ps + more, n) == LoadUpTo(ps, n)
  {
    if n > 0 {
      LoadUpToPrefix(ps, more, n - 1);
      assert (ps + more)[n - 1] == ps[n - 1];
    }
  }

  /** Appending a whitespace-only line adds no entry and changes nothing. */
  lemma BlankLineAddsNothing(lines: seq<string>, line: string)
    requires IsBlank(line)
    ensures Load(lines + [line]) == Load(lines)
  {
    var ps := ParseAll(lines);
    assert ParseAll(lines + [line]) == ps + [Blank];
    LoadUpToPrefix(ps, [Blank], |lines|);
  }

  /** A data line without a `rank` or `scientific_name` cell makes the load fail. */
  lemma MissingKeyFails(ps: seq<Line>, i: nat)
    requires IsDataLine(ps, i)
    requires RankKey !in DataRow(ps, i) || SpeciesKey !in DataRow(ps, i)
    ensures LoadUpTo(ps, |ps|).Err?
  {
    if LoadUpTo(ps, i).Err? {
      ErrorSticks(ps, i, |ps|);
    } else {
      LoadHeader(ps, i);
      ErrorSticks(ps, i + 1, |ps|);
    }
  }

  /** With a blank physical line 0 the header stays empty, so any data line fails the load. */
  lemma BlankHeaderFails(ps: seq<Line>, i: nat)
    requires |ps| > 0 && ps[0].Blank?
    requires IsDataLine(ps, i)
    ensures LoadUpTo(ps, |ps|).Err?
  {
    assert DataRow(ps, i) == map[];
    MissingKeyFails(ps, i);
  }

  /** After `n` lines the stored keys are exactly the converted names of the data lines read so far. */
  lemma {:induction false} LoadKeys(ps: seq<Line>, n: nat, k: string)
    requires n <= |ps| && LoadUpTo(ps, n).Ok?
    ensures k in LoadUpTo(ps, n).value.data <==> exists i: nat :: i < n && NamesKey(ps, i, k)
  {
    if n > 0 {
      assert LoadUpTo(ps, n - 1).Ok?;
      LoadKeys(ps, n - 1, k);
      LoadHeader(ps, n - 1);
      var w := LoadUpTo(ps, n - 1).value;
      assert LoadUpTo(ps, n) == Step(w, n - 1, ps[n - 1]);
      if IsDataLine(ps, n - 1) {
        var row := Zip(w.header, ps[n - 1].cells);
        assert row == DataRow(ps, n - 1);
        assert LoadUpTo(ps, n).value.data == w.data[ConvertKey(row[SpeciesKey]) := row];
        if k == ConvertKey(row[SpeciesKey]) {
          assert NamesKey(ps, n - 1, k);
        }
      } else {
        assert LoadUpTo(ps, n).value.data == w.data;
        assert !NamesKey(ps, n - 1, k);
      }
    }
  }

  /**
   * Data line `i` is what is stored under its converted name, unless a later data line has a
   * name that converts to the same key (a later row replaces an earlier one).
   */
  lemma {:induction false} StoredRow(ps: seq<Line>, n: nat, i: nat, name: string)
    requires n <= |ps| && LoadUpTo(ps, n).Ok?
    requires i < n && IsDataLine(ps, i)
    requires SpeciesKey in DataRow(ps, i) && DataRow(ps, i)[SpeciesKey] == name
    requires forall j :: i < j < n ==> !NamesKey(ps, j, ConvertKey(name))
    ensures ConvertKey(name) in LoadUpTo(ps, n).value.data
    ensures LoadUpTo(ps, n).value.data[ConvertKey(name)] == DataRow(ps, i)
  {
    assert LoadUpTo(ps, n - 1).Ok?;
    LoadHeader(ps, n - 1);
    var w := LoadUpTo(ps, n - 1).value;
    var k := ConvertKey(name);
    assert LoadUpTo(ps, n) == Step(w, n - 1, ps[n - 1]);
    if i < n - 1 {
      StoredRow(ps, n - 1, i, name);
      if ps[n - 1].Data? {
        var row := Zip(w.header, ps[n - 1].cells);
        assert row == DataRow(ps, n - 1);
        assert !NamesKey(ps, n - 1, k);
        assert LoadUpTo(ps, n).value.data == w.data[ConvertKey(row[SpeciesKey]) := row];
      } else {
        assert LoadUpTo(ps, n).value.data == w.data;
      }
    } else {
      var row := Zip(w.header, ps[i].cells);
      assert row == DataRow(ps, i);
      assert LoadUpTo(ps, n).value.data == w.data[k := row];
    }
  }

  /** `DyntaxaWhitelist`: `self._header` and `self._data`, filled in place by `_load_file`. */
  class DyntaxaWhitelist {
    var header: seq<string>
    var data: map<string, Row>

    ghost predicate Valid()
      reads this
    {
      Consistent(Whitelist(header, data))
    }

    /** The state `__init__` sets up before it calls `_load_file`. */
    constructor ()
      ensures header == [] && data == map[]
    {
      header := [];
      data := map[];
    }

    /** `__init__`: an empty whitelist, then `_load_file`; a KeyError aborts construction. */
    static method Open(lines: seq<string>) returns (r: Result<DyntaxaWhitelist, LoadError>)
      ensures r.Ok? <==> Load(lines).Ok?
      ensures r.Ok? ==> fresh(r.value) && r.value.Valid()
                        && Load(lines) == Ok(Whitelist(r.value.header, r.value.data))
      ensures r.Err? ==> Load(lines) == Err(r.error)
    {
      var w := new DyntaxaWhitelist();
      var failure := w.LoadFile(lines);
      if failure.Some? {
        return Err(failure.value);
      }
      return Ok(w);
    }

    /** `_load_file`: reads the lines in order, setting the header from line 0 and storing each data row. */
    method LoadFile(lines: seq<string>) returns (failure: Option<LoadError>)
      requires header == [] && data == map[]
      modifies this
      ensures failure.None? <==> Load(lines).Ok?
      ensures failure.None? ==> Valid() && Load(lines) == Ok(Whitelist(header, data))
      ensures failure.Some? ==> Load(lines) == Err(failure.value)
    {
      ghost var ps := ParseAll(lines);
      var r := 0;
      while r < |lines|
        invariant r <= |lines|
        invariant LoadUpTo(ps, r) == Ok(Whitelist(header, data))
      {
        failure := ReadLine(ps, r, lines[r]);
        if failure.Some? {
          ErrorSticks(ps, r + 1, |lines|);
          return;
        }
        r := r + 1;
      }
      LoadConsistent(ps, r);
      failure := None;
    }

    /** One pass of `_load_file`'s loop body over physical line `r`. */
    method ReadLine(ghost ps: seq<Line>, r: nat, line: string) returns (failure: Option<LoadError>)
      requires r < |ps| && ps[r] == Parse(line)
      requires LoadUpTo(ps, r) == Ok(Whitelist(header, data))
      modifies this
      ensures failure.None? ==> LoadUpTo(ps, r + 1) == Ok(Whitelist(header, data))
      ensures failure.Some? ==> LoadUpTo(ps, r + 1) == Err(failure.value)
    {
      assert LoadUpTo(ps, r + 1) == Step(Whitelist(header, data), r, ps[r]);
      failure := None;
      if !IsBlank(line) {
        var cells := Cells(line);
        assert Parse(line) == Data(cells);
        if r == 0 {
          header := cells;
        } else {
          var row := Zip(header, cells);
          if RankKey !in row {
            return Some(MissingKey(RankKey));
          }
          if SpeciesKey !in row {
            return Some(MissingKey(SpeciesKey));
          }
          data := data[ConvertKey(row[SpeciesKey]) := row];
        }
      }
    }

    /** `get`: the stored row's own `scientific_name` for any spelling that converts to its key, else `False`. */
    function Get(key: string): (r: Option<string>)
      reads this
      requires Valid()
      ensures r.None? <==> ConvertKey(key) !in data
      ensures r.Some? ==> r.value == data[ConvertKey(key)][SpeciesKey]
      ensures r.Some? ==> ConvertKey(r.value) == ConvertKey(key)
    {
      var info := if ConvertKey(key) in data then data[ConvertKey(key)] else map[];
      if info == map[] then None else Some(info[SpeciesKey])
    }

    /** `list`: the stored keys, sorted. */
    method List() returns (names: seq<string>)
      requires Valid()
      ensures StrictlySorted(names)
      ensures forall k :: k in names <==> k in data
      ensures forall k :: k in names ==> ' ' !in k
    {
      names := SortedKeys(data);
    }
  }

  /** `get` ignores case and spaces: two keys that convert alike get the same answer. */
  lemma GetIgnoresCaseAndSpaces(w: DyntaxaWhitelist, k1: string, k2: string)
    requires w.Valid() && ConvertKey(k1) == ConvertKey(k2)
    ensures w.Get(k1) == w.Get(k2)
  {
  }

  /** `get` ignores the case of ASCII letters. */
  lemma GetIgnoresCase(w: DyntaxaWhitelist, a: string, b: string)
    requires w.Valid()
    requires |a| == |b| && forall i :: 0 <= i < |a| ==> SameUpToCase(a[i], b[i])
    ensures w.Get(a) == w.Get(b)
  {
    ConvertKeyIgnoresCase(a, b);
  }

  /** `get` ignores spaces: deleting one anywhere in the name gives the same answer. */
  lemma GetIgnoresSpace(w: DyntaxaWhitelist, a: string, b: string)
    requires w.Valid()
    ensures w.Get(a + " " + b) == w.Get(a + b)
  {
    ConvertKeyIgnoresSpace(a, b);
  }

  /** Asking with the already converted key gives the same answer as asking with the original. */
  lemma GetConvertedKey(w: DyntaxaWhitelist, key: string)
    requires w.Valid()
    ensures w.Get(ConvertKey(key)) == w.Get(key)
  {
    ConvertKeyIdempotent(key);
  }
}
