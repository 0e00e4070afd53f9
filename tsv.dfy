/** Line-level parsing shared by the two hand-written TSV loaders. */
module Tsv {
  import opened Text
  import opened Frames

  /** `not line.strip()`: stripping leaves nothing, that is, every character is whitespace. */
  predicate IsBlank(line: string) {
    forall i :: 0 <= i < |line| ==> IsSpace(line[i])
  }

  lemma BlankIsEmptyWhenStripped(line: string)
    ensures IsBlank(line) <==> Strip(line) == ""
  {
  }

  /** Each item stripped of surrounding whitespace, in order. */
  function StripAll(items: seq<string>): (cells: seq<string>)
    ensures |cells| == |items|
  {
    if |items| == 0 then [] else [Strip(items[0])] + StripAll(items[1..])
  }

  /** The i-th cell is the i-th item, stripped. */
  lemma {:induction false} StripAllEach(items: seq<string>)
    ensures forall i :: 0 <= i < |items| ==> StripAll(items)[i] == Strip(items[i])
  {
    if |items| > 0 {
      StripAllEach(items[1..]);
    }
  }

  /** The cells of a line: its tab-separated pieces, each stripped. */
  function Cells(line: string): seq<string>
  {
    StripAll(Split(line, '\t'))
  }

  /** A physical line of the file as the loaders see it: skipped when blank, otherwise its cells. */
  datatype Line = Blank | Data(cells: seq<string>)

  function Parse(line: string): Line {
    if IsBlank(line) then Blank else Data(Cells(line))
  }

  /**
   * A line is skipped exactly when stripping it leaves nothing; otherwise its cells are its
   * tab-separated pieces, one for one, each stripped.
   */
  lemma ParseMeaning(line: string)
    ensures Parse(line).Blank? <==> Strip(line) == ""
    ensures Parse(line).Data? ==>
              var pieces := Split(line, '\t');
              |Parse(line).cells| == |pieces| && forall i :: 0 <= i < |pieces| ==> Parse(line).cells[i] == Strip(pieces[i])
  {
    StripAllEach(Split(line, '\t'));
  }

  /** Every line of the file, parsed. */
  function ParseAll(lines: seq<string>): (ps: seq<Line>)
    ensures |ps| == |lines|
    ensures forall i :: 0 <= i < |lines| ==> ps[i] == Parse(lines[i])
  {
    if |lines| == 0 then [] else ParseAll(lines[..|lines| - 1]) + [Parse(lines[|lines| - 1])]
  }

  /** The dictionary built from the first `n` header/cell pairs, later pairs overwriting earlier ones. */
  function ZipPrefix(header: seq<string>, cells: seq<string>, n: nat): Row
    requires n <= |header| && n <= |cells|
  {
    if n == 0 then map[] else ZipPrefix(header, cells, n - 1)[header[n - 1] := cells[n - 1]]
  }

  lemma {:induction false} ZipPrefixContents(header: seq<string>, cells: seq<string>, n: nat)
    requires n <= |header| && n <= |cells|
    ensures forall k :: k in ZipPrefix(header, cells, n) <==> exists i :: 0 <= i < n && header[i] == k
    ensures forall i :: 0 <= i < n && (forall j :: i < j < n ==> header[j] != header[i])
              ==> ZipPrefix(header, cells, n)[header[i]] == cells[i]
  {
    if n > 0 {
      ZipPrefixContents(header, cells, n - 1);
    }
  }

  /**
   * `dict(zip(header, cells))`: pairs stop at the shorter list, so extra cells are dropped and
   * missing trailing columns are absent; a header name that repeats keeps its last cell.
   */
  function Zip(header: seq<string>, cells: seq<string>): Row
  {
    ZipPrefix(header, cells, if |header| < |cells| then |header| else |cells|)
  }

  /** The keys of `Zip(header, cells)` are the header names that have a cell. */
  lemma ZipKeys(header: seq<string>, cells: seq<string>, k: string)
    ensures k in Zip(header, cells) <==> exists i :: 0 <= i < |header| && i < |cells| && header[i] == k
  {
    ZipPrefixContents(header, cells, if |header| < |cells| then |header| else |cells|);
  }

  /** A header name that does not repeat later holds its own cell. */
  lemma ZipValue(header: seq<string>, cells: seq<string>, i: nat)
    requires i < |header| && i < |cells|
    requires forall j :: i < j < |header| && j < |cells| ==> header[j] != header[i]
    ensures header[i] in Zip(header, cells) && Zip(header, cells)[header[i]] == cells[i]
  {
    ZipKeys(header, cells, header[i]);
    ZipPrefixContents(header, cells, if |header| < |cells| then |header| else |cells|);
  }
}
