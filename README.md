# nodc-dyntaxa lookup tables in Dafny

This project models the four reference tables of the `nodc_dyntaxa` Python package. Each one
loads a tab-separated file, cleans or normalises what it read, and answers point queries:

- **`DyntaxaTaxon`** (`dyntaxa_taxon.dfy`) is the Dyntaxa taxon checklist. The model covers:
  - comment rows (`taxonId` starting with `#`) are dropped;
  - a short `taxon_id` is derived from the URN-style `taxonId`: the text after the last `:`, stripped;
  - `get` answers a scientific name with the `taxon_id` of its first accepted row, memoised;
  - `get_info` answers `column == value` constraints with one row or a list of rows.
- **`DyntaxaWhitelist`** (`dyntaxa_whitelist.dfy`) is a species whitelist.
  - Its rows are keyed by the scientific name lower-cased with its spaces deleted.
  - `get` ignores case and spaces, and `list` gives the sorted keys.
- **`RedListSpecies`** (`red_list_species.dfy`) is the red list.
  - Every row is indexed under its `taxonid`, `svenskt namn` and `vetenskapligt namn` values, in one shared key space.
  - A later row overwrites an earlier one.
  - `get_info` is an exact lookup and `keys` the sorted keys.
- **`TranslateDyntaxa`** (`translate_dyntaxa.dfy`) is a translation table.
  - Comment rows are dropped.
  - `get` and `get_dyntaxa_id` select the one row whose `taxon_name_from` equals the name exactly.
  - They answer `''` when there is none, and fail when there are several.

Supporting modules:

- **`Text`** models Python's `str.strip`, `str.lower` (ASCII), `replace(' ', '')` and `split` on one character.
- **`Tsv`** covers:
  - the blank-line test;
  - splitting a line on tabs and stripping each cell;
  - `dict(zip(header, cells))`, where a later duplicate header wins, extra cells are dropped and missing cells are absent.
- **`Frames`** models the part of a polars DataFrame the tables rely on:
  - named string columns over an ordered sequence of rows;
  - `filter` as an order-preserving selection;
  - `row(by_predicate=...)` as an exactly-one selection, with its two errors;
  - `to_dict(as_series=False)`.
- **`Ordering`** gives Python's code-point order on strings, and `sorted` of a dict's keys.
- **`Wrappers`** holds `Option` and `Result`.

The two line-based loaders (`DyntaxaWhitelist._load_file`, `RedListSpecies._load_file`) are
methods that update the class's `header` and `data` fields in place. Each is proved against a
specification function:

- `LoadUpTo(ps, n)` folds the loop body `Step` over the first `n` parsed lines;
- `Load(lines)` is `LoadUpTo` over the whole file, and the first error ends the load.

The properties of the loaded table are lemmas about `LoadUpTo`. The DataFrame-backed classes
(`DyntaxaTaxon`, `TranslateDyntaxa`) hold the cleaned table in a field set once by the
constructor, and their queries are specified by functions over the row sequence.

`DyntaxaTaxon.get_info` returns the matching rows as they are. The `filter_list` given to
`DyntaxaTaxon` has no effect, because the filtered frame is discarded.

## Model

| member | source | states |
|---|---|---|
| Text.Strip | src/nodc_dyntaxa/red_list_species.py:46 | `strip()`: the result is the slice of the input after its leading whitespace; it is empty exactly when the input is all whitespace; otherwise it starts and ends with non-whitespace; only whitespace follows it |
| Text.StripIdempotent | src/nodc_dyntaxa/red_list_species.py:46 | stripping a stripped string changes nothing |
| Text.StripUnchanged | src/nodc_dyntaxa/red_list_species.py:46 | a string with no whitespace at either end is its own strip |
| Text.LowerChar | src/nodc_dyntaxa/red_list_species.py:46 | `lower()` on one character: an upper-case ASCII letter becomes the same letter in lower case; every other character is unchanged; whitespace and the space character are kept |
| Text.LowerEach | src/nodc_dyntaxa/red_list_species.py:46 | `lower()` keeps the length and lower-cases each character on its own |
| Text.LowerAppend | src/nodc_dyntaxa/red_list_species.py:46 | lower-casing a concatenation lower-cases each part and keeps their order |
| Text.LowerOfLowerCase | src/nodc_dyntaxa/red_list_species.py:46 | `lower()` leaves a lower-case string unchanged |
| Text.RemoveSpaces | src/nodc_dyntaxa/dyntaxa_whitelist.py:34 | `replace(' ', '')` leaves no space, and leaves a space-free string as it is |
| Text.RemoveSpacesKeeps | src/nodc_dyntaxa/dyntaxa_whitelist.py:34 | `replace(' ', '')` keeps every other character as often as it occurs (multiset equality) |
| Text.RemoveSpacesAppend | src/nodc_dyntaxa/dyntaxa_whitelist.py:34 | removing the spaces of a concatenation removes them from each part, so the other characters keep their order |
| Text.IndexOf | src/nodc_dyntaxa/dyntaxa_taxon.py:22 | the position of the first occurrence of a character |
| Text.IndexOfAtMost | src/nodc_dyntaxa/dyntaxa_taxon.py:22 | the first occurrence is at or before any occurrence |
| Text.Split | src/nodc_dyntaxa/dyntaxa_taxon.py:22 | `split(sep)` always yields at least one piece |
| Text.SplitPiecesLackSep | src/nodc_dyntaxa/dyntaxa_taxon.py:22 | no piece of a split contains the separator |
| Text.JoinSplit | src/nodc_dyntaxa/dyntaxa_taxon.py:22 | joining the pieces of `split(sep)` with `sep` gives the string back |
| Text.JoinCons | src/nodc_dyntaxa/dyntaxa_taxon.py:22 | `sep.join` puts one separator between a piece and the pieces after it |
| Text.SplitJoin | src/nodc_dyntaxa/dyntaxa_taxon.py:22 | splitting a join of separator-free pieces gives the pieces back |
| Text.LastPieceAfterLastSep | src/nodc_dyntaxa/dyntaxa_taxon.py:22 | `split(sep)[-1]` is the text after the last separator |
| Tsv.BlankIsEmptyWhenStripped | src/nodc_dyntaxa/dyntaxa_whitelist.py:40-41 | a line is skipped exactly when `line.strip()` is empty |
| Tsv.StripAll | src/nodc_dyntaxa/dyntaxa_whitelist.py:42 | the list comprehension gives one cell per item (each cell is fixed by `Tsv.StripAllEach`) |
| Tsv.StripAllEach | src/nodc_dyntaxa/dyntaxa_whitelist.py:42 | the i-th cell is the i-th item, stripped |
| Tsv.ParseMeaning | src/nodc_dyntaxa/red_list_species.py:51-53 | a line is skipped exactly when stripping it leaves nothing; otherwise its cells are its tab-separated pieces, one for one, each stripped |
| Tsv.ParseAll | src/nodc_dyntaxa/dyntaxa_whitelist.py:39-42 | every physical line is parsed, in file order, so line numbers are kept |
| Tsv.ZipPrefixContents | src/nodc_dyntaxa/dyntaxa_whitelist.py:46 | `dict(zip(...))` over the first `n` pairs has exactly those header names as keys, and the last pair with a name gives its value |
| Tsv.ZipKeys | src/nodc_dyntaxa/dyntaxa_whitelist.py:46 | a row has a key exactly when that header name has a cell; extra cells are dropped and missing cells are absent |
| Tsv.ZipValue | src/nodc_dyntaxa/dyntaxa_whitelist.py:46 | a header name that occurs once maps to the cell at its position |
| Ordering.LessIrreflexive | src/nodc_dyntaxa/dyntaxa_whitelist.py:30 | the string order used by `sorted` is irreflexive |
| Ordering.LessTransitive | src/nodc_dyntaxa/dyntaxa_whitelist.py:30 | the string order used by `sorted` is transitive |
| Ordering.LessTotal | src/nodc_dyntaxa/dyntaxa_whitelist.py:30 | any two distinct strings are ordered one way or the other |
| Ordering.Insert | src/nodc_dyntaxa/dyntaxa_whitelist.py:30 | inserting a key into a strictly sorted list keeps it strictly sorted and adds exactly that key |
| Ordering.SortedKeys | src/nodc_dyntaxa/red_list_species.py:34 | `sorted(dict)` returns the dict's keys, each once, in ascending order |
| Frames.Filter | src/nodc_dyntaxa/dyntaxa_taxon.py:21 | `filter` keeps exactly the rows satisfying the predicate and drops no matching row |
| Frames.FilterWellFormed | src/nodc_dyntaxa/translate_dyntaxa.py:21 | a filtered table keeps its columns and every row keeps a cell in each of them |
| Frames.Kept | src/nodc_dyntaxa/dyntaxa_taxon.py:21 | the positions of the matching rows, ascending, each match listed |
| Frames.FilterSelectsInOrder | src/nodc_dyntaxa/dyntaxa_taxon.py:21 | the k-th row of a filter is the k-th matching row of the table, so file order is kept |
| Frames.FilterFirst | src/nodc_dyntaxa/dyntaxa_taxon.py:34 | the first row of a filter is the first matching row |
| Frames.RowBy | src/nodc_dyntaxa/translate_dyntaxa.py:26 | `row(by_predicate=...)`: the no-rows error iff no row matches; the too-many-rows error iff two rows match; otherwise the one matching row |
| Frames.ToColumns | src/nodc_dyntaxa/dyntaxa_taxon.py:41 | `to_dict(as_series=False)` has one list per column, as long as the table, whose i-th entry is row i's cell |
| Frames.RowAtToColumns | src/nodc_dyntaxa/dyntaxa_taxon.py:44 | rebuilding row i from the column lists gives back row i of the table |
| Frames.RowsFromColumns | src/nodc_dyntaxa/dyntaxa_taxon.py:42-44 | the `info` loop builds one dict per index of the first column, the i-th rebuilt from index i of every column |
| Frames.RowsFromToColumns | src/nodc_dyntaxa/dyntaxa_taxon.py:41-44 | the rows the `info` loop rebuilds from `to_dict` are the table's rows, in order |
| DyntaxaTaxon.ShortIdAfterLastColon | src/nodc_dyntaxa/dyntaxa_taxon.py:22-23 | `taxon_id` is the text after the last `:` of `taxonId`, stripped |
| DyntaxaTaxon.ShortIdWithoutColon | src/nodc_dyntaxa/dyntaxa_taxon.py:22-23 | without a `:`, `taxon_id` is the whole `taxonId`, stripped |
| DyntaxaTaxon.ShortIdHasNoColon | src/nodc_dyntaxa/dyntaxa_taxon.py:22-23 | a `taxon_id` never contains `:` |
| DyntaxaTaxon.WithTaxonIdAll | src/nodc_dyntaxa/dyntaxa_taxon.py:22-23 | the new column is computed row by row, keeping the number of rows |
| DyntaxaTaxon.AddTaxonIdColumnMeaning | src/nodc_dyntaxa/dyntaxa_taxon.py:22-23 | `with_columns(...alias('taxon_id'))` keeps the table well-formed, its columns are the old ones plus `taxon_id`, and every row's `taxon_id` comes from its `taxonId` |
| DyntaxaTaxon.CleanupMeaning | src/nodc_dyntaxa/dyntaxa_taxon.py:20-23 | after `_cleanup_data`: no comment row; each surviving row in file order with its other cells unchanged and its derived `taxon_id`; every non-comment row survives |
| DyntaxaTaxon.LookupReady | src/nodc_dyntaxa/dyntaxa_taxon.py:31-34 | a cleaned table with `scientificName` and `taxonomicStatus` columns has in every row the cells `get` reads, `taxon_id` included |
| DyntaxaTaxon.AcceptedIdMeaning | src/nodc_dyntaxa/dyntaxa_taxon.py:31-34 | `get` answers `False` exactly when no row has that exact name with status `accepted`; otherwise it answers the `taxon_id` of the first such row |
| DyntaxaTaxon.DyntaxaTaxon.constructor | src/nodc_dyntaxa/dyntaxa_taxon.py:10-25 | the table is the cleaned file whatever `filter_list` is, and the cache starts empty; only `taxonId` is needed, and `scientificName` only with a non-empty `filter_list` |
| DyntaxaTaxon.DyntaxaTaxon.Get | src/nodc_dyntaxa/dyntaxa_taxon.py:27-37 | memoised `get`: the answer always equals a fresh lookup; the table is unchanged and the cache records the answer |
| DyntaxaTaxon.DyntaxaTaxon.GetInfo | src/nodc_dyntaxa/dyntaxa_taxon.py:39-47 | `get_info` returns the single matching row on its own, and otherwise the list of matching rows (empty when none match) |
| DyntaxaTaxon.GetInfoMeaning | src/nodc_dyntaxa/dyntaxa_taxon.py:41-47 | the returned rows are exactly the matching rows in table order, each with one entry per column including `taxon_id`; a single row iff exactly one match |
| DyntaxaWhitelist.ConvertKey | src/nodc_dyntaxa/dyntaxa_whitelist.py:32-34 | a converted key has no space |
| DyntaxaWhitelist.ConvertKeyIsLowerCase | src/nodc_dyntaxa/dyntaxa_whitelist.py:32-34 | a converted key has no upper-case letter |
| DyntaxaWhitelist.ConvertKeyIdempotent | src/nodc_dyntaxa/dyntaxa_whitelist.py:32-34 | converting a converted key changes nothing |
| DyntaxaWhitelist.ConvertKeyIgnoresCase | src/nodc_dyntaxa/dyntaxa_whitelist.py:32-34 | names that differ only in the case of ASCII letters convert to the same key |
| DyntaxaWhitelist.ConvertKeyIgnoresSpace | src/nodc_dyntaxa/dyntaxa_whitelist.py:32-34 | deleting a space anywhere in a name leaves its key as it is |
| DyntaxaWhitelist.ErrorSticks | src/nodc_dyntaxa/dyntaxa_whitelist.py:47-48 | a KeyError ends the load: every longer run fails with the same error |
| DyntaxaWhitelist.LoadHeader | src/nodc_dyntaxa/dyntaxa_whitelist.py:43-45 | the header is the cells of physical line 0, or empty when that line is blank |
| DyntaxaWhitelist.LoadConsistent | src/nodc_dyntaxa/dyntaxa_whitelist.py:46-48 | every stored row has `rank` and `scientific_name` and is stored under its own converted name |
| DyntaxaWhitelist.LoadUpToPrefix | src/nodc_dyntaxa/dyntaxa_whitelist.py:39 | what the first lines build does not depend on the lines after them |
| DyntaxaWhitelist.BlankLineAddsNothing | src/nodc_dyntaxa/dyntaxa_whitelist.py:40-41 | appending a whitespace-only line changes nothing |
| DyntaxaWhitelist.MissingKeyFails | src/nodc_dyntaxa/dyntaxa_whitelist.py:46-48 | a data line without a `rank` or `scientific_name` cell makes the load fail |
| DyntaxaWhitelist.BlankHeaderFails | src/nodc_dyntaxa/dyntaxa_whitelist.py:43-48 | with a blank physical line 0 the header stays empty, so any data line makes the load fail |
| DyntaxaWhitelist.LoadKeys | src/nodc_dyntaxa/dyntaxa_whitelist.py:48 | the stored keys are exactly the converted `scientific_name`s of the data lines |
| DyntaxaWhitelist.StoredRow | src/nodc_dyntaxa/dyntaxa_whitelist.py:48 | a data line's row is stored under its converted name unless a later line converts to the same key; the later row replaces it |
| DyntaxaWhitelist.DyntaxaWhitelist.constructor | src/nodc_dyntaxa/dyntaxa_whitelist.py:14-15 | the header and data start empty |
| DyntaxaWhitelist.DyntaxaWhitelist.Open | src/nodc_dyntaxa/dyntaxa_whitelist.py:10-18 | construction succeeds iff the load does, and then holds exactly the loaded header and data; otherwise it fails with the load's error |
| DyntaxaWhitelist.DyntaxaWhitelist.LoadFile | src/nodc_dyntaxa/dyntaxa_whitelist.py:36-48 | the loop leaves `header` and `data` equal to the specification's load, or reports its error |
| DyntaxaWhitelist.DyntaxaWhitelist.ReadLine | src/nodc_dyntaxa/dyntaxa_whitelist.py:40-48 | one pass of the loop body advances the state exactly as the specification's next step |
| DyntaxaWhitelist.DyntaxaWhitelist.Get | src/nodc_dyntaxa/dyntaxa_whitelist.py:50-55 | `get` is `False` (`None`) iff the converted key is not stored; otherwise it is the stored row's original `scientific_name`, which converts to the same key |
| DyntaxaWhitelist.DyntaxaWhitelist.List | src/nodc_dyntaxa/dyntaxa_whitelist.py:28-30 | `list` is the stored keys, ascending, each once, none containing a space |
| DyntaxaWhitelist.GetIgnoresCaseAndSpaces | src/nodc_dyntaxa/dyntaxa_whitelist.py:52 | two keys that convert alike get the same answer |
| DyntaxaWhitelist.GetIgnoresCase | src/nodc_dyntaxa/dyntaxa_whitelist.py:52 | `get` gives the same answer for names that differ only in the case of ASCII letters |
| DyntaxaWhitelist.GetIgnoresSpace | src/nodc_dyntaxa/dyntaxa_whitelist.py:52 | `get` gives the same answer when a space is deleted anywhere in the name |
| DyntaxaWhitelist.GetConvertedKey | src/nodc_dyntaxa/dyntaxa_whitelist.py:52 | asking with the converted key gives the same answer as asking with the original |
| RedListSpecies.ConvertHeaderColShape | src/nodc_dyntaxa/red_list_species.py:44-46 | a converted header name is lower-case, as long as the stripped name, with no whitespace at either end |
| RedListSpecies.ConvertHeaderColIdempotent | src/nodc_dyntaxa/red_list_species.py:44-46 | converting a converted header name changes nothing |
| RedListSpecies.ConvertHeaderEach | src/nodc_dyntaxa/red_list_species.py:55-57 | the header is the converted cells of line 0, one for one |
| RedListSpecies.KeyValuesMeaning | src/nodc_dyntaxa/red_list_species.py:36-38 | a value is a key value of a row exactly when one of the three key columns holds it |
| RedListSpecies.StoreUnderOk | src/nodc_dyntaxa/red_list_species.py:61-62 | the inner loop succeeds iff the row has all three key columns; then the row is stored under each key value, overwriting, and every other entry stays |
| RedListSpecies.StoreUnderErr | src/nodc_dyntaxa/red_list_species.py:61-62 | a failed inner loop names the first key column the row lacks |
| RedListSpecies.StepAt | src/nodc_dyntaxa/red_list_species.py:50-62 | a successful run through line `n - 1` is the step of that line on the run before it |
| RedListSpecies.ErrorSticks | src/nodc_dyntaxa/red_list_species.py:59-62 | an error ends the load: every longer run fails with the same error |
| RedListSpecies.LoadHeader | src/nodc_dyntaxa/red_list_species.py:54-57 | the header is the converted cells of physical line 0, or absent while that line is blank |
| RedListSpecies.LoadConsistent | src/nodc_dyntaxa/red_list_species.py:59-62 | every stored row holds its own key in one of the key columns |
| RedListSpecies.NoHeaderYet | src/nodc_dyntaxa/red_list_species.py:51-59 | while physical line 0 is blank nothing is stored, and the first data line fails because `_header` was never set |
| RedListSpecies.BlankHeaderFails | src/nodc_dyntaxa/red_list_species.py:51-59 | with a blank physical line 0, any data line makes the load fail with the missing-header error |
| RedListSpecies.MissingKeyFails | src/nodc_dyntaxa/red_list_species.py:59-62 | a data line lacking one of the three key columns makes the load fail |
| RedListSpecies.StepKeys | src/nodc_dyntaxa/red_list_species.py:61-62 | one line keeps every stored key and adds its own key values |
| RedListSpecies.LoadKeys | src/nodc_dyntaxa/red_list_species.py:59-62 | the stored keys are exactly the key-column values of the data lines |
| RedListSpecies.StoredRow | src/nodc_dyntaxa/red_list_species.py:61-62 | each key value of a data line leads to that line's row, unless a later line holds the same value in a key column (the later row overwrites); so all three key values of a row lead to the same row |
| RedListSpecies.RedListSpecies.constructor | src/nodc_dyntaxa/red_list_species.py:12-13 | no header yet and empty data |
| RedListSpecies.RedListSpecies.Open | src/nodc_dyntaxa/red_list_species.py:8-15 | construction succeeds iff the load does, and then holds exactly the loaded header and data; otherwise it fails with the load's error |
| RedListSpecies.RedListSpecies.LoadFile | src/nodc_dyntaxa/red_list_species.py:48-62 | the loop leaves `header` and `data` equal to the specification's load, or reports its error |
| RedListSpecies.RedListSpecies.ReadLine | src/nodc_dyntaxa/red_list_species.py:51-62 | one pass of the loop body, including the inner loop over the key columns, advances the state exactly as the specification's next step |
| RedListSpecies.RedListSpecies.GetInfo | src/nodc_dyntaxa/red_list_species.py:64-65 | `get_info` is `None` iff the exact key is not stored; otherwise it is the row stored under that key (the last data line holding it, by `RedListSpecies.StoredRow`), which holds the key in a key column |
| RedListSpecies.RedListSpecies.Keys | src/nodc_dyntaxa/red_list_species.py:32-34 | `keys` is the stored keys, ascending, each once |
| TranslateDyntaxa.LookupMeaning | src/nodc_dyntaxa/translate_dyntaxa.py:23-35 | a name on no row gives `''`; a name on two or more rows fails with the uncaught too-many-rows error; a name on exactly one row gives that row's cell, or the KeyError when the row has no such column |
| TranslateDyntaxa.TranslateDyntaxa.constructor | src/nodc_dyntaxa/translate_dyntaxa.py:11-21 | the table is the file without its comment rows, in file order |
| TranslateDyntaxa.TranslateDyntaxa.Get | src/nodc_dyntaxa/translate_dyntaxa.py:23-28 | `get`: `''` when no row has that `taxon_name_from`, even without a `taxon_name_to` column; the too-many-rows error iff two rows do; otherwise that row's `taxon_name_to`, or the KeyError when the table has no such column |
| TranslateDyntaxa.TranslateDyntaxa.GetDyntaxaId | src/nodc_dyntaxa/translate_dyntaxa.py:30-35 | `get_dyntaxa_id`: `''` when no row matches; the too-many-rows error iff two rows do; otherwise that row's `taxon_id (if not in DynTaxa)`, or the KeyError when the table has no such column |
| TranslateDyntaxa.CommentNameMisses | src/nodc_dyntaxa/translate_dyntaxa.py:21 | a name starting with `#` misses in both queries |
| TranslateDyntaxa.QueriesAgree | src/nodc_dyntaxa/translate_dyntaxa.py:23-35 | both queries fail on several rows together and miss together, and otherwise read the two columns of the same row |

## Left out

- File I/O is not modelled.
  - Opening the files, their text encodings and line endings are left out. The whitelist opens its file with the platform's default encoding; the red list and the translation table read theirs as `cp1252`. The loaders take the file as a sequence of already decoded lines.
  - polars `read_csv` is left out, including column type inference and its null values for empty cells. The DataFrame-backed classes take the file as a table of non-null string cells.
- `src/nodc_dyntaxa/__init__.py` is not part of this model. It holds configuration discovery, environment variables, filesystem checks and the cached singletons.
- `Text.LowerChar` lower-cases the ASCII range only. Python's `str.lower()` also folds non-ASCII letters.
- `DyntaxaTaxon.DyntaxaTaxon.constructor` requires the `taxonId` column, which `_cleanup_data` filters on and derives `taxon_id` from, and the `scientificName` column when `filter_list` is non-empty. Without them polars raises a column-not-found error; that error path is not modelled.
- `DyntaxaTaxon.DyntaxaTaxon.Get` requires the `scientificName` and `taxonomicStatus` columns. Its filter raises polars' column-not-found error without them, and `get` does not catch it; that error path is not modelled.
- `TranslateDyntaxa.TranslateDyntaxa.constructor` requires the `taxon_name_from` column, which `_cleanup_data` filters on; without it polars raises a column-not-found error, which is not modelled.
- `DyntaxaTaxon.DyntaxaTaxon.GetInfo` requires every constraint to name an existing column. It also takes the constraints as a map from column to string value. Constraints on non-string values, and polars' handling of an empty constraint set, are not modelled; an empty map selects every row.
- The filter on `filter_list` is computed and discarded, as in `dyntaxa_taxon.py:24-25`. Its `str.to_lowercase` is modelled by the same ASCII `Lower`.
- The `functools.cache` on `DyntaxaTaxon.get` is modelled as a per-object `cache` field.
- `_path` and `_encoding` only feed the opening of the file, which is left out (see above). They are read there through `path` (`dyntaxa_whitelist.py:38`, `red_list_species.py:49`) and directly (`dyntaxa_taxon.py:18`, `translate_dyntaxa.py:18`). The whitelist stores an `_encoding` that its `open` never passes on.
- The `header` property is not a separate member: the loaders read the `header` field directly where the source reads `self.header` (`dyntaxa_whitelist.py:46`, `red_list_species.py:59`). Reading it before any header line was seen is the red list's `LoadError.NoHeader`.
- Some state is never read, or only by accessors outside this model, and is left out:
  - the `ranks` set in the whitelist loader (its `rank` lookup and KeyError are kept);
  - the `_synonyms` dicts;
  - `__repr__`, `source`, and `path` as a public accessor;
  - the unused `RedListSpecies._convert_key`.
- `RedListSpecies._load_file` stores one mutable `line_dict` object under all three key values (`red_list_species.py:61-62`), and `get_info` hands out that shared object, so a caller that mutates the answer for one key changes it for the other two. The model stores rows as values: the three entries are equal (`RedListSpecies.StoredRow`), but their sharing and aliasing are not captured.
- `DyntaxaWhitelist.get(None)` raises an AttributeError in `_convert_key`; the model's `Get` takes a string.
- `DyntaxaTaxon.get` catches a no-rows error that its filter cannot raise, so that handler has no counterpart in the model.
- Frames.RowBy and Frames.Filter take the selection predicate as a function on rows. polars evaluates the expression column-wise; only the observable selection is modelled.
