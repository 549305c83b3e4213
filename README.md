# Daily report name injector — a Dafny model of its backend core

The backend of the daily report name injector takes an HTML report and a
spreadsheet. The spreadsheet maps transporter identifiers to names. In every
table of the report that has a header cell reading "Transporter ID", the
backend adds a "Name" column right after that column. Each data row gets the
name found for its transporter identifier, or an empty cell. At start-up the
backend also loads `KEY=VALUE` settings from a `.env` file into the process
environment, and never overrides a variable that is already set.

This project models those two functions of `backend/app.py`, `process_files`
and `load_env`, and proves what they do.

- `wrappers.dfy` (`Wrappers`): the `Option` type.
- `text.dfy` (`Text`): Python's `str.strip()` over the characters
  `str.isspace()` accepts, and the search for the first `=` that `"=" in line`
  and `line.split("=", 1)` perform.
- `markup.dfy` (`Markup`): a table row as its `th`/`td` cells in document
  order. It gives `tr.find_all(kind)` (`CellsOf`), the position in the row of
  cell number `j` of one kind (`PositionOfNth`), and `insert_after`, with
  lemmas on how an insertion changes the cells of each kind.
- `lookup.dfy` (`Lookup`): `name_map = dict(zip(ids, names))` with Python's
  zip and dict semantics, and `name_map.get(id, "")`.
- `injection.dfy` (`Injection`): the functional specification of what
  `process_files` does to one table (`InjectedRows`). It also holds the
  imperative model: a `Table` class whose `rows` are edited in place by
  `InjectNameColumn`, its data-row loop `AddNameCells`, and the loop over
  all tables, `ProcessFiles`.
- `injection_facts.dfy` (`InjectionFacts`): properties of `InjectedRows`.
  They cover when a table is left alone, how the header row changes, what
  each data row gains, and the fact that a second run adds a second "Name"
  column.
- `dotenv.dfy` (`DotEnv`): how one `.env` line is read (`ParseLine`) and how
  the lines are merged into the environment (`MergeAll`). An `Environment`
  class holds `os.environ` as a map, and `LoadEnv` runs the loop of
  `load_env`.

### What the code does not do

`backend/app.py` does not work out a logical grid from `colspan`/`rowspan`.
It does not normalise keys (for example, "007" does not also match "7").
It does not detect a "Name" column added by an earlier run. The model
follows the code:

- Column positions are plain indices into each row's `th` list and `td`
  list. Spans are ignored.
- Keys are matched exactly after `get_text(strip=True)`. In `name_map` the
  last duplicate identifier wins (`Lookup.DictOfLastWins`,
  `Lookup.NameMapLookup`).
- A second run inserts a second "Name" header
  (`InjectionFacts.SecondRunAddsSecondNameHeader`).
- The header search looks at every row of the table and takes the first one
  that has the target header, not just a header section.
- The data-row loop also visits the header row. That row gains a name cell
  if it has enough `td` cells (`InjectionFacts.HeaderRowDataCells`).
- The test `not tds or len(tds) <= transporter_index` keeps its redundant
  first half in `Injection.WithNameCell` and `Injection.Table.AddNameCells`.

## Model

| member | source | states |
|---|---|---|
| Text.TrimStart | backend/app.py:23 | the front-stripping half of `strip()`: the result is a suffix of the input and does not start with whitespace; TrimStartRemovesSpaces says what was cut |
| Text.TrimEnd | backend/app.py:23 | the back-stripping half of `strip()`: the result is a prefix of the input and does not end with whitespace; TrimEndRemovesSpaces says what was cut |
| Text.Strip | backend/app.py:23 | the stripped line has no whitespace at either end |
| Text.TrimStartRemovesSpaces | backend/app.py:23 | every character removed from the front is whitespace |
| Text.TrimEndRemovesSpaces | backend/app.py:23 | every character removed from the back is whitespace |
| Text.StripIsSlice | backend/app.py:23 | the stripped string is one contiguous slice of the input, and everything cut away on both sides is whitespace |
| Text.StripKeepsAbsent | backend/app.py:27 | stripping never introduces a character, so a key cut before the first `=` still has no `=` |
| Text.FirstIndexOf | backend/app.py:24-26 | returns None exactly when the character is absent; otherwise the index of an occurrence with none before it |
| Text.FirstIndexOfUnique | backend/app.py:26 | the first occurrence is the only index holding the character with none before it |
| Markup.CellsOf | backend/app.py:66 | `find_all` of one kind yields only cells of that kind, no more than the row has |
| Markup.CellsOfConcat | backend/app.py:66 | selecting cells of one kind distributes over joined rows |
| Markup.InsertAfter | backend/app.py:91 | `insert_after` on the cell at a row position; no contract of its own, and InsertAfterCells, InsertAfterOtherKind, InsertAfterShifts and InsertAfterTwice characterise it |
| Markup.InsertAfterNth | backend/app.py:80 | `find_all(kind)[j].insert_after(c)`; no contract of its own, and InsertAfterNthCells characterises it |
| Markup.PositionOfNth | backend/app.py:80 | cell number `j` of a kind sits at a row position holding that very cell, with exactly `j` cells of that kind before it |
| Markup.PositionOfNthUnique | backend/app.py:80 | that position is the only one with this property |
| Markup.CellsOfSplitAtNth | backend/app.py:80 | splitting a row just after cell number `j` splits its cell list at `j + 1` |
| Markup.InsertAfterCells | backend/app.py:91 | after `insert_after`, the new cell is among the cells of its own kind right after those at or before the insertion point |
| Markup.InsertAfterOtherKind | backend/app.py:91 | inserting a cell leaves the cell list of every other kind unchanged |
| Markup.InsertAfterNthCells | backend/app.py:80 | inserting after cell number `j` adds one cell to the row, places it at index `j + 1` among its kind keeping the others in order, and leaves the other kind unchanged |
| Markup.InsertAfterShifts | backend/app.py:91 | inserting a cell of another kind moves cell number `j` one place right exactly when the insertion point is before it |
| Markup.InsertBeforeShifts | backend/app.py:91 | inserting before the cell moves it one place right |
| Markup.InsertBehindKeeps | backend/app.py:91 | inserting at or after the cell keeps its position |
| Markup.InsertAfterTwice | backend/app.py:80-91 | a header insertion followed by a data-cell insertion, whose anchor has moved, puts each new cell right after its anchor's original position and keeps every other cell in order |
| Markup.InsertAfterKeepsAdjacent | backend/app.py:91 | inserting a `td` after a `td` keeps two neighbouring `th` cells neighbours |
| Lookup.Zip | backend/app.py:58 | `zip` pairs elements by position and is as long as the shorter column |
| Lookup.DictOf | backend/app.py:58 | `dict(pairs)`; no contract of its own, and DictOfLastWins characterises it |
| Lookup.NameMap | backend/app.py:58 | `name_map = dict(zip(ids, names))`; no contract of its own, and NameMapLookup characterises lookups in it |
| Lookup.Find | backend/app.py:88 | `name_map.get(id, "")`; no contract of its own, and NameMapLookup characterises it on `name_map` |
| Lookup.DictOfLastWins | backend/app.py:58 | a key is in `dict(pairs)` exactly when some pair carries it, and its value comes from the last such pair |
| Lookup.NameMapLookup | backend/app.py:88 | `name_map.get(id, "")` is the name beside the last exact occurrence of `id` in the zipped columns, and "" when there is none |
| Injection.Texts | backend/app.py:74 | the texts of a list of cells, in order; no contract of its own, and it is read only through HasTargetHeader, TargetIndex and NameInsertedTexts |
| Injection.HasTargetHeader | backend/app.py:66-67 | a row has a `th` whose text is exactly "Transporter ID"; no contract of its own, and HeaderRow and HeaderRowUnique characterise the row chosen by it |
| Injection.HeaderRow | backend/app.py:64-71 | None exactly when no row has a `th` "Transporter ID"; otherwise the first row that has one |
| Injection.WithNameHeader | backend/app.py:77-80 | the header row with `th` "Name" inserted after `th` number `transporter_index`; no contract of its own, and WithNameHeaderCells and WithNameHeaderAdjacent characterise it |
| Injection.WithNameCell | backend/app.py:84-91 | one pass of the data-row loop; no contract of its own, and WithNameCellCells, WithNameCellKeepsAdjacent and OtherRowGainsNameCell characterise it |
| Injection.WithNameCells | backend/app.py:83-91 | the data-row loop over all rows keeps the number of rows; WithNameCellCells says what each row becomes |
| Injection.InjectedRows | backend/app.py:63-91 | one table after `process_files`; no contract of its own, and UnchangedIffNoTargetHeader, HeaderRowShape, HeaderRowGainsNameHeader, OtherRowGainsNameCell and RunKeepsHeaderRow characterise it |
| Injection.FindHeaderRow | backend/app.py:64-69 | the search loop with an early break returns the specified header row |
| Injection.FirstIndex | backend/app.py:75 | `headers.index(x)` is an index holding `x` with no `x` before it |
| Injection.TargetIndex | backend/app.py:73-75 | `transporter_index` is a valid index among the header row's `th` cells |
| Injection.Table.InjectNameColumn | backend/app.py:63-91 | one table's rows after the in-place edit equal the specified result for the old rows |
| Injection.Table.AddNameCells | backend/app.py:83-91 | the data-row loop leaves each row as the specified one-row pass does |
| Injection.ProcessFiles | backend/app.py:54-91 | every table of the document ends up with the rows specified for its old rows and `dict(zip(ids, names))` |
| InjectionFacts.HeaderRowUnique | backend/app.py:64-69 | the first row with the target header is the header row found |
| InjectionFacts.FirstIndexUnique | backend/app.py:75 | the first occurrence of the label is the index `list.index` returns |
| InjectionFacts.WithNameCellCells | backend/app.py:84-91 | the data-row pass gives a row the expected `td` cells and leaves its `th` cells alone |
| InjectionFacts.WithNameHeaderCells | backend/app.py:78-80 | inserting the header puts `th` "Name" at `th` index `transporter_index + 1` and leaves the `td` cells alone |
| InjectionFacts.WithNameHeaderAdjacent | backend/app.py:80 | the new `th` "Name" sits directly after the targeted `th` in the row |
| InjectionFacts.WithNameCellKeepsAdjacent | backend/app.py:91 | the data-row pass keeps two neighbouring `th` cells neighbours |
| InjectionFacts.UnchangedIffNoTargetHeader | backend/app.py:63-71 | a table is unchanged if and only if none of its rows has a `th` "Transporter ID" |
| InjectionFacts.HeaderRowGainsNameHeader | backend/app.py:77-80 | the header row's `th` cells are the old ones with exactly one "Name" inserted right after `th` number `transporter_index` |
| InjectionFacts.ExpectedHeaderRow | backend/app.py:77-91 | the header row as `process_files` should leave it, described on the old row's positions; no contract of its own, and HeaderRowShape ties it to the model |
| InjectionFacts.NameHeaderThenCell | backend/app.py:77-91 | the header insertion followed by the data-row pass makes a row equal to ExpectedHeaderRow |
| InjectionFacts.NameHeaderOnly | backend/app.py:77-86 | a header row that has no more than `transporter_index` `td` cells gains the `th` "Name" and nothing else |
| InjectionFacts.NameHeaderAndCell | backend/app.py:77-91 | a header row that has a `td` number `transporter_index` gains the `th` "Name" after the target `th` and a name `td` after that `td`, and every other cell keeps its order |
| InjectionFacts.HeaderRowShape | backend/app.py:77-91 | the header row of the output is exactly ExpectedHeaderRow of the old header row: only the new cells are added, and no cell moves relative to another |
| InjectionFacts.HeaderRowNameIsAdjacent | backend/app.py:77-80 | in the output header row the targeted "Transporter ID" is followed immediately by "Name", with no cell between them |
| InjectionFacts.HeaderRowDataCells | backend/app.py:83-91 | the header row's own `td` cells follow the data-row rule too |
| InjectionFacts.OtherRowGainsNameCell | backend/app.py:83-91 | every other row keeps its `th` cells; with at most `transporter_index` `td` cells it is unchanged; otherwise it gains exactly one `td` holding the looked-up name, right after `td` number `transporter_index` |
| InjectionFacts.NameInsertedTexts | backend/app.py:73-80 | inserting "Name" after the first "Transporter ID" keeps that label first and adds one "Name" to the header texts |
| InjectionFacts.RunKeepsHeaderRow | backend/app.py:64-80 | after one run the header row and `transporter_index` are the same, and the header row has one more "Name" |
| InjectionFacts.SecondRunAddsSecondNameHeader | backend/app.py:77-80 | running twice leaves two more "Name" headers than the input had: the operation is not idempotent |
| DotEnv.ParseLine | backend/app.py:23-27 | how one line is read; no contract of its own, and ParseLineSkips, ParseLineSplitsAtFirstEquals and ParsedKeyIsClean characterise it |
| DotEnv.ParseLines | backend/app.py:22-27 | one entry per line of the file |
| DotEnv.Merge | backend/app.py:28-29 | one line applied to the environment; no contract of its own, and MergeAllKeepsExisting, MergeAllKeys and FirstDefinitionWins characterise it through MergeAll |
| DotEnv.MergeAll | backend/app.py:22-29 | the lines applied in file order; no contract of its own, and MergeAllKeepsExisting, MergeAllKeys and FirstDefinitionWins characterise it |
| DotEnv.Environment.LoadEnv | backend/app.py:17-29 | a missing file leaves the environment as it was; otherwise the environment becomes the file's parsed lines merged in order |
| DotEnv.ParseLineSkips | backend/app.py:23-25 | a line is skipped exactly when it is blank after stripping, starts with `#`, or has no `=` |
| DotEnv.ParseLineSplitsAtFirstEquals | backend/app.py:23-29 | any other line splits at its first `=` into a stripped key and a stripped value, and the value may itself contain `=` |
| DotEnv.ParsedKeyIsClean | backend/app.py:26-27 | a parsed key holds no `=` and has no whitespace at either end |
| DotEnv.MergeAllKeepsExisting | backend/app.py:28-29 | a variable set before loading keeps its value |
| DotEnv.MergeAllKeys | backend/app.py:28-29 | a variable is set after loading exactly when it was set before or some line defines it with a non-empty key |
| DotEnv.FirstDefinitionWins | backend/app.py:28-29 | for a variable not set before, the first line that defines it decides its value and later lines are ignored |

## Left out

- Markup parsing and serialisation (lines 60 and 96). A document is its tables, a table its rows, and a row its `th`/`td` cells in order.
- Markup.CellsOf: `find_all` searches all descendants. The model takes a row's cells to be its own flat list.
- Nested tables: in the source, rows of an inner table also count as rows of the outer table. This is not modelled.
- Cell text: `get_text(strip=True)` joins the stripped text of a cell's descendants. The model takes each cell's text as already computed.
- Spreadsheet reading (lines 56-57): the `pandas` workbook read, header stripping and `astype(str)` conversion are not modelled. The two columns arrive as sequences of strings. A missing column, for which line 58 raises `KeyError`, is not modelled.
- Output (lines 93-97): writing the result to a temporary file and returning its path is not modelled.
- File reading in `load_env` (lines 18-22): the path, the existence check, UTF-8 decoding and splitting into lines are not modelled. The file is given as its lines, or `None` when it does not exist.
- `os.environ` is a map from strings to strings.
- DotEnv.Environment.LoadEnv: does not model the `ValueError` that `os.environ[key] = value` raises when the key or the value contains a NUL character. That error aborts `load_env` and, with it, the import of the module at line 32; the model always completes the merge.
- Injection.ProcessFiles: requires the tables to be distinct objects. `find_all("table")` never returns the same element twice, so this adds no restriction the source does not already have.
- The Flask application is not part of this model: routes, sessions, the password check with its `OPTIONS` bypass, and static files (lines 35-52 and 99 on). The frontend is not part of it either.
