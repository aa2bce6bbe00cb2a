# readmemaker: section reader and contributors table, in Dafny

readmemaker is a GTK editor for README files written from a template. The
template marks each part of the document with HTML comments,
`<!-- start NAME -->` … `<!-- end NAME -->`. When a README is opened, the
editor reads every section back into its text box. It also reads the
`table-contributors` section as an HTML table of contributors: one column per
contributor, keyed by the cell id, with rows `info_avatar`, `info_name` and
`info_commit`.

This project models the two routines that do that work, both in
`src/main.py`:

- `ReadmeMaker.read_section`. It makes one pass over the lines of the file
  with an inside/outside flag. Each line is first checked as an end marker,
  which stops the pass. It is then appended when inside. Last, it is checked
  as a start marker.
- The contributors loop of `ReadmeMaker.read_file`. It finds the first table
  whose id is `contributors`. It fills an insertion-ordered dictionary from
  the table's cells, row by row, and hands the records, in key order, to the
  contributors box.

Modules:

- `Text`: Python's whitespace class, ASCII case folding, `str.strip()`.
- `Markers`: the marker test. The model reads each whitespace run greedily
  (`Scan`). It also states that reading as a grammar (`Matches`) and proves
  the two agree.
- `Sections`: the section reader as a loop (`ReadSection`). The same reader
  is also given as a function of the file (`Extract`), and the reader's
  behaviour is proved about that function.
- `Contributors`: the parsed HTML tree, the dictionary (`Roster`: key order
  plus a map), and the one-cell step (`AddCell`). It holds the fold over the
  cells in row-major order (`Fold`) and the nested-loop reader
  (`ReadContributors`), which is proved equal to that fold.
- `ContributorFacts`: what the fold promises, in terms independent of the
  fold:
  - which keys are recorded, and in which order;
  - what every field ends up holding;
  - that no key is ever lost;
  - which table is read.
- `Editor`: `read_file` as a method of the editor window. It fills six text
  boxes and the contributors box.

Python raises when the reader touches something that is absent: a table,
row or cell without an `id`, a cell without an `<a>`, an `<a>` without
`href`, `<img>` or `<span>`, an `<img>` without `src`, or a lookup of a key
that was never recorded. The model does not exclude these inputs. In the
source's evaluation order, each such access gives `Crash(fault)`, with the
fault naming the access. A raise ends the whole read, and the contributors
box keeps its old contents. That matches the source, where the exception
leaves `read_file` before `set_contributors` is reached.

Two consequences of the code are worth stating:

- An end marker line stops the scan even before any start marker
  (src/main.py:286-288), so `Extract` returns `""` there
  (`CloseBeforeOpenIsEmpty`).
- A missing `id`, `<a>`, `href`, `<img>`, `src` or `<span>` raises
  (src/main.py:186, 197-210), and the model returns `Crash`. Which cells go
  through is stated by `CellReadable` and `TableSucceeds`.

## Model

| member | source | states |
|---|---|---|
| Text.SpaceRun | src/main.py:281-282 | the greedy `\s*` run at the start of a string: every character of the run is whitespace and the character after it is not |
| Text.Lower | src/main.py:286-292 | case folding under IGNORECASE on ASCII: `A`-`Z` map to `a`-`z`, every other character is unchanged, and whitespace stays whitespace |
| Text.LowerString | src/main.py:286-292 | a string folded character by character, with its length kept |
| Text.Strip | src/main.py:207 | `str.strip()`: the result is what remains of the input once a leading and a trailing whitespace-only part are removed; it neither starts nor ends with whitespace; it is empty exactly when the input is all whitespace |
| Markers.MarkerPattern | src/main.py:281-282 | the delimiter pattern `<!--\s*KEYWORD\s+NAME\s*-->` as a list of literals and whitespace runs |
| Markers.Scan | src/main.py:286-292 | `re.match` of a pattern at the start of a line: literals compared up to case, each whitespace run read as far as it goes |
| Markers.IsMarker | src/main.py:286-292 | the start or end test of a line for a section name: the greedy reading of that name's pattern |
| Markers.PatternWellFormed | src/main.py:281-282 | the marker pattern ends in `-->`, and its greedy reading is complete exactly when the name is non-empty and does not begin with whitespace |
| Markers.SpaceRunIsUnique | src/main.py:281-282 | a whitespace run followed by a non-space, or by the end of the line, is the greedy run |
| Markers.ScanIsSound | src/main.py:281-282 | every line the greedy reading accepts matches the pattern read as a grammar |
| Markers.ScanIsComplete | src/main.py:281-282 | when every whitespace run is followed by a literal that cannot begin with whitespace, every grammar match is found by the greedy reading |
| Markers.MarkerIffPattern | src/main.py:281-287 | for a non-empty name that does not begin with whitespace, a line is a marker exactly when it matches `<!--\s*KEYWORD\s+NAME\s*-->` at its start, letters compared up to case |
| Markers.ScanNeedsText | src/main.py:281-282 | a pattern that ends in a non-empty literal accepts no empty line |
| Markers.ScanIgnoresSuffix | src/main.py:286-287 | a pattern ending in a non-empty literal still matches when text is appended to the line |
| Markers.MarkerIgnoresTrailingText | src/main.py:286-292 | a marker line stays a marker line whatever follows `-->` |
| Markers.StartAndEndExclusive | src/main.py:281-282 | no line is both a start and an end marker of the same section |
| Markers.ScanIgnoresCase | src/main.py:286-292 | the greedy reading gives the same verdict on a line and on its lower-cased form |
| Markers.MarkerIgnoresCase | src/main.py:286-292 | the marker test gives the same verdict on a line and on its lower-cased form |
| Sections.FirstMarker | src/main.py:285-288 | the index of the first marker line of a kind, or the number of lines when there is none: no earlier line is such a marker and the line there is one |
| Sections.Extract | src/main.py:285-293 | the section as a function of the file: the lines strictly between the first start marker line and the first end marker line (or the end of the file) when the start marker comes first, and `""` otherwise or for a missing file |
| Sections.ReadSection | src/main.py:272-294 | the loop, with its end-check, append and start-check in the source's order, returns exactly `Extract(file, name)` |
| Sections.MissingFileIsEmpty | src/main.py:279-283 | a missing file yields `""` for every section |
| Sections.UnopenedSectionIsEmpty | src/main.py:286-293 | a file without a start marker yields `""` |
| Sections.CloseBeforeOpenIsEmpty | src/main.py:286-288 | an end marker before every start marker yields `""`, whatever follows it |
| Sections.SectionIsBody | src/main.py:285-293 | with no marker before the start line and no end marker in the body, the result is the body's lines joined, newlines kept; it runs to the end of the file when no end marker follows; neither marker line is included |
| Sections.ReopenIsText | src/main.py:289-293 | inside a section, a further start marker line is ordinary text, appended between the text before it and the text after it |
| Sections.IgnoresLinesAfterClose | src/main.py:286-288 | the lines after an end marker line of the section never affect the result |
| Contributors.AddCell | src/main.py:196-210 | one cell: a non-empty id seen for the first time gets a fresh record appended to the key order; then a row of a field category sets that record's fields, raising on a missing cell id, row id, unknown key, `<a>`, `href`, `<img>`, `src` or `<span>`, in the source's order |
| Contributors.Fold | src/main.py:193-210 | the cells applied one after another from a given dictionary; the first fault ends the read |
| Contributors.ParseTable | src/main.py:193-210 | the read of one table: the fold of its cells, in row-major order, from an empty dictionary |
| Contributors.EntriesLength | src/main.py:194-196 | the row-major list of cells has one entry per cell of every row |
| Contributors.EntriesRowMajor | src/main.py:194-196 | cell `j` of row `i` stands at the position after all cells of the earlier rows, plus `j`, paired with the id of row `i` |
| Contributors.FindTable | src/main.py:184-186 | the table search: a table it returns is in the list and has id `contributors`; when it returns none, every table has an id other than `contributors`; when it raises, some table has no id |
| Contributors.ParseContributors | src/main.py:184-212 | a parsed roster is the read of some `contributors` table in the list; no roster means no table has that id |
| Contributors.Values | src/main.py:211 | the records of a consistent dictionary in insertion order: element `i` is a record of the dictionary whose key is the `i`-th key inserted, and every record of the dictionary is listed |
| Contributors.ReadCell | src/main.py:196-210 | the inner loop body updates the key order and the map exactly as `AddCell` says, or returns the fault `AddCell` gives |
| Contributors.ReadContributors | src/main.py:184-212 | the nested loops with their early exits return exactly `ParseContributors(tables)` |
| Contributors.FaultIsFinal | src/main.py:196-210 | once a prefix of the cells raises, the whole read raises that same fault |
| Contributors.CrashStopsTable | src/main.py:193-210 | a fault at cell `j` of row `i` is the fault of the whole table |
| ContributorFacts.FirstAppearancesHas | src/main.py:197-199 | a key is listed in first-appearance order exactly when it occurs |
| ContributorFacts.AddCellShape | src/main.py:196-210 | one successful cell has an id; the key order grows by that key only when the key is non-empty and new; no key leaves the map |
| ContributorFacts.AddCellKeys | src/main.py:196-199 | one cell keeps the dictionary consistent and extends the key order as first appearances do |
| ContributorFacts.AddCellGrows | src/main.py:196-199 | one cell never removes a key and only appends to the key order |
| ContributorFacts.FoldKeys | src/main.py:193-199 | a successful read records each distinct non-empty cell id once, in row-major order of first appearance, each in a record that carries it as its key |
| ContributorFacts.AddCellFields | src/main.py:200-210 | one cell sets a field of a record exactly when `Written` says it does, and to that value |
| ContributorFacts.FoldFields | src/main.py:193-210 | every field of every record holds the value of the last cell of that key in a row of the field's category, or stays unset; rows of other categories set nothing; an `info_commit` text is kept untrimmed, an `info_name` text is stripped |
| ContributorFacts.FoldGrows | src/main.py:193-199 | no key is ever removed: the keys and the key order after any prefix of the cells survive the rest of the read |
| ContributorFacts.FirstContributorsTableOnly | src/main.py:184-212 | the first table with id `contributors` is the one read: earlier tables with other ids are skipped and later tables are never looked at |
| ContributorFacts.TableSearch | src/main.py:184-186 | the table search stops at the first table with id `contributors` |
| ContributorFacts.NoContributorsTable | src/main.py:184-186 | without a `contributors` table nothing is produced |
| ContributorFacts.UnnamedTableRaises | src/main.py:184-186 | a table without an id ahead of the contributors table makes the read raise |
| ContributorFacts.TableRoster | src/main.py:193-211 | a successful read of a table: its keys are exactly the non-empty cell ids, in first-appearance order, and each field is its last written value |
| ContributorFacts.AddCellSucceeds | src/main.py:196-210 | when no empty key has been recorded, one cell raises exactly when it is not readable, and a readable cell records no empty key |
| ContributorFacts.FoldSucceeds | src/main.py:193-210 | a run of cells goes through exactly when every one of them is readable |
| ContributorFacts.EntryOrigin | src/main.py:194-196 | every entry of the row-major list comes from some cell of some row |
| ContributorFacts.TableSucceeds | src/main.py:193-210 | reading a table raises nothing exactly when every cell of every row is readable (`CellReadable`: ids present; in a field row a non-empty cell id and an `<a>`; `href`, `<img>` and `src` for `info_avatar`; `<span>` for `info_commit`) |
| ContributorFacts.OneOfEachRow | src/main.py:193-211 | one row of each field category, each holding one cell with the same non-empty key, gives one record for that key with all four fields set from those cells |
| ContributorFacts.AliceRoster | src/main.py:193-211 | a concrete instance: for key `alice` with name cell " Alice\n", the record has name `Alice` and the url, avatar url and role of its cells |
| ContributorFacts.ParsedRosterIsValid | src/main.py:211 | every dictionary the reader returns is consistent, so its values can be listed in key order |
| Editor.ReadmeForm.ReadFile | src/main.py:169-212 | each text box holds its section of the file; the contributors box holds the records of the first contributors table when it is read to the end, and is unchanged otherwise; the fault is returned when the read raises |

## Left out

- The GTK user interface: widget construction, menus, dialogs, the window's event wiring and process exit. In particular, no exception reaches a GTK callback in the model. A raise in the contributors read is returned as `raised` by `ReadFile`.
- File access (`os.path.exists`, `open`, `readlines`). A file is given as `Option<seq<string>>`, `None` when it does not exist. Each line keeps its newline, as `readlines()` returns it.
- The HTML parser. `ReadFile` takes it as a function parameter `parseHtml`. A table arrives as the `Table` datatype, with its rows, the cells of each row, the first `<a>` of each cell, and the first `<img>` and `<span>` inside that `<a>`. `findAll` on a table is a search of all descendants. Nested tables, and rows or cells found at other depths, are not modelled. The text of an anchor (`get_text()`) is given directly as a string.
- `src/contributor.py` and `src/box_contributors.py` are not part of this model. A contributor is a record with four optional fields, set the way the setters' names say. The contributors box is the sequence it is given.
- The `ncolumns`/`nrows`/`ncontributors` computation (src/main.py:187-192). Its value is never used, and it cannot raise.
- `save_filename`, which only prints.
- Case folding is ASCII only. Python folds other letters too (for example U+017F, or the Kelvin sign against `k`), so a marker written with such letters is recognised by Python and not by the model.
- A section name is placed into the pattern as literal text. The seven names the editor uses contain no regular-expression metacharacters, so this agrees with the source for them.
- Markers.MarkerIffPattern: proved only for names that are non-empty and do not begin with whitespace. All seven names the editor uses qualify. For other names the greedy reading and the regular expression could differ, and the proof does not cover that case.
- The partial updates Python makes to a record before it raises. For example, the url is set before a missing `<img>` raises. The model does not keep them, because a raise discards the whole dictionary.
