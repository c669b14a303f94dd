# Monk archive: a Dafny model of the record store and its views

The archive keeps biographical records of monks in one SQLite table, `monges`, inside an Electron application. This project models that core as pure Dafny functions, and proves what the code promises about them:

- **Store (`db.ts`).** Creating a record fills defaults, encodes the two list fields (`ocupacao_oficio`, `livros`) as JSON arrays, and turns `""` into null. Update, delete and connection handling are modelled too. Reading orders rows by `nome` and decodes the lists back. The JSON string-list codec round-trips.
- **Record list (`App.tsx`).** The search and the advanced filters, ten records per page, and the page reset when the query changes. Also the option lists of the filters, the CSV export, and what saving the form sends to the store.
- **Dashboard (`Dashboard.tsx`).** The per-value statistics ordered by count, and the top-eight bar charts.
- **Page bar (`Pagination.tsx`).** The sliding window of page numbers with `...` markers, and the navigation buttons.
- **Form and pickers.** `MonkForm.tsx`: the `DD/MM/AAAA` date mask, the form defaults, the book list and the submitted record. `MultiSelect.tsx`: the occupation picker. `SearchableSelect.tsx`: the filter picker.
- **Constants.** The record shape (`monk.type.ts`) and the constants of `data.ts`.

Modules, leaves first:

| module | file | models |
|---|---|---|
| `Wrappers` | wrappers.dfy | `Option` (null / value) and `Result` (thrown / returned) |
| `Text` | text.dfy | `toLowerCase`, `includes`, `trim`, `join`, `\d`, binary string order |
| `Seqs` | seqs.dfy | `filter` and the subsequence relation, `flat` |
| `Schema` | schema.dfy | the fields of `Monk`, the table columns, the record value |
| `Constants` | constants.dfy | `PREDEFINED_OCCUPATIONS`, `FILTER_GROUPS` |
| `JsonList` | json.dfy | `JSON.stringify` / `JSON.parse` of string arrays |
| `Connection` | connection.dfy | the module-level database handle |
| `Store` | store.dfy | `MonkDAO`, `connectDB`/`closeDB`, the create IPC handler, `handleSave` |
| `Query` | query.dfy | `filteredMonks`, pagination, the list view state |
| `Options` | options.dfy | `allOccupations`, `getUniqueOptions` |
| `Csv` | csv.dfy | `handleExportCSV` |
| `Dashboard` | dashboard.dfy | `getStats`, the top-eight slice |
| `Pagination` | pagination.dfy | `getPageNumbers`, the navigation buttons |
| `Form` | form.dfy | `maskDate`, `defaultValues`, `onFormSubmit`, `handleAddLivro`, `remove` |
| `MultiSelect` | multiselect.dfy | `handleAdd`, `handleRemove`, `filteredOptions`, Enter |
| `SearchableSelect` | searchable.dfy | `filteredOptions`, the values passed to `onChange` |

The table is a `map` from identifier to row. The database file is `Option<map>`: `None` means the table does not exist yet. Time and `uuidv4` are parameters (`now`, `uuid`).

Two behaviours of the code worth noting:

- **No name validation.** The store has no "name must be non-empty" check. A draft without a `nome` key fails only because better-sqlite3 rejects a missing named parameter. A `nome` of `""` is stored as null.
- **Malformed list text.** A list column that is not valid JSON makes `getAll` throw. It is not read as an empty list. In the model this is a `Failure`.

## Model

| member | source | states |
|---|---|---|
| Schema.RecordMatchesTable | src/renderer/src/types/monk.type.ts:1-31 | the interface's properties and the table's columns are the same names in the same order |
| Schema.RecordIsComplete | src/renderer/src/types/monk.type.ts:1-31 | every field of the model is a property of the interface |
| Schema.DefaultsAreOptionalScalars | src/main/db.ts:70-79 | the store's `defaultValues` keys are exactly the scalar fields other than `nome`, `id` and `created_at` |
| Constants.FilterKeysDistinct | src/renderer/src/constants/data.ts:10-39 | the thirteen filter keys of all groups are pairwise distinct |
| Constants.FiltersWellFormed | src/renderer/src/constants/data.ts:14-36 | `ocupacao_oficio` is the only list-valued filter key; no filter targets `livros`, `nome`, `id` or `created_at`; a filter is a date filter iff its field is a `data_*` date, and then it has the `DD/MM/AAAA` placeholder; every other filter is a select without a placeholder |
| JsonList.DecodeEncode | src/main/db.ts:84-85 | decoding the stored text of any string list gives the list back, whatever characters the strings hold |
| JsonList.EncodeInjective | src/main/db.ts:84-85 | two lists with the same stored text are equal |
| JsonList.EncodeShape | src/main/db.ts:84-85 | the stored text is a bracketed array, and `[]` for the empty list |
| JsonList.QuoteRoundTrip | src/main/db.ts:116-117 | the string parser reads back any quoted, escaped string and leaves the rest of the input untouched |
| JsonList.ItemsRoundTrip | src/main/db.ts:116-117 | the array-item parser reads back any comma-separated list of quoted strings |
| Connection.AtMostOneOpen | src/main/db.ts:13-29 | when only the current handle may be open, at most one is, and exactly one iff the current one is |
| Connection.ConnectOpensOne | src/main/db.ts:20-29 | after `connectDB` exactly one handle is open: the new one; the earlier ones are all closed |
| Connection.CloseClosesAll | src/main/db.ts:13-17 | after `closeDB` no handle is open; without an open handle it changes nothing |
| Store.ConnectDB | src/main/db.ts:20-33 | connecting opens the handle and makes the table exist; an existing table keeps all its rows, and a missing one starts empty |
| Store.CloseDB | src/main/db.ts:13-17 | closing leaves no open handle and keeps the rows; it is a no-op when nothing is open |
| Store.ConnectKeepsRows | src/main/db.ts:20-33 | reconnecting keeps exactly one handle open and never loses a row |
| Store.DefaultsDomain | src/main/db.ts:70-79 | a field has a default iff it is a scalar other than `nome`, `id` and `created_at`, and every default is null |
| Store.MergeAt | src/main/db.ts:81-86 | after the spread, a field is present iff it is a list, was supplied, or has a default; supplied values override defaults; lists are the JSON text of the supplied list, or of `[]` |
| Store.PrepareSpec | src/main/db.ts:81-90 | the bound value of each field equals the reference `Expected`: lists as JSON text (never null), supplied scalars with `""` made null, omitted optional scalars null; no bound value is ever `""` |
| Store.FirstMissing | src/main/db.ts:92-108 | a statement fails on a missing named parameter iff some column it binds is absent, and it names an absent one |
| Store.MissingIsNomeOrId | src/main/db.ts:92-108 | after preparation, the only parameters that can be missing are `nome` and `id` |
| Store.InsertBinds | src/main/db.ts:92-108 | the insert binds every parameter iff the draft has a `nome` key |
| Store.UpdateBinds | src/main/db.ts:149-165 | the update binds every parameter iff the draft has both `nome` and `id` keys |
| Store.CreateSucceeds | src/main/db.ts:69-109 | `create` succeeds iff the table is reachable, `nome` is supplied and the identifier is new; otherwise it reports the failure |
| Store.CreateSpec | src/main/db.ts:69-109 | a successful `create` adds exactly the new identifier, leaves every other row alone, and stores every column: the identifier, the timestamp, and `Expected` for the rest |
| Store.NewRowSpec | src/main/db.ts:92-108 | the inserted row holds every column, with the identifier, `created_at` from the default, and each other column as `Expected` states |
| Store.CreateMonkUsesUuid | src/main/index.ts:61-70 | the create handler stores the record under the fresh `uuid`, which was not in the table |
| Store.UpdateSucceeds | src/main/db.ts:126-167 | `update` succeeds iff the table is reachable and `nome` and `id` are supplied; it never adds or removes a row; an absent or unknown id changes nothing |
| Store.UpdateSpec | src/main/db.ts:126-167 | `update` rewrites every column except `id` and `created_at` of the matching row to `Expected`, so omitted scalars revert to null; it keeps that row's `id` and `created_at` and leaves every other row unchanged |
| Store.DeleteSpec | src/main/db.ts:121-124 | `delete` removes exactly the row with the given id; an unknown id changes nothing |
| Store.NewWithEmptyName | src/main/db.ts:80-90 | a new record whose `nome` is `""` is created and stored with a null `nome` |
| Store.SaveSpec | src/renderer/src/App.tsx:107-115 | saving an edited record keeps the set of records; saving a new one adds exactly the fresh identifier; both need a `nome` key |
| Store.DecodeWrittenRow | src/main/db.ts:111-118 | a row written by `create`/`update` reads back with exactly the caller's lists (`[]` when absent) and every other column as stored |
| Store.DecodeNullColumn | src/main/db.ts:116-117 | a null or empty list column reads as `[]` |
| Store.InsertKeepsSorted | src/main/db.ts:112 | inserting a record at its position keeps the list ordered by `nome`, with null first |
| Store.GetAll | src/main/db.ts:111-118 | `getAll` fails iff some row's list text is malformed; otherwise it returns every row exactly once, decoded and ordered by `nome` |
| Query.SearchAgrees | src/renderer/src/App.tsx:77-80 | the search as written fails exactly when the term is non-empty and `nome` is null; otherwise it agrees with the corrected search |
| Query.SearchMeaning | src/renderer/src/App.tsx:77-80 | a non-empty term matches iff it is a case-insensitive substring of `nome` or of a non-empty `cidade_nascimento` |
| Query.NullNameBreaksSearch | src/renderer/src/App.tsx:79 | a record with a null or missing `nome` makes a non-empty search fail |
| Query.FilteredAgrees | src/renderer/src/App.tsx:75-95 | `filteredMonks` as written fails iff the term is non-empty and some record has a null `nome`; otherwise it equals the corrected filter |
| Query.FilteredSpec | src/renderer/src/App.tsx:75-95 | the filtered list is an order-preserving subsequence of the records; a record is kept iff it passes the search and every active filter |
| Query.NoQueryListsAll | src/renderer/src/App.tsx:77-83 | an empty term with only empty filter values lists every record |
| Query.AddFilterNarrows | src/renderer/src/App.tsx:82-91 | adding a filter keeps a subsequence of what was listed before |
| Query.TotalPagesBounds | src/renderer/src/App.tsx:104 | `totalPages` is `ceil(n/10)` |
| Query.PageSpec | src/renderer/src/App.tsx:98-102 | page `p` is the slice from `(p-1)*10`, clipped to the list: at most ten records; full before the last page, non-empty up to it, empty after it |
| Query.PagesCoverList | src/renderer/src/App.tsx:98-104 | pages `1..totalPages` concatenated give back the filtered list |
| Query.PagesUpToPrefix | src/renderer/src/App.tsx:98-102 | the first `k` pages concatenated are the first `10k` records |
| Query.QueryChangeShowsFirstPage | src/renderer/src/App.tsx:37-40 | a new search term, a changed filter value or "Limpar Filtros" puts the list back on page 1, and the screen then shows the first ten records of the new filtered list; setting the same term changes nothing |
| Query.ClearedFiltersSearchOnly | src/renderer/src/App.tsx:75-95 | with the filters cleared, a record is listed iff it matches the search |
| Options.SortedDistinct | src/renderer/src/App.tsx:63 | `Array.from(new Set(xs)).sort()` is strictly ascending and holds exactly the values of `xs` |
| Options.StrictlySortedUnique | src/renderer/src/App.tsx:63 | only one strictly ascending list holds a given set of values |
| Options.AllOccupationsSpec | src/renderer/src/App.tsx:56-64 | `allOccupations` is strictly ascending and holds exactly the predefined occupations and those of any record |
| Options.UniqueOptionsSpec | src/renderer/src/App.tsx:66-72 | the options of a scalar column are strictly ascending and hold exactly its non-null, non-empty values; `livros` has none |
| Options.PredefinedAlwaysOffered | src/renderer/src/App.tsx:57 | every predefined occupation is offered, even with no records |
| Options.OfferedValueSelectsItsRecord | src/renderer/src/App.tsx:66-71 | choosing any offered value as a filter lets at least one record pass that filter, except for a predefined occupation no record holds |
| Csv.CellRoundTrip | src/renderer/src/App.tsx:137-138 | an encoded cell, quoted with `"` doubled or left empty for null, parses back to its value |
| Csv.RecordRoundTrip | src/renderer/src/App.tsx:133-139 | a `;`-joined line of encoded cells reads back as the cells, and reading stops at the line break after it, even when texts hold line breaks |
| Csv.LineRoundTrip | src/renderer/src/App.tsx:139 | a `;`-joined line of encoded cells parses back to the cells |
| Csv.DocumentRoundTrip | src/renderer/src/App.tsx:133-140 | newline-joined lines of encoded cells read back as the same records, one per line |
| Csv.RowRoundTrip | src/renderer/src/App.tsx:133-139 | each exported row parses back to its 23 cell values, one per exported column, in column order |
| Csv.ExportSpec | src/renderer/src/App.tsx:127-142 | nothing is exported without records; otherwise the output starts with the BOM, `sep=;`, and the header of every column except `id` and `created_at`, and the rest reads back as exactly one line per record, in order, holding that record's cell values |
| Csv.QuoteInListBreaksLine | src/renderer/src/App.tsx:136 | a list element with a `"` yields an array cell that does not parse, while the corrected cell round-trips |
| Csv.AsWrittenAgreesWithoutQuotes | src/renderer/src/App.tsx:136 | when no list element holds a `"`, the row as written equals the corrected row |
| Csv.ExportAgreesWithoutQuotes | src/renderer/src/App.tsx:127-142 | when no list element of any record holds a `"`, the file as written equals the corrected file |
| Dashboard.GetStatsSpec | src/renderer/src/components/Dashboard.tsx:49-66 | one entry per distinct label, with the number of records carrying it; counts are non-increasing and sum to the number of records; entries with equal counts keep the order in which their labels first occur; there are no more entries than records, and none without records |
| Dashboard.RecordStats | src/renderer/src/components/Dashboard.tsx:49-58 | over the records' values for `key`, the counts add up to the number of records, and each record's label has an entry counting every record with that label |
| Dashboard.TallySpec | src/renderer/src/components/Dashboard.tsx:50-60 | counting keeps the labels distinct, and holds a label iff some record has it, with its exact number of occurrences |
| Dashboard.BumpSpec | src/renderer/src/components/Dashboard.tsx:59 | counting one more record adds one to its label, appends a new label at the end, and changes nothing else |
| Dashboard.SortDescSpec | src/renderer/src/components/Dashboard.tsx:65 | the sort by descending count is a permutation of its input with the same total, and it is stable: the entries with any one count keep their order |
| Dashboard.TallyOrder | src/renderer/src/components/Dashboard.tsx:50-63 | the counted labels come in the order of their first occurrence among the records |
| Dashboard.InsertDescSpec | src/renderer/src/components/Dashboard.tsx:65 | inserting an entry after all entries whose count is at least its own keeps the order descending |
| Dashboard.UnspecifiedMerges | src/renderer/src/components/Dashboard.tsx:56-57 | a record counts as "Não informado" iff its value is null or empty, or literally that text |
| Dashboard.MissingKeyStats | src/renderer/src/components/Dashboard.tsx:71 | `getStats('titulo')` reads a property no record has: one "Não informado" entry counting every record |
| Dashboard.TopEightSpec | src/renderer/src/components/Dashboard.tsx:24 | a chart shows the first `min(8, n)` entries, each counting at least as many records as any entry left out |
| Pagination.Render | src/renderer/src/components/Pagination.tsx:52 | nothing is rendered iff there is at most one page |
| Pagination.WindowBounds | src/renderer/src/components/Pagination.tsx:21-30 | the middle window lies within `2..t-1` and holds at most three pages; with the current page in range, it holds that page unless it is the first or last |
| Pagination.PageNumbersBySlot | src/renderer/src/components/Pagination.tsx:12-50 | the pushed list equals the positional description: 1, optional marker, window, optional marker, last page |
| Pagination.PageNumbersEnds | src/renderer/src/components/Pagination.tsx:12-50 | the bar starts at page 1, ends at the last page and has at most seven entries |
| Pagination.PageNumbersIncrease | src/renderer/src/components/Pagination.tsx:21-42 | the page numbers shown rise strictly and lie in `1..t` |
| Pagination.NeighboursConsecutive | src/renderer/src/components/Pagination.tsx:32-42 | two adjacent page buttons are consecutive pages |
| Pagination.MarkersMarkGaps | src/renderer/src/components/Pagination.tsx:32-42 | every `...` stands between two page buttons with a page left out between them, so never at an end and never twice in a row |
| Pagination.PageNumbersCover | src/renderer/src/components/Pagination.tsx:19-42 | every page is shown or lies inside a gap marked by `...`; the current page is always shown |
| Pagination.Target | src/renderer/src/components/Pagination.tsx:62-117 | first/previous/next/last are disabled exactly on the first or last page; otherwise they lead to a page within `1..t`, previous to `c-1` and next to `c+1` |
| Pagination.CurrentHighlightedOnce | src/renderer/src/components/Pagination.tsx:81-96 | with the current page in `1..t`, exactly one numbered button is drawn as the current one |
| Form.FirstTriple | src/renderer/src/components/MonkForm.tsx:18 | the regex search finds the leftmost run of three digits at or after the start position |
| Form.FirstYearTail | src/renderer/src/components/MonkForm.tsx:18 | the regex search finds the leftmost run of five or more digits that reaches the end |
| Form.MaskDateShape | src/renderer/src/components/MonkForm.tsx:17-19 | the four replacements put the input's digits into the shape `DD/MM/AAAA` |
| Form.MaskDateSpec | src/renderer/src/components/MonkForm.tsx:17-19 | the mask yields at most ten characters, all digits or `/`, with slashes exactly after the second digit (from three digits on) and after the fourth (from five on) |
| Form.MaskDateDigits | src/renderer/src/components/MonkForm.tsx:18 | the mask keeps the first eight digits of the input, in order, and drops every other character |
| Form.MaskDateIdempotent | src/renderer/src/components/MonkForm.tsx:17-19 | masking a masked value changes nothing |
| Form.UnwrapWrap | src/renderer/src/components/MonkForm.tsx:25-56 | wrapping the books into `{value}` entries and unwrapping them on submit gives the list back |
| Form.WrapUnwrap | src/renderer/src/components/MonkForm.tsx:25-56 | every entry list is the wrapping of its values |
| Form.DefaultValues | src/renderer/src/components/MonkForm.tsx:25-30 | a new form starts with an empty `nome` and no occupations or books; an edit form starts from the record, with `nome` made a string and the same lists |
| Form.Submit | src/renderer/src/components/MonkForm.tsx:50-106 | submission is blocked exactly when the first tab, the only one that mounts the `required` `nome` input, is shown and `nome` is empty; otherwise the values are handed on with the books unwrapped |
| Form.EditRoundTrip | src/renderer/src/components/MonkForm.tsx:25-56 | opening a named record and submitting it unchanged, from any tab, yields the same record |
| Form.NewFormNeedsName | src/renderer/src/components/MonkForm.tsx:25-106 | on the first tab a fresh form cannot be submitted before a name is typed |
| Form.NewFormOtherTabEmptyName | src/renderer/src/components/MonkForm.tsx:80-106 | from the second or third tab a fresh form is submitted with `nome` the empty string |
| Form.NamelessSaveStoresNull | src/main/db.ts:80-90 | such a record, saved as new, is stored with a null `nome` |
| Form.AddBook | src/renderer/src/components/MonkForm.tsx:58-64 | a blank input changes nothing; otherwise the trimmed input is appended and the input cleared |
| Form.AddedBookTrimmed | src/renderer/src/components/MonkForm.tsx:60-61 | an added book is non-empty and neither starts nor ends with whitespace |
| Form.RemoveBook | src/renderer/src/components/MonkForm.tsx:185 | the `x` of entry `i` removes exactly that entry and keeps the others in order |
| Form.AddThenRemoveBook | src/renderer/src/components/MonkForm.tsx:58-64 | removing the book just added restores the list |
| MultiSelect.Add | src/renderer/src/components/MultiSelect.tsx:27-30 | `handleAdd` appends the item at the end iff it is absent, and otherwise leaves the list unchanged |
| MultiSelect.AddKeepsDistinct | src/renderer/src/components/MultiSelect.tsx:27-30 | adding never creates a repeated entry |
| MultiSelect.RemoveSpec | src/renderer/src/components/MultiSelect.tsx:35-37 | `handleRemove` drops every copy of the item and keeps the rest in order |
| MultiSelect.RemoveUndoesAdd | src/renderer/src/components/MultiSelect.tsx:27-37 | removing an item that was just added restores the list |
| MultiSelect.RemoveKeepsDistinct | src/renderer/src/components/MultiSelect.tsx:35-37 | removing keeps a repeat-free list repeat-free |
| MultiSelect.FilteredSpec | src/renderer/src/components/MultiSelect.tsx:40-42 | an option is offered iff it is not chosen and contains the search, ignoring case; the offer keeps the options' order |
| MultiSelect.EnterSpec | src/renderer/src/components/MultiSelect.tsx:77-82 | Enter adds `search.trim()` only when it is not blank, then clears the search |
| MultiSelect.StepSpec | src/renderer/src/components/MultiSelect.tsx:27-104 | no event repeats an entry; typing never changes the list; any other event except a tag's `×` leaves the list alone or appends one new value; every add clears and closes the search |
| MultiSelect.ChooseAddsOffered | src/renderer/src/components/MultiSelect.tsx:100-104 | clicking an offered option appends that option, which matches the search |
| SearchableSelect.FilteredSpec | src/renderer/src/components/SearchableSelect.tsx:28-30 | an option is offered iff it contains the search, ignoring case; the offer keeps the options' order |
| SearchableSelect.EmptySearchOffersAll | src/renderer/src/components/SearchableSelect.tsx:28-30 | an empty search offers every option |
| SearchableSelect.StepSpec | src/renderer/src/components/SearchableSelect.tsx:49-85 | `''` is emitted exactly when the input is emptied, the selection is cleared, or an empty option is chosen; a chosen value is an option matching the search |
| SearchableSelect.ChooseReportsOption | src/renderer/src/components/SearchableSelect.tsx:81-85 | choosing the `i`-th offered option emits exactly that option, and the closed input then shows it |

## Left out

- `src/main/index.ts` is left out except for the create handler's fresh identifier. That means the window setup, the IPC plumbing, and the backup/restore file copies. They are I/O: restore copies over the live file and reloads the window, so no state invariant is left to state. `uuidv4` is a parameter.
- The catch in the `get-monks` handler is left out. It turns a failing `getAll` into an empty list; the model stops at the `Failure` of `Store.GetAll`.
- better-sqlite3, the WAL pragma and the SQL text are left out. The table is a map, `ORDER BY nome` is a sort, and a missing named parameter is an error result. Ties in `nome` are ordered arbitrarily, as SQLite leaves them unspecified.
- Options.SortedDistinct: sorts in code-point order (`Text.Less`). `.sort()` without a comparator compares UTF-16 code units, and the two orders differ only for strings with characters beyond the Basic Multilingual Plane. `ORDER BY nome` in SQLite compares UTF-8 bytes, which is code-point order, so `Store.GetAll` matches it exactly.
- JsonList.ParseUnicode: rejects a lone surrogate escape such as `\ud800`, which `JSON.parse` accepts. A Dafny `char` cannot hold a lone surrogate, so strings holding one are outside the model. `JSON.stringify` writes such a character as exactly this kind of escape.
- `JSON.parse` can read any JSON value. The model decodes arrays of strings only, which is everything the store writes.
- `toLowerCase` is modelled on ASCII letters only. Full Unicode case mapping is left out.
- Dashboard.Tally: counts into a list of entries, while the code counts into a plain object `{}`. A label that names an `Object.prototype` member misbehaves there. For `__proto__` the assignment is ignored and the record is lost from the counts. For `constructor` or `toString` the count becomes a string. The model does not cover such labels.
- Dashboard.GetStatsSpec: its sum and per-label counts assume labels that are not `Object.prototype` member names, as above.
- `Object.entries` lists integer-like keys first. `Dashboard.Tally` keeps plain insertion order, which matches only for labels that are not array indices.
- Bar widths and `maxVal` in the dashboard are floating point and presentation. The StatCard counts are the lengths of the lists `GetStats` returns.
- `src/renderer/src/utils/formatters.ts` is not part of this model. The filter inputs of `App.tsx` import their `maskDate` from there; `Form.MaskDate` is the copy in `MonkForm.tsx`.
- `Csv.RowLine` uses the fixed list of table columns, not `Object.keys` of the first record. The keys of a record from `getAll` are exactly those columns, and `Csv.ExportFields` follows their order. The Blob, the download link and the dated filename are left out. The reader `Csv.ParseDocument` reads quoted and empty fields only, which is all a record line holds. The header line is stated as text.
- Options.UniqueOptions: treats a missing key as null and drops it. In the code the value is `undefined`, which the filter keeps and `.sort()` puts last. This never arises for loaded records: `getAll` selects every column, so each record carries every key.
- `Query.PageOf` requires `page >= 1`. The page state starts at 1 and only the navigation sets it, always to a page of at least 1.
- The pagination lemmas require `t >= 2`, the only case in which the bar is shown. The current page may be anything, except where the lemma says `1 <= c <= t`.
- `MultiSelect` "+ Adicionar" adds the search untrimmed, as the code does. Only Enter trims.
- `MonkDetails.tsx`, the preload bridge, React effects and the click-outside listeners are presentation only.

## Findings

| source | as written | input that shows it | evidently intended | confidence | as-written member | corrected member |
|---|---|---|---|---|---|---|
| src/renderer/src/App.tsx:79 | `m.nome.toLowerCase()` is called on every record when the search term is non-empty | a record saved with `nome` null, and the search term `"a"`; the form submits `nome` `""` from its second or third tab, and the store turns it into null (Form.NamelessSaveStoresNull) | a record without a name does not match on its name, and the other records still show | not executed | Query.MatchesSearchAsWritten, Query.NullNameBreaksSearch, Query.FilteredMonksAsWritten | Query.MatchesSearch, Query.FilteredMonks, with Query.SearchAgrees and Query.FilteredAgrees |
| src/renderer/src/App.tsx:136 | array cells are wrapped in quotes without doubling inner `"` | a book titled `a"b`: the cell `"a"b"` does not parse as one field | inner quotes doubled, as for string cells (section 2, rule 7 of RFC 4180) | not executed | Csv.ArrayCellAsWritten, Csv.QuoteInListBreaksLine, Csv.ExportAsWritten | Csv.ArrayCell, Csv.RowLine, Csv.Export, with Csv.RowRoundTrip, Csv.ExportSpec and Csv.ExportAgreesWithoutQuotes |
