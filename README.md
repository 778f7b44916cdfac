# Warehouse data filter: the filter engine

Two small desktop tools for filtering a warehouse spreadsheet share one
engine:

- `FilterStocks.py` hard-codes nine column filters of four kinds:
  - a dropdown (ValA);
  - free-text entries (Material, Material description, Long text, MPN);
  - listboxes with a confirm button (L/O, Manufacturer name, BUn);
  - a dropdown plus an entry (Mfr).
- `FilterAny.py` builds one filter per column of whatever table is loaded.
  A column with more than twenty distinct values gets a text entry. Any
  other column gets a listbox of its values.

The engine has three parts:

- the **column classifier**, which decides each column's filter kind;
- the **filter registry**, which maps each column to what its widgets hold:
  - the dropdown value, where `"Select"` means unset;
  - the entry text;
  - the listbox options and pending selection;
  - the confirmed-selection label, the values joined with `", "`;
- the **search composer**, which starts from the whole table and narrows
  it column by column by one per-cell test per active filter.

The model works on values for the engine and uses one class per
application for the state the source changes in place:

- `Tables`: cells, rows and tables.
  - A cell is missing or holds the text that `astype(str)` gives it.
  - `ToStr` turns a missing cell into `"nan"`, as pandas does.
  - `Distinct` is `dropna().unique()`, taken over the cells' texts.
- `Strings`: the string operations the engine uses.
  - `Strip` is Python's `str.strip`.
  - `Lower` works on ASCII only.
  - `Contains` is a literal substring test.
  - `Join` and `Split` work on the `", "` separator.
- `Narrowing`: a search as a *plan*, a sequence of column tests (equality,
  case-insensitive containment, membership).
  - `Select` is the order-free meaning of a plan.
  - `Apply` maps an empty table to `InputRequired`.
  - `Apply` maps an active test on an absent column to `MissingColumn`, which models pandas' KeyError. Otherwise it gives the selected rows.
  - `Mask` is one boolean-mask narrowing step.
- `Criteria`: what both applications share.
  - The registry entry datatype `Filter`.
  - The steps each widget contributes.
  - Neutrality, and what each entry admits.
  - `Plan`: the plan of a registry in insertion order.
- `FilterStocks` and `FilterAny`: each application's classifier, its
  search loop (`RunSearch`, proved equal to `Apply` of the plan) and a
  `WarehouseFilterApp` class. The class holds:
  - the loaded table;
  - the registry's insertion order and contents;
  - the table the results grid shows.

Things the source does that are easy to miss, all modelled as written:

- A missing cell reads as the text `"nan"`. So a text filter `nan`, or a
  confirmed value `nan`, matches missing cells.
- The confirmed label is the only record of a listbox confirmation, because
  the search splits it again on `", "`.
  - A value that itself contains `", "` comes back as two values
    (`Strings.SeparatorInValueBreaksRoundTrip`).
  - In `FilterAny.py`, a selection whose first value is the empty string
    leaves the listbox inactive.
- In `FilterStocks.py`, initialisation reads the options of L/O,
  Manufacturer name, Mfr and BUn from the table. If one of those columns
  is absent, the KeyError stops initialisation there. The entries added
  before it stay in the registry. `InitializeFilters` returns the missing
  column in that case.
- In `FilterStocks.py`, a search with an active filter on a column the
  table lacks raises KeyError, modelled as `MissingColumn`. In `FilterAny.py`
  this cannot happen, because the registry holds one filter per column of
  the table.
- `display_results` destroys the old grid but keeps the reference to it
  when a search finds nothing. So a later download exports the previous
  results, and only `clear_results` forgets them.
- The union that `FilterStocks.py` computes on confirm goes through a
  Python `set`. The order of the joined label is therefore unspecified.
  The model picks one order nondeterministically (`SetToSeq`) and proves
  the result holds each value of the union once.

## Model

| member | source | states |
|---|---|---|
| Strings.StripMeaning | FilterStocks.py:190 | the stripped text has no whitespace at either end, is the input with a run of whitespace cut from each end, and is empty exactly when the input is all whitespace |
| Strings.SplitJoin | FilterStocks.py:194 | splitting the joined label on ", " gives back the confirmed values, for at least one value and when none of them contains ", " (joining no values gives `""`, which splits into `[""]`) |
| Strings.JoinSplit | FilterStocks.py:153 | joining the pieces of a split label gives back the label: splitting loses nothing |
| Strings.SplitEmpty | FilterAny.py:132-133 | the empty label splits into one empty piece, so an empty confirmation makes the listbox inactive |
| Strings.SeparatorInValueBreaksRoundTrip | FilterStocks.py:154 | a confirmed value "Acme, Inc." reads back as the two values "Acme" and "Inc." |
| Tables.Distinct | FilterStocks.py:75 | `dropna().unique()`: each non-missing value of the column exactly once, and nothing else |
| Tables.FirstAt | FilterStocks.py:75 | the index of the first cell holding a value: that cell holds it and no earlier one does |
| Tables.DistinctOrder | FilterStocks.py:75 | `unique()` lists the values in the order of their first appearance in the column |
| Tables.DistinctCount | FilterAny.py:61-62 | the length of the unique list is the number of distinct non-missing values |
| Narrowing.FirstMissing | FilterStocks.py:184-203 | no column is reported exactly when every step's column is in the table; a reported column is absent and is tested by some step |
| Narrowing.SelectCount | FilterStocks.py:182-203 | the result holds each row as often as the table does if the row passes every test, and not at all otherwise |
| Narrowing.SelectMembers | FilterStocks.py:182-203 | a row is in the result iff it is in the table and passes every test |
| Narrowing.SelectSubseq | FilterStocks.py:182-203 | the result is a subsequence of the table: rows keep their order |
| Narrowing.SelectNeutral | FilterStocks.py:182 | a plan every row passes gives back the whole table |
| Narrowing.SelectSameSteps | FilterStocks.py:184-203 | two plans with the same tests select the same rows, whatever their order |
| Narrowing.SelectThenSelect | FilterStocks.py:188-192 | narrowing by one plan and then another equals narrowing once by both |
| Narrowing.SelectConjunction | FilterStocks.py:199-203 | a row passes two plans together iff it passes each of them |
| Narrowing.KeepIfExtends | FilterStocks.py:188 | one more boolean mask on the running result is one more step of the plan |
| Narrowing.ApplySameSteps | FilterStocks.py:184-203 | the outcome does not depend on the order of the tests, except for which missing column a KeyError names |
| Narrowing.ApplyResult | FilterStocks.py:182-203 | a successful search returns a subsequence of the table holding exactly the rows that pass every test |
| Narrowing.Mask | FilterStocks.py:188 | one mask fails with KeyError exactly when the column is absent, and otherwise keeps the rows whose cell passes the test |
| Criteria.SelectedValues | FilterStocks.py:149 | the selected items are exactly the options at selected positions, in listbox order, with no duplicates when the options have none |
| Criteria.ChoiceStepsMeaning | FilterStocks.py:185-188 | a dropdown admits a row iff it shows "Select" or the cell's text equals the chosen value |
| Criteria.EntryStepsMeaning | FilterStocks.py:189-192 | an entry admits a row iff its stripped text is empty or occurs in the cell's text, ignoring case |
| Criteria.ConfirmedStepsMeaning | FilterStocks.py:193-196 | a listbox admits a row iff the first confirmed value is empty or the cell's text is one of the confirmed values |
| Criteria.UpdateEach | FilterStocks.py:163-175 | one pass over the registry in its order applies the per-widget update to every listed entry, keeps the keys, and leaves unlisted entries alone |
| Criteria.RegisteringKeys | FilterAny.py:60-65 | registering the first n columns in turn gives a registry whose keys are exactly those columns |
| Criteria.RegisteringValues | FilterAny.py:60-65 | with distinct column names, each column's entry is the one computed for that column's own position |
| Criteria.PlanSteps | FilterStocks.py:184-203 | the registry's plan holds exactly the steps each listed column contributes |
| Criteria.PlanPasses | FilterStocks.py:184-203 | a row passes the registry's plan iff it passes every column's steps |
| Criteria.PlanOrderFree | FilterStocks.py:184-203 | listing the same columns in another order keeps whether some column is missing and, when the search succeeds, gives the same rows; only which missing column the KeyError names may differ |
| Criteria.NeutralSearchIsIdentity | FilterStocks.py:182 | when no column contributes a step, a search of a non-empty table returns the whole table |
| Criteria.PlanMissingAt | FilterStocks.py:184-203 | the first column whose active test hits an absent column is the one the whole search reports |
| FilterStocks.InitialFilterNeutral | FilterStocks.py:93 | every freshly made entry is neutral: sentinel dropdown, empty entry, empty label |
| FilterStocks.SearchSteps | FilterStocks.py:184-203 | every step an entry contributes tests that entry's own column |
| FilterStocks.StepsMeanAdmits | FilterStocks.py:185-203 | an entry's steps hold on a row iff the entry admits the row's cell; a combined entry needs both its tests |
| FilterStocks.SearchMeaning | FilterStocks.py:177-203 | a successful search returns the table's rows, in order, that every entry admits, and every active entry names a table column |
| FilterStocks.ResetFilter | FilterStocks.py:162-175 | a reset entry is neutral and well formed, of the same kind, with the same options: a dropdown or combobox shows the sentinel, an entry is empty, a listbox has nothing selected and an empty label |
| FilterStocks.ResetSearchIsIdentity | FilterStocks.py:162-175 | after a reset, a search of a non-empty table returns the whole table |
| FilterStocks.SearchOrderFree | FilterStocks.py:184-203 | when the search succeeds, any order of the same registered columns gives the same rows; only which missing column the KeyError names may differ |
| FilterStocks.SetToSeq | FilterStocks.py:153 | `list(set(...))` lists each element of the set exactly once |
| FilterStocks.ConfirmedUnion | FilterStocks.py:148-154 | when the old label is non-empty and no newly selected value contains ", ", the merged label reads back as the union of the old and new values, each once |
| FilterStocks.NarrowColumn | FilterStocks.py:185-203 | one pass of the search loop fails exactly when an active test names an absent column, and otherwise narrows by that entry's steps |
| FilterStocks.RunSearch | FilterStocks.py:177-203 | the search loop computes exactly the meaning of the registry's plan, an empty table giving `InputRequired` |
| FilterStocks.InitFiltersMeaning | FilterStocks.py:59-87 | the first n lines register exactly the first n columns, each with its fixed kind and fresh state, in a valid registry |
| FilterStocks.InitFiltersKeys | FilterStocks.py:59-87 | the first n lines register exactly the first n columns |
| FilterStocks.InitFiltersValues | FilterStocks.py:59-87 | after the first n lines, the k-th column holds the k-th entry as initialisation makes it |
| FilterStocks.InitFiltersWellFormed | FilterStocks.py:59-87 | every entry initialisation makes is well formed |
| FilterStocks.InitFiltersStep | FilterStocks.py:59-87 | one more line registers the next column, which was not registered yet, with its fresh entry |
| FilterStocks.InitFiltersNeutral | FilterStocks.py:59-87 | right after initialisation every entry is neutral |
| FilterStocks.WarehouseFilterApp.constructor | FilterStocks.py:8-51 | a new application holds an empty table, an empty registry and no results table, a valid state |
| FilterStocks.WarehouseFilterApp.LoadFile | FilterStocks.py:53-57 | a cancelled dialog changes nothing; a chosen table replaces the data and initialises the registry as `InitializeFilters` does: all nine entries iff the four option columns are present, otherwise the prefix before the first absent one, which is reported |
| FilterStocks.WarehouseFilterApp.ClearFilters | FilterStocks.py:156-160 | the registry is emptied |
| FilterStocks.WarehouseFilterApp.Put | FilterStocks.py:96 | storing under a key replaces the entry and keeps an existing key's place, appending a new key |
| FilterStocks.WarehouseFilterApp.AddDropdownFilter | FilterStocks.py:89-96 | registers a dropdown on the sentinel |
| FilterStocks.WarehouseFilterApp.AddTextFilter | FilterStocks.py:98-103 | registers an empty entry |
| FilterStocks.WarehouseFilterApp.AddMultichoiceFilter | FilterStocks.py:105-129 | registers a listbox of the options with nothing selected and an empty label |
| FilterStocks.WarehouseFilterApp.AddCombinedFilter | FilterStocks.py:131-146 | registers a dropdown on the sentinel plus an empty entry |
| FilterStocks.WarehouseFilterApp.AddInitialEntry | FilterStocks.py:63-87 | one line of initialisation extends the initialised prefix of the nine columns by one |
| FilterStocks.WarehouseFilterApp.InitializeFilters | FilterStocks.py:59-87 | the old registry is discarded; all nine entries are registered in order iff the four option columns are present, and otherwise it stops at the first absent one, which it reports |
| FilterStocks.WarehouseFilterApp.ChooseOption | FilterStocks.py:94 | the combobox shows one of its options; nothing else changes |
| FilterStocks.WarehouseFilterApp.TypeText | FilterStocks.py:101 | the entry's text changes; nothing else does |
| FilterStocks.WarehouseFilterApp.SelectItems | FilterStocks.py:112 | the listbox's pending selection changes; nothing else does |
| FilterStocks.WarehouseFilterApp.ConfirmSelection | FilterStocks.py:148-154 | an empty selection changes nothing; a selection into an empty label becomes the label; otherwise the label lists the union of old and new values once each |
| FilterStocks.WarehouseFilterApp.ResetFilters | FilterStocks.py:162-175 | every entry is reset, and the columns and kinds are kept |
| FilterStocks.WarehouseFilterApp.DisplayResults | FilterStocks.py:212-220 | a non-empty result becomes the shown table; an empty one leaves the previous one referenced |
| FilterStocks.WarehouseFilterApp.SearchData | FilterStocks.py:177-210 | the outcome is the meaning of the registry's plan; the registry is untouched; results are shown only when some rows match |
| FilterStocks.WarehouseFilterApp.DownloadResults | FilterStocks.py:222-234 | what is exported is the referenced results table, or nothing when there is none |
| FilterStocks.WarehouseFilterApp.ClearResults | FilterStocks.py:236-239 | no results table is referenced afterwards |
| FilterAny.ClassifyMeaning | FilterAny.py:61-65 | a text entry iff the column has more than 20 distinct non-missing values (exactly 20 gives a listbox); a listbox lists exactly those values, once each, with nothing selected or confirmed |
| FilterAny.ColumnFiltersStep | FilterAny.py:60-65 | one more pass of the loop registers the next column, not yet present, with a blank entry when it has more than 20 distinct values and a listbox of them otherwise |
| FilterAny.ColumnFiltersMeaning | FilterAny.py:58-65 | once every column is registered, each column's filter is the classification of its own cells |
| FilterAny.AnySteps | FilterAny.py:126-134 | every step an entry contributes tests that entry's own column |
| FilterAny.NeutralMeansNoSteps | FilterAny.py:126-134 | an entry or listbox contributes a step iff it is not neutral |
| FilterAny.StepsMeanAdmits | FilterAny.py:126-134 | an entry's or listbox's steps hold on a row iff it admits the row's cell |
| FilterAny.SearchMeaning | FilterAny.py:120-136 | with one filter per table column, a search of a non-empty table succeeds and returns the rows, in order, that every filter admits |
| FilterAny.SearchOrderFree | FilterAny.py:126-134 | when the search succeeds, any order of the same registered columns gives the same rows |
| FilterAny.InitialSearchIsIdentity | FilterAny.py:58-65 | right after loading a non-empty table, a search returns the whole table (an empty one gives the input-required warning instead) |
| FilterAny.ConfirmMeaning | FilterAny.py:99-101 | the label is replaced by the selection: empty gives an empty, neutral label; when no selected value contains ", ", a non-empty selection reads back as exactly the selected values, and when moreover its first value is not `""` the listbox is active and admits exactly the cells whose text is one of them |
| FilterAny.ResetMeaning | FilterAny.py:109-118 | a reset entry or listbox is neutral and well formed, of the same kind, and a listbox keeps its options |
| FilterAny.ResetPasses | FilterAny.py:109-118 | the widget pass and then the label pass reset every listed entry to its cleared form, keep the keys and keep a registry of entries and listboxes |
| FilterAny.ResetSearchIsIdentity | FilterAny.py:109-118 | after a reset, a search of a non-empty table returns the whole table |
| FilterAny.NarrowColumn | FilterAny.py:126-134 | one pass of the search loop fails exactly when an active test names an absent column, and otherwise narrows by that entry's steps |
| FilterAny.RunSearch | FilterAny.py:120-134 | the search loop computes exactly the meaning of the registry's plan, an empty table giving `InputRequired` |
| FilterAny.WarehouseFilterApp.constructor | FilterAny.py:9-50 | a new application holds an empty table, an empty registry and no results table, a valid state |
| FilterAny.WarehouseFilterApp.LoadFile | FilterAny.py:52-56 | a cancelled dialog changes nothing; a chosen table replaces the data and gets one classified filter per column |
| FilterAny.WarehouseFilterApp.ClearFilters | FilterAny.py:103-107 | the registry is emptied |
| FilterAny.WarehouseFilterApp.Put | FilterAny.py:72 | storing under a key replaces the entry and keeps an existing key's place, appending a new key |
| FilterAny.WarehouseFilterApp.AddTextFilter | FilterAny.py:67-72 | registers an empty entry |
| FilterAny.WarehouseFilterApp.AddMultichoiceFilter | FilterAny.py:74-97 | registers a listbox of the options with nothing selected and an empty label |
| FilterAny.WarehouseFilterApp.AddColumnFilter | FilterAny.py:60-65 | one pass of the loop extends the classified prefix of the table's columns by one |
| FilterAny.WarehouseFilterApp.InitializeFilters | FilterAny.py:58-65 | the old registry is discarded; afterwards it lists the table's columns in order, each with the filter `Classify` picks for its cells |
| FilterAny.WarehouseFilterApp.TypeText | FilterAny.py:70 | the entry's text changes; nothing else does |
| FilterAny.WarehouseFilterApp.SelectItems | FilterAny.py:81 | the listbox's pending selection changes; nothing else does |
| FilterAny.WarehouseFilterApp.ConfirmSelection | FilterAny.py:99-101 | the label becomes the selected values joined by ", ", replacing what it held |
| FilterAny.WarehouseFilterApp.ResetFilters | FilterAny.py:109-118 | every widget is reset and every label emptied, and the columns and kinds are kept |
| FilterAny.WarehouseFilterApp.DisplayResults | FilterAny.py:138-146 | a non-empty result becomes the shown table; an empty one leaves the previous one referenced |
| FilterAny.WarehouseFilterApp.SearchData | FilterAny.py:120-136 | the outcome is the meaning of the registry's plan, never a missing column; an empty table is refused; results are shown only when some rows match |
| FilterAny.WarehouseFilterApp.DownloadResults | FilterAny.py:149-161 | what is exported is the referenced results table, or nothing when there is none |
| FilterAny.WarehouseFilterApp.ClearResults | FilterAny.py:163-166 | no results table is referenced afterwards |

## Left out

- Widgets, layout, grid positions and the event loop are not modelled. Each
  filter is modelled by the state its widgets hold. This includes the
  running `len(self.filter_widgets)` counter in `FilterAny.py`, which only
  places widgets on the grid.
- Message boxes, the file pickers and the progress-bar loop (FilterStocks.py:205-208) are not modelled.
  - A cancelled file dialog is an absent parameter of `LoadFile`.
  - An error message is a result value (`InputRequired`, `MissingColumn`, `None`).
- Spreadsheet reading and writing are foreign calls, and so is the export format chosen by the file extension. `DownloadResults` returns the table that would be written.
  - `LoadFile` in `FilterAny` requires distinct column names, as the spreadsheet reader delivers them.
- pandas' `astype(str)` formatting of numbers and dates is left out. Cells arrive already in text form. The one exception is NaN, which becomes `"nan"`.
  - `Distinct` and the classifier's count of more than twenty values work on texts. pandas' `unique()` compares raw values, so a column holding both `1` and `"1"` has two unique values there but one text here.
- The listbox stores options through Tcl, which may print a value differently from `astype(str)`. This is left out: options are texts.
- `str.contains` treats the pattern as a regular expression. The model tests for a literal substring.
- Case-insensitive matching lowers ASCII letters only. Unicode case folding is left out.
- Strings.Lower: covers ASCII only, because Unicode case mapping tables are outside the model.
- FilterStocks.WarehouseFilterApp.ConfirmSelection: leaves the order of the merged label open, because a Python `set` fixes no order.
- Dropdown and combined filters in `FilterAny.py` are not modelled beyond the branches the source has. The application never creates them. Its reset sets a dropdown back to the sentinel. It has no branch for a combined entry, which it leaves untouched, and so does `ResetWidget`. Its search has a branch for neither.
