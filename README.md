# Hour tracker core in Dafny

This project models the logic of a small time-tracking desktop application. Users log entries, each with a date, a type, hours and travel time. The entries are kept in a single SQLite table, shown in a table with a per-type summary, edited or deleted, and exported to a spreadsheet.

Three parts are modelled.

- **The entry store** (`src/hourtracker/database.py` and its older twin `database.py`), in `EntryStore` (`store.dfy`).
  - The `entries` table is a `Store` object. It holds the rows, the `sqlite_sequence` counter of the AUTOINCREMENT id and a ghost set of every id ever handed out.
  - `init_db`, `add_entry`, `delete_entry`, `update_entry` and `reset_all_entries` are methods that change the table in place.
  - `fetch_entries` and `get_summary` are methods that change nothing. Their contracts state what SQL promises: a date-descending permutation of the rows, and a per-type table (`TypeTableOf`) with the grand totals. The functions `SortByDateDesc`, `TypeTable` and `TotalsOf` compute one such result.
  - The class invariant says five things. The counter is not negative. Ids are unique. Every id on a row was handed out. Every handed-out id lies between 1 and the counter. Without the table there are no rows.
  - The two copies of the module are the same code, except that only the packaged one has `reset_all_entries`. One class models both.
- **The export aggregation** (`src/hourtracker/excel_exporter.py`), in `ExcelExporter` (`exporter.dfy`), with the date handling in `Dates` (`dates.dfy`).
  - The one loop that fills four `defaultdict` accumulators, the sorted monthly table with averages, the year-to-date loop and the per-type rows are each a method with a loop. The `Hours` sheet rows come from `Entries.TotalRows`, which also fills the main window's table.
  - A `defaultdict` is a value with its keys in insertion order and a map.
  - `datetime.strptime(s, "%Y-%m-%d")` is `ParseDate`. It accepts what CPython's regular expression and date check accept. `None` stands for the raised `ValueError`. Every `yyyy-MM-dd` date is accepted and parsed to its own year, month and day (`ParseIsoDate`).
  - `strftime("%Y-%m")` is `RenderMonth`.
  - `int(key.split("-")[0])` is `YearOfKey`, which reads only a non-empty string of ASCII digits. That covers every key `strftime` produces (`MonthKeysHaveYears`), but not all of what Python's `int` accepts (see "## Left out").
  - `ExportToExcel` returns the figures of both sheets, or the first date that fails to parse. The export of an empty table, which fails in the charts, is not modelled (see "## Left out").
- **The main window's handlers** (`src/hourtracker/ui_main.py`), in `TrackerUi` (`ui.dfy`).
  - `TimeTrackerUI` is a class whose fields are what the widgets hold: the form, `editing_id`, the fetched `entries`, the table rows, the submit caption and the summary label's figures. The store is a `Store` object.
  - Every handler keeps `Valid()`: the store is open, `editing_id` is an id the store handed out, the table shows the fetched rows, and the label shows the store's sums.

The shared accounting is in `Entries` (`entries.dfy`): sums, grouping by type or month, and the conservation lemmas. `Lexicographic` (`lexicographic.dfy`) holds the code-point string order that both `ORDER BY date DESC` and Python's `sorted` use, and an insertion sort proved to give a sorted permutation. `Basics` (`basics.dfy`) holds `Option` and `Distinct`.

Several consequences of the code are proved.

- Sums do not depend on row order.
- The per-type table and the monthly table each add up to the grand totals.
- The monthly counts add up to the number of entries.
- The year-to-date figure is the total of the entries dated in the current year. With non-negative values it is at most the overall total.
- For a `yyyy-MM-dd` date, the month key is the date's first seven characters.
- Loading an entry into the form and submitting it unchanged gives back its date, type, hours and travel. This needs a `yyyy-MM-dd` date and a non-empty type; an empty type comes back as "Other". Hours and travel survive only because the spin boxes' clamping and rounding are not modelled.
- Rows written through the window always export without a date error. The form's date is `yyyy-MM-dd` from the start, and every handler keeps it so (`DateIsIso` on the constructor, `HandleSubmit` and `HandleEdit`). The handlers keep a table whose dates all have that form in that form (`IsoDated`, via `SaveKeepsIsoDates` and `WithoutKeepsIsoDates`). Such a table's dates all parse (`IsoDatesParse`).

One behaviour is left as the code has it. Deleting the entry that is being edited leaves `editing_id` set. The next submit then updates a row that no longer exists, which changes nothing, so the input is dropped and the form returns to add mode (`UpdateAfterDelete`).

Hours and travel are exact `real`s. Ids, counts and years are unbounded integers. The current year and today's date are parameters.

## Model

| member | source | states |
|---|---|---|
| EntryStore.Store.constructor | src/hourtracker/database.py:21-22 | a database file opened for the first time: no table, no rows, counter 0, no ids issued |
| EntryStore.Store.InitDb | src/hourtracker/database.py:21-33 | `CREATE TABLE IF NOT EXISTS`: afterwards the table exists; rows, counter and issued ids are exactly as before |
| EntryStore.Store.Add | src/hourtracker/database.py:35-41 | appends exactly one row with the given date, type, hours and travel; its id is the counter plus one, differs from every current row's id and was never issued before; invariant kept |
| EntryStore.Store.Delete | src/hourtracker/database.py:43-48 | the rows become `Without(rows, id)`; exactly one fewer row when the id is present, no change at all when it is absent; counter and issued ids unchanged |
| EntryStore.Store.Update | src/hourtracker/database.py:50-59 | the rows become `WithFields(rows, id, ...)`: the matching row gets the four new fields and keeps its id, every other row is unchanged, an absent id changes nothing; counter unchanged |
| EntryStore.Store.Reset | src/hourtracker/database.py:80-85 | the table is empty; the counter keeps its value, so later ids stay new |
| EntryStore.Store.FetchEntries | src/hourtracker/database.py:61-67 | the result is sorted by date, latest first, and is a permutation of the rows |
| EntryStore.Store.GetSummary | src/hourtracker/database.py:69-78 | one row per type that occurs, with the sums of hours and travel over that type's entries; the grand totals are NULL exactly on an empty table, otherwise the sums over all entries and equally the sums of the per-type rows |
| EntryStore.SortByDateDesc | src/hourtracker/database.py:64 | `ORDER BY date DESC`: the result is date-descending and a permutation of the input |
| EntryStore.FetchKeepsTotals | database.py:50 | the fetched rows have the same sums of hours, travel and total as the table |
| EntryStore.Without | src/hourtracker/database.py:46 | `DELETE ... WHERE id = ?`: every row with that id leaves, every other row keeps its multiplicity; an absent id leaves the rows identical |
| EntryStore.WithoutMembers | database.py:31 | a row survives a delete exactly when it was there and has another id |
| EntryStore.UniqueIdsWithout | database.py:28-33 | deleting keeps ids unique |
| EntryStore.WithoutRemovesOne | database.py:28-33 | with unique ids, deleting an id that is present removes exactly one row |
| EntryStore.DeleteKeepsStore | src/hourtracker/database.py:43-48 | a delete keeps ids unique and issued, and removes one row when the id is present |
| EntryStore.WithFields | src/hourtracker/database.py:53-57 | `UPDATE ... WHERE id = ?`: same length and ids; the matching rows carry the new fields; the rest are unchanged; an absent id changes nothing; unique ids stay unique |
| EntryStore.UpdateAfterDelete | database.py:35-43 | updating an id right after deleting it changes nothing |
| EntryStore.TotalsOf | src/hourtracker/database.py:75-76 | `SELECT SUM(hours), SUM(travel_time)`: each total is NULL exactly when the table is empty |
| Entries.SumOfPermutation | src/hourtracker/database.py:64 | a sum over rows does not depend on their order |
| Entries.SumOfTotal | src/hourtracker/ui_main.py:157-159 | the sum of hours plus travel is the sum of hours plus the sum of travel |
| Entries.TypeTable | src/hourtracker/database.py:72 | `GROUP BY type`: exactly one row per type that occurs, none for a type that does not, each with the sums over its entries |
| Entries.TypeTableAddsUp | database.py:58-62 | the rows of any per-type table add up to the grand totals of hours and of travel |
| Entries.GroupSumConserves | src/hourtracker/excel_exporter.py:53-56 | when the keys list every key once, the group sums add up to the sum over all entries and the group sizes to the number of entries |
| Entries.SelectBounded | src/hourtracker/excel_exporter.py:69-72 | with nothing negative, the entries selected by key sum to between 0 and the sum over all entries |
| Entries.Keys | src/hourtracker/excel_exporter.py:53-56 | the keys a dict collects from a list of entries, in first-occurrence order, are distinct |
| Entries.KeysCover | src/hourtracker/excel_exporter.py:53-56 | every entry's key is among the collected keys |
| Entries.KeysOccur | src/hourtracker/excel_exporter.py:53-56 | every collected key has a non-empty group |
| Lexicographic.SortAscending | src/hourtracker/excel_exporter.py:60 | `sorted`: the result is ascending in code-point order, a permutation of the input, and distinct when the input is |
| Lexicographic.SortDistinctIsStrict | src/hourtracker/excel_exporter.py:60 | sorting distinct keys gives a strictly ascending sequence of exactly the same keys |
| Lexicographic.LexLeTotal | src/hourtracker/database.py:64 | any two strings are ordered one way or the other |
| Lexicographic.LexLeTransitive | src/hourtracker/database.py:64 | the string order is transitive |
| Lexicographic.LexLeAntisymmetric | src/hourtracker/excel_exporter.py:60 | strings ordered both ways are equal |
| Dates.ParseDate | src/hourtracker/excel_exporter.py:51 | `strptime(s, "%Y-%m-%d")`: an accepted string has 8 to 10 characters, four year digits and a dash, and gives the year those digits spell, a month in 1..12 and a day within that month |
| Dates.ParseIsoDate | src/hourtracker/excel_exporter.py:51 | every `yyyy-MM-dd` text naming a real date from year 1 on is accepted and parsed to the year, month and day its digits spell |
| Dates.IsoDateOfParsed | src/hourtracker/excel_exporter.py:51 | a ten-character accepted date whose day has no leading space is in `yyyy-MM-dd` form |
| Dates.RenderMonth | src/hourtracker/excel_exporter.py:52 | `strftime("%Y-%m")`: seven characters, four year digits, a dash and two month digits |
| Dates.YearOfKey | src/hourtracker/excel_exporter.py:70 | defined as `int` of the text before the first dash: its value when that text is a non-empty string of digits, otherwise `None` for the `ValueError` |
| Dates.MonthKeyOfParsed | src/hourtracker/excel_exporter.py:52 | for an accepted date, `strftime("%Y-%m")` of the parsed date is the month key read off the text |
| Dates.IsIsoDate | src/hourtracker/ui_main.py:83 | defined as the form's `yyyy-MM-dd` text: ten characters, digits and dashes in place, a year from 1 on, a month in 1..12 and a day within that month |
| Dates.IsoMonthKey | src/hourtracker/ui_main.py:83 | for a date in the form's `yyyy-MM-dd` shape, the month key is its first seven characters |
| Dates.BeforeDash | src/hourtracker/excel_exporter.py:70 | `split("-")[0]`: the longest prefix without a dash, followed by a dash unless it is the whole string |
| Dates.BeforeDashOf | src/hourtracker/excel_exporter.py:70 | the text before the first dash of `a + "-" + b` is `a` when `a` has no dash |
| Dates.YearOfRenderedMonth | src/hourtracker/excel_exporter.py:70 | `int` of the text before the dash of a rendered month key is the year it was rendered from |
| Dates.YearOfMonthKey | src/hourtracker/excel_exporter.py:70 | for an accepted date, the year read back from its month key is the year strptime parsed |
| Dates.Pad4Value | src/hourtracker/excel_exporter.py:52 | a four-digit zero-padded year reads back as the same number and contains no dash |
| Entries.TotalRows | src/hourtracker/excel_exporter.py:24-27 | one row per entry, in input order, with its date, type, hours, travel and `total = hours + travel`; the main window fills its table with the same rows |
| ExcelExporter.StrftimeMonth | src/hourtracker/excel_exporter.py:52 | the month key of an entry whose date parsed is `MonthKeyOf` of its date text |
| ExcelExporter.AddEntry | src/hourtracker/excel_exporter.py:53-56 | one loop step extends all four dicts from the first `i` entries to the first `i + 1` |
| ExcelExporter.Accumulate | src/hourtracker/excel_exporter.py:49-56 | fails exactly when some date does not parse, and then reports the first such date; otherwise returns the four dicts built over all entries |
| ExcelExporter.TalliesForMeaning | src/hourtracker/excel_exporter.py:44-56 | those four dicts map each month, or each type, in first-occurrence order, to the sum of total, hours or travel over its entries, and each month to its number of entries |
| ExcelExporter.SumDict | src/hourtracker/excel_exporter.py:53-56 | defined as the dict that `d[key(e)] += value(e)` builds over the first `n` entries, one `Put` per entry |
| ExcelExporter.CountDict | src/hourtracker/excel_exporter.py:54 | defined as the dict that `d[key(e)] += 1` builds over the first `n` entries |
| ExcelExporter.SumDictSums | src/hourtracker/excel_exporter.py:53-56 | a dict built by `d[key(e)] += value(e)` is well formed, has the keys in first-occurrence order and maps each to its group's sum |
| ExcelExporter.CountDictCounts | src/hourtracker/excel_exporter.py:54 | a dict built by `d[key(e)] += 1` maps each key to the size of its group |
| ExcelExporter.SumsByKeyStep | src/hourtracker/excel_exporter.py:53 | one `+=` keeps a dict a sum by key over one more entry |
| ExcelExporter.CountsByKeyStep | src/hourtracker/excel_exporter.py:54 | one `+= 1` keeps a dict a count by key over one more entry |
| ExcelExporter.FloatDict.PutValid | src/hourtracker/excel_exporter.py:53 | `d[k] = v` keeps the dict well formed, keeps an existing key's place and puts a new key last |
| ExcelExporter.Average | src/hourtracker/excel_exporter.py:63 | `total / count if count else 0`: 0 for a zero count, otherwise the value that times the count gives the total |
| ExcelExporter.MonthlyRows | src/hourtracker/excel_exporter.py:59-64 | the months strictly ascending, exactly the dict's keys, each row with its total, its count and `total / count`, or 0 for a zero count |
| ExcelExporter.MonthTableOfDicts | src/hourtracker/excel_exporter.py:59-64 | rows built from the monthly dicts form the monthly table of the entries: exactly the months that occur, each with count at least 1, so the zero branch of the average never fires |
| ExcelExporter.MonthTableAddsUp | src/hourtracker/excel_exporter.py:53-54 | the monthly counts add up to the number of entries and the monthly totals to the total of hours plus travel |
| ExcelExporter.YearSum | src/hourtracker/excel_exporter.py:67-72 | defined as the sum, over the keys in order, of the dict's value for each key whose year reads as `year` |
| ExcelExporter.YearToDate | src/hourtracker/excel_exporter.py:67-72 | fails exactly when some key has no number before its dash; otherwise the sum of the monthly totals of the keys whose year is the current year |
| ExcelExporter.MonthKeysHaveYears | src/hourtracker/excel_exporter.py:70 | when every date parses, every month key has a year, so the year-to-date loop cannot fail |
| ExcelExporter.YearToDateOfEntries | src/hourtracker/excel_exporter.py:67-72 | the year-to-date figure of the monthly dict is the total of hours plus travel of the entries dated in that year |
| ExcelExporter.InYearIsSelect | src/hourtracker/excel_exporter.py:69-72 | the entries dated in a year are the selection of the entries marked with that year |
| ExcelExporter.InYearBounded | src/hourtracker/excel_exporter.py:67-72 | with non-negative hours and travel, the year-to-date total is between 0 and the overall total |
| ExcelExporter.TypeRows | src/hourtracker/excel_exporter.py:98-101 | one row per key of `type_hours`, in its order, with those hours and `type_travel[t]` |
| ExcelExporter.KindsCoverEntries | src/hourtracker/excel_exporter.py:98-101 | rows whose types are the per-type dict's keys have a row for the type of every entry |
| ExcelExporter.TypeTableOfDicts | src/hourtracker/excel_exporter.py:98-101 | rows built from the two per-type dicts form a per-type table of the entries (`TypeTableOf`); that both dicts have the same keys, `Keys(s, TypeOf)`, comes from `TalliesForMeaning` and `SumDictSums` |
| ExcelExporter.IsoDatesParse | src/hourtracker/excel_exporter.py:49-51 | when every date has the form's `yyyy-MM-dd` shape, every date parses, so the export cannot fail on a date |
| ExcelExporter.ExportToExcel | src/hourtracker/excel_exporter.py:10-120 | on a non-empty table (see "## Left out" for the empty one): fails exactly when a date does not parse, naming the first; otherwise the Hours rows mirror the entries, the monthly table is the entries' monthly table and adds up, the year-to-date figure is the total of the current year's entries, the type table has one row per type in the order the types first appear, and it adds up to the hours and travel totals |
| TrackerUi.SubmittedType | src/hourtracker/ui_main.py:84-86 | defined as the tag when it is non-empty, otherwise the combo text |
| TrackerUi.Truthy | src/hourtracker/ui_main.py:94 | defined as Python's truth value of `editing_id`: set and not 0 |
| TrackerUi.EditForm | src/hourtracker/ui_main.py:116-125 | the form after loading an entry: its date when `yyyy-MM-dd` (otherwise the old date), combo and tag from `FormFromType`, its hours and travel; a `yyyy-MM-dd` date in the form stays `yyyy-MM-dd` |
| TrackerUi.SaveKeepsIsoDates | src/hourtracker/ui_main.py:83-98 | adding or updating a row whose date is the form's `yyyy-MM-dd` text keeps every date of the table `yyyy-MM-dd` |
| TrackerUi.WithoutKeepsIsoDates | src/hourtracker/ui_main.py:133-134 | deleting an entry keeps every remaining date `yyyy-MM-dd` |
| TrackerUi.FormFromType | src/hourtracker/ui_main.py:117-122 | the combo box is always set to one of the categories |
| TrackerUi.EditRoundTrip | src/hourtracker/ui_main.py:84-86 | submitting what the edit handler put in combo and tag gives back any non-empty type, and "Other" for the empty type |
| TrackerUi.EditThenSubmit | src/hourtracker/ui_main.py:113-125 | after loading an entry with a `yyyy-MM-dd` date and a non-empty type, the form holds its date, hours and travel and submits its type |
| TrackerUi.SummaryLines | src/hourtracker/ui_main.py:153-154 | one label line per summary row, in order |
| TrackerUi.TimeTrackerUI.constructor | src/hourtracker/ui_main.py:9-19 | the window starts in add mode with today's date (given as `yyyy-MM-dd`), the first category, no tag and zero hours and travel, and shows the store |
| TrackerUi.TimeTrackerUI.RefreshTable | src/hourtracker/ui_main.py:137-148 | afterwards `entries` is the store's rows, date-descending and each once; the table mirrors them; the label shows the store's sums |
| TrackerUi.TimeTrackerUI.RefreshSummary | src/hourtracker/ui_main.py:150-164 | the label has a line per type with its sums, the overall hours with NULL read as 0, and hours plus travel as the total |
| TrackerUi.TimeTrackerUI.HandleSubmit | src/hourtracker/ui_main.py:82-105 | zero hours and zero travel change nothing at all; otherwise the edited entry is updated with the form's values and the tag-over-combo type and the form returns to add mode, or a new entry with a fresh id is appended; then tag, hours and travel are cleared and the window shows the store; the form's date stays `yyyy-MM-dd`, and a table of `yyyy-MM-dd` dates stays one |
| TrackerUi.TimeTrackerUI.Save | src/hourtracker/ui_main.py:94-99 | with `editing_id` set, the store updates that id and the caption becomes "Add Entry"; otherwise one row with a fresh id is appended; either way `editing_id` ends unset |
| TrackerUi.TimeTrackerUI.Submit | src/hourtracker/ui_main.py:94-105 | the saved values reach the store as an update of the edited id or as one appended row with a fresh id; afterwards `editing_id` is unset, the tag is empty, hours and travel are 0, the rest of the form is as before, and the window shows the store |
| TrackerUi.TimeTrackerUI.HandleEdit | src/hourtracker/ui_main.py:107-126 | no selection changes nothing; otherwise `editing_id` is the selected entry's id, the form holds its values (combo and tag from its type) and the caption is "Update Entry"; the form's date stays `yyyy-MM-dd` |
| TrackerUi.TimeTrackerUI.HandleDelete | src/hourtracker/ui_main.py:128-135 | no selection changes nothing; otherwise exactly the selected entry leaves the store, nothing else changes in it, and the window shows the store again; a table of `yyyy-MM-dd` dates stays one |
| TrackerUi.TimeTrackerUI.Remove | src/hourtracker/ui_main.py:134-135 | deleting an id the store holds removes exactly the rows with that id, one row, keeps the id counter, and the window then shows the store |

## Left out

- Both database.py files: the SQLite connection, commit and close plumbing is not modelled. `get_db_file`, its directory creation and `DB_FILE` are file-system I/O and are left out too.
- EntryStore.Store.Add: does not model SQLite's limit on the AUTOINCREMENT counter (2^63 - 1, beyond which the insert fails), because ids are unbounded integers.
- EntryStore.Store.FetchEntries: does not fix the order of rows with equal dates, because SQL leaves it open. The model sorts one way, and the contracts and the window's invariant state only "date-descending and a permutation".
- EntryStore.Store.GetSummary: does not fix the order of the `GROUP BY` rows, because SQL leaves it open. The model uses first-occurrence order, which no contract states.
- The fields `name`, `recorded` and `notes`, and CSV import and export: no part of the modelled code handles them.
- The openpyxl work is not modelled: the workbook and sheets, headers, column widths, fonts, the two charts and their `Reference` row arithmetic, and `wb.save`.
- ExcelExporter.ExportToExcel: does not model the failure on an empty table. With no entries the monthly table is only its header (line 59) and the year-to-date cells are in row 3 (lines 75-77), so line 87 builds a `Reference` with `max_row = 0`. openpyxl rejects row bounds below 1, and the `ValueError` is caught at line 116, so nothing is saved. The model returns `Saved` with empty figures instead.
- The message boxes and the `print` of the exporter are not modelled. `ExportToExcel` returns the failing date instead, and models only the `ValueError` of strptime among the exceptions the `try` catches.
- Python floats: the model uses exact `real`s, so no rounding is modelled. The `:.2f` formatting of the table and of the label, their HTML markup, and the `0` versus `0.0` type of the average and of the year-to-date start value are not modelled either.
- `datetime.now().year` and the date editor's initial `QDate.currentDate()` are parameters (`currentYear`, `today`).
- Dates.ParseDate: does not model non-ASCII digits, which CPython's `\d` would accept.
- Dates.YearOfKey: reads only ASCII digits. Python's `int` also accepts surrounding whitespace, a sign and `_` between digits, so `ExcelExporter.YearToDate` differs on keys such as `" 2024-01"` or `"+2024-01"`. Such keys cannot come from `strftime` (`MonthKeysHaveYears`).
- Dates.RenderMonth: always pads the year to four digits. CPython's `%Y` depends on the platform for years below 1000 (glibc does not pad), which would change those months' keys and their sorted order.
- EntryStore.Store.Add, Delete, Update, Reset, FetchEntries, GetSummary and TrackerUi.TimeTrackerUI.constructor: do not model the `sqlite3.OperationalError` ("no such table") raised before `init_db` has run; they require the table to exist. The packaged `src/hourtracker/ui_main.py` does not call `init_db`, yet its constructor refreshes the table (lines 6 and 19). The only `init_db()` call is in main.py (line 7), which sets up the root module's database.
- The spin boxes' default minimum of 0, their maximum of 24 (`ui_main.py` lines 36 and 40) and their rounding to two decimals are not modelled. The form holds any `real`. Because the minimum is not modelled, the bound lemmas `InYearBounded` and `SelectBounded` take non-negative hours and travel (`NonNegative`) as a premise. The spin boxes would guarantee that for rows the window writes.
- The date widget is modelled by its `yyyy-MM-dd` text (the `toString` at `ui_main.py` line 83). So the constructor requires `today` in that form; a `QDate` always renders so.
- `QDate.fromString`: a stored date counts as valid exactly when it is `yyyy-MM-dd` and names a real date from year 1 on.
- TrackerUi.EditForm: does not model the date editor's default minimum, 1752-09-14. `setDate` moves an earlier valid date up to that minimum. The form cannot write such a date, but rows written by other code could hold one.
- `init_ui`, the Qt layout and signal wiring, and main.py, which calls `init_db` and starts the application, are not modelled.
- Reading `monthly_counts[month]` and `type_travel[t]` inserts a key into a `defaultdict`. The model reads without inserting: the keys already exist in both cases, and they are not used afterwards.
- TrackerUi.TimeTrackerUI.HandleSubmit: does not state the window's invariant for the no-op case. There, only "nothing changes" is stated.
