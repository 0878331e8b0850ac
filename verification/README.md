# Stock price consolidator — verified model

This project models the consolidation pipeline of a small Streamlit app,
"Consolidador de Precios de Acciones Chilenas" (`app.py`). The user gives a
start date, an end date and a number of CSV files, one per stock. Each file
holds rows of a date (`Fecha`) and a price. The app builds one table:

- one row for every calendar day from start to end;
- one column per stock, named after the file without its extension;
- each stock's cleaned prices, left-joined onto the calendar;
- a `Fin_de_semana` column that flags Saturdays and Sundays;
- missing prices forward-filled, and the columns sorted by name.

If the two dates and at least one file are given, the run shows the table
or, when pandas raises, an error message. Otherwise it shows a prompt.

The model works on abstract values:

- A day is an integer day number. Day 0 is 1970-01-01, a Thursday, and
  weekdays are numbered as pandas' `dayofweek` numbers them (Monday 0 …
  Sunday 6).
- A price is an integer. A missing value (NaN) is `None`.
- A parsed CSV file is a sequence of `Row(date, price)` pairs. Either
  field may be missing.
- The table (`Table.Frame`) is a row index of days, an ordered list of
  column labels, and a map from each label to its column of cells.
- Column labels are ordered as Python orders strings: lexicographically,
  by code point.

Modules, one per step of the pipeline:

- `Calendar` (`calendar.dfy`): `pd.date_range` and `dayofweek`.
- `Naming` (`stock_name.dfy`): `os.path.splitext` under POSIX rules.
- `Cleaning` (`cleaning.dfy`): `dropna().drop_duplicates('Fecha')`.
- `ForwardFill` (`fill_forward.dfy`): `ffill` on one column.
- `Lexicographic` (`lexicographic.dfy`): string order and the sort of the
  column labels.
- `Table` (`frame.dfy`): the DataFrame operations `join`, column
  assignment, `ffill` and `sort_index(axis=1)`.
- `Consolidator` (`consolidator.dfy`): the run as a whole. `Consolidation`
  is the specification function. `Consolidate` is the loop over the files,
  written step by step; its contract says it computes `Consolidation`.

Two pandas behaviours are modelled as pandas has them:

- Two files with the same stem give the same label. `DataFrame.join` then
  raises because the columns overlap, and the run ends in the error
  branch. The model returns `Failed(ColumnsOverlap(label))`.
- A file named `Fin_de_semana.csv` gives a stock column of that label. The
  assignment at app.py:66 then replaces that column with the weekend flags.

## Model

| member | source | states |
|---|---|---|
| Calendar.DateRange | app.py:28 | The calendar holds exactly the days from start to end. Its length is end - start + 1, or 0 when start > end. It starts at start, ends at end, and each day is one after the previous. |
| Calendar.DateRangeAscending | app.py:28 | The calendar is strictly ascending, so no day repeats. |
| Calendar.DateRangeAt | app.py:28 | The i-th row of the calendar is day start + i. |
| Calendar.DayOfWeek | app.py:66 | The weekday number is always between 0 and 6. |
| Calendar.DayOfWeekSucc | app.py:66 | 1970-01-01 is a Thursday (3), and each next day has the next weekday number, modulo 7. |
| Calendar.WeekendPeriodic | app.py:66 | The weekday, and so whether it is 5 or 6 (the weekend flag), repeats every 7 days. |
| Naming.LastIndexOf | app.py:34 | `rfind` as splitext uses it: the index holds the character, and no later index does. The result is -1 when the character is absent. |
| Naming.SplitExt | app.py:34 | Root and extension concatenate back to the file name. The extension is empty, or it is a dot followed by neither a dot nor a separator. A nonempty extension leaves some character other than '.' or '/' in the root. |
| Naming.SplitExtSpec | app.py:34 | An extension is split off exactly when the name has an extension dot: the last dot, in the last path component, after a character that is not a dot. The split is made at that dot. |
| Naming.StockName | app.py:34 | The stock label is a prefix of the file name. |
| Naming.SplitExtOfJoined | app.py:34 | base + "." + ext splits back into base and "." + ext, when base has a character other than a dot and neither part has a separator or, in ext, a dot. |
| Naming.StockNameOfCsv | app.py:34 | `AAA.csv` gives the label `AAA`: any such base followed by ".csv" gives back the base. |
| Naming.LeadingDotNameKept | app.py:34 | A name that is a single dot and an extension, such as ".csv", keeps its whole name as the label. |
| Cleaning.Find | app.py:62 | Looking up a day in a series finds a price exactly when the series has that day, and the found observation is in the series. |
| Cleaning.DropMissing | app.py:62 | `dropna()`: an observation survives exactly when a complete row with that date and price is in the file. |
| Cleaning.DropDuplicates | app.py:62 | `drop_duplicates('Fecha')`: the result has each day at most once and the same set of days. Every kept observation comes from the input. |
| Cleaning.Clean | app.py:62 | The cleaned series has no repeated day, and each observation comes from a complete row of the file. |
| Cleaning.DropDuplicatesKeepsFirst | app.py:62 | Deduplication keeps, for every day, the first observation of that day (keep='first'). |
| Cleaning.DropMissingKeepsFirst | app.py:62 | After `dropna()` the first observation of a day is the first complete row with that date. |
| Cleaning.CleanKeepsFirstComplete | app.py:62 | The surviving price for a day is the price of the first complete row with that date. A day without a complete row does not survive. |
| Cleaning.DropMissingComplete | app.py:62 | A file whose rows are all complete keeps every row, in order, under `dropna()`. |
| Cleaning.DropDuplicatesDistinct | app.py:62 | A series without repeated days is unchanged by deduplication, so deduplicating twice equals deduplicating once. |
| Cleaning.FindDistinct | app.py:62 | In a series without repeated days, looking up a day gives p exactly when (day, p) is in the series. |
| ForwardFill.FFill | app.py:67 | `ffill()` keeps the length and every present cell. A missing cell after the first row takes the filled value of the row before. A cell stays missing exactly when it and every cell above it are missing. |
| ForwardFill.FFillNearestEarlier | app.py:67 | A missing cell takes the value of the nearest earlier present cell of its column. |
| ForwardFill.FFillFixedPoint | app.py:67 | Forward-fill leaves a column unchanged exactly when its only missing cells come before its first present one. |
| ForwardFill.FFillIdempotent | app.py:67 | Forward-filling twice gives the same column as forward-filling once. |
| ForwardFill.FFillNoGaps | app.py:67 | A column without missing cells, such as the weekend flags, is unchanged by forward-fill. |
| Lexicographic.LessIrreflexive | app.py:67 | No label sorts before itself. |
| Lexicographic.LessTransitive | app.py:67 | The label order is transitive. |
| Lexicographic.LessTotal | app.py:67 | Of two different labels exactly one sorts first, and never both ways. |
| Lexicographic.Insert | app.py:67 | Inserting a label into an ascending list keeps it ascending and adds exactly that label. |
| Lexicographic.SortLabels | app.py:67 | The sorted labels are ascending and a permutation of the input. |
| Lexicographic.SortSorted | app.py:67 | Labels already ascending are left in place. |
| Lexicographic.SortDistinctStrict | app.py:67 | Sorting distinct labels gives distinct, strictly ascending labels. |
| Table.EmptyFrame | app.py:29 | `pd.DataFrame(index=date_range)`: a well-formed table over the calendar, with no columns. |
| Table.LeftJoin | app.py:63 | The joined column has one cell per calendar day. A cell is missing exactly when the series lacks that day, and holds p exactly when the series has (day, p). |
| Table.LeftJoinIgnoresOutside | app.py:63 | Observations dated outside the calendar do not change the joined column. |
| Table.Join | app.py:63 | `join(how='left')` fails exactly when the label is already a column, and names that label. On success the index is unchanged and the label is appended. The new column is the left join, and every existing column is unchanged. |
| Table.SetColumn | app.py:66 | Column assignment replaces an existing column in its place, or appends a new one. The index and every other column are unchanged. |
| Table.FillForward | app.py:67 | `ffill()` forward-fills every column and keeps the index and the labels. |
| Table.SortColumns | app.py:67 | `sort_index(axis=1)` keeps the index and the columns. It orders the labels strictly ascending, as a permutation of the old labels. |
| Consolidator.StockNames | app.py:34 | One label per upload, in upload order, each the stem of that file's name. |
| Consolidator.StockColumn | app.py:62-63 | A file's contribution to the table has one cell per calendar day. On each day it holds the price of the file's first complete row with that date, and it is missing exactly when the file has no complete row with that date. |
| Consolidator.JoinedFirstPrice | app.py:62-63 | Joining a cleaned file onto the calendar puts on each day the price of the file's first complete row with that date, or a missing cell when it has none. |
| Consolidator.WeekendCells | app.py:66 | `dayofweek.isin([5, 6])`: every row gets a flag, and the flag holds exactly on days whose weekday number is 5 or 6. |
| Consolidator.JoinAll | app.py:33-63 | The fold over the files, on success, keeps the table well formed and the index unchanged. |
| Consolidator.Finalise | app.py:66-67 | Adding the flags, filling and sorting keeps the table well formed and the index unchanged. |
| Consolidator.Consolidation | app.py:25-67 | A finished run's table is well formed. |
| Consolidator.Consolidate | app.py:25-67 | The step-by-step run, looping over the files, gives exactly the outcome of `Consolidation`. |
| Consolidator.JoinAllOverlap | app.py:63 | A file whose label the table already has ends the fold with a column-overlap failure naming that label. |
| Consolidator.JoinAllOk | app.py:33-63 | The fold succeeds exactly when the existing labels and the uploads' labels have no repeat. |
| Consolidator.JoinAllResult | app.py:33-63 | A successful fold keeps the index and every earlier column. The labels gain the uploads' labels in order, and each upload's column is its cleaned series joined onto the calendar. |
| Consolidator.FailureNamesUpload | app.py:63 | The label a failed fold reports is one of the uploads' labels, and it occurs at least twice among the table's labels and the uploads' labels: it is the overlapping column. |
| Consolidator.FailureFromEmpty | app.py:29-63 | A failed fold onto the empty calendar table reports a label that at least two uploads share. |
| Consolidator.FoldFromEmpty | app.py:29-63 | Folding onto the empty calendar table succeeds exactly when the labels are distinct. It then gives the labels in upload order, each with its joined column. |
| Consolidator.ConsolidationOutcome | app.py:25-88 | The prompt is shown exactly when a date or the files are missing. A failure happens exactly when, with dates and files, two files share a label. The failure names a label that at least two of the files share. |
| Consolidator.FinaliseSpec | app.py:66-67 | After finalising, the labels are strictly ascending and are the old labels plus `Fin_de_semana`. The flag column holds the weekend flags, and every other column is forward-filled. |
| Consolidator.ConsolidatedTable | app.py:25-67 | With dates and files of distinct labels, the run gives a table over the calendar. Every column spans the calendar, and the labels are strictly ascending: the stock labels plus `Fin_de_semana`. The flag column holds the weekend flags. Every other stock column is its file's column (`StockColumn`: on each day the price of the first complete row with that date, or missing) forward-filled. |

## Left out

- Reading the CSV files (app.py:38-58). This covers text decoding, the UTF-8 fallback, day-first date parsing, and the `.`/`,` number format. A file is given as its already parsed rows. A missing field is an empty or NA field. A non-empty field that pandas cannot parse leaves its whole column as text; that case is not modelled.
- Parsing the date texts in `pd.date_range` (app.py:28). Start and end are given as day numbers, and an empty text field is `None`. A non-empty text that pandas cannot parse raises in the app; that error path is not modelled.
- Exceptions other than the column overlap of two files with the same stem (app.py:85-86). These include any raised inside pandas or openpyxl.
- Floating-point prices. Prices are integers.
- The Streamlit page: configuration, inputs, uploader, preview of the first ten rows, download button and messages (app.py:8-23, 70-71, 78-88). The outcome datatype says which branch the page takes.
- The Excel export through openpyxl and BytesIO (app.py:74-76).
- The index name `Fecha` (app.py:30) and the column rename (app.py:61). These only name things. A stock file named `Fecha.csv`, whose rename gives two columns called `Fecha`, is not modelled.
- Table.LeftJoin: requires the series to have distinct days. pandas would repeat calendar rows for a repeated key, but the cleaned series never has one.
- Upload names are base names without a directory, as the uploader gives them. `os.path.splitext` is modelled with POSIX separators only.
