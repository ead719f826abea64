# stock-crawler in Dafny

A model of the decision logic of `stock-crawler`. Each invocation of this
crawler processes one stock code, then moves on to the next.

**One run.** A run does the following, in order:
- reads a cursor (the last code processed) from a memcache;
- chooses the next code from a round-robin queue over a local list of codes;
- fetches three years of daily prices for that code and assembles them into one CSV text;
- searches Google Drive for a file whose name contains the code, deletes the first match if there is one, then uploads the CSV as `<code>.csv`;
- computes moving-average "stages" and appends a purchase-signal row to a Google spreadsheet when the last day's stages match a pattern;
- finally writes the processed code back as the new cursor.

**What is proved.** Everything the run decides is modelled as pure functions:
- the cyclic successor map (`StockList`);
- cursor resolution (`Cursor`);
- CSV assembly (`StockCsv`, on top of Python's `str.split` / `str.join` in `Text`);
- stage and signal classification (`Signal`);
- the ordering of the calls a run makes, as a trace of effects (`Runner`).

**Collaborators.** The price API, Drive, the spreadsheet and the memcache are parameters (`Runner.Env`). Each one either returns a value or raises, and a call that raises ends the run's trace.

**Two details of the program that are easy to misread:**
- **Signal pattern.** The purchase signal fires on the stage window `[4, 5, 5]` (`src/runner.py:138-139`), not `[4, 4, 5]`.
- **Unknown cursor.** A cursor naming a code that is not in the list ends the process through `exit()` (`src/runner.py:110-112`). `SystemExit` is not an `Exception`, so the handler at `src/runner.py:113-115` does not fall back to the first code. The model's outcome is `Terminate`.

**Behaviour kept as written.**
- When only one or two rows survive `dropna`, the last row's rolling purchase sign is NaN.
- NaN is truthy, so that row is appended to the spreadsheet whatever its stage (`Signal.ShortHistorySignals`).

Files: `wrappers.dfy`, `text.dfy`, `stock_list.dfy`, `cursor.dfy`, `stock_csv.dfy`, `signal.dfy`, `runner.dfy`.

## Model

| member | source | states |
|---|---|---|
| StockList.QueueUpTo | src/repository/stock_list/stock_list.py:48-50 | after k iterations of the pass, the keys are exactly the first k codes; a code whose last occurrence before k is at j maps to the code at j+1, so a later duplicate overwrites an earlier one; every value is a listed code |
| StockList.BuildQueue | src/repository/stock_list/stock_list.py:48-52 | the keys are exactly the listed codes; the last code maps to the first even when codes repeat; any other code maps to the neighbour of its last occurrence; every value is listed |
| StockList.Load | src/repository/stock_list/stock_list.py:29-32 | construction fails exactly on an empty list; otherwise the first code is `stocks[0]`, the queue's keys are the set of listed codes, and the last code maps to the first |
| StockList.NextCode | src/repository/stock_list/stock_list.py:54-71 | the result is `None` exactly when the code is not a key of the queue; otherwise it is one of the queue's values |
| StockList.FirstCodeIsFirstListed | src/repository/stock_list/stock_list.py:73-82 | `get_first_code` on a loaded list gives `stocks[0]`, and that code always has a successor |
| StockList.NextCodeDefinedIffListed | src/repository/stock_list/stock_list.py:68-71 | on a loaded list, `get_next_code` gives `None` exactly for codes absent from the list, and every successor is a listed code |
| StockList.NextCodeOfPosition | src/repository/stock_list/stock_list.py:48-52 | for distinct codes, the code at position i has as successor the code at i+1, and the last code has the first |
| StockList.DistinctSuccessors | src/repository/stock_list/stock_list.py:49-50 | for distinct codes every code but the last points at its right neighbour |
| StockList.StepsAlong | src/repository/stock_list/stock_list.py:54-71 | k successive `get_next_code` steps along a stretch of neighbour links land k positions further on |
| StockList.StepsCompose | src/repository/stock_list/stock_list.py:54-71 | a steps followed by b steps equal a+b steps |
| StockList.CycleReturns | src/repository/stock_list/stock_list.py:48-52 | for distinct codes, n successor steps from any listed code return to that code, so a one-code list maps its code to itself |
| StockList.VisitsEveryCodeOnce | src/repository/stock_list/stock_list.py:48-52 | for distinct codes, j steps from the first code reach the j-th listed code, so one cycle visits each code once, in file order |
| Cursor.ResolveCode | src/runner.py:98-116 | a cache miss selects the first code; the run terminates exactly when a cursor is read that is not a key of the queue; a known cursor selects its successor |
| Cursor.ResolveAgainstList | src/runner.py:107-116 | against the list the queue came from, a miss selects `stocks[0]`, a read cursor terminates exactly when it is not listed, and any selected code is a listed code |
| Cursor.ResumeAfterCursor | src/runner.py:108-109 | for distinct codes, a cursor on position i selects position i+1, and the last position selects the first |
| Cursor.ThreeCodeExample | src/runner.py:98-116 | on the list A, B, C: cursor B selects C, cursor C wraps to A, a miss selects A, and the unknown cursor Z terminates |
| Text.Join | src/runner.py:167 | `"\n".join` of no parts is the empty string, of one part is that part, and the result holds at least one character per gap; with Split, JoinSplit and SplitJoin make it the inverse of splitting |
| Text.Split | src/runner.py:167 | `str.split` on one character gives at least one piece and no piece contains the separator |
| Text.JoinSplit | src/runner.py:167 | joining the pieces of a split with the separator gives back the original string |
| Text.SplitJoin | src/runner.py:167-168 | splitting the join of a nonempty list of separator-free pieces gives back exactly those pieces |
| Text.SplitAround | src/runner.py:167-168 | one separator between two texts splits into the pieces of the first followed by the pieces of the second |
| StockCsv.DataLines | src/runner.py:167 | the lines kept after dropping the first two lines of a year's text contain no newline |
| StockCsv.PrefixCode | src/runner.py:167-168 | one row per data line, in order, each being the code, a comma, and that line |
| StockCsv.BlockLines | src/runner.py:167-168 | a year text of at most two lines contributes one empty line; otherwise line k is `code + "," + L` for the line L at index k+2 of the split text, and no other lines |
| StockCsv.BlockSplits | src/runner.py:167-168 | for a code without newlines, a year's block read back line by line gives exactly that year's lines |
| StockCsv.DropsBanner | src/runner.py:167 | a text of two banner lines followed by data lines yields exactly those data lines |
| StockCsv.AssembleLines | src/runner.py:164-168 | appending blocks after a one-line header, each introduced by a newline, reads back as the header followed by every block's lines in order |
| StockCsv.CsvLines | src/runner.py:164-169 | for a code without newlines, the CSV read line by line is the header followed by each year's lines in fetch order |
| StockCsv.HeaderIsOneLine | src/runner.py:43 | the CSV header is a single line |
| StockCsv.CsvOfYears | src/runner.py:164-169 | for a code without newlines, the CSV of three years' texts reads as the header, then the lines of the first, second and third text, in that order |
| StockCsv.FetchYears | src/runner.py:165-166 | years are requested in order and the requests stop at the first one that raises: the texts exist exactly when every year's fetch returns, and they are those fetches' texts; on failure the last year attempted raised and all before it returned |
| StockCsv.FetchStock | src/runner.py:150-169 | the years attempted are a prefix of 2020, 2019, 2018; a CSV is produced exactly when all three fetches return; it reads as the header followed by the three years' lines in order; on failure the last attempted fetch raised |
| Signal.Stage | src/runner.py:132-136 | the stage is 4 exactly when short < middle < long, 5 exactly when middle <= short < long, and 0 exactly when long is not strictly above both, so equal averages give 0 |
| Signal.DropIncomplete | src/runner.py:137 | `dropna` keeps at most as many rows as it is given, and every kept row has all three averages |
| Signal.DropIncompleteAppend | src/runner.py:137 | filtering a table made of two parts filters each part and keeps them in order, so the kept rows keep their table order and repetitions |
| Signal.DropIncompleteSingle | src/runner.py:137 | a single row is kept exactly when all three of its averages are defined |
| Signal.CompleteIndices | src/runner.py:137 | the kept rows are the rows at the positions of the complete rows, which rise strictly and include every complete row's position |
| Signal.LastThreeKept | src/runner.py:137-139 | when positions i1 < i2 < i3 hold the table's last three complete rows, the last three kept rows are exactly those rows, in that order |
| Signal.LastThreeExist | src/runner.py:137 | a table with three or more complete rows has last three complete rows |
| Signal.KeptExactlyComplete | src/runner.py:137 | a row survives `dropna` exactly when it is one of the rows and all three averages are defined |
| Signal.LastKept | src/runner.py:137-142 | the last row after `dropna` is the last complete row of the table |
| Signal.SignAt | src/runner.py:138-139 | the rolling sign is NaN exactly on the first two rows; after that it is true exactly when the stage window ending at the row is 4, 5, 5 |
| Signal.PurchaseSigns | src/runner.py:138-139 | one rolling value per kept row, in order; the value at row i is NaN for the first two rows and then whether the stages at i-2, i-1, i read 4, 5, 5 |
| Signal.LastSign | src/runner.py:138-143 | the last row's sign is truthy exactly when fewer than three rows exist or its window reads 4, 5, 5 |
| Signal.LastRowCells | src/runner.py:141-145 | only the last kept row is inspected: at most one cell, and if any, it is that row's date, code, price and averages |
| Signal.LastRowPattern | src/runner.py:137-145 | among kept rows, one cell is produced exactly when fewer than three rows exist or the last three stages are 4, 5, 5 |
| Signal.SignCells | src/runner.py:137-148 | at most one row is handed to the spreadsheet, and it is built from the table's last complete row |
| Signal.SignalIffPattern | src/runner.py:137-145 | when positions i1 < i2 < i3 hold the table's last three complete rows, a row is appended exactly when their stages are 4, 5, 5 in that order |
| Signal.ShortHistorySignals | src/runner.py:138-143 | with one or two complete rows, the row is appended whatever its stage |
| Signal.EqualAveragesNeverSignal | src/runner.py:132-139 | when every complete row has equal averages and at least three rows are complete, nothing is appended |
| Runner.DriveInsert | src/runner.py:171-186 | the step begins with the file search; it returns exactly when the search returns, a found file's delete returns, and the upload of `<code>.csv` returns; a returning step ends with that upload |
| Runner.DriveInsertCalls | src/runner.py:182-186 | one search; a delete exactly when a file was found; at most one upload; no other calls; a returning step uploaded once, and no delete comes after the upload |
| Runner.AppendSign | src/runner.py:118-148 | at most one spreadsheet append and no other call; the append happens exactly when the CSV was read and the signal cells are nonempty, and it carries those cells; the step returns exactly when reading and the append return |
| Runner.FetchEffects | src/runner.py:165-166 | one fetch call per year, in order, and no other kind of call |
| Runner.FetchFor | src/runner.py:150-169 | the years requested for the chosen code are a prefix of the fixed years, the CSV exists exactly when every year's fetch returns, and then all years were requested |
| Runner.Run | src/runner.py:84-96 | a run processes the code `__get_stock_code` resolves, and it ends through the cursor's `exit()` exactly when the cursor read names a code outside the queue |
| Runner.RunSelected | src/runner.py:88-96 | once a code is chosen, the run reports that code and never ends through the cursor's `exit()` |
| Runner.RunReadsCursorFirst | src/runner.py:89-112 | every run reads the cursor first and only once; it terminates exactly when the cursor names a code outside the queue, and then the read is its only call |
| Runner.SelectedCallBounds | src/runner.py:89-93 | after a code is chosen: one fetch per attempted year, and at most one delete, upload, spreadsheet append and cursor write |
| Runner.SelectedFetchOrder | src/runner.py:165-166 | every fetch sits right after the cursor read, at the position of its year among the attempted years; no later call is a fetch |
| Runner.SelectedCursorWrite | src/runner.py:88-96 | the cursor is written exactly when the CSV was built, the drive step returned and the signal step returned; the write is the last call, after exactly one upload and every attempted fetch; the run completes exactly when the write succeeds |
| Runner.RunCallBounds | src/runner.py:84-96 | whatever the collaborators reply, a run deletes, uploads, appends and writes the cursor at most once each, and issues at most three fetches |
| Runner.RunFetchOrder | src/runner.py:165-166 | the fetches of a run come right after the cursor read and ask for the selected code's years in the order 2020, 2019, 2018 |
| Runner.CursorWrittenLast | src/runner.py:88-96 | a cursor write happens only after every year was fetched and one upload, as the last call and with the processed code; the run completes exactly when a code was chosen and that write succeeded |
| Runner.NextRunResumesAfter | src/runner.py:89-116 | a run that completes on the code at position i ends by writing that code as the cursor, and a run that reads that cursor back selects the code at i+1 (the first after the last) and does not terminate |

## Left out

- Reading the code list with `pd.read_csv` (`stock_list.py:29-30`). The list is given as the sequence of codes in file order.
- Parsing the CSV with pandas, sorting by date, and the floating-point rolling means with `round(1)` (`src/runner.py:127-131`). These are the parameter `Env.analyse`, which gives the sorted days with their optional averages, or `None` when reading raises. Averages are `real`.
- `Signal.DropIncomplete`: only the three averages are checked for NaN. The other parsed columns are assumed defined, because their parsing is not modelled.
- Formatting the date with `strftime` is left out; the day's date is carried as a string.
- The price API (`src/repository/stock/stock.py`), Google Drive (`src/repository/drive/google_drive.py`), the spreadsheet (`src/repository/sheet/sheet.py`) and the memcache (`src/repository/memcache/redis_labs.py`) are not part of this model. Each is a function parameter of `Runner.Env` that either returns or raises. Only the order of the calls is modelled.
- The Drive search matches any file whose name contains the code (`src/repository/drive/google_drive.py:103-110`), so the file deleted may belong to another code that contains this one. `Env.findFile` is a parameter, so the model does not decide which file is found.
- The memcache key and its expiry time are not modelled. A cursor that has expired reads as a miss.
- Logging and traceback formatting are not modelled. The `exit()` calls become the run's `Status`: `Failed` for the handler in `start`, `Terminated` for cursor resolution.
- The configuration wiring in `src/main.py` is not part of this model.
- `StockCsv.FetchStock`: the line-by-line reading of the CSV is stated only for codes that contain no newline. A newline inside a code would split its own rows.
- `Signal.SignCells`: pandas skipping blank lines when it reads the CSV back is inside `Env.analyse`. It is not related to the assembled text here.
