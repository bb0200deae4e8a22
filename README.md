# Process monitor core, modelled in Dafny

`python9.py` is a Tkinter process monitor built on psutil. Around its widgets
sits a small engine, and this project models that engine:

- **Refresh** (`update_process_list`) empties the process table. It fills the
  table again from a fresh enumeration of the processes and skips every
  process whose attributes cannot be read. It appends the (pid, cpu, memory)
  triples of the rows it shows to `data_history` as one snapshot.
- **Search** (`search_process`) refills the table with the processes whose
  lower-cased name contains the lower-cased query.
- **Filter** (`filter_processes`) refills the table with the processes whose
  CPU and memory percentages both reach their thresholds.
- **Sort** (`sort_treeview`) sorts the (cell text, item id) pairs of one
  column, ascending or descending. It moves every row to its place in that
  order and rebinds the column heading to sort the other way next time. The
  headings start out ascending, and the "Sort by PID" button always sorts by
  PID ascending.
- **History view** (`show_historical_data`) reads the last ten snapshots and
  splits each into its pid, CPU and memory columns.
- **Kill and set-priority** (`kill_process`, `set_priority`) are guarded by
  the table's selection: with nothing selected they only warn.

The modules:

- `Text`: Python's `str.lower()` on ASCII, the `in` test on strings, the
  order on strings, decimal rendering, and the `I%03X` ids Tk gives
  inserted items.
- `Process`: the enumeration, rows, samples and snapshots, and the sort keys
  of rows.
- `Query`: the search and filter criteria, and the order-preserving
  selection they make.
- `Sorting`: the sorted key list, Treeview `move`, and the step of the
  reordering loop.
- `Headings`: the per-heading sort direction.
- `History`: the window of the last ten snapshots and its columns.
- `Monitor`: the class `ProcessMonitor`, holding the table rows, Tk's count
  of inserted items, the history and the heading directions. Its methods are
  the callbacks.

The enumeration is an input. It is a sequence of probes, each either a
readable process `(pid, name, cpu, memory, threads)` or an item whose
attribute read raises `NoSuchProcess` or `AccessDenied`.

- The refresh catches these exceptions and skips the item.
- Search and filter catch nothing, so the first unreadable item ends them.
  They keep the rows inserted so far and report `completed == false`.

A table item is known by the serial number Tk gave it when it was inserted
(`ItemId`). Its id string `IdText` is `I` followed by that serial in
hexadecimal, at least three digits. The sort uses the id string, as the
source does, to order rows whose cells hold the same text.

Cell values go through Tk as text, so the sort compares text. A PID sort
puts pid 10 before pid 9 (`Sorting.PidSortIsTextual`).

## Model

| member | source | states |
|---|---|---|
| `Monitor.ProcessMonitor.constructor` | python9.py:8 | The table starts empty, the history starts empty, and every heading sorts ascending. |
| `Monitor.ProcessMonitor.Refresh` | python9.py:11-24 | The rows become fresh rows for exactly the readable processes, in enumeration order, with the next item serials. Exactly one snapshot is appended and earlier ones are untouched. The new snapshot's triples match the rows one to one and in order. The table invariant (`Valid`) is kept. |
| `Process.ReadablesExactly` | python9.py:14-23 | A process is among those a refresh reads exactly when some item of the enumeration yielded it readable. Skipped items appear nowhere. |
| `Process.ReadablesOfReadable` | python9.py:14-23 | When every item is readable, nothing is skipped: the k-th process read is the k-th item's. |
| `Process.SamplesAppend` | python9.py:21 | Sampling one more process adds its (pid, cpu, memory) triple at the end. |
| `Process.FreshRowsExtend` | python9.py:16-20 | Inserting one more row gives it the next serial, at the end of the table. |
| `Process.FirstUnreadable` | python9.py:58-59 | A walk without exception handling stops at the first unreadable item. Every item before it is readable. |
| `Process.WalkEnds` | python9.py:58-59 | A loop that stops at an unreadable item or at the end has stopped at the first unreadable item. It reached the end exactly when every item was readable. |
| `Monitor.ProcessMonitor.ShowWhere` | python9.py:56-64 | Shared loop of search and filter: the table is emptied and one row is inserted per accepted readable process, in order. The walk completes exactly when no item is unreadable. |
| `Monitor.ShownRowsSelect` | python9.py:58-64 | The rows that loop inserts are the fresh rows of the selection its test makes from the processes it read. |
| `Monitor.ProcessMonitor.Search` | python9.py:54-64 | The rows become fresh rows for exactly the processes, read before the first unreadable one, whose lower-cased name contains the lower-cased text, in order. Tk's count of inserted items advances by the number of rows inserted. History and headings are untouched. |
| `Monitor.ProcessMonitor.Filter` | python9.py:145-156 | The rows become fresh rows for exactly the processes, read before the first unreadable one, with cpu ≥ cpu threshold and memory ≥ memory threshold, in order. Tk's count of inserted items advances by the number of rows inserted. History and headings are untouched. |
| `Query.SelectExactly` | python9.py:58-59 | A process is selected if and only if it is among the inputs and the test accepts it. |
| `Query.SelectIsSubsequence` | python9.py:58-64 | The selection adds nothing and reorders nothing: it is a subsequence of the input. |
| `Query.SelectAppend` | python9.py:58-60 | One more process extends the selection by that process exactly when the test accepts it. |
| `Query.SelectAll` | python9.py:58-60 | A test that accepts every input keeps the input unchanged. |
| `Query.SelectMonotone` | python9.py:150-152 | A stricter test selects a subsequence of what a looser test selects. |
| `Query.SubsequenceShorter` | python9.py:150-152 | A subsequence is never longer than the sequence it comes from. |
| `Query.EmptySearchKeepsAll` | python9.py:55-59 | An empty query is contained in every name, so an empty search keeps every process. |
| `Query.SearchIgnoresCase` | python9.py:55-59 | Texts that lower-case alike select the same processes. |
| `Query.DefaultFilterKeepsAll` | python9.py:206-207 | At the default thresholds of 0.0, every process with non-negative percentages passes the filter (line 151). |
| `Query.RaisingThresholdsShrinks` | python9.py:146-151 | Raising either threshold never lets a new process through: the result is a subsequence of the looser one and no longer. |
| `Query.SearchScenario` | python9.py:55-59 | A search for "BASH" over chrome and bash keeps only bash. |
| `Query.ChromeLacksBash` | python9.py:59 | "bash" does not occur in "chrome". |
| `Text.ContainsIffOccurs` | python9.py:59 | Python's `q in s` holds if and only if `q` occurs in `s` at some position. |
| `Text.EmptyIsContained` | python9.py:59 | `"" in s` holds for every string. |
| `Text.StrLessTotal` | python9.py:107 | Python's order on two different strings puts one before the other. |
| `Text.StrLessTransitive` | python9.py:107 | The string order is transitive. |
| `Text.StrLessAsymmetric` | python9.py:107 | The string order is asymmetric. |
| `Text.StrLessIrreflexive` | python9.py:107 | No string is less than itself. |
| `Text.DecimalValueOfDecimal` | python9.py:17-19 | `str()` of a pid or thread count reads back as that number, so the PID and Threads cells spell out the number itself. |
| `Text.SerialOfRowId` | python9.py:16 | The id string of an inserted item reads back as its serial, so different items get different ids. |
| `Text.HexValueOfHex` | python9.py:16 | Hexadecimal rendering reads back as the number rendered. |
| `Text.PadZerosKeepsValue` | python9.py:16 | Zero padding does not change a numeral's value. |
| `Sorting.IdTextInjective` | python9.py:106 | Different items carry different id strings. |
| `Sorting.KeyLessTotal` | python9.py:107 | Python's tuple order on different (text, id) pairs puts one before the other. |
| `Sorting.KeyLessTransitive` | python9.py:107 | The tuple order is transitive. |
| `Sorting.KeyLessAsymmetric` | python9.py:107 | The tuple order is asymmetric. |
| `Sorting.InsertPermutes` | python9.py:107 | Inserting a key into a list adds exactly that key. |
| `Sorting.InsertSorted` | python9.py:107 | Inserting into a sorted list keeps it sorted. |
| `Sorting.SortKeysPermutes` | python9.py:107 | `l.sort(reverse=…)` is a permutation of `l`. |
| `Sorting.SortKeysSorted` | python9.py:107 | The sorted list is in ascending order, or descending order when `reverse` holds. |
| `Sorting.SortedUnique` | python9.py:107 | Two sorted permutations of the same keys are equal, so any correct sort, Python's included, gives this result. |
| `Sorting.PidSortIsTextual` | python9.py:106-107 | PIDs are sorted as text: pid 10 comes before pid 9 in an ascending sort. |
| `Sorting.FindId` | python9.py:110 | The position found holds the item, and no earlier row does. |
| `Sorting.FindUnique` | python9.py:110 | In a table with unique rows, the position found for an item is the only one that holds it. |
| `Sorting.MoveForward` | python9.py:110 | `move(k, '', index)` on a row that stands at or after `index` takes it out and puts it at `index`. It only reorders the rows. |
| `Sorting.MoveStep` | python9.py:109-110 | One pass of the reordering loop puts the row of the next key at its position. The keys placed so far stay placed, and the remaining keys stay those of the remaining rows. |
| `Sorting.UniqueRowsPermuted` | python9.py:110 | Reordering a table keeps its rows and ids unique. |
| `Sorting.FreshRowsUnique` | python9.py:16 | Rows inserted one after another carry different ids. |
| `Monitor.FreshRowsTracked` | python9.py:12-20 | A table emptied and refilled by inserts satisfies the table invariant. |
| `Monitor.TrackedPermuted` | python9.py:110 | Reordering keeps the table invariant. |
| `Monitor.ProcessMonitor.MoveIntoOrder` | python9.py:109-110 | After the loop the rows are a permutation of the rows before it, and their keys are exactly the sorted list. |
| `Monitor.ProcessMonitor.SortBy` | python9.py:105-112 | The rows are permuted so that their keys are `l.sort(reverse=reverse)` of the old keys, ascending or descending. The sorted column's heading is rebound to `not reverse`, and the other headings are kept. |
| `Monitor.ProcessMonitor.ClickHeading` | python9.py:219 | A heading click sorts its column in the heading's current direction, then flips that direction. Only the rows and the headings change; the item count and the history are kept. |
| `Monitor.ProcessMonitor.PressSortByPid` | python9.py:193 | The button sorts by PID ascending and leaves the PID heading sorting descending. Only the rows and the headings change; the item count and the history are kept. |
| `Headings.Directions.Set` | python9.py:112 | Rebinding one heading changes that heading's direction only. |
| `Headings.HeadingsAlternate` | python9.py:112 | A column sorts descending next exactly when its heading has been clicked an odd number of times, so its first click sorts ascending. For every column but PID this holds with "Sort by PID" presses mixed in; for PID it holds over heading clicks alone. |
| `Headings.ButtonThenPidHeadingDescends` | python9.py:193 | After the "Sort by PID" button, the PID heading sorts descending. |
| `History.WindowIsRecent` | python9.py:79 | `data_history[-10:]` holds min(10, len(history)) snapshots, the most recent ones, oldest first. |
| `History.WindowSlides` | python9.py:79 | After a refresh appends a snapshot, the window ends with it. The oldest entry drops out once the window was full. |
| `History.Unzip` | python9.py:80 | `zip(*snapshot)` gives three columns as long as the snapshot, and an empty snapshot gives three empty columns. |
| `History.ZipUnzip` | python9.py:80 | The three columns zip back to the snapshot. |
| `History.ChartSeries` | python9.py:79-82 | One series is plotted per snapshot of the window, oldest first, and each holds exactly that snapshot's columns. |
| `Monitor.ProcessMonitor.SelectedPid` | python9.py:32 | `item()` yields a pid exactly when one row is selected, and it is the pid that row shows. |
| `Monitor.ProcessMonitor.Kill` | python9.py:27-39 | With no selection: a warning, no OS call, nothing changed. With several: `item()` fails before any call. With one: terminate is asked for its pid. On success or NoSuchProcess the table is refreshed, with the rows, item count and history a refresh gives; any other exception ends the command with nothing changed. |
| `Monitor.ProcessMonitor.SetPriority` | python9.py:114-128 | With no selection: a warning and no OS call. With several: `item()` fails. With one: the process's nice value is set to the priority. NoSuchProcess and ValueError are reported; AccessDenied escapes. |

## Left out

- Widgets, layout, colours and `toggle_theme` (python9.py:88-103, 158-225) are user interface only.
- Message boxes are reduced to the `Outcome` a command ends with.
- Chart drawing in `show_3d_chart` and `show_historical_data` (python9.py:66-86) is left out. The model keeps the window at line 79 and the column split at line 80.
- `show_process_details` (python9.py:41-52) only reads the OS and shows a message.
- `export_data` (python9.py:130-137) is file I/O.
- `show_system_info` (python9.py:139-143) is OS reads and float formatting.
- `root.after(2000, …)` at line 25 is the event loop's timer. A refresh is modelled as one call of `Refresh`.
- psutil is not part of this model. The enumeration is an input sequence of probes. The operating system's answer to `terminate` or `nice` is an input `OsReply`.
- Real psutil behaves differently from the modelled probes. `process_iter` with an attribute list drops processes that vanish. It stores `None` for an attribute it may not read. So the `except` at python9.py:22 does not fire in practice. Search and filter would fail on `None.lower()` or `None >= x` rather than on a raised exception. The readable/unreadable probe is an assumed abstraction of that enumeration, not psutil's behaviour.
- Python's `str()` of a float is not defined: the class carries it as the constant function `floatText`.
- `Text.Lower` maps only the ASCII letters; Unicode case mapping is not modelled.
- `Text.RowId` follows Tk's own numbering of items inserted without an explicit id. That numbering lives in Tk, not in the script.
- `l.sort()` is Timsort. The model sorts by insertion (`Sorting.SortKeys`), and `Sorting.SortedUnique` shows that every correct sort gives the same list.
- `cpu_filter_var`, `memory_filter_var` and `priority_var` are bound to no entry widget, so the source always passes 0.0, 0.0 and 0. The model keeps the thresholds and the priority as parameters.
- Integer widths do not arise: pids, counts and serials are unbounded naturals, and percentages are reals compared with `>=` only.
