# alloc-track, modelled in Dafny

alloc-track is a Rust global allocator wrapper. It forwards every allocation
to an inner allocator and records as it goes:

- the slot of the thread that made each allocation;
- per slot, how many bytes the slot allocated;
- a matrix of how many bytes each slot freed of memory that each other slot
  allocated;
- optionally, per call-site backtrace hash, the bytes allocated and freed
  and the number of allocations.

A per-thread flag (`IN_ALLOC`) keeps the allocator from tracking its own
bookkeeping allocations. Two reports are built from this state:

- a per-thread report, keyed by thread name;
- a per-backtrace report, filtered, sorted by bytes in use, and rendered as
  text or CSV.

This project models that core as a sequential state machine and proves what
the code promises about it.

| file | module | what it holds |
|---|---|---|
| `wrappers.dfy` | `Wrappers` | `Option`, `Result`, `Outcome` |
| `strings.dfy` | `Strings` | decimal rendering of counters and its parser, prefix test, split on a character |
| `track_config.dfy` | `TrackConfig`, `UnsignedMath` | `MAX_THREADS`, `BacktraceMode`, `saturating_sub` |
| `size_fmt.dfy` | `SizeFmt` | `Size` display: unit choice at 1024-byte steps |
| `backtraces.dfy` | `Backtraces` | `HashedBacktrace::capture`, equality by hash, `BacktraceMetric::in_use`, `TraceInfo`, the short-mode symbol filter, the `display_short` loop |
| `csv.dfy` | `Csv` | the escaping of `BacktraceReport::csv`, the `csv` loop itself, and a reader proving the output parses back |
| `report_order.dfy` | `ReportOrder` | the sort by bytes in use of `backtrace_report` |
| `thread_reports.dfy` | `ThreadReports` | `thread_report` as a fold over a snapshot, and what each row holds |
| `alloc_track.dfy` | `AllocTrack` | the thread context (`THREAD_ID`, `IN_ALLOC`), the `Tracker` class holding `THREAD_STORE`, `PTR_MAP` and `TRACE_MAP`, `alloc`, `dealloc`, and both reports as methods |

How the state is modelled:

- `THREAD_STORE` becomes two arrays of `Tracker`: `allocs[slot]`, and
  `frees[freer, allocator]` as an `array2`.
- `PTR_MAP` and `TRACE_MAP` are `map` fields.
- The wrapped allocator is an oracle. The address it returns is a parameter
  of `Alloc`. The log `innerCalls` holds the caller's own `alloc` and
  `dealloc` requests and the calls the report makes while collecting,
  cloning and dropping, in order. It does not hold the allocator calls the
  tracker's bookkeeping makes inside `alloc` (see "Left out").
- The current call stack is a parameter of `Alloc`, and the hash of its
  instruction pointers is an uninterpreted function `hasher`.
- A panic (`assert!`, `expect`, an out-of-range index) becomes a `Failure`
  result. `enter_alloc` has no drop guard, so on those paths the model leaves
  `IN_ALLOC` set, as the code does.
- Thread names for `thread_report` are a given slot-to-name map.
  - With the `fs` feature, this map stands in for the OS lookup.
  - Without it, the names are `IndexNames`, the decimal slot index.
- The text renderings of a backtrace are parameters of the CSV writer: the
  formatter's output for the short lines, and `{:?}` for full mode.
- `backtrace_report` calls the allocator three times over:
  - while it collects and sorts the report with the flag set (the vector
    growing, the backtraces resolved and cloned). These calls are a
    parameter, `collecting`, and go through the re-entrant paths of `Alloc`
    and `Dealloc`.
  - when it clones its result with the flag clear. The clone's blocks are a
    parameter, and their allocations go through the tracked path of `Alloc`.
  - when it drops the original with the flag set. The freed blocks are a
    parameter, and their frees go through the re-entrant path of `Dealloc`.

Where the code and its documentation disagree, the model follows the code:

- The doc comments of `ThreadMetric.total_did_free` and `total_freed` are
  swapped relative to what `thread_report` stores. In the code,
  `total_did_free` is what named slots freed of this slot's memory, and
  `total_freed` is everything this slot freed.
- The flag handling of `enter_alloc` is a restore only when the work returns.
  `backtrace_report` ends with the flag false whatever it was before.

## Model

| member | source | states |
|---|---|---|
| `Strings.NatToStringRoundTrip` | src/backtrace_support.rs:170-178 | the decimal rendering of a counter parses back to the same number |
| `Strings.NatToStringInjective` | src/lib.rs:375 | distinct slot indices render to distinct names |
| `UnsignedMath.SaturatingSub` | src/backtrace_support.rs:144 | the result is the difference when it is not negative, else 0, and never exceeds the minuend |
| `SizeFmt.ScaleSize` | src/lib.rs:192-202 | B below 1024, KB below 1024², MB from there on, in both directions; the shown figure is the integer quotient by the unit (floor bounds), below 1024 except in MB |
| `SizeFmt.ShowSize` | src/lib.rs:194-200 | the text `"<n> <unit>"` reads back as exactly the scaled value, and the figure has no leading zero |
| `SizeFmt.SizeThresholds` | src/lib.rs:194-200 | the results at 1023, 1024, 1024²-1, 1024² and 5 MiB + 7 |
| `Backtraces.Ips` | src/backtrace_support.rs:42-45 | the sequence hashed is the instruction pointer of every frame, in order |
| `Backtraces.Capture` | src/backtrace_support.rs:33-51 | with mode None there is no stack and the hash is 0; otherwise the stack is kept and the hash is of its instruction pointers |
| `Backtraces.SameSite` | src/backtrace_support.rs:114-118 | `eq` of `HashedBacktrace`: two captures are equal exactly when their hashes are |
| `Backtraces.SameSiteIsEquivalence` | src/backtrace_support.rs:114-120 | equality by hash is reflexive, symmetric and transitive |
| `Backtraces.SameSiteIgnoresFrames` | src/backtrace_support.rs:114-118 | changing the stack keeps equality; changing the hash breaks it |
| `Backtraces.CaptureDeduplicates` | src/backtrace_support.rs:33-51 | two captures with the same instruction pointers are equal; with mode None every two captures are |
| `Backtraces.InUse` | src/backtrace_support.rs:143-145 | allocated minus freed when freed is not larger, else 0; never above allocated |
| `Backtraces.MetricOf` | src/lib.rs:266-271 | the metric copies the four fields of the record |
| `Backtraces.IsHiddenName` | src/backtrace_support.rs:87-100 | the name test of the short-mode filter, decided by the lemmas below |
| `Backtraces.IsShown` | src/backtrace_support.rs:86-100 | a symbol is printed unless it has a name that the filter hides |
| `Backtraces.IsHiddenNameByTable` | src/backtrace_support.rs:87-100 | a name is hidden exactly when, after one leading `<` is stripped, it starts with one of the four prefixes or equals one of the five names |
| `Backtraces.OneAngleIgnored` | src/backtrace_support.rs:88 | one leading `<` does not change the verdict |
| `Backtraces.TwoAnglesNeverHidden` | src/backtrace_support.rs:88 | only one `<` is stripped: a name starting `<<` is never hidden |
| `Backtraces.HiddenImplFrame` | src/backtrace_support.rs:88-91 | a `<alloc::...` trait-impl frame is hidden |
| `Backtraces.HiddenOwnFrames` | src/backtrace_support.rs:89-90 | the crate's own frames and `__rg_alloc` are hidden |
| `Backtraces.ShownNearMisses` | src/backtrace_support.rs:89-97 | names that only nearly match a prefix or an exact name are shown |
| `Backtraces.KeptSymbolsMembership` | src/backtrace_support.rs:86-104 | a frame's printed symbol lines are exactly its shown symbols |
| `Backtraces.KeptSymbolsStep` | src/backtrace_support.rs:86-104 | one more symbol adds its line to a frame's kept lines exactly when the filter shows it |
| `Backtraces.PrintedExtend` | src/backtrace_support.rs:84-108 | what is printed for a stack is what is printed for all but its last frame, plus that frame's lines |
| `Backtraces.ShortLinesMembership` | src/backtrace_support.rs:84-108 | a line is printed iff it is a shown symbol of some frame, or the raw address of a frame with no symbols |
| `Backtraces.ShortLinesStep` | src/backtrace_support.rs:84-108 | the lines of a stack with one more frame are those of the first frames plus that frame's lines |
| `Backtraces.DisplayShort` | src/backtrace_support.rs:65-111 | the nested loop with its `continue`s produces exactly the short-mode lines of the stack |
| `Backtraces.DisplayFrame` | src/backtrace_support.rs:85-107 | the inner loop over one frame's symbols, with the `continue` on hidden names, yields exactly that frame's lines: its shown symbols, or its address when it has no symbols |
| `Csv.ReplaceChar` | src/backtrace_support.rs:204-205 | `str::replace` of one character by a string, decided by the lemmas below |
| `Csv.Escape` | src/backtrace_support.rs:204-205 | backslashes doubled first, then newlines written as `\` `n` |
| `Csv.ReplaceCharConcat` | src/backtrace_support.rs:204-205 | `replace` of one character distributes over concatenation |
| `Csv.EscapeCons` | src/backtrace_support.rs:204-205 | the two replacements act character by character |
| `Csv.UnescapeEscape` | src/backtrace_support.rs:204-205 | unescaping the escaped text gives the original text back |
| `Csv.EscapeHasNoNewline` | src/backtrace_support.rs:215-216 | the escaped text contains no raw newline |
| `Csv.OtherOrderLosesNewline` | src/backtrace_support.rs:204-205 | with the replacements in the other order a newline would read back as `\` `n`; in the code's order it reads back as a newline |
| `Csv.MetricFields` | src/backtrace_support.rs:169-180 | `csv_write`: allocated, allocations, avg, freed and in use, separated by commas |
| `Csv.RowsSnoc` | src/backtrace_support.rs:194-221 | one more entry adds its row and a newline at the end |
| `Csv.CsvStep` | src/backtrace_support.rs:194-221 | one loop iteration appends the entry's row to what the previous entries wrote |
| `Csv.WriteCsv` | src/backtrace_support.rs:187-223 | for a report whose entries all have a stack and a mode other than None, the output is the header followed by one row per entry, in report order |
| `Csv.DecimalIsPlain` | src/backtrace_support.rs:170-178 | a decimal field contains no comma, no newline and no quote |
| `Csv.RowLineShape` | src/backtrace_support.rs:170-206 | a row is allocated, allocations, avg, freed, in_use, then the quoted escaped stack text, joined by commas |
| `Csv.RowLineHasNoNewline` | src/backtrace_support.rs:170-216 | a row has no raw newline |
| `Csv.ParseFields` | src/backtrace_support.rs:170-178 | six comma-joined fields of that shape read back as the six values |
| `Csv.ParseSplitFields` | src/backtrace_support.rs:198-206 | five comma-free fields holding the five values, then a quoted field holding the text, read back as that record |
| `Csv.RowLineParses` | src/backtrace_support.rs:170-216 | every row reads back as allocated, allocations, avg, freed, in_use and the unescaped stack text of its entry |
| `Csv.RecordsOf` | src/backtrace_support.rs:194 | one record per entry, in report order |
| `Csv.RowsParse` | src/backtrace_support.rs:194-221 | the rows read back as one record per entry, in order |
| `Csv.ParseRowsCons` | src/backtrace_support.rs:194-221 | a newline-free row that reads back as a record, followed by rows that read back as records, reads back as the whole list |
| `Csv.CsvRoundTrip` | src/backtrace_support.rs:187-223 | the output starts with the exact header and reads back as the records of the entries, in order |
| `Csv.RowsNewlines` | src/backtrace_support.rs:194-221 | the rows hold exactly one newline per entry |
| `Csv.NewlineCount` | src/backtrace_support.rs:199-207 | a newline-terminated row adds exactly one newline |
| `ReportOrder.AtLeastPermutation` | src/lib.rs:278 | a lower bound on the keys carries over to a permutation |
| `ReportOrder.Insert` | src/lib.rs:278 | inserting into a sorted report keeps it sorted and adds exactly that entry |
| `ReportOrder.InsertAfterHead` | src/lib.rs:278 | an entry with at least the head's bytes in use goes after the head: the result stays sorted and gains exactly that entry |
| `ReportOrder.InsertBeforeHead` | src/lib.rs:278 | an entry with fewer bytes in use than the head goes in front: the result stays sorted and gains exactly that entry |
| `ReportOrder.SortByInUse` | src/lib.rs:278 | the result is ordered by `saturating_sub(allocated, freed)` and is a permutation of the input |
| `ThreadReports.DidFree` | src/lib.rs:387-399 | `total_free` of the inner loop after the first n freers |
| `ThreadReports.FreedBy` | src/lib.rs:387-398 | `freed_by_others` of the inner loop after the first n freers |
| `ThreadReports.AddSlot` | src/lib.rs:384-405 | the body of the outer loop for one named slot |
| `ThreadReports.ReportUpTo` | src/lib.rs:379-406 | the report after the outer loop has visited the first n slots |
| `ThreadReports.ThreadReport` | src/lib.rs:379-406 | `thread_report` over a snapshot of the counters and the matrix |
| `ThreadReports.ReportUpToKeys` | src/lib.rs:379-384 | after the first n slots, a name has a row iff a named slot among them has that name |
| `ThreadReports.ThreadReportKeys` | src/lib.rs:379-385 | the report has a row for a name iff some slot has that name; unnamed slots add none |
| `ThreadReports.MergeAdd` | src/lib.rs:397 | adding two freed-by maps adds per name and keeps every name of either |
| `ThreadReports.FreedByAt` | src/lib.rs:388-398 | the inner loop adds to each name the nonzero cells of the freers of that name, on top of the starting value |
| `ThreadReports.FreedBySplits` | src/lib.rs:388-398 | the inner loop from any start equals that start plus the loop from empty |
| `ThreadReports.PlusEmpty` | src/lib.rs:384 | the default metric is a unit for adding metrics |
| `ThreadReports.AddSlotIsPlus` | src/lib.rs:384-405 | a slot's contribution to the row under its name is a sum of that slot's own metric onto the row |
| `ThreadReports.NamedTotalOfUnused` | src/lib.rs:379-385 | a name no slot carries totals to the empty metric |
| `ThreadReports.ReportUpToAccumulates` | src/lib.rs:379-406 | after the first n slots, the row of a name is the sum of the metrics of the slots with that name |
| `ThreadReports.ThreadReportAccumulates` | src/lib.rs:384-385 | slots sharing a display name accumulate into one row |
| `ThreadReports.NamedTotalOfUnique` | src/lib.rs:379-406 | a name held by one slot only totals to that slot's metric |
| `ThreadReports.ThreadReportOfUniqueName` | src/lib.rs:379-406 | the row of a uniquely named slot is that slot's own metric |
| `ThreadReports.MapSumAdd` | src/lib.rs:397 | adding c under a name raises the total by c |
| `ThreadReports.FreedByTotals` | src/lib.rs:396-399 | `freed_by_others` adds up to `total_did_free` |
| `ThreadReports.SumStep` | src/lib.rs:393-398 | one iteration of the inner loop raises the freed-by total and `total_free` alike |
| `ThreadReports.FreedByEntries` | src/lib.rs:388-398 | a name is in `freed_by_others` iff a slot of that name freed a nonzero amount of this slot's memory, and its value is the sum over such slots |
| `ThreadReports.SlotMetricFields` | src/lib.rs:383-405 | a slot's metric: `total_alloc` is its counter, `total_did_free` the sum of its column over named freers, `total_freed` the sum of its own row over all slots, `current_used` the saturating difference, `freed_by_others` as above |
| `ThreadReports.DidFreeAllNamed` | src/lib.rs:388-399 | when every slot is named, `total_did_free` is the whole column |
| `ThreadReports.NamedColumnOfUnique` | src/lib.rs:388-398 | the freed-by value of a uniquely named freer is its one cell |
| `ThreadReports.NamedColumnOfNone` | src/lib.rs:388-398 | a name no freer carries has a freed-by value of 0 |
| `ThreadReports.IndexNames` | src/lib.rs:375 | without the `fs` feature every slot has a name |
| `ThreadReports.IndexNamedReport` | src/lib.rs:375-406 | with index names every slot has a row of its own, equal to its own metric |
| `ThreadReports.MainWorkerScenario` | src/lib.rs:379-406 | main allocates 1024 and worker frees them. Main's row then shows 1024 freed by worker and nothing in use. Worker's row shows no allocation and 1024 freed. |
| `AllocTrack.RecordAlloc` | src/lib.rs:153-163 | the first allocation at a hash creates a record holding its stack, its mode, the size and one allocation; later ones add their size and one allocation; other records are unchanged |
| `AllocTrack.RecordFree` | src/lib.rs:176-181 | the freed size is added to the record of the hash if there is one, and nothing changes otherwise |
| `AllocTrack.SameSiteSharesRecord` | src/lib.rs:153-163 | two allocations at the same site give one record, holding the first stack, the sum of the sizes and allocations == 2 |
| `AllocTrack.FreeUndoesAlloc` | src/lib.rs:153-181 | freeing an allocation of the same size restores the record's bytes in use, over-freed records included |
| `AllocTrack.Selected` | src/lib.rs:265-277 | the entries of the records the filter keeps |
| `AllocTrack.EntryOf` | src/lib.rs:266-276 | a report entry pairs the record's stack with its metric |
| `AllocTrack.SelectedStep` | src/lib.rs:265-277 | visiting one more record adds its entry if the filter keeps it; no entry is counted twice |
| `AllocTrack.SelectedPrintable` | src/lib.rs:266-276 | when every record has the tracker's mode and the mode is not None, each selected entry has a stack and that mode, so the CSV writer accepts it |
| `AllocTrack.Consistent` | src/lib.rs:141-184 | the invariant of `PTR_MAP` and `TRACE_MAP` that `alloc` and `dealloc` keep |
| `AllocTrack.AllocKeepsConsistent` | src/lib.rs:141-163 | a tracked allocation keeps the maps consistent: every pointer has a slot below 1024 and, unless the mode is None, a record under its hash; the records are keyed by their hash and carry the mode and at least one allocation |
| `AllocTrack.FreeKeepsConsistent` | src/lib.rs:175-184 | a tracked free of a known pointer finds its record when the mode is not None, and keeps the maps consistent |
| `AllocTrack.Addresses` | src/lib.rs:279 | the addresses handed out for the clone's allocations, and no others |
| `AllocTrack.Raised` | src/lib.rs:141 | one slot's counter raised by a number of bytes |
| `AllocTrack.RaisedAt` | src/lib.rs:141 | only that slot's counter moves, and by exactly that number |
| `AllocTrack.PtrsAfter` | src/lib.rs:144-151 | `PTR_MAP` after the clone's tracked allocations, one after the other |
| `AllocTrack.TraceAfter` | src/lib.rs:153-163 | `TRACE_MAP` after the clone's tracked allocations, one after the other |
| `AllocTrack.RequestStep` | src/lib.rs:128-165 | one more allocation of the clone is one more step of each of these folds |
| `AllocTrack.PtrsAfterOwned` | src/lib.rs:144-151 | after the clone, every handed-out address belongs to the calling slot and every other address keeps its entry, so the report can later be dropped without a double free |
| `AllocTrack.TraceAfterKeys` | src/lib.rs:153-163 | after the clone, the ledger has a record for the stack of every clone allocation and no other new record |
| `AllocTrack.ThreadCtx.constructor` | src/lib.rs:73-77 | a thread starts with its slot and the flag clear |
| `AllocTrack.ThreadCtx.Enter` | src/lib.rs:79-81 | the flag is saved and set |
| `AllocTrack.ThreadCtx.Leave` | src/lib.rs:83 | the saved flag is put back, true or false |
| `AllocTrack.Tracker.Valid` | src/lib.rs:38-71 | one counter per slot, a square matrix of slots, and the `Consistent` invariant on the two maps |
| `AllocTrack.Tracker.constructor` | src/lib.rs:63-71 | every counter is zero and the maps are empty |
| `AllocTrack.Tracker.FreeMatrix` | src/lib.rs:48 | the free matrix as values, row j being what slot j freed |
| `AllocTrack.Tracker.Alloc` | src/lib.rs:124-166 | re-entrant: only the inner call happens. Slot at or over 1024: the inner call happens, then nothing is recorded, the assertion fails and the flag stays set. Otherwise: the slot's counter grows by the size and no other does; the address maps to the slot and the hash; the ledger records the allocation unless the mode is None; the flag is restored. The invariant is kept. |
| `AllocTrack.Tracker.Dealloc` | src/lib.rs:168-186 | re-entrant: only the inner call happens. Unknown address: "double free", with the maps, the matrix and the call log unchanged and the flag left set. Otherwise: the address is removed; its record, always present when the mode is not None, gets the size as freed; the inner call happens; exactly one cell, `frees[slot, allocator]`, grows by the size, and the alloc counters are untouched. A slot at or over 1024 fails at that index after the rest. |
| `AllocTrack.Tracker.BacktraceReport` | src/lib.rs:260-285 | the report is a permutation of the entries of the records the filter kept at the start, sorted by bytes in use, each with a stack and the tracker's mode. The clone is made with the flag clear: its allocations are tracked for the calling slot (its counter, `PTR_MAP` and `TRACE_MAP`). The drop of the original is made with the flag set, so its frees only reach the wrapped allocator. The calls made while collecting reach the wrapped allocator first, and the call log is those calls, then the clone's allocations, then the drop's frees. The flag is false on exit. A slot at or over 1024 fails on the first allocation of the clone, with the flag left set. |
| `AllocTrack.Tracker.HandOver` | src/lib.rs:263-283 | after the sort: the collecting calls and then the drop's frees are passed straight through, the clone in between is tracked for the calling slot, the report is returned as it is, and the flag is left clear; a slot at or over 1024 fails on the clone's first allocation |
| `AllocTrack.Tracker.TrackOne` | src/lib.rs:128-165 | one allocation of the clone takes the tracked path of `alloc` |
| `AllocTrack.Tracker.CloneAllocs` | src/lib.rs:279 | `out.clone()` with the flag clear: the calling slot's counter grows by the bytes requested, and the maps and the call log follow the folds above |
| `AllocTrack.Tracker.PassThrough` | src/lib.rs:263-281 | allocator calls made with the flag set (while collecting, and by `drop(out)`) only reach the wrapped allocator: they are appended to the call log in order, and the counters, the matrix and both maps are unchanged |
| `AllocTrack.Tracker.CollectSelected` | src/lib.rs:265-277 | the loop over `TRACE_MAP` collects exactly the entries of the records the filter keeps, each once |
| `AllocTrack.Tracker.ThreadReport` | src/lib.rs:356-408 | the nested loops compute exactly the fold over the current counters and matrix |
| `AllocTrack.Tracker.FreedOf` | src/lib.rs:387-398 | the inner loop over freers yields `total_free` as the sum of the column over named freers and `freed_by_others` as the fold over them |
| `AllocTrack.Tracker.FreedBySlot` | src/lib.rs:400-404 | the sum of `free_records` is the sum of the slot's own row |
| `AllocTrack.CrossThreadFree` | src/lib.rs:124-186 | slot 0 allocates 1024 bytes at address 42 and slot 1 frees them. `PTR_MAP` records slot 0 as the owner. The free passes, the cell `frees[1, 0]` becomes 1024 while slot 0's own counter does not move, and a second free is a double free |
| `AllocTrack.ReportAfterFree` | src/lib.rs:124-186 | after that allocation and free in short mode, the backtrace report holds the one record, with its captured stack, allocated = freed = 1024, one allocation and nothing in use |
| `AllocTrack.ReportCloneIsTracked` | src/lib.rs:260-285 | slot 0 allocates 1024 bytes at address 42 and asks for a report. Collecting allocates 48 bytes at address 9 with the flag set, the clone allocates 48 bytes at address 7, and the drop frees address 9. The report is the one record, with 1024 allocated, nothing freed and one allocation. Slot 0's counter is 1024 + 48. A later drop of the clone at address 7 passes. The logged calls are those five, in that order; the capture's and the maps' own calls made inside the two tracked allocations are not logged. |
| `AllocTrack.ReportOneRecord` | src/lib.rs:260-285 | the report step of that scenario: the one entry, the call log of four calls, `PTR_MAP` with the clone's address owned by slot 0 and not the collecting block's, and the counter at 1024 + 48 |
| `AllocTrack.SingleSelected` | src/lib.rs:265-277 | with one record the filter keeps, the selection is that record's entry |
| `AllocTrack.SingleEntryReport` | src/lib.rs:278 | a report with the entries of a one-element set is that one entry |

Proof helpers, about sequences and the model's own folds rather than any
line of the code: `Csv.SnocAssoc`, `Csv.AppendAssoc`, `Csv.JoinedFields`,
`ThreadReports.SomeKey`, `ThreadReports.MapSumRemove`,
`AllocTrack.AppendStep`, `AllocTrack.RaisedTwice`, `AllocTrack.RaisedNothing`
and `AllocTrack.RaisedStep`.

## Left out

- Concurrency: DashMap locking, atomic orderings and the timing skew of reports. Each update is one sequential step, and each report reads one consistent state.
- The real inner allocator, `Layout` and raw pointers: addresses are plain numbers chosen by the caller. A null return is recorded like any other address, as the code does.
- OS thread identity: `get_sys_tid`, the stored OS tid with the `fs` feature, and `os_tid_names` via procfs or ToolHelp are replaced by the given name map. The `THREAD_ID_COUNTER` assignment is replaced by the slot given to `ThreadCtx`.
- The `unsafe transmute` initialisation of `THREAD_STORE`: the tracker starts from all-zero arrays.
- Backtrace internals, because they are foreign crates and environment:
  - `Backtrace::new_unresolved`, `resolve` and `DefaultHasher`: the stack is a parameter and the hash an uninterpreted function;
  - `BacktraceFmt` rendering and path stripping against `current_dir`: the text of short and full stacks is a parameter of the CSV writer.
- Floating point: `avg_allocation`, `SizeF64` and the avg column of the CSV, which is a parameter string.
- `fmt::Display` plumbing for `ThreadMetric`, `ThreadReport`, `BacktraceMetric` and `BacktraceReport`, and the name order of the `BTreeMap` (Dafny maps are unordered).
- 64-bit wrap-around of the `usize`/`u64` counters and the `as i64` cast of the sort key: the counters are unbounded naturals.
- ReportOrder.SortByInUse: stability of `sort_by_key` is not stated. The insertion sort that defines it happens to be stable, but the contract states only order and permutation.
- AllocTrack.Tracker.ThreadReport: `thread_report` does not set `IN_ALLOC`, so in the Rust code its own allocations and frees (the `to_string` of each slot index, the map entries and, with `fs`, the name maps) are tracked while the loop runs: they move the calling slot's counter and cell and add entries to `PTR_MAP` and `TRACE_MAP`, and the calling slot's figures include them. The model reads the counters and the matrix as they are at the start of the call and does not model those allocations.
- AllocTrack.Tracker.BacktraceReport: the allocator calls made while collecting and sorting, and the blocks that `out.clone()` and `drop(out)` allocate and free (sizes, addresses and stacks), are given to the method rather than derived from the report, since they depend on `Vec` and `Backtrace` internals. The model does not tie the freed blocks to the blocks allocated while collecting. The order in which `TRACE_MAP` is iterated is left open (nondeterministic choice), so the contract gives the report up to entries with equal bytes in use.
- AllocTrack.Tracker.Alloc: the allocator calls the tracked path makes with the flag set are not in the call log. These are `Backtrace::new_unresolved` inside `capture`, growth of the `PTR_MAP` and `TRACE_MAP` tables, and the free of the unused captured backtrace when the hash already has a record. They reach the wrapped allocator through the re-entrant paths without touching the tracked state, and how many there are depends on `backtrace` and `DashMap` internals.
- The default `GlobalAlloc::realloc` and `alloc_zeroed`: alloc-track does not override them, so they reach the tracker as `alloc` and `dealloc` calls and are not modelled separately.
- The crate's demo program and the `test_os_tid_names` test.
