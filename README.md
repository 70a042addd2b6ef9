# Darshan: the BG/Q module, the STDIO record layout and the op-count rows

This project models three pieces of the Darshan I/O characterisation tool in Dafny.

- **The BG/Q instrumentation module of the Darshan runtime** (`darshan-runtime/lib/darshan-bgq.c`).
  - It keeps one record that describes the job's Blue Gene/Q hardware. The record is captured once, when the module registers with darshan-core.
  - A one-way flag disables the module. Rank 0 exports the record, and shutdown releases it.
  - When ranks share the record, darshan-core reduces it with an operator that compares the integer counters of paired records. The operator reports every mismatch and changes neither record.
  - The module's three globals (`bgq_runtime`, `instrumentation_disabled`, `my_rank`) are the fields of the class `Bgq.BgqModule`. `Initialize`, `BeginShutdown`, `Shutdown` and `GetOutputData` are each proved equal to a pure function on `Bgq.ModuleState`. `SetupReduction` is proved against the shared-id search `Bgq.IsShared`. The lifecycle properties are lemmas about those functions and about runs of calls (`Bgq.Run`).
  - The reduction operator is the method `BgqReduction.RecordReductionOp` over two arrays of records. It is proved equal to the pure function `BgqReduction.Mismatches`. Its inner slot loop is the method `BgqReduction.CompareCounters`.
  - `BgqReduction.Reduce` applies the operator along any grouping (`Schedule`) that the MPI collective may choose. The retained record and whether the reduction is silent are proved not to depend on that grouping (`GroupingIndependent`, `SilenceGroupingIndependent`).
- **The STDIO module's log format** (`darshan-stdio-log-format.h`).
  - The format version `DARSHAN_STDIO_VER` is 1 (`StdioLogFormat.DarshanStdioVer`).
  - The two X-macro enums become the datatypes `Counter` and `FCounter`, with their enumerator values.
  - `struct darshan_stdio_record` becomes `StdioRecord`, with its slot counts and the byte offsets of its flat layout.
- **The data side of `plot_opcounts`** (`darshan-util/pydarshan/darshan/experimental/plots/plot_opcounts.py`).
  - The per-layer summary counters become four rows of seven bars (POSIX, MPI-IO independent, MPI-IO collective, STDIO).
  - The rows are written as CSV text by `as_csv`.
  - A missing counter raises Python's `KeyError`. The model returns `Failure(KeyError(key))`, naming the first key that Python evaluates and finds missing.
  - `TextFormat` models Python's `str(int)`, `','.join` and `str.split` together with their inverses. With them the CSV text is proved to determine the rows.

## Model

| member | source | states |
|---|---|---|
| Bgq.ZeroRecord | darshan-runtime/lib/darshan-bgq.c:159 | the freshly allocated record is all zeros: id, alignment, rank and every counter slot |
| Bgq.Capture | darshan-runtime/lib/darshan-bgq.c:70-105 | capture keeps the id and alignment and sets the rank to `my_rank`. Off BG/Q the counters are left as they were; on BG/Q they hold the hardware values. The timestamp slot holds the clock reading |
| Bgq.BgqModule.constructor | darshan-runtime/lib/darshan-bgq.c:44-51 | the globals start as their static initialisers: no runtime, enabled, rank -1 |
| Bgq.AfterInitialize | darshan-runtime/lib/darshan-bgq.c:111-176 | it is a no-op when a runtime exists or the module is disabled. A zero budget, a budget smaller than the runtime struct, or a failed malloc disables the module and leaves no runtime. Otherwise the record carries the registered id and alignment and the MPI rank, with zero counters when the hardware source is unavailable. The flag never goes from set to clear. A runtime exists afterwards exactly when it existed before or registration succeeded |
| Bgq.BgqModule.Initialize | darshan-runtime/lib/darshan-bgq.c:111-176 | the in-place update of the globals equals `AfterInitialize` of the old state, with the budget compared as signed integers |
| Bgq.InitializeIsIdempotent | darshan-runtime/lib/darshan-bgq.c:127-129 | initialising a second time, whatever darshan-core grants then, changes nothing |
| Bgq.BudgetSuffices | darshan-runtime/lib/darshan-bgq.c:138-150 | the intended memory gate: a zero limit, or one below the struct size, is refused |
| Bgq.NegativeLimitPassesGateAsWritten | darshan-runtime/lib/darshan-bgq.c:146 | as written, the `int` < `size_t` comparison lets any negative limit through the gate, which the intended gate refuses |
| Bgq.GatesAgreeOnNonNegativeLimits | darshan-runtime/lib/darshan-bgq.c:139-150 | for limits of zero or more, the written gate and the intended gate agree |
| Bgq.AfterBeginShutdown | darshan-runtime/lib/darshan-bgq.c:179-193 | begin-shutdown sets the disable flag and leaves the record and the rank alone |
| Bgq.BgqModule.BeginShutdown | darshan-runtime/lib/darshan-bgq.c:179-193 | the in-place update equals `AfterBeginShutdown` of the old state |
| Bgq.AfterShutdown | darshan-runtime/lib/darshan-bgq.c:220-229 | shutdown nulls the runtime and leaves the flag and the rank alone |
| Bgq.BgqModule.Shutdown | darshan-runtime/lib/darshan-bgq.c:220-229 | the in-place update equals `AfterShutdown` of the old state |
| Bgq.ShutdownIsIdempotent | darshan-runtime/lib/darshan-bgq.c:222-226 | a second shutdown is a no-op |
| Bgq.OutputData | darshan-runtime/lib/darshan-bgq.c:196-217 | the record and the record size are exported exactly when a runtime exists and the rank is 0; otherwise null and 0 |
| Bgq.BgqModule.GetOutputData | darshan-runtime/lib/darshan-bgq.c:196-217 | the pointer and size handed back are `OutputData` of the current globals |
| Bgq.NothingExportedAfterShutdown | darshan-runtime/lib/darshan-bgq.c:205-226 | after shutdown, nothing is exported on any rank |
| Bgq.DisabledIsPermanent | darshan-runtime/lib/darshan-bgq.c:139-188 | once set, the disable flag stays set through any sequence of initialise, begin-shutdown and shutdown calls |
| Bgq.DisabledWithoutRecordStaysEmpty | darshan-runtime/lib/darshan-bgq.c:127-158 | a disabled module without a record never holds one again and never exports anything |
| Bgq.RefusedRegistrationExportsNothing | darshan-runtime/lib/darshan-bgq.c:138-158 | a refused budget or failed malloc at the first registration means nothing is ever exported, whatever calls follow |
| Bgq.UnsharedRecordJoinsReductionAsWritten | darshan-runtime/lib/darshan-bgq.c:238-257 | as written, with an empty shared-id list the id is not shared, yet an uninitialised `found` that happens to be non-zero sets the count to 1 and points the send buffer at the record |
| Bgq.BgqModule.SetupReduction | darshan-runtime/lib/darshan-bgq.c:231-260 | if a record exists and its id is among the first `shared_rec_count` shared ids: the record size, a count of 1, and send and receive buffers both at the module's record. Otherwise, including when no record exists, the out-parameters come back unchanged |
| Bgq.RefusedRegistrationThenSetupDereferencesNull | darshan-runtime/lib/darshan-bgq.c:130-158 | the callbacks are registered before the budget check, so after a refused budget or a failed malloc no record exists, and a later setup with a positive shared count would read the id through a null pointer |
| BgqReduction.SlotMismatches | darshan-runtime/lib/darshan-bgq.c:275-287 | the inner loop reports a slot exactly when the two counters differ, with the in-record's id and both values, in increasing slot order |
| BgqReduction.PairMismatches | darshan-runtime/lib/darshan-bgq.c:275-287 | every report of a pair names a genuine disagreement, and each differing slot is reported exactly when its two counters differ |
| BgqReduction.CompareCounters | darshan-runtime/lib/darshan-bgq.c:275-287 | the inner slot loop returns exactly the pair's reports, `PairMismatches` |
| BgqReduction.SilentIffCountersAgree | darshan-runtime/lib/darshan-bgq.c:275-287 | a pair produces no report exactly when its integer counters are equal |
| BgqReduction.SingleDifferenceSingleReport | darshan-runtime/lib/darshan-bgq.c:275-287 | a pair that differs in one slot only produces exactly one report, for that slot |
| BgqReduction.OnlyIdAndCountersCompared | darshan-runtime/lib/darshan-bgq.c:277-285 | the reports depend only on the in-record's id and the two counter arrays, never on the float counters, rank or alignment |
| BgqReduction.SilentIffAllPairsAgree | darshan-runtime/lib/darshan-bgq.c:273-290 | a buffer of pairs produces no report exactly when every pair's counters agree |
| BgqReduction.MismatchesAreGenuine | darshan-runtime/lib/darshan-bgq.c:273-290 | every report of a buffer of pairs names a disagreement of one of the pairs |
| BgqReduction.MismatchesExtend | darshan-runtime/lib/darshan-bgq.c:273-290 | processing one more pair appends exactly that pair's reports |
| BgqReduction.RecordReductionOp | darshan-runtime/lib/darshan-bgq.c:262-293 | the operator modifies neither buffer. It returns the reports of the first `len` pairs in order (none for a non-positive `len`), comparing each pair with `CompareCounters` |
| BgqReduction.RightmostIsLastRank | darshan-runtime/lib/darshan-bgq.c:262-293 | along any grouping, the record kept in the final in-out buffer is that of the last rank combined |
| BgqReduction.Reduce | darshan-runtime/lib/darshan-bgq.c:262-293 | applying the operator along a grouping keeps the rightmost contribution's record, and every report names two differing values |
| BgqReduction.GroupingIndependent | darshan-runtime/lib/darshan-bgq.c:262-293 | two groupings of the same ranks in the same order retain the same record |
| BgqReduction.SilenceGroupingIndependent | darshan-runtime/lib/darshan-bgq.c:262-293 | two groupings of the same ranks in the same order are either both silent or both report |
| BgqReduction.SilentIffAllAgree | darshan-runtime/lib/darshan-bgq.c:273-290 | a reduction is silent exactly when every contribution's counters equal the retained record's |
| BgqReduction.DisagreementIsReported | darshan-runtime/lib/darshan-bgq.c:273-290 | if two contributing ranks hold different counters, some report is printed |
| BgqReduction.FoldsRetainTheSameRecord | darshan-runtime/lib/darshan-bgq.c:262-293 | left-to-right and right-to-left combination of all ranks both retain the last rank's record |
| StdioLogFormat.Index | darshan-stdio-log-format.h:13-66 | each integer counter's enumerator value is its position in the X-macro list, below `STDIO_NUM_INDICES` |
| StdioLogFormat.FIndex | darshan-stdio-log-format.h:35-72 | each float counter's enumerator value is its position in the list, below `STDIO_F_NUM_INDICES` |
| StdioLogFormat.IndicesAreConsecutive | darshan-stdio-log-format.h:13-72 | the sentinels equal the list lengths (9 and 11), and the indices are exactly 0 up to the sentinel minus one |
| StdioLogFormat.CounterSlotsAreIndependent | darshan-stdio-log-format.h:83-89 | writing one integer counter of a valid record keeps it valid, gives that counter the new value and leaves every other counter as it was |
| StdioLogFormat.FCounterSlotsAreIndependent | darshan-stdio-log-format.h:83-89 | the same for the float counters |
| StdioLogFormat.CounterOffset | darshan-stdio-log-format.h:83-89 | each integer counter lies after the id and the rank and inside the integer block |
| StdioLogFormat.FCounterOffset | darshan-stdio-log-format.h:83-89 | each float counter lies after every integer slot and inside the record |
| StdioLogFormat.SlotsDoNotOverlap | darshan-stdio-log-format.h:83-89 | distinct counters occupy disjoint 8-byte slots, and every integer slot precedes every float slot |
| OpCounts.Lookup | darshan-util/pydarshan/darshan/experimental/plots/plot_opcounts.py:46-54 | the row's keys are evaluated in order. It succeeds exactly when all are present; otherwise it names the first missing key |
| OpCounts.PosixRow | darshan-util/pydarshan/darshan/experimental/plots/plot_opcounts.py:40-54 | without a POSIX entry the row is all zeros. Otherwise it is READS, WRITES, OPENS, STATS, SEEKS, 0, FSYNCS+FDSYNCS, or a KeyError exactly when a counter is missing, naming the first missing key in the order the source reads them |
| OpCounts.MpiioRows | darshan-util/pydarshan/darshan/experimental/plots/plot_opcounts.py:56-81 | without an MPI-IO entry both rows are zeros. Otherwise the independent row holds the INDEP read, write and open counts and four zeros. The collective row holds the COLL counts, three zeros and MPIIO_SYNCS. A missing counter gives the KeyError of the first missing key in reading order |
| OpCounts.StdioRow | darshan-util/pydarshan/darshan/experimental/plots/plot_opcounts.py:83-98 | without a STDIO entry the row is all zeros. Otherwise it is READS, WRITES, OPENS, 0, SEEKS, 0, FLUSHES, or the KeyError of the first missing key in reading order |
| OpCounts.GatherRows | darshan-util/pydarshan/darshan/experimental/plots/plot_opcounts.py:19-98 | the rows are built POSIX first, then MPI-IO, then STDIO, and the first KeyError wins: a POSIX error first, else an MPI-IO error, else a STDIO error. Every row has `len(labels)` entries and a zero mmap bar |
| OpCounts.EmptySummaryPlotsZeros | darshan-util/pydarshan/darshan/experimental/plots/plot_opcounts.py:20-24 | a summary without any of the three layers gives four rows of zeros |
| OpCounts.HeaderLineCells | darshan-util/pydarshan/darshan/experimental/plots/plot_opcounts.py:104 | the header line splits back into the seven labels and `Layer` |
| OpCounts.RowLineRoundTrip | darshan-util/pydarshan/darshan/experimental/plots/plot_opcounts.py:105-108 | a row line holds no newline, and for a non-empty row (every row built here has seven entries) it reads back as the row and its layer tag |
| OpCounts.CsvLines | darshan-util/pydarshan/darshan/experimental/plots/plot_opcounts.py:104-108 | the text is five lines, the first of them the header line |
| OpCounts.CsvRoundTrip | darshan-util/pydarshan/darshan/experimental/plots/plot_opcounts.py:102-110 | the five newline-terminated lines read back as the four rows |
| OpCounts.CsvText | darshan-util/pydarshan/darshan/experimental/plots/plot_opcounts.py:102-110 | the five lines, newline-terminated, split into six pieces: the lines and a final empty one. The first splits into the labels plus `Layer`, and when every row has seven entries the text reads back as those rows |
| OpCounts.AsCsv | darshan-util/pydarshan/darshan/experimental/plots/plot_opcounts.py:102-110 | the text is exactly the header line and the `','.join(str(x))` lines of the POSIX, MPIIND, MPICOL and STDIO rows, each followed by a newline (`Terminated(CsvLines(rows))`). Its first line splits into the labels plus `Layer`, and reading it back gives the four rows in that order |
| TextFormat.IntRoundTrip | darshan-util/pydarshan/darshan/experimental/plots/plot_opcounts.py:105 | `str(x)` of an integer reads back as `x` |
| TextFormat.IntToStringHasNo | darshan-util/pydarshan/darshan/experimental/plots/plot_opcounts.py:105 | `str(x)` holds only digits and a leading `-`, so it never holds a comma or a newline |
| TextFormat.JoinSnoc | darshan-util/pydarshan/darshan/experimental/plots/plot_opcounts.py:104-108 | appending a part to a non-empty join puts exactly one separator before it |
| TextFormat.Split | darshan-util/pydarshan/darshan/experimental/plots/plot_opcounts.py:104-108 | the reading side of the CSV text: splitting gives at least one piece, and no piece holds the separator |
| TextFormat.SplitJoin | darshan-util/pydarshan/darshan/experimental/plots/plot_opcounts.py:104-108 | `sep.join(parts)` splits back into `parts` when no part holds the separator |
| TextFormat.ParseIntsRoundTrip | darshan-util/pydarshan/darshan/experimental/plots/plot_opcounts.py:105-108 | the strings of a row of integers read back as the row |

## Left out

- The recursive pthread mutex and `BGQ_LOCK`/`BGQ_UNLOCK` (darshan-bgq.c:45, 64-65) are concurrency, so the class is single-threaded. The early returns of `bgq_runtime_initialize` (lines 129, 142, 149, 157) leave the mutex locked, and that is not modelled.
- The BG/Q kernel and personality queries in `capture` (`Kernel_GetJobID`, `Kernel_GetPersonality`, `MPIX_IO_node`, the torus flag mask) are foreign hardware calls. Their result is the opaque input `HardwareSource`.
- `darshan-bgq-log-format.h` is not part of this model. The eleven integer slots are the eleven counters `capture` writes. The single float slot is `BGQ_F_TIMESTAMP`, at index 0.
- `sizeof(struct bgq_runtime)` is a constructor parameter (`recordSize`), because the struct's size depends on that header and on the platform.
- `recordSize` stands both for `sizeof(*bgq_runtime)` (line 146) and for `sizeof(struct darshan_bgq_record)` (lines 208 and 253). The two are equal because `struct bgq_runtime` holds only the record.
- Bgq.Capture: when `Kernel_GetPersonality` fails (lines 81-98), the torus and DDR slots keep the zeros of the `memset`. That case is folded into `HardwareSource.Available`, whose values then hold those zeros; only the off-BG/Q build is `Unavailable`.
- `darshan_core_wtime` is a clock. Its reading is the real-valued `now` parameter, with no floating-point rounding.
- `darshan_core_register_module`, `darshan_core_register_record` and `PMPI_Comm_rank` are darshan-core and MPI calls. The granted limit, the assigned id and alignment, malloc's success and the rank are fields of the `Grant` parameter.
- The MPI collective that applies `bgq_record_reduction_op` is not modelled as such. The operator is modelled, plus `BgqReduction.Reduce` over any grouping of the contributions.
- The `fprintf` output of the reduction operator is returned as a sequence of `Mismatch` reports. The text format of those lines is not modelled.
- Bgq.BgqModule.SetupReduction: the `printf("found bgq shared record\n")` (line 252) is console output and is dropped.
- Bgq.BgqModule.SetupReduction: requires that the shared-id list holds at least `shared_rec_count` ids, as a C array of that length would; reading past the end of the array is not modelled.
- Bgq.BgqModule.GetOutputData: the buffer is returned as the record value, not as an address, so aliasing of the exported buffer with the module's record is not captured.
- Bgq.BgqModule.SetupReduction: the send and receive buffers are the tags `ModuleRecord`/`Null`/`OtherBuffer`, not addresses.
- `StdioLogFormat.StdioRecord.Get` and `GetF` only index a valid record. C arrays index without checks, and out-of-range access is not modelled.
- Everything in `plot_opcounts.py` besides row building and `as_csv` is left out: the `agg_ioops` call and its `print`s, `print(as_csv())`, the matplotlib and numpy plotting, the bar geometry and the annotations. These are UI and side effects.
- `darshan-util/pydarshan/tests/test_summary.py` runs the command-line tool on a log file and checks for an output file, so it holds no logic to model.
- OpCounts rows hold Python integers (unbounded `int`). The counters' source types are not modelled.

## Findings

| source | as written | input that shows it | evidently intended | confidence | as-written member | corrected member |
|---|---|---|---|---|---|---|
| darshan-runtime/lib/darshan-bgq.c:146 | `mem_limit < sizeof(*bgq_runtime)` compares an `int` with a `size_t`, so a negative limit is converted to a huge unsigned value and passes the gate | a `mem_limit` of -1 from darshan-core: the record is allocated although no memory was granted | refuse every limit below the struct size, negative ones included | low (darshan-core may never grant a negative limit), not executed | Bgq.NegativeLimitPassesGateAsWritten | Bgq.AfterInitialize |
| darshan-runtime/lib/darshan-bgq.c:241-243 | `bgq_runtime->record.f_id` is read without a null check, although `bgq_runtime` stays null when the budget is refused or malloc fails after the module was registered at line 132 | a `mem_limit` of 0, then darshan-core calls the setup callback with `shared_rec_count` of 1: the loop dereferences a null pointer | treat a missing record as unshared, as `bgq_get_output_data` (line 205) and `bgq_shutdown` (line 222) do | low (darshan-core may not call the callbacks of a module without memory), not executed | Bgq.RefusedRegistrationThenSetupDereferencesNull | Bgq.BgqModule.SetupReduction |
| darshan-runtime/lib/darshan-bgq.c:239-250 | `found` is never initialised, so when the id is not among the shared ids the branch reads an indeterminate value | `shared_rec_count` of 0 with a stack slot that holds non-zero: the count is set to 1 and both buffers point at the record | start `found` at 0, so an unshared record leaves the out-parameters unchanged | medium, not executed | Bgq.UnsharedRecordJoinsReductionAsWritten | Bgq.BgqModule.SetupReduction |
