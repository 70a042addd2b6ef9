/**
 * The BG/Q instrumentation module of the Darshan runtime
 * (darshan-runtime/lib/darshan-bgq.c): one record describing the job's
 * hardware, captured once at registration, guarded by a one-way disable
 * flag, exported by rank 0 and released at shutdown.
 *
 * The module's three globals (`bgq_runtime`, `instrumentation_disabled`,
 * `my_rank`) are the fields of class `BgqModule`. `Initialize`,
 * `BeginShutdown`, `Shutdown` and `GetOutputData` are each proved against a
 * pure function on `ModuleState`, and the lifecycle properties are stated and
 * proved about those functions. `SetupReduction` is proved against the
 * shared-id search `IsShared`.
 */
module Bgq {
  import opened DarshanTypes

  /** Integer counter slots of a BG/Q record: the eleven counters `capture` fills. */
  const BgqNumIndices: nat := 11
  /** Floating-point slots of a BG/Q record: the capture timestamp only. */
  const BgqFNumIndices: nat := 1
  /** `BGQ_F_TIMESTAMP`, the float slot `capture` stamps with the wall-clock time. */
  const BgqFTimestamp: nat := 0

  type CounterSlots = s: seq<Int64> | |s| == BgqNumIndices witness seq(BgqNumIndices, _ => 0)
  type FCounterSlots = s: seq<real> | |s| == BgqFNumIndices witness seq(BgqFNumIndices, _ => 0.0)

  /** `struct darshan_bgq_record`: identifier, alignment hint, owning rank and counters. */
  datatype BgqRecord = BgqRecord(
    fId: RecordId,
    alignment: Int32,
    rank: Int64,
    counters: CounterSlots,
    fcounters: FCounterSlots)

  /**
   * What the BG/Q kernel and personality queries report. Off BG/Q the queries
   * are compiled out (`Unavailable`). On BG/Q every slot is reported; a slot the
   * platform could not fill (the personality query failed) is reported as 0,
   * the value `memset` left in it.
   */
  datatype HardwareSource = Unavailable | Available(values: CounterSlots)

  /** The record after `memset(bgq_runtime, 0, sizeof(*bgq_runtime))`. */
  function ZeroRecord(): (r: BgqRecord)
    ensures r.fId == 0 && r.alignment == 0 && r.rank == 0
    ensures forall j :: 0 <= j < BgqNumIndices ==> r.counters[j] == 0
    ensures forall j :: 0 <= j < BgqFNumIndices ==> r.fcounters[j] == 0.0
  {
    BgqRecord(0, 0, 0, seq(BgqNumIndices, _ => 0), seq(BgqFNumIndices, _ => 0.0))
  }

  /**
   * `capture`: fills the counters from the hardware source (left as they are
   * when it is unavailable), sets the owning rank and stamps the time.
   */
  function Capture(rec: BgqRecord, myRank: Int32, hw: HardwareSource, now: real): (r: BgqRecord)
    ensures r.fId == rec.fId && r.alignment == rec.alignment
    ensures r.rank == myRank
    ensures hw.Unavailable? ==> r.counters == rec.counters
    ensures hw.Available? ==> r.counters == hw.values
    ensures r.fcounters[BgqFTimestamp] == now
  {
    var counters := if hw.Available? then hw.values else rec.counters;
    rec.(rank := myRank, counters := counters, fcounters := rec.fcounters[BgqFTimestamp := now])
  }

  /** The module's globals: the runtime record (null or not), the disable flag and the rank. */
  datatype ModuleState = ModuleState(runtime: Option<BgqRecord>, disabled: bool, myRank: Int32)

  /** The globals' static initialisers: no runtime, enabled, rank -1. */
  const Initial: ModuleState := ModuleState(None, false, -1)

  /**
   * Everything the environment supplies to one call of `bgq_runtime_initialize`:
   * the memory limit darshan-core grants, whether `malloc` succeeds, the id and
   * alignment darshan-core assigns to the record, the MPI rank, the hardware
   * source and the wall-clock time.
   */
  datatype Grant = Grant(
    memLimit: Int32,
    mallocSucceeds: bool,
    id: RecordId,
    alignment: Int32,
    rank: Int32,
    hw: HardwareSource,
    now: real)

  /**
   * The memory gate as intended: a limit of zero, or one smaller than the
   * runtime struct, leaves no room for the module.
   */
  predicate BudgetSuffices(memLimit: Int32, recordSize: nat)
  {
    memLimit != 0 && !(memLimit < recordSize)
  }

  /**
   * The memory gate as written: `mem_limit < sizeof(*bgq_runtime)` compares an
   * `int` with a `size_t`, so C first converts the limit to `size_t`
   * (modulo 2^64).
   */
  predicate BudgetSufficesAsWritten(memLimit: Int32, recordSize: nat)
  {
    memLimit != 0 && !(memLimit % SizeTModulus < recordSize)
  }

  /** A negative limit passes the gate as written, though it leaves no room at all. */
  lemma NegativeLimitPassesGateAsWritten(memLimit: Int32, recordSize: nat)
    requires memLimit < 0
    requires recordSize <= SizeTModulus - 0x8000_0000
    ensures BudgetSufficesAsWritten(memLimit, recordSize)
    ensures !BudgetSuffices(memLimit, recordSize)
  {
  }

  /** For every limit darshan-core can sensibly grant (zero or more) the two gates agree. */
  lemma GatesAgreeOnNonNegativeLimits(memLimit: Int32, recordSize: nat)
    requires 0 <= memLimit
    ensures BudgetSufficesAsWritten(memLimit, recordSize) == BudgetSuffices(memLimit, recordSize)
  {
  }

  /**
   * `bgq_runtime_initialize`: a no-op once a runtime exists or instrumentation
   * is disabled; disables the module for good when the budget is refused or the
   * allocation fails; otherwise allocates a zeroed record, registers its id,
   * learns the rank and captures the hardware counters.
   */
  function AfterInitialize(s: ModuleState, g: Grant, recordSize: nat): (t: ModuleState)
    ensures s.runtime.Some? || s.disabled ==> t == s
    ensures s.runtime.None? && !s.disabled && !BudgetSuffices(g.memLimit, recordSize) ==>
              t == ModuleState(None, true, s.myRank)
    ensures s.runtime.None? && !s.disabled && !g.mallocSucceeds ==>
              t == ModuleState(None, true, s.myRank)
    ensures s.runtime.None? && !s.disabled && BudgetSuffices(g.memLimit, recordSize) && g.mallocSucceeds ==>
              && !t.disabled
              && t.myRank == g.rank
              && t.runtime.Some?
              && t.runtime.value.fId == g.id
              && t.runtime.value.alignment == g.alignment
              && t.runtime.value.rank == g.rank
              && (g.hw.Unavailable? ==> forall j :: 0 <= j < BgqNumIndices ==> t.runtime.value.counters[j] == 0)
              && (g.hw.Available? ==> t.runtime.value.counters == g.hw.values)
              && t.runtime.value.fcounters[BgqFTimestamp] == g.now
    ensures s.disabled ==> t.disabled
    ensures t.runtime.Some? <==> s.runtime.Some? || (!s.disabled && BudgetSuffices(g.memLimit, recordSize) && g.mallocSucceeds)
  {
    if s.runtime.Some? || s.disabled then s
    else if g.memLimit == 0 then s.(disabled := true)
    else if g.memLimit < recordSize then s.(disabled := true)
    else if !g.mallocSucceeds then s.(disabled := true)
    else
      var rec := ZeroRecord().(fId := g.id, alignment := g.alignment);
      ModuleState(Some(Capture(rec, g.rank, g.hw, g.now)), s.disabled, g.rank)
  }

  /** Registering a second time, with whatever the environment then supplies, changes nothing. */
  lemma InitializeIsIdempotent(s: ModuleState, g1: Grant, g2: Grant, recordSize: nat)
    ensures AfterInitialize(AfterInitialize(s, g1, recordSize), g2, recordSize) == AfterInitialize(s, g1, recordSize)
  {
  }

  /** `bgq_begin_shutdown`: sets the disable flag; the record and rank stay. */
  function AfterBeginShutdown(s: ModuleState): (t: ModuleState)
    ensures t.disabled
    ensures t.runtime == s.runtime && t.myRank == s.myRank
  {
    s.(disabled := true)
  }

  /** `bgq_shutdown`: frees the record and nulls the pointer; the flag and rank stay. */
  function AfterShutdown(s: ModuleState): (t: ModuleState)
    ensures t.runtime.None?
    ensures t.disabled == s.disabled && t.myRank == s.myRank
  {
    s.(runtime := None)
  }

  /** Shutting down a second time is a no-op. */
  lemma ShutdownIsIdempotent(s: ModuleState)
    ensures AfterShutdown(AfterShutdown(s)) == AfterShutdown(s)
  {
  }

  /** The pointer-and-size pair `bgq_get_output_data` hands back. */
  datatype Export = Export(buffer: Option<BgqRecord>, size: int)

  /**
   * `bgq_get_output_data`: the record and its size exactly when a runtime
   * exists and this is rank 0; otherwise null and 0.
   */
  function OutputData(s: ModuleState, recordSize: nat): (e: Export)
    ensures e.buffer.Some? <==> s.runtime.Some? && s.myRank == 0
    ensures e.buffer.Some? ==> e.buffer == s.runtime && e.size == recordSize
    ensures e.buffer.None? ==> e.size == 0
  {
    if s.runtime.Some? && s.myRank == 0 then Export(s.runtime, recordSize) else Export(None, 0)
  }

  /** After shutdown nothing is exported, on any rank. */
  lemma NothingExportedAfterShutdown(s: ModuleState, recordSize: nat)
    ensures OutputData(AfterShutdown(s), recordSize) == Export(None, 0)
  {
  }

  /** The three calls darshan-core makes that change the module's globals. */
  datatype Call = Initialize(grant: Grant) | BeginShutdown | Shutdown

  function Step(s: ModuleState, c: Call, recordSize: nat): (t: ModuleState)
  {
    match c
    case Initialize(g) => AfterInitialize(s, g, recordSize)
    case BeginShutdown => AfterBeginShutdown(s)
    case Shutdown => AfterShutdown(s)
  }

  /** The globals after a sequence of calls, in order. */
  function Run(s: ModuleState, calls: seq<Call>, recordSize: nat): (t: ModuleState)
    decreases |calls|
  {
    if calls == [] then s else Run(Step(s, calls[0], recordSize), calls[1..], recordSize)
  }

  /** Once disabled, the module stays disabled whatever darshan-core calls next. */
  lemma {:induction false} DisabledIsPermanent(s: ModuleState, calls: seq<Call>, recordSize: nat)
    requires s.disabled
    ensures Run(s, calls, recordSize).disabled
    decreases |calls|
  {
    if calls != [] {
      DisabledIsPermanent(Step(s, calls[0], recordSize), calls[1..], recordSize);
    }
  }

  /**
   * A disabled module without a record never holds one again: no call
   * re-allocates it, and nothing is ever exported.
   */
  lemma {:induction false} DisabledWithoutRecordStaysEmpty(s: ModuleState, calls: seq<Call>, recordSize: nat)
    requires s.disabled && s.runtime.None?
    ensures Run(s, calls, recordSize).disabled
    ensures Run(s, calls, recordSize).runtime.None?
    ensures OutputData(Run(s, calls, recordSize), recordSize) == Export(None, 0)
    decreases |calls|
  {
    if calls != [] {
      DisabledWithoutRecordStaysEmpty(Step(s, calls[0], recordSize), calls[1..], recordSize);
    }
  }

  /**
   * A refused budget or a failed allocation at the first registration leaves
   * the module with nothing to export, on every rank, for the rest of the run.
   */
  lemma RefusedRegistrationExportsNothing(g: Grant, calls: seq<Call>, recordSize: nat)
    requires !BudgetSuffices(g.memLimit, recordSize) || !g.mallocSucceeds
    ensures OutputData(Run(Initial, [Initialize(g)] + calls, recordSize), recordSize) == Export(None, 0)
  {
    var s := AfterInitialize(Initial, g, recordSize);
    assert ([Initialize(g)] + calls)[1..] == calls;
    DisabledWithoutRecordStaysEmpty(s, calls, recordSize);
  }

  /** Where `bgq_setup_reduction` may point the send and receive buffers. */
  datatype Buffer = Null | ModuleRecord | OtherBuffer(address: nat)

  /** The four out-parameters of `bgq_setup_reduction`, as the caller passes them in and gets them back. */
  datatype ReductionSetup = ReductionSetup(recSize: int, sharedRecCount: Int32, sendBuf: Buffer, recvBuf: Buffer)

  /** The record id occurs among the first `count` shared ids. */
  predicate IsShared(sharedRecs: seq<RecordId>, count: int, id: RecordId)
    requires count <= |sharedRecs|
  {
    exists k :: 0 <= k < count && sharedRecs[k] == id
  }

  /**
   * `bgq_setup_reduction` as written: `found` is never initialised, so when the
   * id is not among the shared ids the branch is taken on whatever value the
   * stack slot held (`indeterminate`).
   */
  function SetupAsWritten(sharedRecs: seq<RecordId>, id: RecordId, prior: ReductionSetup, indeterminate: bool, recordSize: nat): (setup: ReductionSetup)
    requires prior.sharedRecCount <= |sharedRecs|
  {
    var found := if IsShared(sharedRecs, prior.sharedRecCount, id) then true else indeterminate;
    if found then ReductionSetup(recordSize, 1, ModuleRecord, ModuleRecord) else prior
  }

  /**
   * With an empty shared-id list the uninitialised flag can still send the
   * module's record into a reduction it has no share in.
   */
  lemma UnsharedRecordJoinsReductionAsWritten(id: RecordId, prior: ReductionSetup, recordSize: nat)
    requires prior.sharedRecCount == 0
    ensures !IsShared([], prior.sharedRecCount, id)
    ensures SetupAsWritten([], id, prior, true, recordSize).sharedRecCount == 1
    ensures SetupAsWritten([], id, prior, true, recordSize).sendBuf == ModuleRecord
  {
  }

  /**
   * `bgq_setup_reduction` as written reads `bgq_runtime->record.f_id` on the
   * first pass of its search loop, with no check that the record exists.
   */
  predicate SetupDereferencesNull(s: ModuleState, sharedRecCount: int)
  {
    s.runtime.None? && sharedRecCount > 0
  }

  /**
   * The callbacks are registered before the budget is checked, so a refused
   * budget or a failed allocation leaves them in place with a null record:
   * any later setup over a non-empty shared-id list reads through null.
   */
  lemma RefusedRegistrationThenSetupDereferencesNull(g: Grant, recordSize: nat, sharedRecCount: int)
    requires !BudgetSuffices(g.memLimit, recordSize) || !g.mallocSucceeds
    requires sharedRecCount > 0
    ensures SetupDereferencesNull(AfterInitialize(Initial, g, recordSize), sharedRecCount)
  {
  }

  /** The module's globals, updated in place by darshan-core's calls. */
  class BgqModule {
    var runtime: Option<BgqRecord>
    var disabled: bool
    var myRank: Int32
    /** `sizeof(struct bgq_runtime)`, a platform constant. */
    const recordSize: nat

    function State(): (s: ModuleState)
      reads this
    {
      ModuleState(runtime, disabled, myRank)
    }

    constructor (recordSize: nat)
      requires 0 < recordSize < SizeTModulus
      ensures State() == Initial
      ensures this.recordSize == recordSize
    {
      this.recordSize := recordSize;
      runtime := None;
      disabled := false;
      myRank := -1;
    }

    method Initialize(g: Grant)
      modifies this
      ensures State() == AfterInitialize(old(State()), g, recordSize)
    {
      if runtime.Some? || disabled {
        return;
      }
      // darshan_core_register_module grants the memory limit
      var memLimit := g.memLimit;
      if memLimit == 0 {
        disabled := true;
        return;
      }
      // compared as signed integers, so that a negative limit is refused too
      if memLimit < recordSize {
        disabled := true;
        return;
      }
      if !g.mallocSucceeds {
        disabled := true;
        return;
      }
      var rec := ZeroRecord();
      // darshan_core_register_record assigns the id and the alignment hint
      rec := rec.(fId := g.id, alignment := g.alignment);
      myRank := g.rank;
      rec := Capture(rec, myRank, g.hw, g.now);
      runtime := Some(rec);
    }

    method BeginShutdown()
      modifies this
      ensures State() == AfterBeginShutdown(old(State()))
    {
      disabled := true;
    }

    method GetOutputData() returns (buffer: Option<BgqRecord>, size: int)
      ensures Export(buffer, size) == OutputData(State(), recordSize)
    {
      if runtime.Some? && myRank == 0 {
        buffer, size := runtime, recordSize;
      } else {
        buffer, size := None, 0;
      }
    }

    method Shutdown()
      modifies this
      ensures State() == AfterShutdown(old(State()))
    {
      if runtime.Some? {
        runtime := None;
      }
    }

    /**
     * `bgq_setup_reduction`, with `found` starting false and a missing record
     * treated as unshared (the check the other callbacks make): when the
     * record exists and its id is among the first `sharedRecCount` shared ids,
     * the record becomes both send and receive buffer of a one-record
     * reduction; otherwise the out-parameters are returned as they came.
     */
    method SetupReduction(sharedRecs: seq<RecordId>, prior: ReductionSetup) returns (setup: ReductionSetup)
      requires prior.sharedRecCount <= |sharedRecs|
      ensures runtime.Some? && IsShared(sharedRecs, prior.sharedRecCount, runtime.value.fId) ==>
                setup == ReductionSetup(recordSize, 1, ModuleRecord, ModuleRecord)
      ensures runtime.None? || !IsShared(sharedRecs, prior.sharedRecCount, runtime.value.fId) ==> setup == prior
    {
      if runtime.None? {
        return prior;
      }
      var id := runtime.value.fId;
      var found := false;
      var i := 0;
      while i < prior.sharedRecCount
        invariant 0 <= i && (i <= prior.sharedRecCount || i == 0)
        invariant !found
        invariant forall k :: 0 <= k < i ==> sharedRecs[k] != id
      {
        if sharedRecs[i] == id {
          found := true;
          break;
        }
        i := i + 1;
      }
      if found {
        setup := ReductionSetup(recordSize, 1, ModuleRecord, ModuleRecord);
      } else {
        setup := prior;
      }
    }
  }
}
