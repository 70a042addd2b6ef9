/**
 * The STDIO module's log record layout (darshan-stdio-log-format.h): the
 * format version, the integer and floating-point counter indices the
 * X-macros generate, and `struct darshan_stdio_record`.
 */
module StdioLogFormat {
  import opened DarshanTypes

  /** `DARSHAN_STDIO_VER`: the current log format version. */
  const DarshanStdioVer: nat := 1

  /** `enum darshan_stdio_indices`, one constructor per `X(...)` line, in declaration order. */
  datatype Counter =
    | Opens
    | MaxByteWritten
    | BytesWritten
    | Writes
    | MaxByteRead
    | BytesRead
    | Reads
    | Seeks
    | Flushes

  /** `enum darshan_stdio_f_indices`, in declaration order. */
  datatype FCounter =
    | OpenStartTimestamp
    | OpenEndTimestamp
    | CloseStartTimestamp
    | CloseEndTimestamp
    | WriteStartTimestamp
    | WriteEndTimestamp
    | ReadStartTimestamp
    | ReadEndTimestamp
    | MetaTime
    | WriteTime
    | ReadTime

  /** The integer counters as the X-macro list declares them. */
  const Counters: seq<Counter> :=
    [Opens, MaxByteWritten, BytesWritten, Writes, MaxByteRead, BytesRead, Reads, Seeks, Flushes]

  /** The floating-point counters as the X-macro list declares them. */
  const FCounters: seq<FCounter> :=
    [OpenStartTimestamp, OpenEndTimestamp, CloseStartTimestamp, CloseEndTimestamp,
     WriteStartTimestamp, WriteEndTimestamp, ReadStartTimestamp, ReadEndTimestamp,
     MetaTime, WriteTime, ReadTime]

  /** `STDIO_NUM_INDICES`, the sentinel closing the integer list. */
  const StdioNumIndices: nat := 9
  /** `STDIO_F_NUM_INDICES`, the sentinel closing the floating-point list. */
  const StdioFNumIndices: nat := 11

  /**
   * The enumerator's value: C numbers enumerators from 0 in declaration order,
   * so each counter's value is its position in the list, and below the sentinel.
   */
  function Index(c: Counter): (i: nat)
    ensures i < StdioNumIndices && i < |Counters|
    ensures Counters[i] == c
  {
    match c
    case Opens => 0
    case MaxByteWritten => 1
    case BytesWritten => 2
    case Writes => 3
    case MaxByteRead => 4
    case BytesRead => 5
    case Reads => 6
    case Seeks => 7
    case Flushes => 8
  }

  function FIndex(f: FCounter): (i: nat)
    ensures i < StdioFNumIndices && i < |FCounters|
    ensures FCounters[i] == f
  {
    match f
    case OpenStartTimestamp => 0
    case OpenEndTimestamp => 1
    case CloseStartTimestamp => 2
    case CloseEndTimestamp => 3
    case WriteStartTimestamp => 4
    case WriteEndTimestamp => 5
    case ReadStartTimestamp => 6
    case ReadEndTimestamp => 7
    case MetaTime => 8
    case WriteTime => 9
    case ReadTime => 10
  }

  /**
   * The sentinels are the list lengths, and the indices are exactly
   * `0 .. NUM_INDICES - 1`, one per enumerator.
   */
  lemma IndicesAreConsecutive()
    ensures |Counters| == StdioNumIndices && |FCounters| == StdioFNumIndices
    ensures forall i :: 0 <= i < |Counters| ==> Index(Counters[i]) == i
    ensures forall i :: 0 <= i < |FCounters| ==> FIndex(FCounters[i]) == i
  {
  }

  /** `struct darshan_stdio_record`. */
  datatype StdioRecord = StdioRecord(fId: RecordId, rank: Int64, counters: seq<Int64>, fcounters: seq<real>)
  {
    /** Exactly `STDIO_NUM_INDICES` integer slots and `STDIO_F_NUM_INDICES` float slots. */
    predicate Valid()
    {
      |counters| == StdioNumIndices && |fcounters| == StdioFNumIndices
    }

    /** `counters[c]`: every named integer counter is a slot of a valid record. */
    function Get(c: Counter): (v: Int64)
      requires Valid()
    {
      counters[Index(c)]
    }

    /** `fcounters[f]`: every named float counter is a slot of a valid record. */
    function GetF(f: FCounter): (v: real)
      requires Valid()
    {
      fcounters[FIndex(f)]
    }
  }

  /**
   * Each named counter has a slot of its own: writing one counter of a valid
   * record keeps it valid, and every other counter reads as before.
   */
  lemma CounterSlotsAreIndependent(r: StdioRecord, c: Counter, d: Counter, v: Int64)
    requires r.Valid()
    ensures r.(counters := r.counters[Index(c) := v]).Valid()
    ensures r.(counters := r.counters[Index(c) := v]).Get(d) == if c == d then v else r.Get(d)
  {
  }

  /** The same for the floating-point counters. */
  lemma FCounterSlotsAreIndependent(r: StdioRecord, f: FCounter, g: FCounter, v: real)
    requires r.Valid()
    ensures r.(fcounters := r.fcounters[FIndex(f) := v]).Valid()
    ensures r.(fcounters := r.fcounters[FIndex(f) := v]).GetF(g) == if f == g then v else r.GetF(g)
  {
  }

  /** Bytes of one fixed-width slot (`int64_t`, `double`, `darshan_record_id`). */
  const SlotBytes: nat := 8

  /** The record's size: id, rank, then the integer slots, then the float slots. */
  const StdioRecordBytes: nat := SlotBytes * (2 + StdioNumIndices + StdioFNumIndices)

  /** Byte offset of an integer counter: after the id and the rank. */
  function CounterOffset(c: Counter): (off: nat)
    ensures 2 * SlotBytes <= off && off + SlotBytes <= SlotBytes * (2 + StdioNumIndices)
  {
    SlotBytes * (2 + Index(c))
  }

  /** Byte offset of a float counter: after every integer slot. */
  function FCounterOffset(f: FCounter): (off: nat)
    ensures SlotBytes * (2 + StdioNumIndices) <= off && off + SlotBytes <= StdioRecordBytes
  {
    SlotBytes * (2 + StdioNumIndices + FIndex(f))
  }

  /** Distinct counters occupy distinct, non-overlapping slots of the flat layout. */
  lemma SlotsDoNotOverlap(c: Counter, d: Counter, f: FCounter, g: FCounter)
    ensures c != d ==> CounterOffset(c) + SlotBytes <= CounterOffset(d) || CounterOffset(d) + SlotBytes <= CounterOffset(c)
    ensures f != g ==> FCounterOffset(f) + SlotBytes <= FCounterOffset(g) || FCounterOffset(g) + SlotBytes <= FCounterOffset(f)
    ensures CounterOffset(c) + SlotBytes <= FCounterOffset(f)
  {
  }
}
