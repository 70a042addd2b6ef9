/**
 * The reduction operator of the BG/Q module (`bgq_record_reduction_op` in
 * darshan-runtime/lib/darshan-bgq.c) and what it means when the MPI
 * collective applies it across the ranks that share the BG/Q record.
 *
 * The operator compares the integer counters of each pair of records and
 * reports every slot where they differ; it writes nothing, so the record
 * kept in the in-out buffer is the one that was there. `Reduce` folds the
 * operator over any grouping the collective may choose.
 */
module BgqReduction {
  import opened DarshanTypes
  import opened Bgq

  /** One line the operator prints to stderr: id, slot, in-value, in-out value. */
  datatype Mismatch = Mismatch(id: RecordId, slot: nat, inValue: Int64, inoutValue: Int64)

  /** The report for slot `j` of the pair (`a` in, `b` in-out). */
  function MismatchAt(a: BgqRecord, b: BgqRecord, j: nat): (m: Mismatch)
    requires j < BgqNumIndices
  {
    Mismatch(a.fId, j, a.counters[j], b.counters[j])
  }

  /** `m` reports a genuine disagreement of `a` and `b`, with its true values. */
  predicate Reports(a: BgqRecord, b: BgqRecord, m: Mismatch)
  {
    m.slot < BgqNumIndices && a.counters[m.slot] != b.counters[m.slot] && m == MismatchAt(a, b, m.slot)
  }

  /**
   * The reports for slots `0 .. n-1` of one pair, in the order the inner loop
   * prints them: one per differing slot, none for an agreeing one.
   */
  function SlotMismatches(a: BgqRecord, b: BgqRecord, n: nat): (r: seq<Mismatch>)
    requires n <= BgqNumIndices
    ensures forall k :: 0 <= k < |r| ==> Reports(a, b, r[k]) && r[k].slot < n
    ensures forall k1, k2 :: 0 <= k1 < k2 < |r| ==> r[k1].slot < r[k2].slot
    ensures forall j :: 0 <= j < n ==> (a.counters[j] != b.counters[j] <==> MismatchAt(a, b, j) in r)
  {
    if n == 0 then []
    else
      var before := SlotMismatches(a, b, n - 1);
      if a.counters[n - 1] != b.counters[n - 1] then before + [MismatchAt(a, b, n - 1)] else before
  }

  /** All reports for one pair of records. */
  function PairMismatches(a: BgqRecord, b: BgqRecord): (r: seq<Mismatch>)
    ensures forall k :: 0 <= k < |r| ==> Reports(a, b, r[k])
    ensures forall j :: 0 <= j < BgqNumIndices ==> (a.counters[j] != b.counters[j] <==> MismatchAt(a, b, j) in r)
  {
    SlotMismatches(a, b, BgqNumIndices)
  }

  /** A pair produces no report exactly when its integer counters agree. */
  lemma SilentIffCountersAgree(a: BgqRecord, b: BgqRecord)
    ensures PairMismatches(a, b) == [] <==> a.counters == b.counters
  {
    var r := PairMismatches(a, b);
    if a.counters != b.counters {
      var j :| 0 <= j < BgqNumIndices && a.counters[j] != b.counters[j];
      assert MismatchAt(a, b, j) in r;
    }
    assert r != [] ==> Reports(a, b, r[0]);
  }

  /**
   * Two records that differ in slot `j` only produce exactly one report,
   * naming slot `j` with both values.
   */
  lemma SingleDifferenceSingleReport(a: BgqRecord, b: BgqRecord, j: nat)
    requires j < BgqNumIndices && a.counters[j] != b.counters[j]
    requires forall i :: 0 <= i < BgqNumIndices && i != j ==> a.counters[i] == b.counters[i]
    ensures PairMismatches(a, b) == [Mismatch(a.fId, j, a.counters[j], b.counters[j])]
  {
    SingleDifferenceBelow(a, b, j, BgqNumIndices);
  }

  lemma {:induction false} SingleDifferenceBelow(a: BgqRecord, b: BgqRecord, j: nat, n: nat)
    requires j < BgqNumIndices && n <= BgqNumIndices
    requires forall i :: 0 <= i < BgqNumIndices && i != j ==> a.counters[i] == b.counters[i]
    ensures SlotMismatches(a, b, n) == if j < n && a.counters[j] != b.counters[j] then [MismatchAt(a, b, j)] else []
  {
    if n > 0 {
      SingleDifferenceBelow(a, b, j, n - 1);
    }
  }

  /**
   * Only the id and the integer counters matter: the rank, the alignment and
   * the floating-point counters are never compared.
   */
  lemma {:induction false} OnlyIdAndCountersCompared(a: BgqRecord, b: BgqRecord, a': BgqRecord, b': BgqRecord, n: nat)
    requires n <= BgqNumIndices
    requires a'.fId == a.fId && a'.counters == a.counters && b'.counters == b.counters
    ensures SlotMismatches(a', b', n) == SlotMismatches(a, b, n)
  {
    if n > 0 {
      OnlyIdAndCountersCompared(a, b, a', b', n - 1);
    }
  }

  /** The reports for the first `|ins|` pairs, pair by pair. */
  function Mismatches(ins: seq<BgqRecord>, inouts: seq<BgqRecord>): (r: seq<Mismatch>)
    requires |ins| == |inouts|
    decreases |ins|
  {
    if |ins| == 0 then []
    else Mismatches(ins[..|ins| - 1], inouts[..|ins| - 1]) + PairMismatches(ins[|ins| - 1], inouts[|ins| - 1])
  }

  /** Every pair of the buffer has equal integer counters. */
  predicate AllPairsAgree(ins: seq<BgqRecord>, inouts: seq<BgqRecord>)
    requires |ins| == |inouts|
  {
    forall i :: 0 <= i < |ins| ==> ins[i].counters == inouts[i].counters
  }

  lemma AllPairsAgreeSnoc(ins: seq<BgqRecord>, inouts: seq<BgqRecord>)
    requires 0 < |ins| == |inouts|
    ensures AllPairsAgree(ins, inouts) <==>
              AllPairsAgree(ins[..|ins| - 1], inouts[..|ins| - 1]) && ins[|ins| - 1].counters == inouts[|ins| - 1].counters
  {
    var n := |ins| - 1;
    var ins', inouts' := ins[..n], inouts[..n];
    if AllPairsAgree(ins', inouts') && ins[n].counters == inouts[n].counters {
      forall i | 0 <= i < |ins|
        ensures ins[i].counters == inouts[i].counters
      {
        if i < n {
          assert ins'[i] == ins[i] && inouts'[i] == inouts[i];
        }
      }
    }
  }

  /** A buffer of pairs produces no report exactly when every pair agrees. */
  lemma {:induction false} SilentIffAllPairsAgree(ins: seq<BgqRecord>, inouts: seq<BgqRecord>)
    requires |ins| == |inouts|
    ensures Mismatches(ins, inouts) == [] <==> AllPairsAgree(ins, inouts)
    decreases |ins|
  {
    if |ins| > 0 {
      var n := |ins| - 1;
      var ins', inouts' := ins[..n], inouts[..n];
      SilentIffAllPairsAgree(ins', inouts');
      SilentIffCountersAgree(ins[n], inouts[n]);
      AllPairsAgreeSnoc(ins, inouts);
      var before, last := Mismatches(ins', inouts'), PairMismatches(ins[n], inouts[n]);
      assert Mismatches(ins, inouts) == before + last;
      assert |before + last| == |before| + |last|;
    }
  }

  /** Every report of a buffer names a genuine disagreement of one of its pairs. */
  lemma {:induction false} MismatchesAreGenuine(ins: seq<BgqRecord>, inouts: seq<BgqRecord>)
    requires |ins| == |inouts|
    ensures forall k :: 0 <= k < |Mismatches(ins, inouts)| ==>
              exists i :: 0 <= i < |ins| && Reports(ins[i], inouts[i], Mismatches(ins, inouts)[k])
    decreases |ins|
  {
    if |ins| > 0 {
      var n := |ins| - 1;
      var ins', inouts' := ins[..n], inouts[..n];
      MismatchesAreGenuine(ins', inouts');
      var before, last := Mismatches(ins', inouts'), PairMismatches(ins[n], inouts[n]);
      var r := Mismatches(ins, inouts);
      assert r == before + last;
      forall k | 0 <= k < |r|
        ensures exists i :: 0 <= i < |ins| && Reports(ins[i], inouts[i], r[k])
      {
        if k < |before| {
          assert r[k] == before[k];
          var i :| 0 <= i < n && Reports(ins'[i], inouts'[i], before[k]);
          assert ins'[i] == ins[i] && inouts'[i] == inouts[i];
          assert Reports(ins[i], inouts[i], r[k]);
        } else {
          assert r[k] == last[k - |before|];
          assert Reports(ins[n], inouts[n], r[k]);
        }
      }
    } else {
      assert Mismatches(ins, inouts) == [];
    }
  }

  /** One more slot adds its report exactly when the two counters differ. */
  lemma SlotMismatchesStep(a: BgqRecord, b: BgqRecord, j: nat)
    requires j < BgqNumIndices
    ensures SlotMismatches(a, b, j + 1) ==
              SlotMismatches(a, b, j) + if a.counters[j] != b.counters[j] then [Mismatch(a.fId, j, a.counters[j], b.counters[j])] else []
  {
  }

  lemma MismatchesExtend(ins: seq<BgqRecord>, inouts: seq<BgqRecord>, n: nat)
    requires n < |ins| == |inouts|
    ensures Mismatches(ins[..n + 1], inouts[..n + 1]) == Mismatches(ins[..n], inouts[..n]) + PairMismatches(ins[n], inouts[n])
  {
    assert ins[..n + 1][..n] == ins[..n] && inouts[..n + 1][..n] == inouts[..n];
  }

  /**
   * The inner loop of `bgq_record_reduction_op`: every integer slot of one
   * pair, reporting each disagreement in slot order.
   */
  method CompareCounters(inRec: BgqRecord, inoutRec: BgqRecord) returns (reports: seq<Mismatch>)
    ensures reports == PairMismatches(inRec, inoutRec)
  {
    reports := [];
    var j := 0;
    while j < BgqNumIndices
      invariant 0 <= j <= BgqNumIndices
      invariant reports == SlotMismatches(inRec, inoutRec, j)
    {
      SlotMismatchesStep(inRec, inoutRec, j);
      if inRec.counters[j] != inoutRec.counters[j] {
        reports := reports + [Mismatch(inRec.fId, j, inRec.counters[j], inoutRec.counters[j])];
      }
      j := j + 1;
    }
  }

  /**
   * `bgq_record_reduction_op`: walks `len` pairs of records and, for each,
   * every integer slot, reporting each disagreement. It has no `modifies`
   * clause: neither buffer is written.
   */
  method RecordReductionOp(infile: array<BgqRecord>, inoutfile: array<BgqRecord>, len: Int32) returns (reports: seq<Mismatch>)
    requires len <= infile.Length && len <= inoutfile.Length
    ensures var n := if len < 0 then 0 else len;
            reports == Mismatches(infile[..n], inoutfile[..n])
  {
    ghost var n := if len < 0 then 0 else len;
    ghost var ins, inouts := infile[..n], inoutfile[..n];
    reports := [];
    var i := 0;
    while i < len
      invariant 0 <= i <= n
      invariant reports == Mismatches(ins[..i], inouts[..i])
    {
      var pairReports := CompareCounters(infile[i], inoutfile[i]);
      assert infile[i] == ins[i] && inoutfile[i] == inouts[i];
      MismatchesExtend(ins, inouts, i);
      reports := reports + pairReports;
      i := i + 1;
    }
    assert ins[..i] == ins && inouts[..i] == inouts;
  }

  /**
   * How the collective may group the ranks' contributions: a single rank's
   * record, or the operator applied with one group's result as `in` and
   * another's as `in-out`.
   */
  datatype Schedule = Contribution(rank: nat) | Apply(input: Schedule, inout: Schedule)

  /** The ranks a schedule combines, left to right. */
  function Ranks(s: Schedule): (r: seq<nat>)
    ensures |r| > 0
  {
    match s
    case Contribution(i) => [i]
    case Apply(l, r) => Ranks(l) + Ranks(r)
  }

  /** The rank whose record ends up in the final in-out buffer. */
  function Rightmost(s: Schedule): (i: nat)
    ensures i in Ranks(s)
  {
    match s
    case Contribution(i) => i
    case Apply(_, r) => Rightmost(r)
  }

  lemma {:induction false} RightmostIsLastRank(s: Schedule)
    ensures Rightmost(s) == Ranks(s)[|Ranks(s)| - 1]
  {
    match s
    case Contribution(_) =>
    case Apply(_, r) => RightmostIsLastRank(r);
  }

  predicate InRange(s: Schedule, n: nat)
  {
    forall i :: i in Ranks(s) ==> i < n
  }

  /** The ranks of an application are those of its two operands. */
  lemma InRangeParts(s: Schedule, n: nat)
    requires s.Apply?
    ensures InRange(s, n) <==> InRange(s.input, n) && InRange(s.inout, n)
  {
    if InRange(s, n) {
      forall i | i in Ranks(s.input) ensures i < n { assert i in Ranks(s); }
      forall i | i in Ranks(s.inout) ensures i < n { assert i in Ranks(s); }
    }
    if InRange(s.input, n) && InRange(s.inout, n) {
      forall i | i in Ranks(s) ensures i < n { assert i in Ranks(s.input) || i in Ranks(s.inout); }
    }
  }

  /** The retained record of a reduction and every report printed on the way. */
  datatype Reduced = Reduced(record: BgqRecord, reports: seq<Mismatch>)

  /**
   * The collective reduction: each application keeps the in-out operand and
   * adds the operator's reports for the pair. The retained record is the
   * last rank's, and every report is a genuine disagreement.
   */
  function Reduce(recs: seq<BgqRecord>, s: Schedule): (r: Reduced)
    requires InRange(s, |recs|)
    ensures Rightmost(s) < |recs| && r.record == recs[Rightmost(s)]
    ensures forall k :: 0 <= k < |r.reports| ==> r.reports[k].inValue != r.reports[k].inoutValue
  {
    match s
    case Contribution(i) =>
      assert i in Ranks(s);
      Reduced(recs[i], [])
    case Apply(l, r) =>
      InRangeParts(s, |recs|);
      var a := Reduce(recs, l);
      var b := Reduce(recs, r);
      Reduced(b.record, a.reports + b.reports + PairMismatches(a.record, b.record))
  }

  /** Every contribution combined by `s` has integer counters `c`. */
  predicate AllAgree(recs: seq<BgqRecord>, s: Schedule, c: CounterSlots)
    requires InRange(s, |recs|)
  {
    forall i :: i in Ranks(s) ==> recs[i].counters == c
  }

  /**
   * Whatever the grouping, the retained record depends only on the order of
   * the ranks, not on how the collective brackets them.
   */
  lemma GroupingIndependent(recs: seq<BgqRecord>, s1: Schedule, s2: Schedule)
    requires InRange(s1, |recs|) && InRange(s2, |recs|)
    requires Ranks(s1) == Ranks(s2)
    ensures Reduce(recs, s1).record == Reduce(recs, s2).record
  {
    RightmostIsLastRank(s1);
    RightmostIsLastRank(s2);
  }

  /** Whether the reduction prints anything does not depend on the grouping either. */
  lemma SilenceGroupingIndependent(recs: seq<BgqRecord>, s1: Schedule, s2: Schedule)
    requires InRange(s1, |recs|) && InRange(s2, |recs|)
    requires Ranks(s1) == Ranks(s2)
    ensures (Reduce(recs, s1).reports == []) == (Reduce(recs, s2).reports == [])
  {
    SilentIffAllAgree(recs, s1);
    SilentIffAllAgree(recs, s2);
    GroupingIndependent(recs, s1, s2);
  }

  /**
   * A reduction is silent exactly when every contribution has the retained
   * record's integer counters: identical records never produce a report, and
   * any disagreement is reported, whatever the grouping.
   */
  lemma {:induction false} SilentIffAllAgree(recs: seq<BgqRecord>, s: Schedule)
    requires InRange(s, |recs|)
    ensures Reduce(recs, s).reports == [] <==> AllAgree(recs, s, Reduce(recs, s).record.counters)
  {
    match s
    case Contribution(_) =>
    case Apply(l, r) =>
      InRangeParts(s, |recs|);
      var a := Reduce(recs, l);
      var b := Reduce(recs, r);
      SilentIffAllAgree(recs, l);
      SilentIffAllAgree(recs, r);
      SilentIffCountersAgree(a.record, b.record);
      if AllAgree(recs, s, b.record.counters) {
        assert Rightmost(l) in Ranks(l) by { RightmostIsLastRank(l); }
        assert AllAgree(recs, l, a.record.counters);
      }
  }

  /**
   * Two contributions that disagree on an integer counter always produce a
   * report, whichever grouping the collective picks.
   */
  lemma DisagreementIsReported(recs: seq<BgqRecord>, s: Schedule, i: nat, j: nat)
    requires InRange(s, |recs|)
    requires i in Ranks(s) && j in Ranks(s)
    requires recs[i].counters != recs[j].counters
    ensures Reduce(recs, s).reports != []
  {
    SilentIffAllAgree(recs, s);
  }

  /** Combining ranks `0 .. n-1` left to right: `((r0 op r1) op r2) ...`. */
  function LeftFold(n: nat): (s: Schedule)
    requires n > 0
    ensures Rightmost(s) == n - 1
  {
    if n == 1 then Contribution(0) else Apply(LeftFold(n - 1), Contribution(n - 1))
  }

  /** Combining ranks `lo .. hi-1` right to left: `r_lo op (r_lo+1 op ...)`. */
  function RightFold(lo: nat, hi: nat): (s: Schedule)
    requires lo < hi
    ensures Rightmost(s) == hi - 1
    decreases hi - lo
  {
    if lo + 1 == hi then Contribution(lo) else Apply(Contribution(lo), RightFold(lo + 1, hi))
  }

  /** The ranks `lo .. hi-1` in order. */
  function Span(lo: nat, hi: nat): (r: seq<nat>)
    requires lo <= hi
    ensures |r| == hi - lo && forall k :: 0 <= k < |r| ==> r[k] == lo + k
    decreases hi - lo
  {
    if lo == hi then [] else [lo] + Span(lo + 1, hi)
  }

  lemma {:induction false} LeftFoldRanks(n: nat)
    requires n > 0
    ensures Ranks(LeftFold(n)) == Span(0, n)
  {
    if n > 1 {
      LeftFoldRanks(n - 1);
      var prefix, whole := Span(0, n - 1), Span(0, n);
      assert Ranks(LeftFold(n)) == prefix + [n - 1];
      assert whole == prefix + [n - 1] by {
        assert |whole| == |prefix| + 1;
        forall k | 0 <= k < |whole|
          ensures whole[k] == (prefix + [n - 1])[k]
        {
        }
      }
    }
  }

  lemma {:induction false} RightFoldRanks(lo: nat, hi: nat)
    requires lo < hi
    ensures Ranks(RightFold(lo, hi)) == Span(lo, hi)
    decreases hi - lo
  {
    if lo + 1 < hi {
      RightFoldRanks(lo + 1, hi);
    }
  }

  /**
   * Folding the ranks' records left to right or right to left retains the same
   * record, the last rank's.
   */
  lemma FoldsRetainTheSameRecord(recs: seq<BgqRecord>)
    requires |recs| > 0
    ensures InRange(LeftFold(|recs|), |recs|) && InRange(RightFold(0, |recs|), |recs|)
    ensures Reduce(recs, LeftFold(|recs|)).record == recs[|recs| - 1]
    ensures Reduce(recs, RightFold(0, |recs|)).record == recs[|recs| - 1]
  {
    LeftFoldRanks(|recs|);
    RightFoldRanks(0, |recs|);
    GroupingIndependent(recs, LeftFold(|recs|), RightFold(0, |recs|));
    RightmostIsLastRank(LeftFold(|recs|));
  }
}
