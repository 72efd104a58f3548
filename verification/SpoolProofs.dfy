/** What every operation on the spool keeps, and the byte ledger that follows. */
module SpoolProofs {
  import opened Wrappers
  import opened Model
  import opened Sequences
  import opened SpoolSpec

  function Seqs(rows: seq<Row>): set<nat> { set row | row in rows :: row.seqNo }

  /** Every logged envelope is the one made for its sequence number. */
  ghost predicate LogOk(codec: Codec, log: seq<BatchEnvelope>) {
    forall i | 0 <= i < |log| ::
      && log[i].body.seqNo == i && log[i].body.schemaVersion == SCHEMA_VERSION
      && log[i] == NewEnvelope(codec, log[i].body) && RowFits(RowOf(codec, log[i]))
  }

  ghost predicate Ascending(rows: seq<Row>) {
    forall i, j | 0 <= i < j < |rows| :: rows[i].seqNo < rows[j].seqNo
  }

  ghost predicate RowsOk(codec: Codec, rows: seq<Row>, log: seq<BatchEnvelope>) {
    Ascending(rows) && forall row | row in rows :: row.seqNo < |log| && row == RowOf(codec, log[row.seqNo])
  }

  /** Why a batch was given up at time `at`. */
  function ReasonFor(limits: Limits, codec: Codec, e: BatchEnvelope, at: nat): Reason {
    if codec.size(e) > limits.maxPayloadBytes then BatchExceedsSpoolLimit
    else if e.body.createdAt < Cutoff(at, limits.maxAgeSeconds) then SpoolAgeLimit
    else SpoolByteLimit
  }

  /** A gap carries the size and the exact bucket range of the lost batch, and
      the true reason. */
  ghost predicate GapsOk(limits: Limits, codec: Codec, gaps: map<nat, GapEvent>, log: seq<BatchEnvelope>) {
    forall q | q in gaps ::
      && q < |log| && gaps[q].seqNo == q && gaps[q].lostBytes == codec.size(log[q])
      && IsRange(log[q].body.buckets, gaps[q].minBucket, gaps[q].maxBucket)
      && gaps[q].reason == ReasonFor(limits, codec, log[q], gaps[q].createdAt)
  }

  /** Every number below `n` is in exactly one of three sets, and nothing else
      is in any. */
  ghost predicate Partition(n: nat, a: set<nat>, b: set<nat>, c: set<nat>) {
    && a !! b && a !! c && b !! c
    && forall q :: q in a || q in b || q in c <==> 0 <= q < n
  }

  ghost predicate Inv(s: State, limits: Limits, codec: Codec) {
    && s.nextSeq == |s.log| && LogOk(codec, s.log) && RowsOk(codec, s.batches, s.log)
    && GapsOk(limits, codec, s.gaps, s.log)
    && Partition(s.nextSeq, Seqs(s.batches), s.gaps.Keys, s.acked)
    && TotalBytes(s.batches) <= limits.maxPayloadBytes
  }

  // ------------------------------------------------------------------ helpers

  lemma {:induction false} LiveAscending(rows: seq<Row>, cutoff: nat)
    requires Ascending(rows)
    ensures Ascending(Live(rows, cutoff))
  {
    if rows != [] {
      LiveAscending(rows[1..], cutoff);
      LiveMembers(rows[1..], cutoff);
    }
  }

  lemma {:induction false} AddGapsAdds(gaps: map<nat, GapEvent>, rows: seq<Row>, cutoff: nat, now: nat)
    ensures
      var after := AddGaps(gaps, rows, cutoff, now);
      && after.Keys == gaps.Keys + Seqs(rows)
      && (forall q | q in gaps && q !in Seqs(rows) :: after[q] == gaps[q])
      && (forall q | q in Seqs(rows) ::
            exists row :: row in rows && row.seqNo == q && after[q] == GapOf(row, cutoff, now))
    decreases |rows|
  {
    if rows != [] {
      HeadTail(rows);
      AddGapsAdds(gaps[rows[0].seqNo := GapOf(rows[0], cutoff, now)], rows[1..], cutoff, now);
      assert Seqs(rows) == {rows[0].seqNo} + Seqs(rows[1..]);
    }
  }

  lemma SeqNoDetermines(rows: seq<Row>, r1: Row, r2: Row)
    requires Ascending(rows) && r1 in rows && r2 in rows && r1.seqNo == r2.seqNo
    ensures r1 == r2
  {
    var i :| 0 <= i < |rows| && rows[i] == r1;
    var j :| 0 <= j < |rows| && rows[j] == r2;
    assert i == j;
  }

  lemma PrefixBeforeSuffix(rows: seq<Row>, k: nat, r1: Row, r2: Row)
    requires Ascending(rows) && k <= |rows| && r1 in rows[..k] && r2 in rows[k..]
    ensures r1.seqNo < r2.seqNo
  {
    var i :| 0 <= i < k && rows[..k][i] == r1;
    var j :| 0 <= j < |rows| - k && rows[k..][j] == r2;
    assert rows[i] == r1 && rows[k + j] == r2;
  }

  lemma SuffixAscending(rows: seq<Row>, k: nat)
    requires Ascending(rows) && k <= |rows|
    ensures Ascending(rows[k..])
  {
  }

  lemma KeptAndEvictedSeqs(rows: seq<Row>, budget: nat, cutoff: nat)
    requires Ascending(rows)
    ensures
      var kept, out := Kept(rows, budget, cutoff), Evicted(rows, budget, cutoff);
      Ascending(kept) && Seqs(kept) + Seqs(out) == Seqs(rows) && Seqs(kept) !! Seqs(out)
  {
    hide TotalBytes, OverBudget, Live, Expired;
    var k := OverBudget(rows, budget);
    var kept, out := Kept(rows, budget, cutoff), Evicted(rows, budget, cutoff);
    SuffixAscending(rows, k);
    LiveAscending(rows[k..], cutoff);
    KeptOrEvicted(rows, budget, cutoff);
    LiveMembers(rows[k..], cutoff);
    forall r1, r2 | r1 in kept && r2 in out ensures r1.seqNo != r2.seqNo {
      if r1.seqNo == r2.seqNo {
        SeqNoDetermines(rows, r1, r2);
        if r2 in rows[..k] { PrefixBeforeSuffix(rows, k, r2, r1); }
      }
    }
  }

  lemma LogGrows(limits: Limits, codec: Codec, log: seq<BatchEnvelope>, e: BatchEnvelope, rows: seq<Row>,
                 gaps: map<nat, GapEvent>)
    requires LogOk(codec, log) && RowsOk(codec, rows, log) && GapsOk(limits, codec, gaps, log)
    requires e.body.seqNo == |log| && e.body.schemaVersion == SCHEMA_VERSION
    requires e == NewEnvelope(codec, e.body) && RowFits(RowOf(codec, e))
    ensures LogOk(codec, log + [e]) && RowsOk(codec, rows, log + [e]) && GapsOk(limits, codec, gaps, log + [e])
    ensures RowsOk(codec, rows + [RowOf(codec, e)], log + [e])
    ensures Seqs(rows + [RowOf(codec, e)]) == Seqs(rows) + {|log|}
  {
  }

  /** Pending batches have different ids: the unique index cannot fail. */
  lemma IdsAreDistinct(codec: Codec, log: seq<BatchEnvelope>, i: nat, j: nat)
    requires LogOk(codec, log) && i < |log| && j < |log| && log[i].batchId == log[j].batchId
    ensures i == j
  {
    var a, b := log[i].body, log[j].body;
    BatchIdDecodes(a.nodeId, a.bootId, a.seqNo, codec.checksum(a));
    BatchIdDecodes(b.nodeId, b.bootId, b.seqNo, codec.checksum(b));
  }

  /** No insert of an enqueue can violate a key: the new sequence number and
      batch id are unused, and no pending row already has a gap. */
  lemma InsertsCannotCollide(s: State, limits: Limits, codec: Codec, r: Request)
    requires Inv(s, limits, codec)
    ensures s.nextSeq !in Seqs(s.batches) && s.nextSeq !in s.gaps
    ensures forall row | row in s.batches :: row.batchId != EnvelopeFor(codec, s.nextSeq, r).batchId
    ensures Seqs(s.batches) !! s.gaps.Keys
  {
    var e := EnvelopeFor(codec, s.nextSeq, r);
    BatchIdDecodes(e.body.nodeId, e.body.bootId, s.nextSeq, codec.checksum(e.body));
    forall row | row in s.batches ensures row.batchId != e.batchId {
      var b := s.log[row.seqNo].body;
      BatchIdDecodes(b.nodeId, b.bootId, b.seqNo, codec.checksum(b));
    }
  }

  // ------------------------------------------------------------- preservation

  lemma PartitionGrows(n: nat, pending: set<nat>, gaps: set<nat>, acked: set<nat>, kept: set<nat>, out: set<nat>)
    requires Partition(n, pending, gaps, acked) && kept + out == pending + {n} && kept !! out
    ensures Partition(n + 1, kept, gaps + out, acked)
  {
    assert forall q :: q in kept || q in out <==> q in pending || q == n by {
      assert forall q :: q in kept + out <==> q in pending + {n};
    }
  }

  lemma NextIsFree(n: nat, pending: set<nat>, gaps: set<nat>, acked: set<nat>)
    requires Partition(n, pending, gaps, acked)
    ensures n !in pending && n !in gaps && n !in acked
  {
  }

  lemma {:induction false} RowWithinTotal(rows: seq<Row>, row: Row)
    requires row in rows
    ensures row.payloadBytes <= TotalBytes(rows)
  {
    HeadTail(rows);
    if row != rows[0] { RowWithinTotal(rows[1..], row); }
  }

  lemma GapsAfterEviction(limits: Limits, codec: Codec, gaps: map<nat, GapEvent>, out: seq<Row>,
                          log: seq<BatchEnvelope>, cutoff: nat, now: nat)
    requires GapsOk(limits, codec, gaps, log)
    requires forall row | row in out :: row.seqNo < |log| && row == RowOf(codec, log[row.seqNo])
    requires cutoff == Cutoff(now, limits.maxAgeSeconds)
    requires forall row | row in out :: row.payloadBytes <= limits.maxPayloadBytes
    ensures GapsOk(limits, codec, AddGaps(gaps, out, cutoff, now), log)
    ensures AddGaps(gaps, out, cutoff, now).Keys == gaps.Keys + Seqs(out)
  {
    hide AddGaps;
    AddGapsAdds(gaps, out, cutoff, now);
    var after := AddGaps(gaps, out, cutoff, now);
    forall q | q in after
      ensures q < |log| && after[q].seqNo == q && after[q].lostBytes == codec.size(log[q])
      ensures IsRange(log[q].body.buckets, after[q].minBucket, after[q].maxBucket)
      ensures after[q].reason == ReasonFor(limits, codec, log[q], after[q].createdAt)
    {
      if q in Seqs(out) {
        var row :| row in out && row.seqNo == q && after[q] == GapOf(row, cutoff, now);
        RangeIsExact(log[q].body.buckets);
      }
    }
  }

  lemma EvictionKeepsInv(s: State, limits: Limits, codec: Codec, e: BatchEnvelope, cutoff: nat, now: nat)
    requires Inv(s, limits, codec)
    requires cutoff == Cutoff(now, limits.maxAgeSeconds) && codec.size(e) <= limits.maxPayloadBytes
    requires e.body.seqNo == s.nextSeq && e.body.schemaVersion == SCHEMA_VERSION
    requires e == NewEnvelope(codec, e.body) && RowFits(RowOf(codec, e))
    ensures
      var rows := s.batches + [RowOf(codec, e)];
      var out := Evicted(rows, limits.maxPayloadBytes, cutoff);
      Inv(State(s.nextSeq + 1, Kept(rows, limits.maxPayloadBytes, cutoff), AddGaps(s.gaps, out, cutoff, now),
                s.log + [e], s.acked), limits, codec)
  {
    hide TotalBytes, Kept, Evicted, AddGaps, IsRange, RowOf, NewEnvelope, Partition, Seqs;
    var budget := limits.maxPayloadBytes;
    var rows, log := s.batches + [RowOf(codec, e)], s.log + [e];
    LogGrows(limits, codec, s.log, e, s.batches, s.gaps);
    KeptAndEvictedSeqs(rows, budget, cutoff);
    KeptOrEvicted(rows, budget, cutoff);
    KeptMeetsLimits(rows, budget, cutoff);
    var kept, out := Kept(rows, budget, cutoff), Evicted(rows, budget, cutoff);
    forall row | row in out ensures row.payloadBytes <= budget {
      RowHasId(codec, e);
      if row in s.batches { RowWithinTotal(s.batches, row); }
    }
    GapsAfterEviction(limits, codec, s.gaps, out, log, cutoff, now);
    PartitionGrows(s.nextSeq, Seqs(s.batches), s.gaps.Keys, s.acked, Seqs(kept), Seqs(out));
  }

  lemma OversizeKeepsInv(s: State, limits: Limits, codec: Codec, e: BatchEnvelope, gap: GapEvent)
    requires Inv(s, limits, codec)
    requires e.body.seqNo == s.nextSeq && e.body.schemaVersion == SCHEMA_VERSION
    requires e == NewEnvelope(codec, e.body) && RowFits(RowOf(codec, e))
    requires gap.seqNo == s.nextSeq && gap.lostBytes == codec.size(e) > limits.maxPayloadBytes
    requires gap.reason == BatchExceedsSpoolLimit
    requires IsRange(e.body.buckets, gap.minBucket, gap.maxBucket)
    ensures Inv(State(s.nextSeq + 1, s.batches, s.gaps[s.nextSeq := gap], s.log + [e], s.acked), limits, codec)
  {
    hide TotalBytes, IsRange, RowOf, NewEnvelope, Partition, Seqs;
    LogGrows(limits, codec, s.log, e, s.batches, s.gaps);
    NextIsFree(s.nextSeq, Seqs(s.batches), s.gaps.Keys, s.acked);
    PartitionGrows(s.nextSeq, Seqs(s.batches), s.gaps.Keys, s.acked, Seqs(s.batches), {s.nextSeq});
    assert s.gaps[s.nextSeq := gap].Keys == s.gaps.Keys + {s.nextSeq};
  }

  /** An enqueue keeps the invariant; a failed one changes nothing. */
  lemma EnqueueKeepsInv(s: State, limits: Limits, codec: Codec, r: Request, storageFull: bool)
    requires Inv(s, limits, codec)
    ensures Inv(Enqueue(s, limits, codec, r, storageFull).0, limits, codec)
    ensures Enqueue(s, limits, codec, r, storageFull).1.Err? ==> Enqueue(s, limits, codec, r, storageFull).0 == s
  {
    hide Inv, TotalBytes, Kept, Evicted, AddGaps;
    var e := EnvelopeFor(codec, s.nextSeq, r);
    var row := RowOf(codec, e);
    if !storageFull && RowFits(row) {
      RangeIsExact(e.body.buckets);
      if row.payloadBytes <= limits.maxPayloadBytes {
        EvictionKeepsInv(s, limits, codec, e, Cutoff(r.createdAt, limits.maxAgeSeconds), r.createdAt);
      } else {
        OversizeKeepsInv(s, limits, codec, e, GapEvent(row.seqNo, row.minBucket, row.maxBucket, row.payloadBytes,
                                                       BatchExceedsSpoolLimit, r.createdAt));
      }
    }
  }

  /** After an enqueue that fits the budget, the new batch is pending and no
      pending batch is older than the cutoff, whatever the earlier clocks. */
  lemma EnqueueMeetsLimits(s: State, limits: Limits, codec: Codec, r: Request, storageFull: bool)
    requires Inv(s, limits, codec)
    requires codec.size(EnvelopeFor(codec, s.nextSeq, r)) <= limits.maxPayloadBytes
    requires Enqueue(s, limits, codec, r, storageFull).1.Ok?
    ensures
      var after := Enqueue(s, limits, codec, r, storageFull).0;
      && RowOf(codec, EnvelopeFor(codec, s.nextSeq, r)) in after.batches
      && MeetsLimits(after.batches, limits.maxPayloadBytes, Cutoff(r.createdAt, limits.maxAgeSeconds))
  {
    var row := RowOf(codec, EnvelopeFor(codec, s.nextSeq, r));
    var rows, cutoff := s.batches + [row], Cutoff(r.createdAt, limits.maxAgeSeconds);
    KeptMeetsLimits(rows, limits.maxPayloadBytes, cutoff);
    OverBudgetIsLeast(rows, limits.maxPayloadBytes);
    var k := OverBudget(rows, limits.maxPayloadBytes);
    var last := |rows| - 1;
    assert rows[last..] == [row];
    TotalOne(row, []);
    assert [row] + [] == [row] && k <= last;
    assert rows[k..][last - k] == row;
    LiveMembers(rows[k..], cutoff);
  }

  /** The oversized branch skips eviction: the age guarantee fails exactly
      when some pending batch was already too old. */
  lemma OversizedSkipsAgeLimit(s: State, limits: Limits, codec: Codec, r: Request)
    requires Inv(s, limits, codec)
    requires codec.size(EnvelopeFor(codec, s.nextSeq, r)) > limits.maxPayloadBytes
    requires Enqueue(s, limits, codec, r, false).1.Ok?
    ensures
      var after, cutoff := Enqueue(s, limits, codec, r, false).0, Cutoff(r.createdAt, limits.maxAgeSeconds);
      && after.batches == s.batches && s.nextSeq in after.gaps && after.gaps[s.nextSeq].reason.BatchExceedsSpoolLimit?
      && (MeetsLimits(after.batches, limits.maxPayloadBytes, cutoff)
          <==> forall row | row in s.batches :: row.createdAt >= cutoff)
  {
  }

  // ---------------------------------------------------------- acknowledgement

  lemma {:induction false} UnmatchedIsFilter(rows: seq<Row>, id: string, checksum: string)
    ensures forall row :: row in Unmatched(rows, id, checksum) <==> row in rows && !AckMatches(row, id, checksum)
  {
    if rows != [] {
      HeadTail(rows);
      UnmatchedIsFilter(rows[1..], id, checksum);
    }
  }

  lemma {:induction false} NothingMatches(rows: seq<Row>, id: string, checksum: string)
    requires forall row | row in rows :: !AckMatches(row, id, checksum)
    ensures Unmatched(rows, id, checksum) == rows
  {
    if rows != [] {
      HeadTail(rows);
      NothingMatches(rows[1..], id, checksum);
    }
  }

  lemma {:induction false} UnmatchedConcat(a: seq<Row>, b: seq<Row>, id: string, checksum: string)
    ensures Unmatched(a + b, id, checksum) == Unmatched(a, id, checksum) + Unmatched(b, id, checksum)
  {
    if a == [] {
      assert a + b == b;
    } else {
      ConcatHead(a, b);
      UnmatchedConcat(a[1..], b, id, checksum);
    }
  }

  lemma OnlyItsRow(s: State, limits: Limits, codec: Codec, i: nat)
    requires Inv(s, limits, codec) && i < |s.batches|
    ensures s.batches[i] in s.batches
    ensures forall row | row in s.batches && AckMatches(row, s.batches[i].batchId, s.batches[i].checksum) ::
             row == s.batches[i]
    ensures s.batches[i] !in s.batches[..i] && s.batches[i] !in s.batches[i + 1..]
  {
    hide RowOf, NewEnvelope, Partition, TotalBytes;
    var it := s.batches[i];
    assert it in s.batches;
    forall row | row in s.batches && AckMatches(row, it.batchId, it.checksum) ensures row == it {
      RowHasId(codec, s.log[row.seqNo]);
      RowHasId(codec, s.log[it.seqNo]);
      IdsAreDistinct(codec, s.log, row.seqNo, it.seqNo);
    }
  }

  lemma RowHasId(codec: Codec, e: BatchEnvelope)
    ensures RowOf(codec, e).batchId == e.batchId && RowOf(codec, e).checksum == e.checksum
    ensures RowOf(codec, e).payload == e && RowOf(codec, e).payloadBytes == codec.size(e)
  {
  }

  /** Acknowledging a pending envelope removes exactly its row. */
  lemma AckRemovesOne(s: State, limits: Limits, codec: Codec, i: nat)
    requires Inv(s, limits, codec) && i < |s.batches|
    ensures
      var (after, r) := Acknowledge(s, s.batches[i].batchId, s.batches[i].checksum);
      && r.Ok? && after == s.(batches := Without(s.batches, i), acked := s.acked + {s.batches[i].seqNo})
  {
    hide TotalBytes, Partition, NewEnvelope;
    var row := s.batches[i];
    var id, checksum := row.batchId, row.checksum;
    var a, b := s.batches[..i], s.batches[i + 1..];
    OnlyItsRow(s, limits, codec, i);
    SplitAround(s.batches, i);
    assert MatchedSeqs(s.batches, id, checksum) == {row.seqNo};
    assert forall r | r in a || r in b :: !AckMatches(r, id, checksum);
    UnmatchedAround(a, row, b, id, checksum);
  }

  lemma UnmatchedAround(a: seq<Row>, row: Row, b: seq<Row>, id: string, checksum: string)
    requires AckMatches(row, id, checksum)
    requires forall r | r in a || r in b :: !AckMatches(r, id, checksum)
    ensures Unmatched(a + ([row] + b), id, checksum) == a + b
  {
    UnmatchedConcat(a, [row] + b, id, checksum);
    NothingMatches(a, id, checksum);
    NothingMatches(b, id, checksum);
    assert ([row] + b)[1..] == b;
  }

  /** Acknowledging anything else changes nothing and fails. */
  lemma AckOfUnknownFails(s: State, id: string, checksum: string)
    requires forall row | row in s.batches :: !AckMatches(row, id, checksum)
    ensures Acknowledge(s, id, checksum) == (s, Err(AckMismatch))
  {
    hide Unmatched;
    NothingMatches(s.batches, id, checksum);
    assert MatchedSeqs(s.batches, id, checksum) == {};
    assert s.acked + {} == s.acked;
  }

  lemma WithoutTotal(rows: seq<Row>, i: nat)
    requires i < |rows|
    ensures TotalBytes(rows) == TotalBytes(Without(rows, i)) + rows[i].payloadBytes
  {
    var a, b := rows[..i], rows[i + 1..];
    TotalOne(rows[i], b);
    hide TotalBytes;
    SplitAround(rows, i);
    TotalConcat(a, b);
    TotalConcat(a, [rows[i]] + b);
  }

  lemma WithoutAscending(rows: seq<Row>, i: nat)
    requires Ascending(rows) && i < |rows|
    ensures Ascending(Without(rows, i))
  {
    hide Without;
    WithoutElements(rows, i);
  }

  lemma WithoutFacts(rows: seq<Row>, i: nat)
    requires Ascending(rows) && i < |rows|
    ensures Ascending(Without(rows, i))
    ensures forall row :: row in Without(rows, i) ==> row in rows
    ensures Seqs(Without(rows, i)) == Seqs(rows) - {rows[i].seqNo}
  {
    hide Without;
    WithoutElements(rows, i);
    WithoutAscending(rows, i);
    var rest := Without(rows, i);
    forall row | row in rest ensures row in rows && row.seqNo != rows[i].seqNo {
      var j :| 0 <= j < |rest| && rest[j] == row;
    }
    forall row | row in rows && row.seqNo != rows[i].seqNo ensures row in rest {
      var j :| 0 <= j < |rows| && rows[j] == row;
    }
  }

  lemma PartitionMoves(n: nat, pending: set<nat>, gaps: set<nat>, acked: set<nat>, q: nat)
    requires Partition(n, pending, gaps, acked) && q in pending
    ensures Partition(n, pending - {q}, gaps, acked + {q})
  {
  }

  lemma AckKeepsInv(s: State, limits: Limits, codec: Codec, id: string, checksum: string)
    requires Inv(s, limits, codec)
    ensures Inv(Acknowledge(s, id, checksum).0, limits, codec)
    ensures Acknowledge(s, id, checksum).1.Err? ==> Acknowledge(s, id, checksum).0 == s
  {
    hide TotalBytes, Acknowledge, Partition, RowOf, NewEnvelope, Without;
    if row :| row in s.batches && AckMatches(row, id, checksum) {
      var i :| 0 <= i < |s.batches| && s.batches[i] == row;
      AckRemovesOne(s, limits, codec, i);
      WithoutFacts(s.batches, i);
      WithoutTotal(s.batches, i);
      PartitionMoves(s.nextSeq, Seqs(s.batches), s.gaps.Keys, s.acked, row.seqNo);
    } else {
      AckOfUnknownFails(s, id, checksum);
    }
  }

  // ------------------------------------------------------------------- ledger

  /** Bytes of the logged envelopes below `n` whose number is in `of`. */
  function Bytes(codec: Codec, log: seq<BatchEnvelope>, of: set<nat>, n: nat): nat
    requires n <= |log|
  {
    if n == 0 then 0 else Bytes(codec, log, of, n - 1) + if n - 1 in of then codec.size(log[n - 1]) else 0
  }

  /** Bytes of every committed enqueue below `n`. */
  function EnqueuedBytes(codec: Codec, log: seq<BatchEnvelope>, n: nat): nat
    requires n <= |log|
  {
    if n == 0 then 0 else EnqueuedBytes(codec, log, n - 1) + codec.size(log[n - 1])
  }

  function LostBytes(gaps: seq<GapEvent>): nat {
    if gaps == [] then 0 else LostBytes(gaps[..|gaps| - 1]) + gaps[|gaps| - 1].lostBytes
  }

  lemma {:induction false} BytesSplit(codec: Codec, log: seq<BatchEnvelope>, a: set<nat>, b: set<nat>, c: set<nat>,
                                      n: nat)
    requires n <= |log| && a !! b && a !! c && b !! c
    requires forall q | 0 <= q < n :: q in a || q in b || q in c
    ensures EnqueuedBytes(codec, log, n) == Bytes(codec, log, a, n) + Bytes(codec, log, b, n) + Bytes(codec, log, c, n)
  {
    if n > 0 { BytesSplit(codec, log, a, b, c, n - 1); }
  }

  lemma {:induction false} BytesOfGaps(limits: Limits, codec: Codec, log: seq<BatchEnvelope>,
                                       gaps: map<nat, GapEvent>, n: nat)
    requires n <= |log| && GapsOk(limits, codec, gaps, log)
    ensures LostBytes(GapList(gaps, n)) == Bytes(codec, log, gaps.Keys, n)
  {
    if n > 0 {
      BytesOfGaps(limits, codec, log, gaps, n - 1);
      var rest, list := GapList(gaps, n - 1), GapList(gaps, n);
      if n - 1 in gaps {
        assert list[..|list| - 1] == rest;
      } else {
        assert list == rest;
      }
    }
  }

  lemma {:induction false} BytesWithout(codec: Codec, log: seq<BatchEnvelope>, of: set<nat>, q: nat, n: nat)
    requires n <= |log| && n <= q
    ensures Bytes(codec, log, of - {q}, n) == Bytes(codec, log, of, n)
  {
    if n > 0 { BytesWithout(codec, log, of, q, n - 1); }
  }

  lemma BytesStep(codec: Codec, log: seq<BatchEnvelope>, of: set<nat>, n: nat)
    requires n <= |log|
    ensures Bytes(codec, log, of, n)
         == if n == 0 then 0 else Bytes(codec, log, of, n - 1) + if n - 1 in of then codec.size(log[n - 1]) else 0
  {
  }

  lemma NoRows(rows: seq<Row>)
    ensures rows == [] ==> TotalBytes(rows) == 0
  {
  }

  lemma LastIsGreatest(rows: seq<Row>, n: nat) returns (i: nat)
    requires Ascending(rows) && n > 0 && n - 1 in Seqs(rows) && forall row | row in rows :: row.seqNo < n
    ensures i < |rows| && rows[i].seqNo == n - 1
    ensures forall row | row in Without(rows, i) :: row.seqNo < n - 1
  {
    var row :| row in rows && row.seqNo == n - 1;
    i :| 0 <= i < |rows| && rows[i] == row;
    WithoutFacts(rows, i);
    forall r | r in Without(rows, i) ensures r.seqNo < n - 1 {
      assert r.seqNo in Seqs(Without(rows, i));
    }
  }

  lemma {:induction false} BytesOfRows(codec: Codec, log: seq<BatchEnvelope>, rows: seq<Row>, n: nat)
    requires n <= |log| && RowsOk(codec, rows, log) && forall row | row in rows :: row.seqNo < n
    ensures TotalBytes(rows) == Bytes(codec, log, Seqs(rows), n)
    decreases n
  {
    assert |rows| > 0 ==> rows[0] in rows;
    hide TotalBytes, Without, Bytes, MinBucket, MaxBucket;
    BytesStep(codec, log, Seqs(rows), n);
    if n == 0 {
      NoRows(rows);
    } else if n - 1 in Seqs(rows) {
      var i := LastIsGreatest(rows, n);
      WithoutFacts(rows, i);
      WithoutTotal(rows, i);
      BytesOfRows(codec, log, Without(rows, i), n - 1);
      BytesWithout(codec, log, Seqs(rows), n - 1, n - 1);
      assert rows[i] in rows;
    } else {
      BytesOfRows(codec, log, rows, n - 1);
    }
  }

  /** The list of gaps is in order of sequence number and holds each gap once. */
  lemma {:induction false} GapListIsExact(limits: Limits, codec: Codec, log: seq<BatchEnvelope>,
                                          gaps: map<nat, GapEvent>, n: nat)
    requires n <= |log| && GapsOk(limits, codec, gaps, log)
    ensures forall i, j | 0 <= i < j < |GapList(gaps, n)| :: GapList(gaps, n)[i].seqNo < GapList(gaps, n)[j].seqNo
    ensures forall g :: g in GapList(gaps, n) <==> g.seqNo < n && g.seqNo in gaps && gaps[g.seqNo] == g
  {
    hide ReasonFor, IsRange;
    if n > 0 {
      GapListIsExact(limits, codec, log, gaps, n - 1);
      var before := GapList(gaps, n - 1);
      forall i | 0 <= i < |before| ensures before[i].seqNo < n - 1 { assert before[i] in before; }
    }
  }

  /** Conservation: bytes enqueued = pending + recorded as lost + acknowledged. */
  lemma ByteLedger(s: State, limits: Limits, codec: Codec)
    requires Inv(s, limits, codec)
    ensures EnqueuedBytes(codec, s.log, s.nextSeq)
         == TotalBytes(s.batches) + LostBytes(GapList(s.gaps, s.nextSeq)) + Bytes(codec, s.log, s.acked, s.nextSeq)
  {
    BytesSplit(codec, s.log, Seqs(s.batches), s.gaps.Keys, s.acked, s.nextSeq);
    BytesOfRows(codec, s.log, s.batches, s.nextSeq);
    BytesOfGaps(limits, codec, s.log, s.gaps, s.nextSeq);
  }
}
