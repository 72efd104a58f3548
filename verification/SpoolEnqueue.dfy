/** What one enqueue does to the spool, stated on its inputs: when it is
    refused, what it records, and which rows leave. */
module SpoolEnqueue {
  import opened Wrappers
  import opened Model
  import opened Sequences
  import opened SpoolSpec
  import opened SpoolProofs

  /** Row `i` has to go to make room for `bytes` more: it has expired, or what is
      pending from it on does not fit beside them. */
  predicate MustLeave(rows: seq<Row>, i: nat, bytes: nat, limits: Limits, now: nat)
    requires i < |rows|
  {
    rows[i].createdAt < Cutoff(now, limits.maxAgeSeconds) || TotalBytes(rows[i..]) + bytes > limits.maxPayloadBytes
  }

  lemma {:induction false} SuffixTotals(rows: seq<Row>, i: nat, j: nat)
    requires i <= j <= |rows|
    ensures TotalBytes(rows[j..]) <= TotalBytes(rows[i..])
    decreases j - i
  {
    if i < j {
      SuffixTotals(rows, i + 1, j);
      assert rows[i..] == [rows[i]] + rows[i + 1..];
      TotalOne(rows[i], rows[i + 1..]);
    }
  }

  lemma NewestTotal(rows: seq<Row>, last: Row, i: nat)
    requires i <= |rows|
    ensures TotalBytes((rows + [last])[i..]) == TotalBytes(rows[i..]) + last.payloadBytes
  {
    assert (rows + [last])[i..] == rows[i..] + [last];
    TotalConcat(rows[i..], [last]);
    TotalOne(last, []);
    assert [last] + [] == [last];
  }

  /** Membership in what is kept, at one index of ascending rows. */
  lemma KeptAt(rows: seq<Row>, i: nat, budget: nat, cutoff: nat)
    requires Ascending(rows) && i < |rows|
    ensures rows[i] in Kept(rows, budget, cutoff) <==> rows[i].createdAt >= cutoff && TotalBytes(rows[i..]) <= budget
  {
    hide TotalBytes, Live, Expired, OverBudget;
    var k := OverBudget(rows, budget);
    OverBudgetIsLeast(rows, budget);
    LiveMembers(rows[k..], cutoff);
    if i >= k {
      SuffixTotals(rows, k, i);
      assert rows[k..][i - k] == rows[i];
    } else {
      forall j | 0 <= j < |rows| - k ensures rows[k..][j] != rows[i] { assert rows[k..][j] == rows[k + j]; }
    }
  }

  lemma {:induction false} SeqsCount(rows: seq<Row>)
    requires Ascending(rows)
    ensures |Seqs(rows)| == |rows|
  {
    if rows != [] {
      HeadTail(rows);
      SeqsCount(rows[1..]);
      assert Seqs(rows) == {rows[0].seqNo} + Seqs(rows[1..]);
      assert rows[0].seqNo !in Seqs(rows[1..]);
    }
  }

  lemma EvictedAscending(rows: seq<Row>, budget: nat, cutoff: nat)
    requires Ascending(rows)
    ensures Ascending(Evicted(rows, budget, cutoff))
  {
    hide OverBudget;
    var k := OverBudget(rows, budget);
    var gone := Expired(rows[k..], cutoff);
    SuffixAscending(rows, k);
    ExpiredAscending(rows[k..], cutoff);
    LiveMembers(rows[k..], cutoff);
    hide Expired;
    forall i, j | 0 <= i < k && 0 <= j < |gone| ensures rows[i].seqNo < gone[j].seqNo {
      assert gone[j] in gone && rows[..k][i] in rows[..k];
      PrefixBeforeSuffix(rows, k, rows[i], gone[j]);
    }
  }

  lemma {:induction false} ExpiredAscending(rows: seq<Row>, cutoff: nat)
    requires Ascending(rows)
    ensures Ascending(Expired(rows, cutoff))
  {
    if rows != [] {
      ExpiredAscending(rows[1..], cutoff);
      LiveMembers(rows[1..], cutoff);
    }
  }

  /** The rows with the new one last, as an accepted enqueue finds them. */
  lemma WithNew(s: State, limits: Limits, codec: Codec, r: Request)
    requires Inv(s, limits, codec)
    ensures Ascending(s.batches + [RowOf(codec, EnvelopeFor(codec, s.nextSeq, r))])
    ensures forall row | row in s.batches :: row.seqNo < s.nextSeq
  {
    hide TotalBytes, GapsOk, Partition;
    assert forall row | row in s.batches :: row.seqNo < s.nextSeq;
    forall i | 0 <= i < |s.batches| ensures s.batches[i].seqNo < s.nextSeq { assert s.batches[i] in s.batches; }
  }

  /** A pending row is gone if and only if it must leave; the new row is there,
      and nothing else has appeared. */
  ghost predicate LeavesExactly(s: State, after: State, limits: Limits, codec: Codec, r: Request) {
    var e := EnvelopeFor(codec, s.nextSeq, r);
    && (forall i | 0 <= i < |s.batches| ::
          s.batches[i] !in after.batches <==> MustLeave(s.batches, i, codec.size(e), limits, r.createdAt))
    && (forall row | row in after.batches :: row in s.batches || row == RowOf(codec, e))
    && RowOf(codec, e) in after.batches && Ascending(after.batches)
  }

  /** A fitting enqueue evicts exactly what it must: a pending row leaves if and
      only if it has expired, or the rows from it on do not fit the budget beside
      the new one. The new row stays, and nothing else appears. */
  lemma EvictsOnlyWhatItMust(s: State, limits: Limits, codec: Codec, r: Request, storageFull: bool)
    requires Inv(s, limits, codec)
    requires codec.size(EnvelopeFor(codec, s.nextSeq, r)) <= limits.maxPayloadBytes
    requires Enqueue(s, limits, codec, r, storageFull).1.Ok?
    ensures LeavesExactly(s, Enqueue(s, limits, codec, r, storageFull).0, limits, codec, r)
  {
    hide Inv, TotalBytes, Kept, Evicted, AddGaps, LeavesExactly, MinBucket, MaxBucket;
    EnqueueMeetsLimits(s, limits, codec, r, storageFull);
    EnqueueKeepsInv(s, limits, codec, r, storageFull);
    RowsAscending(Enqueue(s, limits, codec, r, storageFull).0, limits, codec);
    FitLeaves(s, Enqueue(s, limits, codec, r, storageFull).0, limits, codec, r);
  }

  lemma RowsAscending(s: State, limits: Limits, codec: Codec)
    requires Inv(s, limits, codec)
    ensures Ascending(s.batches)
  {
  }

  lemma FitLeaves(s: State, after: State, limits: Limits, codec: Codec, r: Request)
    requires Inv(s, limits, codec) && Ascending(after.batches)
    requires
      var row := RowOf(codec, EnvelopeFor(codec, s.nextSeq, r));
      && row in after.batches
      && after.batches == Kept(s.batches + [row], limits.maxPayloadBytes, Cutoff(r.createdAt, limits.maxAgeSeconds))
    ensures LeavesExactly(s, after, limits, codec, r)
  {
    WithNew(s, limits, codec, r);
    RowFields(codec, s.nextSeq, r);
    hide Inv, Ascending, TotalBytes, Kept, Evicted, RowOf, EnvelopeFor, MustLeave;
    var row, cutoff := RowOf(codec, EnvelopeFor(codec, s.nextSeq, r)), Cutoff(r.createdAt, limits.maxAgeSeconds);
    KeptComesFrom(s.batches, row, limits.maxPayloadBytes, cutoff);
    forall i | 0 <= i < |s.batches|
      ensures s.batches[i] !in after.batches
         <==> MustLeave(s.batches, i, row.payloadBytes, limits, r.createdAt)
    {
      KeptBesideNew(s.batches, row, i, limits, r.createdAt);
    }
  }

  lemma KeptComesFrom(rows: seq<Row>, row: Row, budget: nat, cutoff: nat)
    ensures forall kept | kept in Kept(rows + [row], budget, cutoff) :: kept in rows || kept == row
  {
    hide Kept, Evicted;
    KeptOrEvicted(rows + [row], budget, cutoff);
  }

  lemma KeptBesideNew(rows: seq<Row>, row: Row, i: nat, limits: Limits, now: nat)
    requires Ascending(rows + [row]) && i < |rows|
    ensures rows[i] in Kept(rows + [row], limits.maxPayloadBytes, Cutoff(now, limits.maxAgeSeconds))
       <==> !MustLeave(rows, i, row.payloadBytes, limits, now)
  {
    hide Ascending, Kept, TotalBytes;
    assert (rows + [row])[i] == rows[i];
    KeptAt(rows + [row], i, limits.maxPayloadBytes, Cutoff(now, limits.maxAgeSeconds));
    NewestTotal(rows, row, i);
  }

  /** What an accepted enqueue records, whether it fits or not: the next number,
      the envelope asked for, and as many new gaps as it answers; it alters no
      earlier gap and acknowledges nothing. */
  ghost predicate Records(s: State, after: State, codec: Codec, r: Request, answer: EnqueueResult) {
    var e := EnvelopeFor(codec, s.nextSeq, r);
    && after.nextSeq == s.nextSeq + 1 && after.acked == s.acked && after.log == s.log + [e]
    && e.body.nodeId == r.nodeId && e.body.bootId == r.bootId && e.body.seqNo == s.nextSeq
    && e.body.createdAt == r.createdAt && e.body.buckets == r.buckets && e.body.diagnostics == r.diagnostics
    && e.body.schemaVersion == 1 && e.checksum == codec.checksum(e.body) && answer.batchId == e.batchId
    && answer.evictedBatches == |after.gaps| - |s.gaps|
    && (forall q | q in s.gaps :: q in after.gaps && after.gaps[q] == s.gaps[q])
    && (forall q | q in after.gaps && q !in s.gaps :: after.gaps[q].createdAt == r.createdAt)
    && (forall row | row in s.batches && row !in after.batches :: row.seqNo in after.gaps)
  }

  lemma EnqueueRecords(s: State, limits: Limits, codec: Codec, r: Request, storageFull: bool)
    requires Inv(s, limits, codec) && Enqueue(s, limits, codec, r, storageFull).1.Ok?
    ensures
      var (after, result) := Enqueue(s, limits, codec, r, storageFull);
      Records(s, after, codec, r, result.value)
  {
    var e := EnvelopeFor(codec, s.nextSeq, r);
    RowFields(codec, s.nextSeq, r);
    EnvelopeFields(codec, s.nextSeq, r);
    hide TotalBytes, Kept, Evicted, AddGaps, Inv, RowOf, EnvelopeFor, RowFits, Records;
    var row, cutoff := RowOf(codec, e), Cutoff(r.createdAt, limits.maxAgeSeconds);
    if row.payloadBytes > limits.maxPayloadBytes {
      var gap := GapEvent(row.seqNo, row.minBucket, row.maxBucket, row.payloadBytes, BatchExceedsSpoolLimit,
                          r.createdAt);
      OversizeRecords(s, limits, codec, r, gap);
    } else {
      FitRecords(s, limits, codec, r, cutoff);
    }
  }

  lemma RowFields(codec: Codec, n: nat, r: Request)
    ensures
      var row := RowOf(codec, EnvelopeFor(codec, n, r));
      row.seqNo == n && row.payloadBytes == codec.size(EnvelopeFor(codec, n, r)) && row.createdAt == r.createdAt
  {
  }

  lemma EnvelopeFields(codec: Codec, n: nat, r: Request)
    ensures
      var e := EnvelopeFor(codec, n, r);
      && e.body.nodeId == r.nodeId && e.body.bootId == r.bootId && e.body.seqNo == n
      && e.body.createdAt == r.createdAt && e.body.buckets == r.buckets && e.body.diagnostics == r.diagnostics
      && e.body.schemaVersion == 1 && e.checksum == codec.checksum(e.body)
  {
  }

  lemma OversizeRecords(s: State, limits: Limits, codec: Codec, r: Request, gap: GapEvent)
    requires Inv(s, limits, codec) && gap.createdAt == r.createdAt
    ensures
      var e := EnvelopeFor(codec, s.nextSeq, r);
      Records(s, State(s.nextSeq + 1, s.batches, s.gaps[s.nextSeq := gap], s.log + [e], s.acked), codec, r,
              EnqueueResult(e.batchId, 1))
  {
    EnvelopeFields(codec, s.nextSeq, r);
    hide EnvelopeFor, RowsOk, LogOk, GapsOk, TotalBytes, Seqs;
    NextIsFree(s.nextSeq, Seqs(s.batches), s.gaps.Keys, s.acked);
    OneMoreGap(s.gaps, s.nextSeq, gap);
  }

  lemma FitRecords(s: State, limits: Limits, codec: Codec, r: Request, cutoff: nat)
    requires Inv(s, limits, codec)
    ensures
      var e := EnvelopeFor(codec, s.nextSeq, r);
      var rows := s.batches + [RowOf(codec, e)];
      var out := Evicted(rows, limits.maxPayloadBytes, cutoff);
      Records(s, State(s.nextSeq + 1, Kept(rows, limits.maxPayloadBytes, cutoff),
                       AddGaps(s.gaps, out, cutoff, r.createdAt),
                       s.log + [e], s.acked), codec, r, EnqueueResult(e.batchId, |out|))
  {
    EnvelopeFields(codec, s.nextSeq, r);
    RowFields(codec, s.nextSeq, r);
    WithNew(s, limits, codec, r);
    InvPartition(s, limits, codec);
    hide EnvelopeFor, RowOf, Inv, Seqs, Kept, Evicted, AddGaps, Partition, Ascending;
    var row := RowOf(codec, EnvelopeFor(codec, s.nextSeq, r));
    var rows := s.batches + [row];
    var out := Evicted(rows, limits.maxPayloadBytes, cutoff);
    EvictedAscending(rows, limits.maxPayloadBytes, cutoff);
    SeqsCount(out);
    KeptOrEvicted(rows, limits.maxPayloadBytes, cutoff);
    NewGaps(s, rows, row, out, cutoff, r.createdAt);
    forall gone | gone in s.batches && gone !in Kept(rows, limits.maxPayloadBytes, cutoff) ensures gone in out {
      assert gone in rows;
    }
  }

  lemma InvPartition(s: State, limits: Limits, codec: Codec)
    requires Inv(s, limits, codec)
    ensures Partition(s.nextSeq, Seqs(s.batches), s.gaps.Keys, s.acked)
  {
  }

  lemma OneMoreGap(gaps: map<nat, GapEvent>, q: nat, gap: GapEvent)
    requires q !in gaps
    ensures |gaps[q := gap]| == |gaps| + 1
  {
    assert gaps[q := gap].Keys == gaps.Keys + {q};
  }

  lemma NewGaps(s: State, rows: seq<Row>, row: Row, out: seq<Row>, cutoff: nat, now: nat)
    requires rows == s.batches + [row] && row.seqNo == s.nextSeq && (forall o | o in out :: o in rows)
    requires Partition(s.nextSeq, Seqs(s.batches), s.gaps.Keys, s.acked) && |Seqs(out)| == |out|
    ensures
      var after := AddGaps(s.gaps, out, cutoff, now);
      && |after| == |s.gaps| + |out| && (forall o | o in out :: o.seqNo in after)
      && (forall q | q in s.gaps :: q in after && after[q] == s.gaps[q])
      && (forall q | q in after && q !in s.gaps :: after[q].createdAt == now)
  {
    hide AddGaps;
    AddGapsAdds(s.gaps, out, cutoff, now);
    var after := AddGaps(s.gaps, out, cutoff, now);
    forall q | q in Seqs(out) ensures q !in s.gaps {
      var o :| o in out && o.seqNo == q;
      if o in s.batches { assert q in Seqs(s.batches); }
    }
    assert s.gaps.Keys !! Seqs(out) && after.Keys == s.gaps.Keys + Seqs(out);
    assert |after.Keys| == |after| && |s.gaps.Keys| == |s.gaps|;
  }

  /** What makes an enqueue fail, on its inputs alone: the engine, a value that
      does not fit, or for a batch within the budget a budget or a total that
      does not. */
  ghost predicate RefusedEnqueue(s: State, limits: Limits, codec: Codec, r: Request, storageFull: bool) {
    var size := codec.size(EnvelopeFor(codec, s.nextSeq, r));
    || storageFull || !Fits(s.nextSeq) || !Fits(r.createdAt) || !Fits(size)
    || (exists b :: b in r.buckets && !Fits(b.bucketStart))
    || (size <= limits.maxPayloadBytes && (!Fits(limits.maxPayloadBytes) || !Fits(TotalBytes(s.batches) + size)))
  }

  lemma EnqueueRefusedExactly(s: State, limits: Limits, codec: Codec, r: Request, storageFull: bool)
    ensures Enqueue(s, limits, codec, r, storageFull).1.Err? <==> RefusedEnqueue(s, limits, codec, r, storageFull)
    ensures Enqueue(s, limits, codec, r, storageFull).1.Err? ==> Enqueue(s, limits, codec, r, storageFull).0 == s
    ensures Enqueue(s, limits, codec, r, storageFull).1 == Err(StorageFull) <==> storageFull
  {
    hide TotalBytes, Kept, Evicted, AddGaps, MinBucket, MaxBucket;
    RangeIsExact(r.buckets);
    NewestTotal(s.batches, RowOf(codec, EnvelopeFor(codec, s.nextSeq, r)), 0);
    var row := RowOf(codec, EnvelopeFor(codec, s.nextSeq, r));
    assert (s.batches + [row])[0..] == s.batches + [row] && s.batches[0..] == s.batches;
    if exists b :: b in r.buckets && !Fits(b.bucketStart) {
      var b :| b in r.buckets && !Fits(b.bucketStart);
    }
  }

  /** The meaning of an enqueue as a whole. */
  ghost predicate Means(s: State, limits: Limits, codec: Codec, r: Request, storageFull: bool, after: State,
                        result: Result<EnqueueResult, SpoolError>)
  {
    && (result.Err? <==> RefusedEnqueue(s, limits, codec, r, storageFull))
    && (result.Err? ==> after == s)
    && (result.Ok? ==> Records(s, after, codec, r, result.value))
    && (result.Ok? ==>
          if codec.size(EnvelopeFor(codec, s.nextSeq, r)) <= limits.maxPayloadBytes
          then LeavesExactly(s, after, limits, codec, r) else after.batches == s.batches)
  }

  lemma EnqueueMeaning(s: State, limits: Limits, codec: Codec, r: Request, storageFull: bool)
    requires Inv(s, limits, codec)
    ensures
      var (after, result) := Enqueue(s, limits, codec, r, storageFull);
      Means(s, limits, codec, r, storageFull, after, result)
  {
    EnqueueRefusedExactly(s, limits, codec, r, storageFull);
    hide Inv, RefusedEnqueue, Records, LeavesExactly, Kept, Evicted, AddGaps, TotalBytes, MinBucket, MaxBucket;
    if Enqueue(s, limits, codec, r, storageFull).1.Ok? {
      EnqueueRecords(s, limits, codec, r, storageFull);
      if codec.size(EnvelopeFor(codec, s.nextSeq, r)) <= limits.maxPayloadBytes {
        EvictsOnlyWhatItMust(s, limits, codec, r, storageFull);
      }
    }
  }
}
