/** The spool as a mutable object (src/spool.rs). A transaction works on local
    copies of the tables and assigns the fields at commit. */
module SpoolStore {
  import opened Wrappers
  import opened Model
  import opened Sequences
  import opened SpoolSpec
  import opened SpoolProofs
  import opened SpoolEnqueue

  /** `WHERE created_at < cutoff OR total > budget ORDER BY seq LIMIT 1`; the
      length of the table stands for no row. */
  method FindCandidate(rows: seq<Row>, cutoff: nat, total: nat, budget: nat) returns (i: nat)
    ensures i <= |rows|
    ensures total > budget ==> i == 0
    ensures forall j | 0 <= j < i :: rows[j].createdAt >= cutoff
    ensures i < |rows| ==> rows[i].createdAt < cutoff || total > budget
  {
    i := 0;
    while i < |rows| && !(rows[i].createdAt < cutoff || total > budget)
      invariant i <= |rows| && (total > budget ==> i == 0)
      invariant forall j | 0 <= j < i :: rows[j].createdAt >= cutoff
    {
      i := i + 1;
    }
  }

  /** The eviction loop deletes one row at a time and recomputes the total each
      time; it ends because every turn deletes a row. */
  method EnforceLimits(batches: seq<Row>, gaps: map<nat, GapEvent>, limits: Limits, now: nat)
    returns (kept: seq<Row>, recorded: map<nat, GapEvent>, evicted: nat)
    ensures
      var cutoff, budget := Cutoff(now, limits.maxAgeSeconds), limits.maxPayloadBytes;
      && kept == Kept(batches, budget, cutoff)
      && recorded == AddGaps(gaps, Evicted(batches, budget, cutoff), cutoff, now)
      && evicted == |Evicted(batches, budget, cutoff)|
  {
    hide Kept, Evicted, AddGaps, TotalBytes;
    var cutoff, budget := SaturatingSub(now, limits.maxAgeSeconds), limits.maxPayloadBytes;
    kept, recorded, evicted := batches, gaps, 0;
    while true
      invariant Kept(kept, budget, cutoff) == Kept(batches, budget, cutoff)
      invariant AddGaps(recorded, Evicted(kept, budget, cutoff), cutoff, now)
             == AddGaps(gaps, Evicted(batches, budget, cutoff), cutoff, now)
      invariant evicted + |Evicted(kept, budget, cutoff)| == |Evicted(batches, budget, cutoff)|
      decreases |kept|
    {
      var total := TotalBytes(kept);
      var i := FindCandidate(kept, cutoff, total, budget);
      if i == |kept| {
        EmptyIsInBudget(kept);
        NothingToEvict(kept, budget, cutoff, recorded, now);
        break;
      }
      var row := kept[i];
      var reason := if row.createdAt < cutoff then SpoolAgeLimit else SpoolByteLimit;
      if total > budget { EvictOldest(kept, budget, cutoff); } else { EvictExpired(kept, i, budget, cutoff); }
      OneGap(recorded, row, Evicted(Without(kept, i), budget, cutoff), cutoff, now);
      kept := kept[..i] + kept[i + 1..];
      var gap := GapEvent(row.seqNo, row.minBucket, row.maxBucket, row.payloadBytes, reason, now);
      recorded := recorded[row.seqNo := gap];
      evicted := evicted + 1;
    }
  }

  lemma EmptyIsInBudget(rows: seq<Row>)
    ensures rows == [] ==> TotalBytes(rows) == 0
  {
  }

  lemma OneGap(gaps: map<nat, GapEvent>, row: Row, rest: seq<Row>, cutoff: nat, now: nat)
    ensures AddGaps(gaps, [row] + rest, cutoff, now)
         == AddGaps(gaps[row.seqNo := GapOf(row, cutoff, now)], rest, cutoff, now)
    ensures |[row] + rest| == 1 + |rest|
  {
    assert ([row] + rest)[1..] == rest;
  }

  lemma NothingToEvict(rows: seq<Row>, budget: nat, cutoff: nat, gaps: map<nat, GapEvent>, now: nat)
    requires TotalBytes(rows) <= budget && forall j | 0 <= j < |rows| :: rows[j].createdAt >= cutoff
    ensures Kept(rows, budget, cutoff) == rows && Evicted(rows, budget, cutoff) == []
    ensures AddGaps(gaps, [], cutoff, now) == gaps
  {
    EvictNothing(rows, budget, cutoff);
  }

  lemma PayloadsAreLogged(s: State, limits: Limits, codec: Codec, limit: nat)
    requires Inv(s, limits, codec)
    ensures forall i | 0 <= i < |SpoolSpec.Pending(s, limit)| ::
              s.batches[i].seqNo < |s.log| && SpoolSpec.Pending(s, limit)[i] == s.log[s.batches[i].seqNo]
  {
    forall i | 0 <= i < |SpoolSpec.Pending(s, limit)|
      ensures s.batches[i].seqNo < |s.log| && SpoolSpec.Pending(s, limit)[i] == s.log[s.batches[i].seqNo]
    {
      assert s.batches[i] in s.batches;
    }
  }

  class Spool {
    const limits: Limits
    const codec: Codec
    var nextSeq: nat
    var batches: seq<Row>
    var gaps: map<nat, GapEvent>
    ghost var log: seq<BatchEnvelope>
    ghost var acked: set<nat>

    ghost function View(): State
      reads this
    {
      State(nextSeq, batches, gaps, log, acked)
    }

    ghost predicate Valid()
      reads this
    {
      limits.maxPayloadBytes > 0 && limits.maxAgeSeconds > 0 && Inv(View(), limits, codec)
    }

    constructor (limits: Limits, codec: Codec)
      requires limits.maxPayloadBytes > 0 && limits.maxAgeSeconds > 0
      ensures Valid() && View() == EMPTY && this.limits == limits && this.codec == codec
    {
      this.limits, this.codec := limits, codec;
      nextSeq, batches, gaps, log, acked := 0, [], map[], [], {};
    }

    /** Numbers and stores a batch, or records it as lost when it alone exceeds
        the budget. On an error the transaction rolls back. */
    method Enqueue(r: Request, storageFull: bool) returns (result: Result<EnqueueResult, SpoolError>)
      requires Valid()
      modifies this
      ensures Valid()
      ensures (View(), result) == SpoolSpec.Enqueue(old(View()), limits, codec, r, storageFull)
      ensures Means(old(View()), limits, codec, r, storageFull, View(), result)
      ensures result.Err? ==> View() == old(View())
    {
      hide Means, Inv, TotalBytes, Kept, Evicted, AddGaps, MinBucket, MaxBucket;
      EnqueueMeaning(View(), limits, codec, r, storageFull);
      EnqueueKeepsInv(View(), limits, codec, r, storageFull);
      if storageFull { return Err(StorageFull); }
      var seqNo := nextSeq;
      var envelope := NewEnvelope(codec, BatchBody(SCHEMA_VERSION, r.nodeId, r.bootId, seqNo, r.createdAt, r.buckets,
                                                   r.diagnostics));
      var payloadBytes := codec.size(envelope);
      var minBucket, maxBucket := MinBucket(r.buckets), MaxBucket(r.buckets);
      if !Fits(seqNo) || !Fits(r.createdAt) || !Fits(payloadBytes) || !OptionFits(minBucket) || !OptionFits(maxBucket) {
        return Err(OutOfRange);
      }
      InsertsCannotCollide(View(), limits, codec, r);
      if payloadBytes > limits.maxPayloadBytes {
        assert seqNo !in gaps;
        gaps := gaps[seqNo := GapEvent(seqNo, minBucket, maxBucket, payloadBytes, BatchExceedsSpoolLimit, r.createdAt)];
        nextSeq, log := nextSeq + 1, log + [envelope];
        return Ok(EnqueueResult(envelope.batchId, 1));
      }
      var row := Row(seqNo, envelope.batchId, envelope.checksum, r.createdAt, minBucket, maxBucket, payloadBytes,
                     envelope);
      assert forall other | other in batches :: other.seqNo != seqNo && other.batchId != row.batchId;
      var inserted := batches + [row];
      if !Fits(limits.maxPayloadBytes) || !Fits(TotalBytes(inserted)) { return Err(OutOfRange); }
      var kept, recorded, evicted := EnforceLimits(inserted, gaps, limits, r.createdAt);
      batches, gaps := kept, recorded;
      nextSeq, log := nextSeq + 1, log + [envelope];
      return Ok(EnqueueResult(envelope.batchId, evicted));
    }

    /** At most `limit` payloads in sequence order. */
    method Pending(limit: nat) returns (result: Result<seq<BatchEnvelope>, SpoolError>)
      requires Valid()
      ensures result == if Fits(limit) then Ok(SpoolSpec.Pending(View(), limit)) else Err(OutOfRange)
      ensures result.Ok? ==> forall i | 0 <= i < |result.value| ::
                batches[i].seqNo < |log| && result.value[i] == log[batches[i].seqNo]
    {
      hide Inv;
      PayloadsAreLogged(View(), limits, codec, limit);
      if !Fits(limit) { return Err(OutOfRange); }
      var envelopes := [];
      var i := 0;
      while i < limit && i < |batches|
        invariant i <= limit && i <= |batches| && |envelopes| == i
        invariant forall j | 0 <= j < i :: envelopes[j] == batches[j].payload
      {
        envelopes := envelopes + [batches[i].payload];
        i := i + 1;
      }
      assert envelopes == SpoolSpec.Pending(View(), limit);
      return Ok(envelopes);
    }

    method Acknowledge(batchId: string, checksum: string) returns (result: Result<(), SpoolError>)
      requires Valid()
      modifies this
      ensures Valid()
      ensures (View(), result) == SpoolSpec.Acknowledge(old(View()), batchId, checksum)
      ensures result.Err? ==> View() == old(View())
    {
      AckKeepsInv(View(), limits, codec, batchId, checksum);
      var remaining := Unmatched(batches, batchId, checksum);
      ghost var matched := MatchedSeqs(batches, batchId, checksum);
      var single := |batches| == |remaining| + 1;
      batches, acked := remaining, acked + matched;
      if !single { return Err(AckMismatch); }
      return Ok(());
    }

    /** Counts and bytes; together with what was acknowledged they account for
        every byte ever enqueued. */
    method Status() returns (pendingBatches: nat, pendingPayloadBytes: nat, gapEvents: nat)
      requires Valid()
      ensures pendingBatches == |batches| && pendingPayloadBytes == TotalBytes(batches) <= limits.maxPayloadBytes
      ensures gapEvents == |gaps|
      ensures EnqueuedBytes(codec, log, nextSeq)
           == pendingPayloadBytes + LostBytes(GapList(gaps, nextSeq)) + Bytes(codec, log, acked, nextSeq)
    {
      ByteLedger(View(), limits, codec);
      pendingBatches, pendingPayloadBytes, gapEvents := |batches|, TotalBytes(batches), |gaps|;
    }

    /** The ledger of losses, oldest first. */
    method Gaps() returns (events: seq<GapEvent>)
      requires Valid()
      ensures forall i, j | 0 <= i < j < |events| :: events[i].seqNo < events[j].seqNo
      ensures forall g :: g in events <==> g.seqNo in gaps && gaps[g.seqNo] == g
    {
      GapListIsExact(limits, codec, log, gaps, nextSeq);
      hide ReasonFor, IsRange, RowsOk, LogOk;
      events := GapList(gaps, nextSeq);
    }
  }
}
