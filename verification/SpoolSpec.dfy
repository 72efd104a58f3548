/** The agent's spool as tables (src/spool.rs), its operations as functions on
    them, and what eviction and acknowledgement mean. */
module SpoolSpec {
  import opened Wrappers
  import opened Model
  import opened Sequences

  datatype Limits = Limits(maxPayloadBytes: nat, maxAgeSeconds: nat)

  /** A row of table `batches`. */
  datatype Row = Row(seqNo: nat, batchId: string, checksum: string, createdAt: nat, minBucket: Option<nat>,
                     maxBucket: Option<nat>, payloadBytes: nat, payload: BatchEnvelope)

  datatype Reason = BatchExceedsSpoolLimit | SpoolAgeLimit | SpoolByteLimit

  /** A row of table `gaps`. */
  datatype GapEvent = GapEvent(seqNo: nat, minBucket: Option<nat>, maxBucket: Option<nat>, lostBytes: nat,
                               reason: Reason, createdAt: nat)

  /** The three tables, with two histories the program does not store: every
      envelope a committed enqueue made, by sequence number, and the sequence
      numbers deleted by an acknowledgement. `batches` is in primary-key order. */
  datatype State = State(nextSeq: nat, batches: seq<Row>, gaps: map<nat, GapEvent>,
                         log: seq<BatchEnvelope>, acked: set<nat>)

  const EMPTY := State(0, [], map[], [], {})

  // ------------------------------------------------------------- bucket range

  function MinBucket(buckets: seq<FlowBucket>): Option<nat> {
    if buckets == [] then None
    else
      var rest := MinBucket(buckets[1..]);
      Some(if rest.Some? then Min(buckets[0].bucketStart, rest.value) else buckets[0].bucketStart)
  }

  function MaxBucket(buckets: seq<FlowBucket>): Option<nat> {
    if buckets == [] then None
    else
      var rest := MaxBucket(buckets[1..]);
      Some(if rest.Some? then Max(buckets[0].bucketStart, rest.value) else buckets[0].bucketStart)
  }

  /** `lo` and `hi` are the smallest and largest bucket starts, both reached. */
  ghost predicate IsRange(buckets: seq<FlowBucket>, lo: Option<nat>, hi: Option<nat>) {
    && (lo.None? <==> buckets == []) && (hi.None? <==> buckets == [])
    && (lo.Some? ==> exists b :: b in buckets && b.bucketStart == lo.value)
    && (hi.Some? ==> exists b :: b in buckets && b.bucketStart == hi.value)
    && (lo.Some? && hi.Some? ==> forall b | b in buckets :: lo.value <= b.bucketStart <= hi.value)
  }

  lemma {:induction false} RangeIsExact(buckets: seq<FlowBucket>)
    ensures IsRange(buckets, MinBucket(buckets), MaxBucket(buckets))
  {
    if buckets != [] {
      HeadTail(buckets);
      RangeIsExact(buckets[1..]);
    }
  }

  function RowOf(codec: Codec, e: BatchEnvelope): Row {
    Row(e.body.seqNo, e.batchId, e.checksum, e.body.createdAt, MinBucket(e.body.buckets), MaxBucket(e.body.buckets),
        codec.size(e), e)
  }

  // ----------------------------------------------------------------- eviction

  function TotalBytes(rows: seq<Row>): nat {
    if rows == [] then 0 else rows[0].payloadBytes + TotalBytes(rows[1..])
  }

  /** Length of the shortest prefix whose removal brings the rest in budget. */
  function OverBudget(rows: seq<Row>, budget: nat): (k: nat)
    ensures k <= |rows|
  {
    if TotalBytes(rows) <= budget then 0 else 1 + OverBudget(rows[1..], budget)
  }

  function Live(rows: seq<Row>, cutoff: nat): seq<Row> {
    if rows == [] then []
    else if rows[0].createdAt < cutoff then Live(rows[1..], cutoff)
    else [rows[0]] + Live(rows[1..], cutoff)
  }

  function Expired(rows: seq<Row>, cutoff: nat): seq<Row> {
    if rows == [] then []
    else if rows[0].createdAt < cutoff then [rows[0]] + Expired(rows[1..], cutoff)
    else Expired(rows[1..], cutoff)
  }

  /** The two-phase meaning of eviction: first a prefix for the byte budget,
      then whatever of the remainder is too old. */
  function Kept(rows: seq<Row>, budget: nat, cutoff: nat): seq<Row> {
    Live(rows[OverBudget(rows, budget)..], cutoff)
  }

  function Evicted(rows: seq<Row>, budget: nat, cutoff: nat): seq<Row> {
    var k := OverBudget(rows, budget);
    rows[..k] + Expired(rows[k..], cutoff)
  }

  function GapOf(row: Row, cutoff: nat, now: nat): GapEvent {
    GapEvent(row.seqNo, row.minBucket, row.maxBucket, row.payloadBytes,
             if row.createdAt < cutoff then SpoolAgeLimit else SpoolByteLimit, now)
  }

  function AddGaps(gaps: map<nat, GapEvent>, rows: seq<Row>, cutoff: nat, now: nat): map<nat, GapEvent>
    decreases |rows|
  {
    if rows == [] then gaps else AddGaps(gaps[rows[0].seqNo := GapOf(rows[0], cutoff, now)], rows[1..], cutoff, now)
  }

  // --------------------------------------------------------------- operations

  datatype Request = Request(nodeId: string, bootId: string, createdAt: nat, buckets: seq<FlowBucket>,
                             diagnostics: CaptureDiagnostics)
  datatype EnqueueResult = EnqueueResult(batchId: string, evictedBatches: nat)
  datatype SpoolError = OutOfRange | StorageFull | AckMismatch

  function EnvelopeFor(codec: Codec, seqNo: nat, r: Request): BatchEnvelope {
    NewEnvelope(codec, BatchBody(SCHEMA_VERSION, r.nodeId, r.bootId, seqNo, r.createdAt, r.buckets, r.diagnostics))
  }

  /** The values of an enqueue that are written as SQLite integers. */
  predicate RowFits(row: Row) {
    && Fits(row.seqNo) && Fits(row.createdAt) && Fits(row.payloadBytes)
    && OptionFits(row.minBucket) && OptionFits(row.maxBucket)
  }

  /** `storageFull` is the engine refusing some statement of the transaction. */
  function Enqueue(s: State, limits: Limits, codec: Codec, r: Request, storageFull: bool)
    : (State, Result<EnqueueResult, SpoolError>)
  {
    var e := EnvelopeFor(codec, s.nextSeq, r);
    var row := RowOf(codec, e);
    if storageFull then (s, Err(StorageFull))
    else if !RowFits(row) then (s, Err(OutOfRange))
    else if row.payloadBytes > limits.maxPayloadBytes then
      var gap := GapEvent(row.seqNo, row.minBucket, row.maxBucket, row.payloadBytes, BatchExceedsSpoolLimit,
                          r.createdAt);
      (State(s.nextSeq + 1, s.batches, s.gaps[row.seqNo := gap], s.log + [e], s.acked), Ok(EnqueueResult(e.batchId, 1)))
    else
      var rows := s.batches + [row];
      if !Fits(limits.maxPayloadBytes) || !Fits(TotalBytes(rows)) then (s, Err(OutOfRange))
      else
        var cutoff := Cutoff(r.createdAt, limits.maxAgeSeconds);
        var out := Evicted(rows, limits.maxPayloadBytes, cutoff);
        (State(s.nextSeq + 1, Kept(rows, limits.maxPayloadBytes, cutoff), AddGaps(s.gaps, out, cutoff, r.createdAt),
               s.log + [e], s.acked),
         Ok(EnqueueResult(e.batchId, |out|)))
  }

  predicate AckMatches(row: Row, batchId: string, checksum: string) {
    row.batchId == batchId && row.checksum == checksum
  }

  function Unmatched(rows: seq<Row>, batchId: string, checksum: string): seq<Row> {
    if rows == [] then []
    else if AckMatches(rows[0], batchId, checksum) then Unmatched(rows[1..], batchId, checksum)
    else [rows[0]] + Unmatched(rows[1..], batchId, checksum)
  }

  function MatchedSeqs(rows: seq<Row>, batchId: string, checksum: string): set<nat> {
    set row | row in rows && AckMatches(row, batchId, checksum) :: row.seqNo
  }

  /** Deletes the matching rows; fails unless it deleted exactly one. */
  function Acknowledge(s: State, batchId: string, checksum: string): (State, Result<(), SpoolError>) {
    var rest := Unmatched(s.batches, batchId, checksum);
    (s.(batches := rest, acked := s.acked + MatchedSeqs(s.batches, batchId, checksum)),
     if |s.batches| == |rest| + 1 then Ok(()) else Err(AckMismatch))
  }

  function Payloads(rows: seq<Row>): seq<BatchEnvelope> {
    seq(|rows|, i requires 0 <= i < |rows| => rows[i].payload)
  }

  /** `SELECT payload ... ORDER BY seq LIMIT limit`. */
  function Pending(s: State, limit: nat): seq<BatchEnvelope> { Payloads(s.batches[..Min(limit, |s.batches|)]) }

  function GapList(gaps: map<nat, GapEvent>, n: nat): seq<GapEvent> {
    if n == 0 then [] else GapList(gaps, n - 1) + if n - 1 in gaps then [gaps[n - 1]] else []
  }

  // ------------------------------------------------------- facts on eviction

  /** The byte prefix is the shortest possible. */
  lemma {:induction false} OverBudgetIsLeast(rows: seq<Row>, budget: nat)
    ensures TotalBytes(rows[OverBudget(rows, budget)..]) <= budget
    ensures forall j | 0 <= j < OverBudget(rows, budget) :: TotalBytes(rows[j..]) > budget
  {
    var k := OverBudget(rows, budget);
    if TotalBytes(rows) <= budget {
      assert rows[0..] == rows;
    } else {
      OverBudgetIsLeast(rows[1..], budget);
      assert rows[k..] == rows[1..][k - 1..];
      forall j | 0 <= j < k ensures TotalBytes(rows[j..]) > budget {
        if j == 0 { assert rows[0..] == rows; } else { assert rows[j..] == rows[1..][j - 1..]; }
      }
    }
  }

  lemma {:induction false} TotalConcat(a: seq<Row>, b: seq<Row>)
    ensures TotalBytes(a + b) == TotalBytes(a) + TotalBytes(b)
  {
    if a == [] {
      assert a + b == b;
    } else {
      ConcatHead(a, b);
      TotalConcat(a[1..], b);
    }
  }

  lemma {:induction false} LiveMembers(rows: seq<Row>, cutoff: nat)
    ensures forall row :: row in Live(rows, cutoff) <==> row in rows && row.createdAt >= cutoff
    ensures forall row :: row in Expired(rows, cutoff) <==> row in rows && row.createdAt < cutoff
    ensures TotalBytes(Live(rows, cutoff)) <= TotalBytes(rows)
  {
    if rows != [] {
      HeadTail(rows);
      LiveMembers(rows[1..], cutoff);
      assert ([rows[0]] + Live(rows[1..], cutoff))[1..] == Live(rows[1..], cutoff);
    }
  }

  lemma {:induction false} FilterConcat(a: seq<Row>, b: seq<Row>, cutoff: nat)
    ensures Live(a + b, cutoff) == Live(a, cutoff) + Live(b, cutoff)
    ensures Expired(a + b, cutoff) == Expired(a, cutoff) + Expired(b, cutoff)
  {
    if a == [] {
      assert a + b == b;
    } else {
      ConcatHead(a, b);
      FilterConcat(a[1..], b, cutoff);
    }
  }

  lemma {:induction false} NothingExpired(rows: seq<Row>, cutoff: nat)
    requires forall row | row in rows :: row.createdAt >= cutoff
    ensures Live(rows, cutoff) == rows && Expired(rows, cutoff) == []
  {
    if rows != [] {
      HeadTail(rows);
      NothingExpired(rows[1..], cutoff);
    }
  }

  lemma TotalOne(row: Row, rest: seq<Row>)
    ensures TotalBytes([row] + rest) == row.payloadBytes + TotalBytes(rest)
  {
    assert ([row] + rest)[1..] == rest;
  }

  lemma FilterOne(row: Row, rest: seq<Row>, cutoff: nat)
    requires row.createdAt < cutoff
    ensures Live([row] + rest, cutoff) == Live(rest, cutoff)
    ensures Expired([row] + rest, cutoff) == [row] + Expired(rest, cutoff)
  {
    assert ([row] + rest)[1..] == rest;
  }

  /** Over budget, the oldest row goes; the rest of the work is unchanged. */
  lemma EvictOldest(rows: seq<Row>, budget: nat, cutoff: nat)
    requires TotalBytes(rows) > budget
    ensures rows != [] && Without(rows, 0) == rows[1..]
    ensures Kept(rows[1..], budget, cutoff) == Kept(rows, budget, cutoff)
    ensures Evicted(rows, budget, cutoff) == [rows[0]] + Evicted(rows[1..], budget, cutoff)
  {
    hide Live, Expired;
    var k := OverBudget(rows, budget);
    TailSlices(rows, k);
    Associative([rows[0]], rows[1..][..k - 1], Expired(rows[k..], cutoff));
  }

  lemma InBudget(rows: seq<Row>, budget: nat, cutoff: nat)
    requires TotalBytes(rows) <= budget
    ensures Kept(rows, budget, cutoff) == Live(rows, cutoff) && Evicted(rows, budget, cutoff) == Expired(rows, cutoff)
  {
    assert rows[0..] == rows;
  }

  lemma EvictMiddle(a: seq<Row>, row: Row, b: seq<Row>, budget: nat, cutoff: nat)
    requires TotalBytes(a + ([row] + b)) <= budget && row.createdAt < cutoff
    requires forall r | r in a :: r.createdAt >= cutoff
    ensures Kept(a + b, budget, cutoff) == Kept(a + ([row] + b), budget, cutoff)
    ensures Evicted(a + ([row] + b), budget, cutoff) == [row] + Evicted(a + b, budget, cutoff)
  {
    TotalOne(row, b);
    FilterOne(row, b, cutoff);
    hide TotalBytes, Live, Expired, Kept, Evicted;
    TotalConcat(a, [row] + b);
    TotalConcat(a, b);
    FilterConcat(a, [row] + b, cutoff);
    FilterConcat(a, b, cutoff);
    NothingExpired(a, cutoff);
    InBudget(a + ([row] + b), budget, cutoff);
    InBudget(a + b, budget, cutoff);
    assert [] + ([row] + Expired(b, cutoff)) == [row] + Expired(b, cutoff);
    assert [] + Expired(b, cutoff) == Expired(b, cutoff);
  }

  /** In budget, the first row that is too old goes. */
  lemma EvictExpired(rows: seq<Row>, i: nat, budget: nat, cutoff: nat)
    requires TotalBytes(rows) <= budget && i < |rows| && rows[i].createdAt < cutoff
    requires forall j | 0 <= j < i :: rows[j].createdAt >= cutoff
    ensures Kept(Without(rows, i), budget, cutoff) == Kept(rows, budget, cutoff)
    ensures Evicted(rows, budget, cutoff) == [rows[i]] + Evicted(Without(rows, i), budget, cutoff)
  {
    hide TotalBytes, Kept, Evicted;
    SplitAround(rows, i);
    EvictMiddle(rows[..i], rows[i], rows[i + 1..], budget, cutoff);
  }

  /** Nothing left to do. */
  lemma EvictNothing(rows: seq<Row>, budget: nat, cutoff: nat)
    requires TotalBytes(rows) <= budget && forall row | row in rows :: row.createdAt >= cutoff
    ensures Kept(rows, budget, cutoff) == rows && Evicted(rows, budget, cutoff) == []
  {
    assert rows[0..] == rows;
    NothingExpired(rows, cutoff);
  }

  ghost predicate MeetsLimits(rows: seq<Row>, budget: nat, cutoff: nat) {
    TotalBytes(rows) <= budget && forall row | row in rows :: row.createdAt >= cutoff
  }

  /** What is kept meets both limits, whatever the clocks did. */
  lemma KeptMeetsLimits(rows: seq<Row>, budget: nat, cutoff: nat)
    ensures MeetsLimits(Kept(rows, budget, cutoff), budget, cutoff)
  {
    OverBudgetIsLeast(rows, budget);
    LiveMembers(rows[OverBudget(rows, budget)..], cutoff);
  }

  /** Kept and evicted rows together are the rows. */
  lemma KeptOrEvicted(rows: seq<Row>, budget: nat, cutoff: nat)
    ensures forall row :: row in rows <==> row in Kept(rows, budget, cutoff) || row in Evicted(rows, budget, cutoff)
  {
    var k := OverBudget(rows, budget);
    LiveMembers(rows[k..], cutoff);
    assert rows == rows[..k] + rows[k..];
    assert forall row :: row in rows <==> row in rows[..k] || row in rows[k..];
  }

  ghost predicate OldestFirst(rows: seq<Row>) {
    forall i, j | 0 <= i < j < |rows| :: rows[i].createdAt <= rows[j].createdAt
  }

  /** Length of the leading run of expired rows. */
  function ExpiredPrefix(rows: seq<Row>, cutoff: nat): (k: nat)
    ensures k <= |rows|
  {
    if rows == [] || rows[0].createdAt >= cutoff then 0 else 1 + ExpiredPrefix(rows[1..], cutoff)
  }

  lemma {:induction false} ExpiredIsPrefix(rows: seq<Row>, cutoff: nat)
    requires OldestFirst(rows)
    ensures Live(rows, cutoff) == rows[ExpiredPrefix(rows, cutoff)..]
    ensures Expired(rows, cutoff) == rows[..ExpiredPrefix(rows, cutoff)]
    ensures forall row | row in rows[..ExpiredPrefix(rows, cutoff)] :: row.createdAt < cutoff
    ensures forall row | row in rows[ExpiredPrefix(rows, cutoff)..] :: row.createdAt >= cutoff
  {
    if rows != [] {
      if rows[0].createdAt < cutoff {
        ExpiredIsPrefix(rows[1..], cutoff);
        TailSlices(rows, ExpiredPrefix(rows, cutoff));
      } else {
        forall row | row in rows ensures row.createdAt >= cutoff {
          var i :| 0 <= i < |rows| && rows[i] == row;
        }
        NothingExpired(rows, cutoff);
        assert rows[0..] == rows && rows[..0] == [];
      }
    }
  }

  /** With creation times nondecreasing in sequence number, eviction removes the
      least prefix that leaves both limits met. */
  lemma LeastPrefixWhenOrdered(rows: seq<Row>, budget: nat, cutoff: nat) returns (m: nat)
    requires OldestFirst(rows)
    ensures m <= |rows|
    ensures Evicted(rows, budget, cutoff) == rows[..m] && Kept(rows, budget, cutoff) == rows[m..]
    ensures MeetsLimits(rows[m..], budget, cutoff)
    ensures forall j | 0 <= j < m :: !MeetsLimits(rows[j..], budget, cutoff)
  {
    hide TotalBytes, Live, Expired, OverBudget, ExpiredPrefix;
    var k := OverBudget(rows, budget);
    var rest := rows[k..];
    ExpiredIsPrefix(rest, cutoff);
    var x := ExpiredPrefix(rest, cutoff);
    m := k + x;
    assert rest[x..] == rows[m..] && rows[..m] == rows[..k] + rest[..x];
    KeptMeetsLimits(rows, budget, cutoff);
    OverBudgetIsLeast(rows, budget);
    forall j | 0 <= j < m ensures !MeetsLimits(rows[j..], budget, cutoff) {
      if j >= k {
        assert rest[..x][j - k] == rows[j] && rows[j..][0] == rows[j];
        assert rest[..x][j - k] in rest[..x];
        assert rows[j..][0] in rows[j..];
      }
    }
  }
}
