/** The control store (src/control.rs) as two tables, ingest as a function on
    them, and the meaning of any sequence of deliveries. */
module ControlSpec {
  import opened Wrappers
  import opened Model
  import opened Sequences

  /** A row of `ingested_batches`, keyed by batch id. */
  datatype BatchRow = BatchRow(checksum: string, nodeId: string, bootId: string, seqNo: nat, createdAt: nat)

  /** A row of `flow_buckets`. */
  datatype BucketRow = BucketRow(batchId: string, nodeId: string, flow: FlowBucket)

  datatype Store = Store(batches: map<string, BatchRow>, buckets: seq<BucketRow>)

  const EMPTY := Store(map[], [])

  datatype IngestStatus = Inserted | Duplicate
  datatype IngestError = SchemaVersion | Checksum | Conflict | OutOfRange | StorageFull

  function BatchRowOf(e: BatchEnvelope): BatchRow {
    BatchRow(e.checksum, e.body.nodeId, e.body.bootId, e.body.seqNo, e.body.createdAt)
  }

  function BucketRows(batchId: string, nodeId: string, flows: seq<FlowBucket>): seq<BucketRow> {
    if flows == [] then [] else [BucketRow(batchId, nodeId, flows[0])] + BucketRows(batchId, nodeId, flows[1..])
  }

  function RowsOf(e: BatchEnvelope): seq<BucketRow> { BucketRows(e.batchId, e.body.nodeId, e.body.buckets) }

  predicate IsExpired(batches: map<string, BatchRow>, id: string, cutoff: nat) {
    id in batches && batches[id].createdAt < cutoff
  }

  function UnexpiredRows(rows: seq<BucketRow>, batches: map<string, BatchRow>, cutoff: nat): seq<BucketRow> {
    if rows == [] then []
    else if IsExpired(batches, rows[0].batchId, cutoff) then UnexpiredRows(rows[1..], batches, cutoff)
    else [rows[0]] + UnexpiredRows(rows[1..], batches, cutoff)
  }

  function UnexpiredBatches(batches: map<string, BatchRow>, cutoff: nat): map<string, BatchRow> {
    map id | id in batches && batches[id].createdAt >= cutoff :: batches[id]
  }

  function Prune(s: Store, cutoff: nat): Store {
    Store(UnexpiredBatches(s.batches, cutoff), UnexpiredRows(s.buckets, s.batches, cutoff))
  }

  predicate BucketFits(f: FlowBucket) { Fits(f.bucketStart) && Fits(f.packets) && Fits(f.bytes) }

  predicate InRange(e: BatchEnvelope) {
    Fits(e.body.seqNo) && Fits(e.body.createdAt) && forall f | f in e.body.buckets :: BucketFits(f)
  }

  /** Whether some stored batch already has this node, boot and sequence number. */
  predicate SequenceExists(batches: map<string, BatchRow>, nodeId: string, bootId: string, seqNo: nat) {
    exists id :: id in batches && SameIdentity(batches[id], nodeId, bootId, seqNo)
  }

  predicate SameIdentity(row: BatchRow, nodeId: string, bootId: string, seqNo: nat) {
    row.nodeId == nodeId && row.bootId == bootId && row.seqNo == seqNo
  }

  function Insert(s: Store, e: BatchEnvelope): Store {
    Store(s.batches[e.batchId := BatchRowOf(e)], s.buckets + RowsOf(e))
  }

  /** One ingest at time `now`. Only a success commits: a duplicate commits the
      prune, every error leaves the store as it was. `storageFull` is the engine
      refusing some statement. */
  function Ingest(s: Store, maxAge: nat, codec: Codec, e: BatchEnvelope, now: nat, storageFull: bool)
    : (Store, Result<IngestStatus, IngestError>)
  {
    if e.body.schemaVersion != SCHEMA_VERSION then (s, Err(SchemaVersion))
    else if !HasValidChecksum(codec, e) then (s, Err(Checksum))
    else if storageFull then (s, Err(StorageFull))
    else if !Fits(Cutoff(now, maxAge)) then (s, Err(OutOfRange))
    else
      var pruned := Prune(s, Cutoff(now, maxAge));
      if e.batchId in pruned.batches then
        if pruned.batches[e.batchId].checksum == e.checksum then (pruned, Ok(Duplicate)) else (s, Err(Conflict))
      else if !Fits(e.body.seqNo) then (s, Err(OutOfRange))
      else if SequenceExists(pruned.batches, e.body.nodeId, e.body.bootId, e.body.seqNo) then (s, Err(Conflict))
      else if !InRange(e) then (s, Err(OutOfRange))
      else (Insert(pruned, e), Ok(Inserted))
  }

  // ------------------------------------------------------------ prune algebra

  lemma {:induction false} UnexpiredMembers(rows: seq<BucketRow>, batches: map<string, BatchRow>, cutoff: nat)
    ensures forall r ::
              r in UnexpiredRows(rows, batches, cutoff) <==> r in rows && !IsExpired(batches, r.batchId, cutoff)
  {
    if rows != [] {
      HeadTail(rows);
      UnexpiredMembers(rows[1..], batches, cutoff);
    }
  }

  lemma {:induction false} UnexpiredConcat(a: seq<BucketRow>, b: seq<BucketRow>, batches: map<string, BatchRow>,
                                           cutoff: nat)
    ensures UnexpiredRows(a + b, batches, cutoff)
         == UnexpiredRows(a, batches, cutoff) + UnexpiredRows(b, batches, cutoff)
  {
    if a == [] {
      assert a + b == b;
    } else {
      ConcatHead(a, b);
      UnexpiredConcat(a[1..], b, batches, cutoff);
    }
  }

  lemma {:induction false} AllUnexpired(rows: seq<BucketRow>, batches: map<string, BatchRow>, cutoff: nat)
    requires forall r | r in rows :: !IsExpired(batches, r.batchId, cutoff)
    ensures UnexpiredRows(rows, batches, cutoff) == rows
  {
    if rows != [] {
      HeadTail(rows);
      AllUnexpired(rows[1..], batches, cutoff);
    }
  }

  lemma {:induction false} AllExpired(rows: seq<BucketRow>, batches: map<string, BatchRow>, cutoff: nat)
    requires forall r | r in rows :: IsExpired(batches, r.batchId, cutoff)
    ensures UnexpiredRows(rows, batches, cutoff) == []
  {
    if rows != [] {
      HeadTail(rows);
      AllExpired(rows[1..], batches, cutoff);
    }
  }

  /** Pruning rows twice, the second time against the pruned batches. */
  lemma {:induction false} UnexpiredTwice(rows: seq<BucketRow>, batches: map<string, BatchRow>, c1: nat, c2: nat)
    requires c1 <= c2
    requires forall r | r in rows :: r.batchId in batches
    ensures UnexpiredRows(UnexpiredRows(rows, batches, c1), UnexpiredBatches(batches, c1), c2)
         == UnexpiredRows(rows, batches, c2)
  {
    if rows != [] {
      HeadTail(rows);
      UnexpiredTwice(rows[1..], batches, c1, c2);
      var tail := UnexpiredRows(rows[1..], batches, c1);
      assert ([rows[0]] + tail)[1..] == tail;
    }
  }

  /** Every bucket row belongs to a stored batch. */
  ghost predicate NoOrphans(s: Store) { forall r | r in s.buckets :: r.batchId in s.batches }

  lemma PruneTwice(s: Store, c1: nat, c2: nat)
    requires NoOrphans(s) && c1 <= c2
    ensures Prune(Prune(s, c1), c2) == Prune(s, c2)
  {
    UnexpiredTwice(s.buckets, s.batches, c1, c2);
  }

  lemma {:induction false} RowsCarryId(batchId: string, nodeId: string, flows: seq<FlowBucket>)
    ensures |BucketRows(batchId, nodeId, flows)| == |flows|
    ensures forall r | r in BucketRows(batchId, nodeId, flows) ::
              r.batchId == batchId && r.nodeId == nodeId && r.flow in flows
  {
    if flows != [] {
      HeadTail(flows);
      RowsCarryId(batchId, nodeId, flows[1..]);
    }
  }

  lemma PruneKeepsNoOrphans(s: Store, cutoff: nat)
    requires NoOrphans(s)
    ensures NoOrphans(Prune(s, cutoff))
  {
    UnexpiredMembers(s.buckets, s.batches, cutoff);
  }

  lemma IngestKeepsNoOrphans(s: Store, maxAge: nat, codec: Codec, e: BatchEnvelope, now: nat, full: bool)
    requires NoOrphans(s)
    ensures NoOrphans(Ingest(s, maxAge, codec, e, now, full).0)
  {
    hide Prune;
    PruneKeepsNoOrphans(s, Cutoff(now, maxAge));
    RowsCarryId(e.batchId, e.body.nodeId, e.body.buckets);
  }

  /** Pruning an insertion: a live batch stays, with its rows last; an expired
      one leaves no trace. */
  lemma PruneOfInsert(p: Store, e: BatchEnvelope, cutoff: nat)
    requires NoOrphans(p) && e.batchId !in p.batches
    ensures Prune(Insert(p, e), cutoff)
         == if e.body.createdAt >= cutoff then Insert(Prune(p, cutoff), e) else Prune(p, cutoff)
  {
    var inserted := Insert(p, e);
    RowsCarryId(e.batchId, e.body.nodeId, e.body.buckets);
    UnexpiredConcat(p.buckets, RowsOf(e), inserted.batches, cutoff);
    SameVerdicts(p.buckets, p.batches, inserted.batches, cutoff);
    if e.body.createdAt >= cutoff {
      AllUnexpired(RowsOf(e), inserted.batches, cutoff);
      assert UnexpiredBatches(inserted.batches, cutoff)
        == UnexpiredBatches(p.batches, cutoff)[e.batchId := BatchRowOf(e)];
    } else {
      AllExpired(RowsOf(e), inserted.batches, cutoff);
      assert UnexpiredBatches(inserted.batches, cutoff) == UnexpiredBatches(p.batches, cutoff);
    }
  }

  lemma {:induction false} SameVerdicts(rows: seq<BucketRow>, a: map<string, BatchRow>, b: map<string, BatchRow>,
                                        cutoff: nat)
    requires forall r | r in rows :: IsExpired(a, r.batchId, cutoff) == IsExpired(b, r.batchId, cutoff)
    ensures UnexpiredRows(rows, a, cutoff) == UnexpiredRows(rows, b, cutoff)
  {
    if rows != [] {
      HeadTail(rows);
      SameVerdicts(rows[1..], a, b, cutoff);
    }
  }

  // ------------------------------------------------------------ table constraints

  /** The unique constraint on (node, boot, sequence number). */
  ghost predicate UniqueIdentities(batches: map<string, BatchRow>) {
    forall a, b | a in batches && b in batches
      && SameIdentity(batches[a], batches[b].nodeId, batches[b].bootId, batches[b].seqNo) ::
      a == b
  }

  /** Envelopes from anyone, honest or not: an ingest never breaks the unique
      constraint, never changes a batch that is not expired or its rows, and
      adds no batch or row but those of the batch it accepts. After a success
      that batch is stored under its id with its checksum, and after an insert
      with exactly its rows. */
  lemma IngestOnlyAdds(s: Store, maxAge: nat, codec: Codec, e: BatchEnvelope, now: nat, full: bool)
    requires UniqueIdentities(s.batches) && NoOrphans(s)
    ensures
      var (after, r) := Ingest(s, maxAge, codec, e, now, full);
      && UniqueIdentities(after.batches)
      && Kept(s, after, Cutoff(now, maxAge))
      && (forall id | id in after.batches :: (id in s.batches && after.batches[id] == s.batches[id])
            || (r == Ok(Inserted) && id == e.batchId && after.batches[id] == BatchRowOf(e)))
      && (forall row | row in after.buckets :: row in s.buckets || (r == Ok(Inserted) && row in RowsOf(e)))
      && (r.Ok? ==> e.batchId in after.batches && after.batches[e.batchId].checksum == e.checksum)
      && (r == Ok(Inserted) ==> Stores(after, e))
      && (r == Ok(Inserted) ==>
            var row := after.batches[e.batchId];
            && row.nodeId == e.body.nodeId && row.bootId == e.body.bootId && row.seqNo == e.body.seqNo
            && row.createdAt == e.body.createdAt)
  {
    hide Ingest, Prune, Insert, UniqueIdentities, Kept, SequenceExists, Stores, NoOrphans, RowsOf;
    IngestCases(s, maxAge, codec, e, now, full);
    var cutoff := Cutoff(now, maxAge);
    var p := Prune(s, cutoff);
    PruneKeepsLive(s, cutoff);
    PruneKeepsNoOrphans(s, cutoff);
    assert Kept(s, s, cutoff) by { KeptSelf(s, cutoff); }
    if e.batchId !in p.batches {
      InsertStores(p, e);
      if !SequenceExists(p.batches, e.body.nodeId, e.body.bootId, e.body.seqNo) { InsertKeepsLive(s, cutoff, e); }
    }
  }

  /** The envelope is in the store: its batch row, and its bucket rows exactly. */
  ghost predicate Stores(s: Store, e: BatchEnvelope) {
    e.batchId in s.batches && s.batches[e.batchId] == BatchRowOf(e) && RowsBy(s.buckets, e.batchId) == RowsOf(e)
  }

  lemma InsertStores(p: Store, e: BatchEnvelope)
    requires NoOrphans(p) && e.batchId !in p.batches
    ensures Stores(Insert(p, e), e)
    ensures forall row :: row in Insert(p, e).buckets <==> row in p.buckets || row in RowsOf(e)
  {
    hide RowsOf;
    RowsCarryAnId(e);
    RowsByConcat(p.buckets, RowsOf(e), e.batchId);
    RowsByNone(p.buckets, e.batchId);
    RowsByAll(RowsOf(e), e.batchId);
    assert [] + RowsOf(e) == RowsOf(e);
  }

  /** Every batch of `s` that is not expired is in `after` unchanged, with its
      rows. */
  ghost predicate Kept(s: Store, after: Store, cutoff: nat) {
    forall id | id in s.batches && s.batches[id].createdAt >= cutoff ::
      id in after.batches && after.batches[id] == s.batches[id] && RowsBy(after.buckets, id) == RowsBy(s.buckets, id)
  }

  lemma KeptSelf(s: Store, cutoff: nat)
    ensures Kept(s, s, cutoff)
  {
  }

  lemma IngestCases(s: Store, maxAge: nat, codec: Codec, e: BatchEnvelope, now: nat, full: bool)
    ensures
      var (after, r) := Ingest(s, maxAge, codec, e, now, full);
      var p := Prune(s, Cutoff(now, maxAge));
      match r
      case Err(_) => after == s
      case Ok(Duplicate) => after == p && e.batchId in p.batches && p.batches[e.batchId].checksum == e.checksum
      case Ok(Inserted) =>
        && after == Insert(p, e) && e.batchId !in p.batches
        && !SequenceExists(p.batches, e.body.nodeId, e.body.bootId, e.body.seqNo)
  {
    hide Prune, Insert, InRange, SequenceExists;
  }

  lemma PruneKeepsLive(s: Store, cutoff: nat)
    requires UniqueIdentities(s.batches)
    ensures UniqueIdentities(Prune(s, cutoff).batches) && Kept(s, Prune(s, cutoff), cutoff)
    ensures forall id | id in Prune(s, cutoff).batches ::
              id in s.batches && Prune(s, cutoff).batches[id] == s.batches[id]
    ensures forall row | row in Prune(s, cutoff).buckets :: row in s.buckets
  {
    hide RowsBy, UnexpiredRows;
    UnexpiredMembers(s.buckets, s.batches, cutoff);
    forall id | id in s.batches && s.batches[id].createdAt >= cutoff
      ensures RowsBy(UnexpiredRows(s.buckets, s.batches, cutoff), id) == RowsBy(s.buckets, id)
    {
      RowsByUnexpired(s.buckets, s.batches, cutoff, id);
    }
  }

  lemma InsertKeepsLive(s: Store, cutoff: nat, e: BatchEnvelope)
    requires UniqueIdentities(Prune(s, cutoff).batches) && Kept(s, Prune(s, cutoff), cutoff)
    requires e.batchId !in Prune(s, cutoff).batches
    requires !SequenceExists(Prune(s, cutoff).batches, e.body.nodeId, e.body.bootId, e.body.seqNo)
    ensures
      var p := Prune(s, cutoff);
      var after := Insert(p, e);
      && UniqueIdentities(after.batches) && Kept(s, after, cutoff)
      && after.batches == p.batches[e.batchId := BatchRowOf(e)]
  {
    hide RowsBy, RowsOf, Prune;
    var p := Prune(s, cutoff);
    forall id | id in p.batches ensures RowsBy(p.buckets + RowsOf(e), id) == RowsBy(p.buckets, id) {
      RowsByOther(p.buckets, e, id);
    }
  }

  lemma RowsByOther(rows: seq<BucketRow>, e: BatchEnvelope, id: string)
    requires id != e.batchId
    ensures RowsBy(rows + RowsOf(e), id) == RowsBy(rows, id)
  {
    RowsCarryId(e.batchId, e.body.nodeId, e.body.buckets);
    RowsByConcat(rows, RowsOf(e), id);
    RowsByNone(RowsOf(e), id);
    hide RowsOf;
    assert RowsBy(rows, id) + [] == RowsBy(rows, id);
  }

  /** A conflict is always real: a live stored batch has the envelope's id with
      another checksum, or its identity under another id. And of well-formed
      envelopes nothing else is refused while there is room. */
  lemma ConflictIsReal(s: Store, maxAge: nat, codec: Codec, e: BatchEnvelope, now: nat)
    requires e.body.schemaVersion == SCHEMA_VERSION && HasValidChecksum(codec, e)
    requires InRange(e) && Fits(Cutoff(now, maxAge))
    ensures
      var r, live := Ingest(s, maxAge, codec, e, now, false).1, UnexpiredBatches(s.batches, Cutoff(now, maxAge));
      && (r.Err? ==> r == Err(Conflict))
      && (r == Err(Conflict) <==>
          && (exists id :: id in live && Contradicts(id, live[id], e))
          && !(e.batchId in live && live[e.batchId].checksum == e.checksum))
  {
    hide Prune, Insert, SequenceExists, Contradicts;
    PruneBatches(s, Cutoff(now, maxAge));
    ContradictionFound(UnexpiredBatches(s.batches, Cutoff(now, maxAge)), e);
  }

  lemma ContradictionFound(live: map<string, BatchRow>, e: BatchEnvelope)
    ensures (exists id :: id in live && Contradicts(id, live[id], e))
       <==> (e.batchId in live && live[e.batchId].checksum != e.checksum)
            || SequenceElsewhere(live, e)
    ensures e.batchId !in live ==>
              (SequenceElsewhere(live, e) <==> SequenceExists(live, e.body.nodeId, e.body.bootId, e.body.seqNo))
  {
    if e.batchId in live && live[e.batchId].checksum != e.checksum {
      assert Contradicts(e.batchId, live[e.batchId], e);
    }
    if id :| id in live && id != e.batchId && SameIdentity(live[id], e.body.nodeId, e.body.bootId, e.body.seqNo) {
      assert Contradicts(id, live[id], e);
    }
  }

  ghost predicate SequenceElsewhere(live: map<string, BatchRow>, e: BatchEnvelope) {
    exists id :: id in live && id != e.batchId && SameIdentity(live[id], e.body.nodeId, e.body.bootId, e.body.seqNo)
  }

  ghost predicate Contradicts(id: string, row: BatchRow, e: BatchEnvelope) {
    (id == e.batchId && row.checksum != e.checksum)
    || (id != e.batchId && SameIdentity(row, e.body.nodeId, e.body.bootId, e.body.seqNo))
  }

  // --------------------------------------------------------- retry absorption

  /** What makes an ingest fail, on its inputs alone. */
  predicate Refused(s: Store, maxAge: nat, codec: Codec, e: BatchEnvelope, now: nat, full: bool) {
    var live := UnexpiredBatches(s.batches, Cutoff(now, maxAge));
    || e.body.schemaVersion != SCHEMA_VERSION || !HasValidChecksum(codec, e) || full || !Fits(Cutoff(now, maxAge))
    || (if e.batchId in live then live[e.batchId].checksum != e.checksum
        else !InRange(e) || SequenceExists(live, e.body.nodeId, e.body.bootId, e.body.seqNo))
  }

  /** What makes an ingest change nothing: it fails, or repeats a batch while
      nothing has expired, or puts the only expired batch back where it was. */
  predicate ChangesNothing(s: Store, maxAge: nat, codec: Codec, e: BatchEnvelope, now: nat, full: bool) {
    || Refused(s, maxAge, codec, e, now, full)
    || (e.batchId in s.batches && forall id | id in s.batches :: s.batches[id].createdAt >= Cutoff(now, maxAge))
    || OnlyOldCopy(s, e, Cutoff(now, maxAge))
  }

  /** The envelope is the only expired batch, and its rows are the last ones. */
  predicate OnlyOldCopy(s: Store, e: BatchEnvelope, cutoff: nat) {
    && e.batchId in s.batches && s.batches[e.batchId] == BatchRowOf(e)
    && (forall id | id in s.batches :: s.batches[id].createdAt < cutoff <==> id == e.batchId)
    && EndsWithOwnRows(s.buckets, e)
  }

  predicate EndsWithOwnRows(rows: seq<BucketRow>, e: BatchEnvelope) {
    var n := |rows| - |RowsOf(e)|;
    n >= 0 && rows[n..] == RowsOf(e) && forall r | r in rows[..n] :: r.batchId != e.batchId
  }

  lemma RefusedExactly(s: Store, maxAge: nat, codec: Codec, e: BatchEnvelope, now: nat, full: bool)
    ensures
      var r, live := Ingest(s, maxAge, codec, e, now, full).1, UnexpiredBatches(s.batches, Cutoff(now, maxAge));
      var valid := e.body.schemaVersion == 1 && codec.checksum(e.body) == e.checksum;
      && (r.Err? <==> Refused(s, maxAge, codec, e, now, full))
      && (r == Err(SchemaVersion) <==> e.body.schemaVersion != 1)
      && (r == Err(Checksum) <==> e.body.schemaVersion == 1 && codec.checksum(e.body) != e.checksum)
      && (r == Err(StorageFull) <==> valid && full)
      && (r == Err(Conflict) <==>
          && valid && !full && Fits(Cutoff(now, maxAge))
          && if e.batchId in live then live[e.batchId].checksum != e.checksum
             else Fits(e.body.seqNo) && SequenceExists(live, e.body.nodeId, e.body.bootId, e.body.seqNo))
  {
    hide Prune, Insert, SequenceExists;
    PruneBatches(s, Cutoff(now, maxAge));
  }

  lemma PruneChangesNothing(s: Store, cutoff: nat)
    requires NoOrphans(s)
    ensures Prune(s, cutoff) == s <==> forall id | id in s.batches :: s.batches[id].createdAt >= cutoff
  {
    hide UnexpiredRows;
    if forall id | id in s.batches :: s.batches[id].createdAt >= cutoff {
      AllUnexpired(s.buckets, s.batches, cutoff);
      assert UnexpiredBatches(s.batches, cutoff) == s.batches;
    } else {
      var id :| id in s.batches && s.batches[id].createdAt < cutoff;
      assert id !in UnexpiredBatches(s.batches, cutoff);
    }
  }

  lemma InsertChangesNothing(s: Store, e: BatchEnvelope, cutoff: nat)
    requires NoOrphans(s) && e.batchId !in Prune(s, cutoff).batches
    ensures Insert(Prune(s, cutoff), e) == s <==> OnlyOldCopy(s, e, cutoff)
  {
    hide UnexpiredRows, RowsOf;
    var live, kept := UnexpiredBatches(s.batches, cutoff), UnexpiredRows(s.buckets, s.batches, cutoff);
    var n := |s.buckets| - |RowsOf(e)|;
    UnexpiredMembers(s.buckets, s.batches, cutoff);
    if Insert(Prune(s, cutoff), e) == s {
      assert live[e.batchId := BatchRowOf(e)] == s.batches;
      assert s.buckets == kept + RowsOf(e) && n == |kept|;
      assert s.buckets[..n] == kept && s.buckets[n..] == RowsOf(e);
    }
    if OnlyOldCopy(s, e, cutoff) {
      var rest := s.buckets[..n];
      assert s.buckets == rest + RowsOf(e);
      RowsCarryAnId(e);
      UnexpiredConcat(rest, RowsOf(e), s.batches, cutoff);
      AllUnexpired(rest, s.batches, cutoff);
      AllExpired(RowsOf(e), s.batches, cutoff);
      assert rest + [] == rest;
      assert live[e.batchId := BatchRowOf(e)] == s.batches;
    }
  }

  lemma RowsCarryAnId(e: BatchEnvelope)
    ensures forall r | r in RowsOf(e) :: r.batchId == e.batchId && r.nodeId == e.body.nodeId
  {
    RowsCarryId(e.batchId, e.body.nodeId, e.body.buckets);
  }

  /** `ChangesNothing` is exact. */
  lemma UnchangedExactly(s: Store, maxAge: nat, codec: Codec, e: BatchEnvelope, now: nat, full: bool)
    requires NoOrphans(s)
    ensures Ingest(s, maxAge, codec, e, now, full).0 == s <==> ChangesNothing(s, maxAge, codec, e, now, full)
  {
    hide Ingest, Prune, Insert, Refused, SequenceExists, EndsWithOwnRows, NoOrphans;
    var cutoff := Cutoff(now, maxAge);
    IngestCases(s, maxAge, codec, e, now, full);
    RefusedExactly(s, maxAge, codec, e, now, full);
    PruneBatches(s, cutoff);
    PruneChangesNothing(s, cutoff);
    if e.batchId !in Prune(s, cutoff).batches { InsertChangesNothing(s, e, cutoff); }
  }

  /** An accepted retry absorbs the first attempt, and a refused one has no
      effect of its own. */
  lemma RetryOutcomes(s: Store, maxAge: nat, codec: Codec, e: BatchEnvelope, t1: nat, full1: bool, t2: nat, full2: bool)
    requires NoOrphans(s) && t1 <= t2
    ensures
      var (s1, o1) := Ingest(s, maxAge, codec, e, t1, full1);
      var (twice, r) := Ingest(s1, maxAge, codec, e, t2, full2);
      var (once, r0) := Ingest(s, maxAge, codec, e, t2, full2);
      && (r.Err? <==> r0.Err?) && (r.Err? ==> twice == s1 && once == s) && (r.Ok? ==> twice == once)
  {
    hide Prune, Insert;
    var c1, c2 := Cutoff(t1, maxAge), Cutoff(t2, maxAge);
    PruneTwice(s, c1, c2);
    if Ingest(s, maxAge, codec, e, t1, full1).1 == Ok(Inserted) {
      var p := Prune(s, c1);
      PruneKeepsNoOrphans(s, c1);
      PruneOfInsert(p, e, c2);
      PruneBatches(s, c1);
      PruneBatches(s, c2);
      InsertBatches(Prune(s, c2), e);
      LaterCutoffKeepsFewer(s.batches, c1, c2, e);
    }
  }

  /** A retry absorbs the first attempt exactly when the retry alone would be
      accepted or the first attempt changes nothing, both read off the inputs. */
  lemma RetryExactly(s: Store, maxAge: nat, codec: Codec, e: BatchEnvelope, t1: nat, full1: bool, t2: nat, full2: bool)
    requires NoOrphans(s) && t1 <= t2
    ensures Ingest(Ingest(s, maxAge, codec, e, t1, full1).0, maxAge, codec, e, t2, full2).0
         == Ingest(s, maxAge, codec, e, t2, full2).0
       <==> !Refused(s, maxAge, codec, e, t2, full2) || ChangesNothing(s, maxAge, codec, e, t1, full1)
  {
    hide Ingest, Refused, ChangesNothing, NoOrphans;
    RetryOutcomes(s, maxAge, codec, e, t1, full1, t2, full2);
    RefusedExactly(s, maxAge, codec, e, t2, full2);
    UnchangedExactly(s, maxAge, codec, e, t1, full1);
  }

  /** A stored batch with the envelope's id and digest is the envelope. */
  predicate NoDigestClash(s: Store, e: BatchEnvelope) {
    e.batchId in s.batches && s.batches[e.batchId].checksum == e.checksum ==>
      s.batches[e.batchId] == BatchRowOf(e) && InRange(e)
  }

  /** Retry absorption: with room and a clock the store can represent, ingesting
      twice leaves what the second ingest alone would have left, whether the
      first inserted, was a duplicate, conflicted or failed, whether the second
      is accepted, and even if the batch has expired. */
  lemma RetryAbsorption(s: Store, maxAge: nat, codec: Codec, e: BatchEnvelope, t1: nat, full1: bool, t2: nat)
    requires NoOrphans(s) && UniqueIdentities(s.batches) && NoDigestClash(s, e)
    requires t1 <= t2 && Fits(Cutoff(t2, maxAge))
    ensures Ingest(Ingest(s, maxAge, codec, e, t1, full1).0, maxAge, codec, e, t2, false).0
         == Ingest(s, maxAge, codec, e, t2, false).0
  {
    hide NoOrphans, Ingest, ChangesNothing;
    RetryExactly(s, maxAge, codec, e, t1, full1, t2, false);
    if !ChangesNothing(s, maxAge, codec, e, t1, full1) {
      assert !Refused(s, maxAge, codec, e, t1, full1) by { ChangingIsAccepted(s, maxAge, codec, e, t1, full1); }
      StaysAccepted(s, maxAge, codec, e, t1, full1, t2);
    }
  }

  lemma ChangingIsAccepted(s: Store, maxAge: nat, codec: Codec, e: BatchEnvelope, now: nat, full: bool)
    ensures !ChangesNothing(s, maxAge, codec, e, now, full) ==> !Refused(s, maxAge, codec, e, now, full)
  {
  }

  lemma StaysAccepted(s: Store, maxAge: nat, codec: Codec, e: BatchEnvelope, t1: nat, full1: bool, t2: nat)
    requires UniqueIdentities(s.batches) && NoDigestClash(s, e) && t1 <= t2 && Fits(Cutoff(t2, maxAge))
    requires !Refused(s, maxAge, codec, e, t1, full1)
    ensures !Refused(s, maxAge, codec, e, t2, false)
  {
    hide InRange, HasValidChecksum;
    LaterCutoffKeepsFewer(s.batches, Cutoff(t1, maxAge), Cutoff(t2, maxAge), e);
    var live := UnexpiredBatches(s.batches, Cutoff(t2, maxAge));
    if e.batchId in s.batches && s.batches[e.batchId].checksum == e.checksum && e.batchId !in live {
      forall id | id in live ensures !SameIdentity(live[id], e.body.nodeId, e.body.bootId, e.body.seqNo) {
        assert SameIdentity(live[id], e.body.nodeId, e.body.bootId, e.body.seqNo) ==> id == e.batchId;
      }
    }
  }

  /** The remaining case, a retry that finds no room or a clock out of range:
      then the stores agree exactly when the first attempt changes nothing. */
  lemma RefusedRetry(s: Store, maxAge: nat, codec: Codec, e: BatchEnvelope, t1: nat, full1: bool, t2: nat, full2: bool)
    requires NoOrphans(s) && t1 <= t2 && (full2 || !Fits(Cutoff(t2, maxAge)))
    ensures Ingest(Ingest(s, maxAge, codec, e, t1, full1).0, maxAge, codec, e, t2, full2).0
         == Ingest(s, maxAge, codec, e, t2, full2).0
       <==> ChangesNothing(s, maxAge, codec, e, t1, full1)
  {
    hide NoOrphans, Ingest, ChangesNothing;
    RetryExactly(s, maxAge, codec, e, t1, full1, t2, full2);
  }

  /** Such a case: a new batch is inserted and its retry finds no room. */
  lemma RefusedRetryDiffers(maxAge: nat, codec: Codec, body: BatchBody, now: nat)
    requires body.schemaVersion == SCHEMA_VERSION && InRange(NewEnvelope(codec, body)) && Fits(Cutoff(now, maxAge))
    ensures
      var e := NewEnvelope(codec, body);
      && Ingest(Ingest(EMPTY, maxAge, codec, e, now, false).0, maxAge, codec, e, now, true).0 == Insert(EMPTY, e)
      && Ingest(EMPTY, maxAge, codec, e, now, true).0 == EMPTY != Insert(EMPTY, e)
  {
    var e := NewEnvelope(codec, body);
    assert Prune(EMPTY, Cutoff(now, maxAge)).batches == map[];
    assert Prune(EMPTY, Cutoff(now, maxAge)) == EMPTY;
    assert e.batchId in Insert(EMPTY, e).batches;
    hide Prune, Insert, InRange;
  }

  lemma LaterCutoffKeepsFewer(batches: map<string, BatchRow>, c1: nat, c2: nat, e: BatchEnvelope)
    requires c1 <= c2
    ensures e.batchId in UnexpiredBatches(batches, c2) ==> e.batchId in UnexpiredBatches(batches, c1)
    ensures SequenceExists(UnexpiredBatches(batches, c2), e.body.nodeId, e.body.bootId, e.body.seqNo)
        ==> SequenceExists(UnexpiredBatches(batches, c1), e.body.nodeId, e.body.bootId, e.body.seqNo)
  {
    if id :| id in UnexpiredBatches(batches, c2)
             && SameIdentity(UnexpiredBatches(batches, c2)[id], e.body.nodeId, e.body.bootId, e.body.seqNo) {
      assert SameIdentity(UnexpiredBatches(batches, c1)[id], e.body.nodeId, e.body.bootId, e.body.seqNo);
    }
  }

  lemma PruneBatches(s: Store, cutoff: nat)
    ensures Prune(s, cutoff).batches == UnexpiredBatches(s.batches, cutoff)
  {
  }

  lemma InsertBatches(s: Store, e: BatchEnvelope)
    ensures Insert(s, e).batches == s.batches[e.batchId := BatchRowOf(e)]
  {
  }

  // ----------------------------------------------------------- closed form

  /** Envelopes that agree on the id, or on node, boot and number, are one. */
  ghost predicate NonConflicting(envs: set<BatchEnvelope>) {
    forall a, b | a in envs && b in envs ::
      a.batchId == b.batchId || SameIdentity(BatchRowOf(a), b.body.nodeId, b.body.bootId, b.body.seqNo) ==> a == b
  }

  /** Every stored batch came from one of `envs`. */
  ghost predicate From(s: Store, envs: set<BatchEnvelope>) {
    forall id | id in s.batches :: exists e :: e in envs && e.batchId == id && s.batches[id] == BatchRowOf(e)
  }

  /** A sender that never contradicts itself is never told it does. */
  lemma NoConflict(s: Store, envs: set<BatchEnvelope>, maxAge: nat, codec: Codec, e: BatchEnvelope, now: nat,
                   full: bool)
    requires NonConflicting(envs) && From(s, envs) && e in envs
    ensures Ingest(s, maxAge, codec, e, now, full).1 != Err(Conflict)
    ensures From(Ingest(s, maxAge, codec, e, now, full).0, envs)
  {
    var cutoff := Cutoff(now, maxAge);
    var pruned := Prune(s, cutoff);
    if e.batchId in pruned.batches {
      var a :| a in envs && a.batchId == e.batchId && s.batches[e.batchId] == BatchRowOf(a);
      assert a == e;
    }
    if id :| id in pruned.batches && SameIdentity(pruned.batches[id], e.body.nodeId, e.body.bootId, e.body.seqNo) {
      var a :| a in envs && a.batchId == id && s.batches[id] == BatchRowOf(a);
      assert a == e;
    }
  }

  /** Every stored batch came from `envs`, and those of `envs` that are stored
      are stored whole. */
  ghost predicate Mirrors(s: Store, envs: set<BatchEnvelope>) {
    From(s, envs) && NoOrphans(s) && forall e | e in envs && e.batchId in s.batches :: Stores(s, e)
  }

  lemma FromIsUnique(s: Store, envs: set<BatchEnvelope>)
    requires NonConflicting(envs) && From(s, envs)
    ensures UniqueIdentities(s.batches)
  {
    forall x, y | x in s.batches && y in s.batches
      && SameIdentity(s.batches[x], s.batches[y].nodeId, s.batches[y].bootId, s.batches[y].seqNo)
      ensures x == y
    {
      var a :| a in envs && a.batchId == x && s.batches[x] == BatchRowOf(a);
      var b :| b in envs && b.batchId == y && s.batches[y] == BatchRowOf(b);
      assert a == b;
    }
  }

  /** Honest senders never meet a digest clash. */
  lemma HonestHasNoClash(s: Store, envs: set<BatchEnvelope>, e: BatchEnvelope)
    requires NonConflicting(envs) && From(s, envs) && e in envs && InRange(e)
    ensures UniqueIdentities(s.batches) && NoDigestClash(s, e)
  {
    FromIsUnique(s, envs);
    if e.batchId in s.batches {
      var a :| a in envs && a.batchId == e.batchId && s.batches[e.batchId] == BatchRowOf(a);
      assert a == e;
    }
  }

  lemma PruneMirrors(s: Store, envs: set<BatchEnvelope>, cutoff: nat)
    requires NonConflicting(envs) && Mirrors(s, envs)
    ensures Mirrors(Prune(s, cutoff), envs)
  {
    hide NonConflicting, Prune, NoOrphans;
    FromIsUnique(s, envs);
    PruneKeepsLive(s, cutoff);
    PruneKeepsNoOrphans(s, cutoff);
    PruneBatches(s, cutoff);
  }

  lemma InsertMirrors(p: Store, envs: set<BatchEnvelope>, e: BatchEnvelope)
    requires Mirrors(p, envs) && e.batchId !in p.batches && NonConflicting(envs + {e})
    ensures Mirrors(Insert(p, e), envs + {e})
  {
    hide RowsOf, RowsBy;
    var after, more := Insert(p, e), envs + {e};
    RowsCarryAnId(e);
    InsertStores(p, e);
    forall id | id in after.batches
      ensures exists a :: a in more && a.batchId == id && after.batches[id] == BatchRowOf(a)
    {
      if id == e.batchId {
        assert e in more;
      } else {
        var a :| a in envs && a.batchId == id && p.batches[id] == BatchRowOf(a);
        assert a in more;
      }
    }
    forall a | a in envs && a.batchId in p.batches ensures RowsBy(after.buckets, a.batchId) == RowsOf(a) {
      RowsByOther(p.buckets, e, a.batchId);
    }
    forall a | a in more && a.batchId == e.batchId ensures a == e { assert e in more; }
  }

  /** A delivery from honest senders: a duplicate answer means that the very
      envelope is stored, an insert that it is stored from now on. */
  lemma HonestDelivery(s: Store, had: set<BatchEnvelope>, envs: set<BatchEnvelope>, maxAge: nat, codec: Codec,
                       e: BatchEnvelope, now: nat, full: bool)
    requires NonConflicting(envs) && had <= envs && e in envs && Mirrors(s, had)
    ensures
      var (after, r) := Ingest(s, maxAge, codec, e, now, full);
      && Mirrors(after, if r == Ok(Inserted) then had + {e} else had)
      && (r == Ok(Duplicate) ==> e in had) && (r == Ok(Inserted) ==> InRange(e)) && (r.Ok? ==> Stores(after, e))
      && r != Err(Conflict)
  {
    hide Ingest, Prune, Insert, InRange, Stores, SequenceExists, NoOrphans, SameIdentity, BatchRowOf;
    var p := Prune(s, Cutoff(now, maxAge));
    SomeNonConflicting(envs, had);
    SomeNonConflicting(envs, had + {e});
    PruneMirrors(s, had, Cutoff(now, maxAge));
    IngestCases(s, maxAge, codec, e, now, full);
    InsertedInRange(s, maxAge, codec, e, now, full);
    FromMore(s, had, envs);
    NoConflict(s, envs, maxAge, codec, e, now, full);
    if e.batchId in p.batches {
      var a :| a in had && a.batchId == e.batchId && p.batches[e.batchId] == BatchRowOf(a);
      SameIdSame(envs, a, e);
    } else {
      InsertMirrors(p, had, e);
      InsertStores(p, e);
    }
  }

  lemma SomeNonConflicting(envs: set<BatchEnvelope>, some: set<BatchEnvelope>)
    requires NonConflicting(envs) && some <= envs
    ensures NonConflicting(some)
  {
  }

  lemma SameIdSame(envs: set<BatchEnvelope>, a: BatchEnvelope, b: BatchEnvelope)
    requires NonConflicting(envs) && a in envs && b in envs && a.batchId == b.batchId
    ensures a == b
  {
  }

  lemma InsertedInRange(s: Store, maxAge: nat, codec: Codec, e: BatchEnvelope, now: nat, full: bool)
    ensures Ingest(s, maxAge, codec, e, now, full).1 == Ok(Inserted) ==> InRange(e)
  {
    hide Prune, Insert, SequenceExists, InRange;
  }

  datatype Delivery = Delivery(envelope: BatchEnvelope, now: nat)

  function Envelopes(log: seq<Delivery>): set<BatchEnvelope> { set d | d in log :: d.envelope }

  function Replay(maxAge: nat, codec: Codec, log: seq<Delivery>): Store {
    if log == [] then EMPTY
    else
      var last := log[|log| - 1];
      Ingest(Replay(maxAge, codec, log[..|log| - 1]), maxAge, codec, last.envelope, last.now, false).0
  }

  predicate Acceptable(maxAge: nat, codec: Codec, d: Delivery) {
    && d.envelope.body.schemaVersion == SCHEMA_VERSION && HasValidChecksum(codec, d.envelope) && InRange(d.envelope)
    && Fits(Cutoff(d.now, maxAge))
  }

  /** Valid batches of honest senders, delivered at nondecreasing times in any
      order and any number of times. */
  ghost predicate HonestLog(maxAge: nat, codec: Codec, log: seq<Delivery>) {
    && (forall d | d in log :: Acceptable(maxAge, codec, d))
    && (forall i, j | 0 <= i < j < |log| :: log[i].now <= log[j].now)
    && NonConflicting(Envelopes(log))
  }

  /** Whether the batch of delivery `i` is stored after the whole log: it is not
      older than the last cutoff, or it is the last one delivered. */
  predicate Held(maxAge: nat, log: seq<Delivery>, i: nat)
    requires i < |log|
  {
    var last := log[|log| - 1];
    log[i].envelope.body.createdAt >= Cutoff(last.now, maxAge) || log[i].envelope == last.envelope
  }

  function RowsBy(rows: seq<BucketRow>, id: string): seq<BucketRow> {
    if rows == [] then []
    else if rows[0].batchId == id then [rows[0]] + RowsBy(rows[1..], id)
    else RowsBy(rows[1..], id)
  }

  /** The store holds exactly the batches of the deliveries picked by `kept`,
      each with its own rows, once and in order. */
  ghost predicate Holds(s: Store, log: seq<Delivery>, kept: set<nat>) {
    && (forall id :: id in s.batches <==> exists i :: i in kept && 0 <= i < |log| && log[i].envelope.batchId == id)
    && (forall i | i in kept && 0 <= i < |log| ::
          var e := log[i].envelope;
          e.batchId in s.batches && s.batches[e.batchId] == BatchRowOf(e) && RowsBy(s.buckets, e.batchId) == RowsOf(e))
    && NoOrphans(s)
  }

  function HeldSet(maxAge: nat, log: seq<Delivery>): set<nat> {
    set i | 0 <= i < |log| && Held(maxAge, log, i)
  }

  function LiveSet(log: seq<Delivery>, cutoff: nat): set<nat> {
    set i | 0 <= i < |log| && log[i].envelope.body.createdAt >= cutoff
  }

  lemma {:induction false} RowsByConcat(a: seq<BucketRow>, b: seq<BucketRow>, id: string)
    ensures RowsBy(a + b, id) == RowsBy(a, id) + RowsBy(b, id)
  {
    if a == [] {
      assert a + b == b;
    } else {
      ConcatHead(a, b);
      RowsByConcat(a[1..], b, id);
    }
  }

  lemma {:induction false} RowsByAll(rows: seq<BucketRow>, id: string)
    requires forall r | r in rows :: r.batchId == id
    ensures RowsBy(rows, id) == rows
  {
    if rows != [] {
      HeadTail(rows);
      RowsByAll(rows[1..], id);
    }
  }

  lemma {:induction false} RowsByNone(rows: seq<BucketRow>, id: string)
    requires forall r | r in rows :: r.batchId != id
    ensures RowsBy(rows, id) == []
  {
    if rows != [] {
      HeadTail(rows);
      RowsByNone(rows[1..], id);
    }
  }

  lemma {:induction false} RowsByUnexpired(rows: seq<BucketRow>, batches: map<string, BatchRow>, cutoff: nat,
                                           id: string)
    requires !IsExpired(batches, id, cutoff)
    ensures RowsBy(UnexpiredRows(rows, batches, cutoff), id) == RowsBy(rows, id)
  {
    if rows != [] {
      RowsByUnexpired(rows[1..], batches, cutoff, id);
      var tail := UnexpiredRows(rows[1..], batches, cutoff);
      assert ([rows[0]] + tail)[1..] == tail;
    }
  }

  /** Pruning a store of known contents leaves the batches still live. */
  lemma PruneHolds(s: Store, log: seq<Delivery>, kept: set<nat>, live: set<nat>, cutoff: nat)
    requires Holds(s, log, kept) && live <= kept
    requires forall i | i in kept && 0 <= i < |log| :: i in live <==> log[i].envelope.body.createdAt >= cutoff
    ensures Holds(Prune(s, cutoff), log, live)
  {
    var p := Prune(s, cutoff);
    PruneKeepsNoOrphans(s, cutoff);
    forall i | i in live && 0 <= i < |log|
      ensures RowsBy(p.buckets, log[i].envelope.batchId) == RowsOf(log[i].envelope)
    {
      RowsByUnexpired(s.buckets, s.batches, cutoff, log[i].envelope.batchId);
    }
    hide UnexpiredRows, RowsBy, RowsOf;
    forall id | id in p.batches ensures exists i :: i in live && 0 <= i < |log| && log[i].envelope.batchId == id {
      var i :| i in kept && 0 <= i < |log| && log[i].envelope.batchId == id;
    }
  }

  /** Inserting a batch whose id is new. */
  lemma InsertHolds(p: Store, log: seq<Delivery>, live: set<nat>, e: BatchEnvelope, d: Delivery)
    requires Holds(p, log, live) && (forall i | i in live :: i < |log|) && d.envelope == e && e.batchId !in p.batches
    ensures Holds(Insert(p, e), log + [d], live + {|log|})
  {
    hide RowsBy;
    var s, all := Insert(p, e), log + [d];
    RowsCarryId(e.batchId, e.body.nodeId, e.body.buckets);
    RowsByConcat(p.buckets, RowsOf(e), e.batchId);
    RowsByNone(p.buckets, e.batchId);
    RowsByAll(RowsOf(e), e.batchId);
    forall i | i in live + {|log|}
      ensures all[i].envelope.batchId in s.batches
      ensures s.batches[all[i].envelope.batchId] == BatchRowOf(all[i].envelope)
      ensures RowsBy(s.buckets, all[i].envelope.batchId) == RowsOf(all[i].envelope)
    {
      if i < |log| {
        var id := log[i].envelope.batchId;
        assert id in p.batches;
        RowsByConcat(p.buckets, RowsOf(e), id);
        RowsByNone(RowsOf(e), id);
      }
    }
    forall id
      ensures id in s.batches
         <==> exists i :: i in live + {|log|} && 0 <= i < |all| && all[i].envelope.batchId == id
    {
      if id == e.batchId {
        assert all[|log|].envelope.batchId == id;
      } else if id in p.batches {
        var i :| i in live && 0 <= i < |log| && log[i].envelope.batchId == id;
        assert all[i].envelope.batchId == id;
      }
    }
  }

  lemma PrefixIsHonest(maxAge: nat, codec: Codec, log: seq<Delivery>)
    requires log != [] && HonestLog(maxAge, codec, log)
    ensures HonestLog(maxAge, codec, log[..|log| - 1])
    ensures Envelopes(log[..|log| - 1]) <= Envelopes(log) && log[|log| - 1].envelope in Envelopes(log)
    ensures log == log[..|log| - 1] + [log[|log| - 1]]
    ensures Acceptable(maxAge, codec, log[|log| - 1]) && NonConflicting(Envelopes(log))
    ensures |log| > 1 ==> log[..|log| - 1][|log| - 2].now <= log[|log| - 1].now
  {
    hide Acceptable, SameIdentity, BatchRowOf;
    var init, last := log[..|log| - 1], log[|log| - 1];
    assert last in log && forall d | d in init :: d in log;
  }

  /** From honest senders an ingest prunes and inserts, unless the batch is
      still there. */
  lemma HonestOutcome(s: Store, envs: set<BatchEnvelope>, maxAge: nat, codec: Codec, d: Delivery)
    requires NonConflicting(envs) && d.envelope in envs && Acceptable(maxAge, codec, d)
    requires From(Prune(s, Cutoff(d.now, maxAge)), envs)
    ensures
      var p := Prune(s, Cutoff(d.now, maxAge));
      Ingest(s, maxAge, codec, d.envelope, d.now, false).0
      == if d.envelope.batchId in p.batches then p else Insert(p, d.envelope)
  {
    var p, e := Prune(s, Cutoff(d.now, maxAge)), d.envelope;
    forall id | id in p.batches
      && (id == e.batchId || SameIdentity(p.batches[id], e.body.nodeId, e.body.bootId, e.body.seqNo))
      ensures id == e.batchId && p.batches[id] == BatchRowOf(e)
    {
      var a :| a in envs && a.batchId == id && p.batches[id] == BatchRowOf(a);
      assert a == e;
    }
    hide Prune, Insert;
  }

  lemma HoldsFrom(s: Store, log: seq<Delivery>, kept: set<nat>)
    requires Holds(s, log, kept)
    ensures From(s, Envelopes(log))
  {
    hide RowsBy, RowsOf;
    forall id | id in s.batches
      ensures exists e :: e in Envelopes(log) && e.batchId == id && s.batches[id] == BatchRowOf(e)
    {
      var i :| i in kept && 0 <= i < |log| && log[i].envelope.batchId == id;
      assert log[i] in log && log[i].envelope in Envelopes(log);
    }
  }

  lemma FromMore(s: Store, some: set<BatchEnvelope>, more: set<BatchEnvelope>)
    requires From(s, some) && some <= more
    ensures From(s, more)
  {
  }

  lemma HoldsLonger(s: Store, log: seq<Delivery>, kept: set<nat>, d: Delivery)
    requires Holds(s, log, kept) && forall i | i in kept :: i < |log|
    ensures Holds(s, log + [d], kept)
  {
    hide RowsBy, RowsOf;
    forall id | id in s.batches
      ensures exists i :: i in kept && 0 <= i < |log + [d]| && (log + [d])[i].envelope.batchId == id
    {
      var i :| i in kept && 0 <= i < |log| && log[i].envelope.batchId == id;
      assert (log + [d])[i].envelope.batchId == id;
    }
  }

  /** A stored id of an honest log is the id of exactly the delivered envelope. */
  lemma StoredEnvelope(s: Store, log: seq<Delivery>, kept: set<nat>, e: BatchEnvelope, envs: set<BatchEnvelope>)
    returns (i: nat)
    requires Holds(s, log, kept) && e.batchId in s.batches
    requires NonConflicting(envs) && e in envs && Envelopes(log) <= envs
    ensures i in kept && i < |log| && log[i].envelope == e
  {
    hide RowsBy, RowsOf;
    i :| i in kept && 0 <= i < |log| && log[i].envelope.batchId == e.batchId;
    assert log[i] in log && log[i].envelope in envs;
  }

  lemma HeldAfter(maxAge: nat, init: seq<Delivery>, last: Delivery, live: set<nat>)
    requires live == LiveSet(init, Cutoff(last.now, maxAge))
    ensures
      var log, held := init + [last], HeldSet(maxAge, init + [last]);
      && |init| in held && live <= held
      && (forall i | i in held && i !in live :: 0 <= i < |log| && log[i].envelope == last.envelope)
  {
  }

  /** The delivery at the end is a batch already held, or inserts it. */
  lemma LastStep(s: Store, init: seq<Delivery>, last: Delivery, live: set<nat>, maxAge: nat, codec: Codec,
                 envs: set<BatchEnvelope>)
    requires NonConflicting(envs) && Envelopes(init) <= envs && last.envelope in envs
    requires Acceptable(maxAge, codec, last) && live == LiveSet(init, Cutoff(last.now, maxAge))
    requires Holds(Prune(s, Cutoff(last.now, maxAge)), init, live)
    ensures Holds(Ingest(s, maxAge, codec, last.envelope, last.now, false).0, init + [last],
                  HeldSet(maxAge, init + [last]))
  {
    var e, held, n := last.envelope, HeldSet(maxAge, init + [last]), |init|;
    var p := Prune(s, Cutoff(last.now, maxAge));
    HeldAfter(maxAge, init, last, live);
    hide Prune, Insert, Ingest, Holds, NonConflicting, From, Acceptable, HeldSet;
    HoldsFrom(p, init, live);
    FromMore(p, Envelopes(init), envs);
    HonestOutcome(s, envs, maxAge, codec, last);
    if e.batchId in p.batches {
      var i := StoredEnvelope(p, init, live, e, envs);
      assert (init + [last])[i].envelope == e;
      HoldsLonger(p, init, live, last);
      HoldsSame(p, init + [last], live, held);
    } else {
      InsertHolds(p, init, live, e, last);
      assert (init + [last])[n].envelope == e;
      HoldsSame(Insert(p, e), init + [last], live + {n}, held);
    }
  }

  /** Adding further deliveries of a batch already picked changes nothing. */
  lemma HoldsSame(s: Store, log: seq<Delivery>, kept: set<nat>, more: set<nat>)
    requires Holds(s, log, kept) && kept <= more
    requires forall i :: i in more && i !in kept ==>
               0 <= i < |log| && exists j :: j in kept && 0 <= j < |log| && log[j].envelope == log[i].envelope
    ensures Holds(s, log, more)
  {
    hide RowsBy, RowsOf;
    forall id | (exists i :: i in more && 0 <= i < |log| && log[i].envelope.batchId == id) ensures id in s.batches {
      var i :| i in more && 0 <= i < |log| && log[i].envelope.batchId == id;
      if i !in kept {
        var j :| j in kept && 0 <= j < |log| && log[j].envelope == log[i].envelope;
      }
    }
  }

  /** Closed form: after any honest log the store holds exactly the delivered
      batches no older than the last cutoff, plus the last one delivered, each
      with its bucket rows stored once. */
  lemma {:induction false} ClosedForm(maxAge: nat, codec: Codec, log: seq<Delivery>)
    requires HonestLog(maxAge, codec, log)
    ensures Holds(Replay(maxAge, codec, log), log, if log == [] then {} else HeldSet(maxAge, log))
    decreases |log|
  {
    hide HonestLog, NonConflicting, Acceptable, Holds, Ingest, Prune;
    if log == [] {
      EmptyHolds();
    } else {
      var n := |log| - 1;
      var init, last := log[..n], log[n];
      var cutoff, s := Cutoff(last.now, maxAge), Replay(maxAge, codec, init);
      PrefixIsHonest(maxAge, codec, log);
      ClosedForm(maxAge, codec, init);
      PruneHolds(s, init, if init == [] then {} else HeldSet(maxAge, init), LiveSet(init, cutoff), cutoff);
      LastStep(s, init, last, LiveSet(init, cutoff), maxAge, codec, Envelopes(log));
    }
  }

  lemma EmptyHolds()
    ensures Holds(EMPTY, [], {})
  {
  }

  // -------------------------------------------------------------- exactly once

  /** The rows of each batch at its first delivery, in delivery order. */
  function FirstRows(log: seq<Delivery>): seq<BucketRow> {
    if log == [] then []
    else
      var init, e := log[..|log| - 1], log[|log| - 1].envelope;
      FirstRows(init) + if e in Envelopes(init) then [] else RowsOf(e)
  }

  /** No delivered batch is too old at the last delivery. */
  ghost predicate AllLive(maxAge: nat, log: seq<Delivery>) {
    forall d | d in log :: d.envelope.body.createdAt >= Cutoff(log[|log| - 1].now, maxAge)
  }

  lemma AllLivePrefix(maxAge: nat, log: seq<Delivery>)
    requires log != [] && AllLive(maxAge, log)
    requires |log| > 1 ==> log[|log| - 2].now <= log[|log| - 1].now
    ensures
      var init, cutoff := log[..|log| - 1], Cutoff(log[|log| - 1].now, maxAge);
      && AllLive(maxAge, init) && (forall d | d in init :: d.envelope.body.createdAt >= cutoff)
      && forall i | 0 <= i < |init| :: i in HeldSet(maxAge, init)
  {
    var init := log[..|log| - 1];
    forall d | d in init ensures d in log {}
    forall i | 0 <= i < |init| ensures i in HeldSet(maxAge, init) { assert init[i] in init; }
  }

  /** While nothing expires, deliveries in any order and number store the rows
      of each batch exactly once. */
  lemma {:induction false} ExactlyOnce(maxAge: nat, codec: Codec, log: seq<Delivery>)
    requires HonestLog(maxAge, codec, log) && AllLive(maxAge, log)
    ensures Replay(maxAge, codec, log).buckets == FirstRows(log)
    decreases |log|
  {
    hide HonestLog, NonConflicting, Acceptable, Holds, Ingest, Prune, HeldSet, Insert, AllLive, Replay, FirstRows;
    ReplayAndFirst(maxAge, codec, log);
    if log != [] {
      var init, last := log[..|log| - 1], log[|log| - 1];
      var s, kept := Replay(maxAge, codec, init), if init == [] then {} else HeldSet(maxAge, init);
      PrefixIsHonest(maxAge, codec, log);
      AllLivePrefix(maxAge, log);
      ClosedForm(maxAge, codec, init);
      ExactlyOnce(maxAge, codec, init);
      NothingToPrune(s, init, Cutoff(last.now, maxAge), kept);
      DeliveryOutcome(s, init, last, kept, maxAge, codec, Envelopes(log));
      InsertBuckets(s, last.envelope);
    }
  }

  lemma ReplayAndFirst(maxAge: nat, codec: Codec, log: seq<Delivery>)
    ensures log == [] ==> Replay(maxAge, codec, log).buckets == [] && FirstRows(log) == []
    ensures log != [] ==>
              var init, last := log[..|log| - 1], log[|log| - 1];
              && Replay(maxAge, codec, log)
                 == Ingest(Replay(maxAge, codec, init), maxAge, codec, last.envelope, last.now, false).0
              && FirstRows(log)
                 == if last.envelope in Envelopes(init) then FirstRows(init)
                    else FirstRows(init) + RowsOf(last.envelope)
  {
    hide Ingest, RowsOf;
  }

  lemma InsertBuckets(s: Store, e: BatchEnvelope)
    ensures Insert(s, e).buckets == s.buckets + RowsOf(e)
  {
  }

  lemma NothingToPrune(s: Store, log: seq<Delivery>, cutoff: nat, kept: set<nat>)
    requires Holds(s, log, kept) && forall d | d in log :: d.envelope.body.createdAt >= cutoff
    ensures Prune(s, cutoff) == s
  {
    hide RowsBy, RowsOf;
    forall id | id in s.batches ensures s.batches[id].createdAt >= cutoff {
      var i :| i in kept && 0 <= i < |log| && log[i].envelope.batchId == id;
      assert log[i] in log;
    }
    AllUnexpired(s.buckets, s.batches, cutoff);
    assert UnexpiredBatches(s.batches, cutoff) == s.batches;
  }

  /** With nothing to prune, a delivery inserts exactly when its batch is new. */
  lemma DeliveryOutcome(s: Store, init: seq<Delivery>, last: Delivery, kept: set<nat>, maxAge: nat, codec: Codec,
                        envs: set<BatchEnvelope>)
    requires NonConflicting(envs) && Envelopes(init) <= envs && last.envelope in envs
    requires Acceptable(maxAge, codec, last) && Prune(s, Cutoff(last.now, maxAge)) == s
    requires Holds(s, init, kept) && forall i | 0 <= i < |init| :: i in kept
    ensures Ingest(s, maxAge, codec, last.envelope, last.now, false).0
         == if last.envelope in Envelopes(init) then s else Insert(s, last.envelope)
  {
    var e := last.envelope;
    if e in Envelopes(init) {
      var i :| 0 <= i < |init| && init[i].envelope == e;
      assert e.batchId in s.batches;
    }
    hide Prune, Insert, Ingest, Holds, NonConflicting, From, Acceptable;
    HoldsFrom(s, init, kept);
    FromMore(s, Envelopes(init), envs);
    HonestOutcome(s, envs, maxAge, codec, last);
    if e.batchId in s.batches {
      var i := StoredEnvelope(s, init, kept, e, envs);
      assert init[i] in init;
    }
  }
}
