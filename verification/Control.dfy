/** The control store as a mutable object (src/control.rs). As in the spool, a
    transaction works on local copies and a commit assigns the fields. */
module ControlStoreObject {
  import opened Wrappers
  import opened Model
  import opened Sequences
  import opened Flows
  import opened ControlSpec
  import Queries

  lemma {:induction false} OneMoreRow(batchId: string, nodeId: string, flows: seq<FlowBucket>, f: FlowBucket)
    ensures BucketRows(batchId, nodeId, flows + [f])
         == BucketRows(batchId, nodeId, flows) + [BucketRow(batchId, nodeId, f)]
  {
    if flows == [] {
      assert flows + [f] == [f] && [f][1..] == [];
    } else {
      ConcatHead(flows, [f]);
      OneMoreRow(batchId, nodeId, flows[1..], f);
    }
  }

  class ControlStore {
    const maxAgeSeconds: nat
    const codec: Codec
    var batches: map<string, BatchRow>
    var buckets: seq<BucketRow>

    ghost function View(): Store
      reads this
    {
      Store(batches, buckets)
    }

    ghost predicate Valid()
      reads this
    {
      maxAgeSeconds > 0 && NoOrphans(View()) && UniqueIdentities(batches) && Queries.RowsFit(buckets)
    }

    constructor (maxAgeSeconds: nat, codec: Codec)
      requires maxAgeSeconds > 0
      ensures Valid() && View() == EMPTY && this.maxAgeSeconds == maxAgeSeconds && this.codec == codec
    {
      this.maxAgeSeconds, this.codec := maxAgeSeconds, codec;
      batches, buckets := map[], [];
    }

    /** Prunes, checks identity, inserts the batch and its buckets one by one. */
    method IngestAt(e: BatchEnvelope, now: nat, storageFull: bool) returns (r: Result<IngestStatus, IngestError>)
      requires Valid()
      modifies this
      ensures Valid()
      ensures (View(), r) == Ingest(old(View()), maxAgeSeconds, codec, e, now, storageFull)
      ensures r.Err? ==> View() == old(View())
    {
      IngestKeepsNoOrphans(View(), maxAgeSeconds, codec, e, now, storageFull);
      Queries.IngestKeepsRowsFit(View(), maxAgeSeconds, codec, e, now, storageFull);
      IngestOnlyAdds(View(), maxAgeSeconds, codec, e, now, storageFull);
      hide NoOrphans, UniqueIdentities, Kept, Queries.RowsFit, UnexpiredRows, UnexpiredBatches, BucketRows;
      if e.body.schemaVersion != SCHEMA_VERSION { return Err(SchemaVersion); }
      if !HasValidChecksum(codec, e) { return Err(Checksum); }
      if storageFull { return Err(StorageFull); }
      var cutoff := SaturatingSub(now, maxAgeSeconds);
      if !Fits(cutoff) { return Err(OutOfRange); }
      var keptBuckets := UnexpiredRows(buckets, batches, cutoff);
      var keptBatches := UnexpiredBatches(batches, cutoff);
      if e.batchId in keptBatches {
        if keptBatches[e.batchId].checksum != e.checksum { return Err(Conflict); }
        batches, buckets := keptBatches, keptBuckets;
        return Ok(Duplicate);
      }
      if !Fits(e.body.seqNo) { return Err(OutOfRange); }
      if SequenceExists(keptBatches, e.body.nodeId, e.body.bootId, e.body.seqNo) { return Err(Conflict); }
      if !Fits(e.body.createdAt) { return Err(OutOfRange); }
      var inserted := InsertEachBucket(keptBuckets, e);
      if inserted.None? { return Err(OutOfRange); }
      batches, buckets := keptBatches[e.batchId := BatchRowOf(e)], inserted.value;
      return Ok(Inserted);
    }

    /** Every (node, capture point) with rows, and the exact range of its
        buckets. */
    method Nodes() returns (items: seq<Queries.NodeItem>)
      ensures items == Queries.Nodes(View()) && Queries.ItemsSorted(items) && Queries.InOrder(items)
      ensures forall r | r in buckets :: Queries.HasItem(items, r)
      ensures forall i | i in items :: Queries.ExactWindow(i, buckets)
    {
      Queries.InventoryIsExact(buckets);
      items := Queries.Inventory(buckets);
    }

    method Stats(node: string, point: Option<string>) returns (stats: Queries.ControlStats)
      ensures stats == Queries.Stats(View(), node, point)
      ensures stats.flowBuckets == |Queries.Selected(buckets, node, point)|
      ensures Tally(stats.packets, stats.bytes) == Sum(Queries.FlowsOf(buckets, node), Queries.PointScope(point))
    {
      hide Queries.FlowsOf, Sum, Queries.Measure, Queries.Selected;
      Queries.RowsCounted(buckets, node, point);
      var flows := Queries.FlowsOf(buckets, node);
      var m := Queries.Measure(flows, Queries.PointScope(point));
      Queries.MeasureIsSum(flows, Queries.PointScope(point));
      var count := if point.Some? then |Queries.BatchIds(buckets, node, point.value)|
                   else |set id | id in batches && batches[id].nodeId == node|;
      stats := Queries.ControlStats(count, m.flowBuckets, m.packets, m.bytes);
    }

    method Series(node: string, point: Option<string>, from: Option<nat>, to: Option<nat>)
      returns (r: Result<seq<SeriesPoint>, Queries.QueryError>)
      ensures r == Queries.Series(View(), node, point, from, to)
      ensures r.Err? <==> (from.Some? && !Fits(from.value)) || (to.Some? && !Fits(to.value))
                          || (from.Some? && to.Some? && from.value > to.value)
      ensures r.Ok? ==>
                IsGrouping(r.value, Queries.FlowsOf(buckets, node),
                           Scope(point, None, if from.Some? then from.value else 0,
                                 if to.Some? then to else Some(I64_MAX)))
    {
      hide Queries.FlowsOf, Grouped;
      var lo := if from.Some? then from.value else 0;
      var hi := if to.Some? then to.value else I64_MAX;
      if lo > hi { return Err(Queries.EmptyWindow); }
      if !Fits(lo) || !Fits(hi) { return Err(Queries.SeriesOutOfRange); }
      var flows := Queries.FlowsOf(buckets, node);
      GroupedIsGrouping(flows, Scope(point, None, lo, Some(hi)));
      return Ok(Grouped(flows, Scope(point, None, lo, Some(hi))));
    }
  }

  /** The loop over a batch's buckets; the first value SQLite cannot hold makes
      the whole insert fail. */
  method InsertEachBucket(rows: seq<BucketRow>, e: BatchEnvelope) returns (r: Option<seq<BucketRow>>)
    ensures r == if forall f | f in e.body.buckets :: BucketFits(f) then Some(rows + RowsOf(e)) else None
  {
    var flows, after := e.body.buckets, rows;
    var i := 0;
    while i < |flows|
      invariant i <= |flows|
      invariant after == rows + BucketRows(e.batchId, e.body.nodeId, flows[..i])
      invariant forall f | f in flows[..i] :: BucketFits(f)
    {
      if !BucketFits(flows[i]) { return None; }
      OneMoreRow(e.batchId, e.body.nodeId, flows[..i], flows[i]);
      assert flows[..i + 1] == flows[..i] + [flows[i]];
      after := after + [BucketRow(e.batchId, e.body.nodeId, flows[i])];
      i := i + 1;
    }
    assert flows[..i] == flows;
    return Some(after);
  }
}
