/** From raw packets to the answer of a query. */
module EndToEnd {
  import opened Wrappers
  import opened Model
  import opened Sequences
  import opened Flows
  import opened Counts
  import opened Aggregate
  import opened ControlSpec
  import opened Queries
  import Capture

  ghost predicate NoRepeats(batches: seq<BatchEnvelope>) {
    forall i, j | 0 <= i < j < |batches| :: batches[i] != batches[j]
  }

  // ------------------------------------------------- batches as sums of flows

  lemma ContentsLast(batches: seq<BatchEnvelope>, e: BatchEnvelope)
    ensures Contents(batches + [e]) == Contents(batches) + e.body.buckets
  {
    assert (batches + [e])[..|batches|] == batches;
  }

  lemma {:induction false} ContentsConcat(a: seq<BatchEnvelope>, b: seq<BatchEnvelope>)
    ensures Contents(a + b) == Contents(a) + Contents(b)
  {
    if b == [] {
      assert a + b == a;
      assert Contents(b) == [];
      assert Contents(a) + [] == Contents(a);
    } else {
      hide Contents;
      var init, last := b[..|b| - 1], b[|b| - 1];
      ContentsConcat(a, init);
      ContentsLast(a + init, last);
      ContentsLast(init, last);
      assert b == init + [last];
      Associative(a, init, [last]);
      Associative(Contents(a), Contents(init), last.body.buckets);
    }
  }

  lemma {:induction false} ContentsMembers(batches: seq<BatchEnvelope>)
    ensures forall f :: f in Contents(batches) <==> exists e :: e in batches && f in e.body.buckets
  {
    if batches != [] {
      var init, last := batches[..|batches| - 1], batches[|batches| - 1];
      ContentsMembers(init);
      assert batches == init + [last];
      assert forall e :: e in batches <==> e in init || e == last;
    }
  }

  /** Taking one batch out of a list takes its flows out of the sum. */
  lemma SumWithout(batches: seq<BatchEnvelope>, i: nat, s: Scope)
    requires i < |batches|
    ensures Sum(Contents(batches), s) == Sum(Contents(Without(batches, i)), s).Plus(Sum(batches[i].body.buckets, s))
  {
    hide Sum, Contents;
    var a, e, b := batches[..i], batches[i], batches[i + 1..];
    SplitAround(batches, i);
    Associative(a, [e], b);
    ContentsConcat(a + [e], b);
    ContentsLast(a, e);
    ContentsConcat(a, b);
    SumConcat(Contents(a) + e.body.buckets, Contents(b), s);
    SumConcat(Contents(a), e.body.buckets, s);
    SumConcat(Contents(a), Contents(b), s);
  }

  lemma WithoutKeepsSet(batches: seq<BatchEnvelope>, i: nat)
    requires NoRepeats(batches) && i < |batches|
    ensures NoRepeats(Without(batches, i))
    ensures forall e :: e in Without(batches, i) <==> e in batches && e != batches[i]
  {
    WithoutElements(batches, i);
    hide Without;
    var rest := Without(batches, i);
    forall e | e in rest ensures e in batches && e != batches[i] {
      var j :| 0 <= j < |rest| && rest[j] == e;
    }
    forall e | e in batches && e != batches[i] ensures e in rest {
      var j :| 0 <= j < |batches| && batches[j] == e;
    }
  }

  /** The order of distinct batches does not matter to a sum. */
  lemma {:induction false} OrderDoesNotMatter(a: seq<BatchEnvelope>, b: seq<BatchEnvelope>, s: Scope)
    requires NoRepeats(a) && NoRepeats(b) && forall e :: e in a <==> e in b
    ensures Sum(Contents(a), s) == Sum(Contents(b), s)
    decreases |a|
  {
    assert |b| > 0 ==> b[0] in b;
    if a != [] {
      assert a[0] in b;
      var j :| 0 <= j < |b| && b[j] == a[0];
      WithoutKeepsSet(a, 0);
      WithoutKeepsSet(b, j);
      WithoutElements(a, 0);
      hide Sum, Contents, Without;
      OrderDoesNotMatter(Without(a, 0), Without(b, j), s);
      SumWithout(a, 0, s);
      SumWithout(b, j, s);
    }
  }

  // --------------------------------------------------- what the store answers

  function RowsNotBy(rows: seq<BucketRow>, id: string): seq<BucketRow> {
    if rows == [] then []
    else if rows[0].batchId == id then RowsNotBy(rows[1..], id)
    else [rows[0]] + RowsNotBy(rows[1..], id)
  }

  lemma {:induction false} RowsNotByMembers(rows: seq<BucketRow>, id: string)
    ensures forall r :: r in RowsNotBy(rows, id) <==> r in rows && r.batchId != id
    ensures forall r :: r in RowsBy(rows, id) <==> r in rows && r.batchId == id
  {
    if rows != [] {
      HeadTail(rows);
      RowsNotByMembers(rows[1..], id);
    }
  }

  lemma {:induction false} OthersKeepRows(rows: seq<BucketRow>, id: string, other: string)
    requires other != id
    ensures RowsBy(RowsNotBy(rows, id), other) == RowsBy(rows, other)
  {
    if rows != [] {
      OthersKeepRows(rows[1..], id, other);
      var rest := RowsNotBy(rows[1..], id);
      assert ([rows[0]] + rest)[1..] == rest;
    }
  }

  /** The rows of one batch and the other rows together make up every sum. */
  lemma {:induction false} SumByBatch(rows: seq<BucketRow>, id: string, node: string, s: Scope)
    ensures Sum(FlowsOf(rows, node), s)
         == Sum(FlowsOf(RowsNotBy(rows, id), node), s).Plus(Sum(FlowsOf(RowsBy(rows, id), node), s))
  {
    hide Sum, FlowsOf, RowsBy, RowsNotBy;
    SplitStep(rows, id);
    if rows == [] {
      NoFlows(node, s);
    } else {
      var head, rest := rows[0], rows[1..];
      SumByBatch(rest, id, node, s);
      SumHead(head, rest, node, s);
      SumHead(head, RowsNotBy(rest, id), node, s);
      SumHead(head, RowsBy(rest, id), node, s);
      HeadTail(rows);
    }
  }

  lemma SplitStep(rows: seq<BucketRow>, id: string)
    ensures rows == [] ==> RowsBy(rows, id) == [] && RowsNotBy(rows, id) == []
    ensures rows != [] ==>
              var head, rest := rows[0], rows[1..];
              && RowsBy(rows, id) == (if head.batchId == id then [head] + RowsBy(rest, id) else RowsBy(rest, id))
              && RowsNotBy(rows, id)
                 == (if head.batchId == id then RowsNotBy(rest, id) else [head] + RowsNotBy(rest, id))
  {
  }

  lemma NoFlows(node: string, s: Scope)
    ensures Sum(FlowsOf([], node), s) == Tally(0, 0)
  {
    SumNothing(s);
  }

  lemma SumHead(head: BucketRow, rest: seq<BucketRow>, node: string, s: Scope)
    ensures Sum(FlowsOf([head] + rest, node), s)
         == (if head.nodeId == node then Weight(s, head.flow) else Tally(0, 0)).Plus(Sum(FlowsOf(rest, node), s))
  {
    var rows := [head] + rest;
    assert rows[1..] == rest;
    SumConcat([head.flow], FlowsOf(rest, node), s);
    SumSingle(head.flow, s);
  }

  ghost predicate DistinctIds(batches: seq<BatchEnvelope>) {
    forall i, j | 0 <= i < j < |batches| :: batches[i].batchId != batches[j].batchId
  }

  /** The rows of a node are those of exactly these batches. */
  ghost predicate RowsAre(rows: seq<BucketRow>, node: string, batches: seq<BatchEnvelope>) {
    && DistinctIds(batches)
    && (forall e | e in batches :: e.body.nodeId == node && RowsBy(rows, e.batchId) == RowsOf(e))
    && (forall r | r in rows && r.nodeId == node :: exists e :: e in batches && e.batchId == r.batchId)
  }

  /** Then every sum over them is the sum over what the batches contain. */
  lemma {:induction false} RowsSum(rows: seq<BucketRow>, node: string, batches: seq<BatchEnvelope>, s: Scope)
    requires RowsAre(rows, node, batches)
    ensures Sum(FlowsOf(rows, node), s) == Sum(Contents(batches), s)
    decreases |batches|
  {
    hide Sum, FlowsOf, Contents, RowsBy, RowsNotBy, RowsOf;
    if batches == [] {
      NoNodeRows(rows, node);
      NoContents();
    } else {
      var n := |batches| - 1;
      var init, e := batches[..n], batches[n];
      var rest := RowsNotBy(rows, e.batchId);
      assert batches == init + [e];
      RestAre(rows, node, init, e);
      RowsSum(rest, node, init, s);
      SumByBatch(rows, e.batchId, node, s);
      FlowsOfRows(e, node);
      ContentsLast(init, e);
      SumConcat(Contents(init), e.body.buckets, s);
    }
  }

  lemma RestAre(rows: seq<BucketRow>, node: string, init: seq<BatchEnvelope>, e: BatchEnvelope)
    requires RowsAre(rows, node, init + [e])
    ensures RowsAre(RowsNotBy(rows, e.batchId), node, init)
    ensures e.body.nodeId == node && RowsBy(rows, e.batchId) == RowsOf(e)
  {
    hide RowsBy, RowsNotBy, RowsOf;
    var batches, rest := init + [e], RowsNotBy(rows, e.batchId);
    RowsNotByMembers(rows, e.batchId);
    assert batches[|init|] == e && e in batches;
    forall a | a in init ensures a in batches && a.batchId != e.batchId {
      var i :| 0 <= i < |init| && init[i] == a;
      assert batches[i] == a;
    }
    forall i, j | 0 <= i < j < |init| ensures init[i].batchId != init[j].batchId {
      assert batches[i] == init[i] && batches[j] == init[j];
    }
    forall a | a in init ensures RowsBy(rest, a.batchId) == RowsOf(a) { OthersKeepRows(rows, e.batchId, a.batchId); }
    forall r | r in rest && r.nodeId == node ensures exists a :: a in init && a.batchId == r.batchId {
      var a :| a in batches && a.batchId == r.batchId;
      assert a in init;
    }
  }

  lemma NoNodeRows(rows: seq<BucketRow>, node: string)
    requires forall r | r in rows :: r.nodeId != node
    ensures FlowsOf(rows, node) == []
  {
    FlowsOfMembers(rows, node);
    assert |FlowsOf(rows, node)| > 0 ==> FlowsOf(rows, node)[0] in FlowsOf(rows, node);
  }

  lemma NoContents()
    ensures Contents([]) == []
  {
  }

  /** A flow the store has for the node is in one of its batches. */
  lemma RowsAreFlows(rows: seq<BucketRow>, node: string, batches: seq<BatchEnvelope>)
    requires RowsAre(rows, node, batches)
    ensures forall f | f in FlowsOf(rows, node) :: f in Contents(batches)
  {
    hide FlowsOf, Contents, RowsBy, RowsOf;
    FlowsOfMembers(rows, node);
    ContentsMembers(batches);
    forall f | f in FlowsOf(rows, node) ensures f in Contents(batches) {
      var r :| r in rows && r.nodeId == node && r.flow == f;
      var e :| e in batches && e.batchId == r.batchId;
      RowsNotByMembers(rows, e.batchId);
      RowCarriesFlow(e, r);
    }
  }

  lemma RowCarriesFlow(e: BatchEnvelope, r: BucketRow)
    requires r in RowsOf(e)
    ensures r.flow in e.body.buckets
  {
    RowsCarryId(e.batchId, e.body.nodeId, e.body.buckets);
  }

  lemma FlowsOfRows(e: BatchEnvelope, node: string)
    ensures FlowsOf(RowsOf(e), node) == if e.body.nodeId == node then e.body.buckets else []
  {
    FlowsOfOwnRows(e.batchId, e.body.nodeId, e.body.buckets, node);
  }

  lemma {:induction false} ReplayFits(maxAge: nat, codec: Codec, log: seq<Delivery>)
    ensures RowsFit(ControlSpec.Replay(maxAge, codec, log).buckets)
  {
    hide Ingest, RowsFit;
    if log == [] {
      EmptyFits();
    } else {
      var init, last := log[..|log| - 1], log[|log| - 1];
      ReplayFits(maxAge, codec, init);
      IngestKeepsRowsFit(ControlSpec.Replay(maxAge, codec, init), maxAge, codec, last.envelope, last.now, false);
    }
  }

  lemma EmptyFits()
    ensures RowsFit([])
  {
  }

  /** The node's batches that the store holds after the log: those no older than
      the last cutoff, and the last one delivered. Other nodes may share it. */
  ghost predicate HeldBatches(maxAge: nat, log: seq<Delivery>, node: string, batches: seq<BatchEnvelope>) {
    && NoRepeats(batches)
    && forall e :: e in batches
         <==> e.body.nodeId == node && exists i :: i in HeldSet(maxAge, log) && log[i].envelope == e
  }

  lemma HeldRows(maxAge: nat, codec: Codec, log: seq<Delivery>, node: string, batches: seq<BatchEnvelope>)
    requires HonestLog(maxAge, codec, log) && HeldBatches(maxAge, log, node, batches)
    ensures RowsAre(ControlSpec.Replay(maxAge, codec, log).buckets, node, batches)
  {
    hide ControlSpec.Replay, RowsBy, RowsOf, Acceptable, ControlSpec.Held;
    ClosedForm(maxAge, codec, log);
    var store := ControlSpec.Replay(maxAge, codec, log);
    forall i, j | 0 <= i < j < |batches| ensures batches[i].batchId != batches[j].batchId {
      assert batches[i] in batches && batches[j] in batches;
      var x :| x in HeldSet(maxAge, log) && log[x].envelope == batches[i];
      var y :| y in HeldSet(maxAge, log) && log[y].envelope == batches[j];
      assert log[x] in log && log[y] in log && log[x].envelope in Envelopes(log) && log[y].envelope in Envelopes(log);
    }
    forall r | r in store.buckets && r.nodeId == node ensures exists e :: e in batches && e.batchId == r.batchId {
      var i :| i in HeldSet(maxAge, log) && 0 <= i < |log| && log[i].envelope.batchId == r.batchId;
      RowsNotByMembers(store.buckets, r.batchId);
      RowsCarryAnId(log[i].envelope);
      assert log[i].envelope in batches;
    }
  }

  /** For any honest log the flows the store has for the node sum to those of
      its held batches. */
  lemma StoredSums(maxAge: nat, codec: Codec, log: seq<Delivery>, node: string, batches: seq<BatchEnvelope>, s: Scope)
    requires HonestLog(maxAge, codec, log) && HeldBatches(maxAge, log, node, batches)
    ensures Sum(FlowsOf(ControlSpec.Replay(maxAge, codec, log).buckets, node), s) == Sum(Contents(batches), s)
  {
    HeldRows(maxAge, codec, log, node, batches);
    RowsSum(ControlSpec.Replay(maxAge, codec, log).buckets, node, batches, s);
  }

  /** The batch rows of a node are those of exactly these batches. */
  ghost predicate BatchesAre(store: Store, node: string, batches: seq<BatchEnvelope>) {
    forall id :: id in store.batches && store.batches[id].nodeId == node
      <==> exists e :: e in batches && e.batchId == id
  }

  lemma {:induction false} DistinctCount(batches: set<BatchEnvelope>)
    requires forall a, b | a in batches && b in batches && a.batchId == b.batchId :: a == b
    ensures |set e | e in batches :: e.batchId| == |batches|
  {
    if batches != {} {
      var a :| a in batches;
      DistinctCount(batches - {a});
      assert (set e | e in batches :: e.batchId) == (set e | e in batches - {a} :: e.batchId) + {a.batchId};
    }
  }

  /** The batches a query counts: all of them, or those with a bucket of the
      point. */
  function Relevant(batches: seq<BatchEnvelope>, point: Option<string>): set<BatchEnvelope> {
    set e | e in batches && (point.Some? ==> exists f :: f in e.body.buckets && f.key.capturePoint == point.value)
  }

  /** The answer of `stats` in terms of the node's batches: how many of them are
      relevant, how many rows they have, and their sums. */
  lemma StatsOfBatches(store: Store, node: string, batches: seq<BatchEnvelope>, point: Option<string>)
    requires RowsAre(store.buckets, node, batches) && BatchesAre(store, node, batches)
    ensures
      var stats := Stats(store, node, point);
      && stats.batches == |Relevant(batches, point)| && stats.flowBuckets == |Selected(store.buckets, node, point)|
      && Tally(stats.packets, stats.bytes) == Sum(Contents(batches), PointScope(point))
  {
    hide Measure, FlowsOf, Selected, Sum, Contents, RowsBy, RowsOf;
    RowsCounted(store.buckets, node, point);
    MeasureIsSum(FlowsOf(store.buckets, node), PointScope(point));
    RowsSum(store.buckets, node, batches, PointScope(point));
    IdsAreDistinctOf(batches, point);
    DistinctCount(Relevant(batches, point));
    if point.Some? { PointIds(store.buckets, node, batches, point.value); } else { NodeIds(store, node, batches); }
  }

  lemma IdsAreDistinctOf(batches: seq<BatchEnvelope>, point: Option<string>)
    requires DistinctIds(batches)
    ensures forall a, b | a in Relevant(batches, point) && b in Relevant(batches, point)
             && a.batchId == b.batchId :: a == b
  {
    forall a, b | a in batches && b in batches && a.batchId == b.batchId ensures a == b {
      var i :| 0 <= i < |batches| && batches[i] == a;
      var j :| 0 <= j < |batches| && batches[j] == b;
    }
  }

  lemma NodeIds(store: Store, node: string, batches: seq<BatchEnvelope>)
    requires BatchesAre(store, node, batches)
    ensures (set id | id in store.batches && store.batches[id].nodeId == node)
         == set e | e in Relevant(batches, None) :: e.batchId
  {
  }

  lemma PointIds(rows: seq<BucketRow>, node: string, batches: seq<BatchEnvelope>, point: string)
    requires RowsAre(rows, node, batches)
    ensures BatchIds(rows, node, point) == set e | e in Relevant(batches, Some(point)) :: e.batchId
  {
    hide RowsBy, RowsOf;
    forall id | id in BatchIds(rows, node, point)
      ensures exists e :: e in Relevant(batches, Some(point)) && e.batchId == id {
      var r :| r in rows && r.nodeId == node && r.flow.key.capturePoint == point && r.batchId == id;
      var e :| e in batches && e.batchId == id;
      RowsNotByMembers(rows, id);
      RowCarriesFlow(e, r);
      assert e in Relevant(batches, Some(point));
    }
    forall e | e in Relevant(batches, Some(point)) ensures e.batchId in BatchIds(rows, node, point) {
      var f :| f in e.body.buckets && f.key.capturePoint == point;
      RowOfFlow(e.batchId, e.body.nodeId, e.body.buckets, f);
      RowsNotByMembers(rows, e.batchId);
      OwnRows(e);
      assert BucketRow(e.batchId, e.body.nodeId, f) in RowsBy(rows, e.batchId);
    }
  }

  lemma OwnRows(e: BatchEnvelope)
    ensures RowsOf(e) == BucketRows(e.batchId, e.body.nodeId, e.body.buckets)
  {
  }

  lemma {:induction false} RowOfFlow(batchId: string, nodeId: string, flows: seq<FlowBucket>, f: FlowBucket)
    requires f in flows
    ensures BucketRow(batchId, nodeId, f) in BucketRows(batchId, nodeId, flows)
  {
    HeadTail(flows);
    if f != flows[0] { RowOfFlow(batchId, nodeId, flows[1..], f); }
  }

  lemma HeldBatchRows(maxAge: nat, codec: Codec, log: seq<Delivery>, node: string, batches: seq<BatchEnvelope>)
    requires HonestLog(maxAge, codec, log) && HeldBatches(maxAge, log, node, batches)
    ensures BatchesAre(ControlSpec.Replay(maxAge, codec, log), node, batches)
  {
    hide ControlSpec.Replay, RowsBy, RowsOf, Acceptable, ControlSpec.Held, HonestLog;
    ClosedForm(maxAge, codec, log);
    var store := ControlSpec.Replay(maxAge, codec, log);
    forall id | id in store.batches && store.batches[id].nodeId == node
      ensures exists e :: e in batches && e.batchId == id
    {
      var i :| i in HeldSet(maxAge, log) && 0 <= i < |log| && log[i].envelope.batchId == id;
      assert log[i].envelope in batches;
    }
    forall e | e in batches ensures e.batchId in store.batches && store.batches[e.batchId].nodeId == node {
      var i :| i in HeldSet(maxAge, log) && log[i].envelope == e;
    }
  }

  /** After any honest log, `stats` counts exactly the node's held batches, those
      with a bucket of the point when one is given, and sums their contents. */
  lemma StatsOfHeld(maxAge: nat, codec: Codec, log: seq<Delivery>, node: string, batches: seq<BatchEnvelope>,
                    point: Option<string>)
    requires HonestLog(maxAge, codec, log) && HeldBatches(maxAge, log, node, batches)
    ensures
      var store := ControlSpec.Replay(maxAge, codec, log);
      var stats := Stats(store, node, point);
      && stats.batches == |Relevant(batches, point)| && (point.None? ==> stats.batches == |batches|)
      && stats.flowBuckets == |Selected(store.buckets, node, point)|
      && Tally(stats.packets, stats.bytes) == Sum(Contents(batches), PointScope(point))
  {
    hide HonestLog, HeldBatches, Stats, Selected, Sum, Contents, RowsAre, BatchesAre, ControlSpec.Replay;
    HeldRows(maxAge, codec, log, node, batches);
    HeldBatchRows(maxAge, codec, log, node, batches);
    StatsOfBatches(ControlSpec.Replay(maxAge, codec, log), node, batches, point);
    if point.None? { AllRelevant(maxAge, log, node, batches); }
  }

  lemma AllRelevant(maxAge: nat, log: seq<Delivery>, node: string, batches: seq<BatchEnvelope>)
    requires HeldBatches(maxAge, log, node, batches)
    ensures |Relevant(batches, None)| == |batches|
  {
    NoRepeatsCount(batches);
  }

  lemma {:induction false} NoRepeatsCount(batches: seq<BatchEnvelope>)
    requires NoRepeats(batches)
    ensures |Relevant(batches, None)| == |batches|
  {
    if batches != [] {
      var init, last := batches[..|batches| - 1], batches[|batches| - 1];
      NoRepeatsCount(init);
      assert batches == init + [last];
      assert Relevant(batches, None) == Relevant(init, None) + {last};
    }
  }

  lemma {:induction false} SinglesArePositive(width: nat, packets: seq<PacketMeta>)
    requires width > 0
    ensures forall f | f in Singles(width, packets) :: f.packets == 1
  {
    if packets != [] { SinglesArePositive(width, packets[..|packets| - 1]); }
  }

  lemma {:induction false} SinglesMembers(width: nat, packets: seq<PacketMeta>)
    requires width > 0
    ensures forall f :: f in Singles(width, packets) <==> exists p :: p in packets && f == Single(width, p)
  {
    if packets != [] {
      var init, last := packets[..|packets| - 1], packets[|packets| - 1];
      SinglesMembers(width, init);
      assert packets == init + [last];
    }
  }

  /** A bucket has a single-packet flow of the point exactly when it is aligned
      and a packet of the point falls into it. */
  lemma FlowOfPacket(width: nat, packets: seq<PacketMeta>, point: string, t: nat)
    requires width > 0
    ensures HasFlow(Singles(width, packets), PointScope(Some(point)), t)
       <==> t % width == 0 && exists p :: p in packets && Falls(OfPoint(point), p, t, width)
  {
    hide Singles, BucketOf;
    SinglesMembers(width, packets);
    var flows, scope := Singles(width, packets), PointScope(Some(point));
    if HasFlow(flows, scope, t) {
      var f :| f in flows && Covers(scope, f) && f.bucketStart == t;
      var p :| p in packets && f == Single(width, p);
      BucketContains(width, p.timestamp, t);
      assert Falls(OfPoint(point), p, t, width);
    }
    if t % width == 0 && exists p :: p in packets && Falls(OfPoint(point), p, t, width) {
      var p :| p in packets && Falls(OfPoint(point), p, t, width);
      BucketContains(width, p.timestamp, t);
      assert Single(width, p) in flows && Covers(scope, Single(width, p));
    }
  }

  /** Packets grouped by time bucket are their series, counted packet by packet
      and byte by byte. */
  lemma GroupedIsSeries(width: nat, packets: seq<PacketMeta>, point: string)
    requires width > 0
    ensures IsSeriesOf(Grouped(Singles(width, packets), PointScope(Some(point))), packets, OfPoint(point), width)
  {
    hide Singles, Sum, Grouped, HasFlow, PacketsIn, BytesIn, Falls, BucketOf;
    var flows, scope, w := Singles(width, packets), PointScope(Some(point)), OfPoint(point);
    var points := Grouped(flows, scope);
    GroupedIsGrouping(flows, scope);
    forall i | 0 <= i < |points|
      ensures points[i].bucketStart % width == 0
      ensures points[i].packets == PacketsIn(packets, w, points[i].bucketStart, width) > 0
      ensures points[i].bytes == BytesIn(packets, w, points[i].bucketStart, width)
    {
      var t := points[i].bucketStart;
      assert HasPoint(points, t);
      FlowOfPacket(width, packets, point, t);
      AnyPacket(packets, w, t, width);
      SinglesAreCounts(width, packets, w, t);
      assert At(scope, t) == ScopeOf(w, t);
    }
    forall p | p in packets && Is(w, p.key)
      ensures exists i :: 0 <= i < |points| && Falls(w, p, points[i].bucketStart, width)
    {
      var t := BucketOf(width, p.timestamp);
      OwnBucket(width, p, w);
      FlowOfPacket(width, packets, point, t);
      assert HasPoint(points, t);
    }
  }

  lemma OwnBucket(width: nat, p: PacketMeta, w: Which)
    requires width > 0 && Is(w, p.key)
    ensures BucketOf(width, p.timestamp) % width == 0 && Falls(w, p, BucketOf(width, p.timestamp), width)
  {
    BucketContains(width, p.timestamp, BucketOf(width, p.timestamp));
  }

  /** If the rows of a node are those of some batches and the batches carry
      exactly some packets, the series of a capture point is the packets of that
      capture point grouped by timestamp / width * width. */
  lemma SeriesIsThePackets(width: nat, packets: seq<PacketMeta>, batches: seq<BatchEnvelope>, store: Store,
                           node: string, point: string)
    requires width > 0 && RowsFit(store.buckets) && RowsAre(store.buckets, node, batches)
    requires forall s :: Sum(Contents(batches), s) == Sum(Singles(width, packets), s)
    requires forall f | f in Contents(batches) :: f.packets >= 1
    ensures Series(store, node, Some(point), None, None)
         == Ok(Grouped(Singles(width, packets), PointScope(Some(point))))
    ensures IsSeriesOf(Series(store, node, Some(point), None, None).value, packets, OfPoint(point), width)
  {
    GroupedIsSeries(width, packets, point);
    hide IsSeriesOf;
    hide Sum, Contents, FlowsOf, Singles, Grouped, Measure, Series, Covers, RowsAre, RowsFit;
    var scope := PointScope(Some(point));
    var flows := FlowsOf(store.buckets, node);
    UnrestrictedSeries(store, node, Some(point));
    WholeWindow(store, node, Some(point));
    SameCover(flows, Scope(Some(point), None, 0, Some(I64_MAX)), scope);
    RowsAreFlows(store.buckets, node, batches);
    SinglesArePositive(width, packets);
    forall t | InWindow(scope, t) ensures Sum(flows, At(scope, t)) == Sum(Singles(width, packets), At(scope, t)) {
      RowsSum(store.buckets, node, batches, At(scope, t));
    }
    SameSumsSameGrouping(flows, Singles(width, packets), scope);
  }

  /** End to end: for any interleaving of pushes and drains that ends in a full
      drain, cut into batches in any way and all held by the store, the series is
      the pushed packets; when the drains happened, which packets came late,
      where batches were cut, in what order and how often they were delivered and
      whether the last of them had expired does not matter. */
  lemma EndToEndMeaning(width: nat, ops: seq<Op>, batches: seq<BatchEnvelope>,
                        maxAge: nat, codec: Codec, log: seq<Delivery>, node: string, point: string)
    requires width > 0 && ops != [] && ops[|ops| - 1].DrainAll?
    requires Contents(batches) == Aggregate.Replay(width, ops).drained
    requires HonestLog(maxAge, codec, log) && HeldBatches(maxAge, log, node, batches)
    ensures Series(ControlSpec.Replay(maxAge, codec, log), node, Some(point), None, None)
         == Ok(Grouped(Singles(width, Pushed(ops)), PointScope(Some(point))))
    ensures IsSeriesOf(Series(ControlSpec.Replay(maxAge, codec, log), node, Some(point), None, None).value,
                       Pushed(ops), OfPoint(point), width)
  {
    TraceInvariant(width, ops);
    FullDrain(width, ops);
    hide IsSeriesOf;
    hide Sum, Contents, Singles, Aggregate.Replay, Grouped, Series, Sorted, HonestLog, HeldBatches, Pushed;
    forall s ensures Sum(Contents(batches), s) == Sum(Singles(width, Pushed(ops)), s) {
      Conservation(width, ops, s);
      SumNothing(s);
    }
    ReplayFits(maxAge, codec, log);
    HeldRows(maxAge, codec, log, node, batches);
    SeriesIsThePackets(width, Pushed(ops), batches, ControlSpec.Replay(maxAge, codec, log), node, point);
  }

  lemma FullDrain(width: nat, ops: seq<Op>)
    requires width > 0 && ops != [] && ops[|ops| - 1].DrainAll?
    ensures Aggregate.Replay(width, ops).flows == []
  {
  }

  /** From frames to an answer: when a capture run's batches carry all it parsed,
      as `Capture.Run` ensures on a normal return, and are what the store holds
      for the node, the series of the capture point is the frames that were
      parsed, grouped by time. */
  lemma CapturedSeries(c: Capture.CaptureConfig, linkType: int, turns: seq<Capture.Turn>, batches: seq<BatchEnvelope>,
                       store: Store)
    requires c.bucketSeconds > 0
    requires Capture.Conserved(c.bucketSeconds, Capture.Parsed(c, linkType, turns), Contents(batches), [], [])
    requires forall i | 0 <= i < |batches| :: Capture.FromCapture(c, batches[i])
    requires RowsFit(store.buckets) && RowsAre(store.buckets, c.nodeId, batches)
    ensures Series(store, c.nodeId, Some(c.capturePoint), None, None)
         == Ok(Grouped(Singles(c.bucketSeconds, Capture.Parsed(c, linkType, turns)), PointScope(Some(c.capturePoint))))
    ensures IsSeriesOf(Series(store, c.nodeId, Some(c.capturePoint), None, None).value,
                       Capture.Parsed(c, linkType, turns), OfPoint(c.capturePoint), c.bucketSeconds)
  {
    hide IsSeriesOf;
    hide Sum, Contents, Singles, Grouped, Series, RowsAre, RowsFit, Capture.Parsed;
    var packets := Capture.Parsed(c, linkType, turns);
    forall s ensures Sum(Contents(batches), s) == Sum(Singles(c.bucketSeconds, packets), s) { SumNothing(s); }
    ContentsMembers(batches);
    forall f | f in Contents(batches) ensures f.packets >= 1 {
      var e :| e in batches && f in e.body.buckets;
      var i :| 0 <= i < |batches| && batches[i] == e;
      assert Capture.FromCapture(c, batches[i]);
    }
    SeriesIsThePackets(c.bucketSeconds, packets, batches, store, c.nodeId, c.capturePoint);
  }
}
