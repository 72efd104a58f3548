/** The read-only queries of the control store (src/control.rs) and how their
    answers agree. */
module Queries {
  import opened Wrappers
  import opened Model
  import opened Sequences
  import opened Orders
  import opened Flows
  import opened ControlSpec

  // ---------------------------------------------------------------- selection

  /** The flows of one node's rows, in table order. */
  function FlowsOf(rows: seq<BucketRow>, node: string): seq<FlowBucket> {
    if rows == [] then []
    else if rows[0].nodeId == node then [rows[0].flow] + FlowsOf(rows[1..], node)
    else FlowsOf(rows[1..], node)
  }

  lemma {:induction false} FlowsOfConcat(a: seq<BucketRow>, b: seq<BucketRow>, node: string)
    ensures FlowsOf(a + b, node) == FlowsOf(a, node) + FlowsOf(b, node)
  {
    if a == [] {
      assert a + b == b;
    } else {
      ConcatHead(a, b);
      FlowsOfConcat(a[1..], b, node);
    }
  }

  lemma {:induction false} FlowsOfMembers(rows: seq<BucketRow>, node: string)
    ensures forall f :: f in FlowsOf(rows, node) <==> exists r :: r in rows && r.nodeId == node && r.flow == f
  {
    if rows != [] {
      HeadTail(rows);
      FlowsOfMembers(rows[1..], node);
    }
  }

  lemma {:induction false} FlowsOfOwnRows(batchId: string, nodeId: string, flows: seq<FlowBucket>, node: string)
    ensures FlowsOf(BucketRows(batchId, nodeId, flows), node) == if nodeId == node then flows else []
  {
    if flows != [] {
      FlowsOfOwnRows(batchId, nodeId, flows[1..], node);
      var tail := BucketRows(batchId, nodeId, flows[1..]);
      assert ([BucketRow(batchId, nodeId, flows[0])] + tail)[1..] == tail;
    }
  }

  /** Every stored integer is in SQLite's range. */
  ghost predicate RowsFit(rows: seq<BucketRow>) { forall r | r in rows :: BucketFits(r.flow) }

  lemma IngestKeepsRowsFit(s: Store, maxAge: nat, codec: Codec, e: BatchEnvelope, now: nat, full: bool)
    requires RowsFit(s.buckets)
    ensures RowsFit(Ingest(s, maxAge, codec, e, now, full).0.buckets)
  {
    UnexpiredMembers(s.buckets, s.batches, Cutoff(now, maxAge));
    RowsCarryId(e.batchId, e.body.nodeId, e.body.buckets);
  }

  // ------------------------------------------------------------------- totals

  datatype Totals = Totals(flowBuckets: nat, packets: nat, bytes: nat) {
    function Plus(o: Totals): Totals { Totals(flowBuckets + o.flowBuckets, packets + o.packets, bytes + o.bytes) }
  }

  function One(s: Scope, f: FlowBucket): Totals {
    if Covers(s, f) then Totals(1, f.packets, f.bytes) else Totals(0, 0, 0)
  }

  /** COUNT(*), SUM(packets) and SUM(bytes) of the selected rows. */
  function Measure(flows: seq<FlowBucket>, s: Scope): Totals {
    if flows == [] then Totals(0, 0, 0) else One(s, flows[0]).Plus(Measure(flows[1..], s))
  }

  lemma MeasureStep(flows: seq<FlowBucket>, s: Scope)
    ensures Measure([], s) == Totals(0, 0, 0)
    ensures flows != [] ==> Measure(flows, s) == One(s, flows[0]).Plus(Measure(flows[1..], s))
  {
  }

  lemma {:induction false} MeasureIsSum(flows: seq<FlowBucket>, s: Scope)
    ensures Tally(Measure(flows, s).packets, Measure(flows, s).bytes) == Sum(flows, s)
  {
    hide Sum, Measure;
    MeasureStep(flows, s);
    if flows == [] {
      SumNothing(s);
    } else {
      MeasureIsSum(flows[1..], s);
      SumStep(flows, s);
    }
  }

  /** The rows a query selects, by index. */
  function Selected(rows: seq<BucketRow>, node: string, point: Option<string>): set<nat> {
    set i: nat | i < |rows| && Selects(rows[i], node, point)
  }

  predicate Selects(r: BucketRow, node: string, point: Option<string>) {
    r.nodeId == node && (point.Some? ==> r.flow.key.capturePoint == point.value)
  }

  lemma SelectedStep(rows: seq<BucketRow>, node: string, point: Option<string>)
    requires rows != []
    ensures |Selected(rows, node, point)|
         == |Selected(rows[..|rows| - 1], node, point)| + if |rows| - 1 in Selected(rows, node, point) then 1 else 0
  {
    hide Selects;
    var n := |rows| - 1;
    var all, before := Selected(rows, node, point), Selected(rows[..n], node, point);
    forall i ensures i in before <==> i in all && i != n {
      assert 0 <= i < n ==> rows[i] == rows[..n][i];
    }
    hide Selected;
    assert before == all - {n};
  }

  /** COUNT(*) is the number of selected rows. */
  lemma {:induction false} RowsCounted(rows: seq<BucketRow>, node: string, point: Option<string>)
    ensures Measure(FlowsOf(rows, node), PointScope(point)).flowBuckets == |Selected(rows, node, point)|
  {
    if rows != [] {
      var init, last := rows[..|rows| - 1], rows[|rows| - 1];
      RowsCounted(init, node, point);
      SelectedStep(rows, node, point);
      assert rows == init + [last];
      FlowsOfConcat(init, [last], node);
      FlowsOfOne(last, node);
      hide Measure, FlowsOf, Selected;
      MeasureConcat(FlowsOf(init, node), FlowsOf([last], node), PointScope(point));
      MeasureOne(last.flow, PointScope(point));
      SelectedLast(rows, node, point);
    }
  }

  lemma SelectedLast(rows: seq<BucketRow>, node: string, point: Option<string>)
    requires rows != []
    ensures
      var last := rows[|rows| - 1];
      |rows| - 1 in Selected(rows, node, point) <==> last.nodeId == node && Covers(PointScope(point), last.flow)
  {
  }

  lemma FlowsOfOne(r: BucketRow, node: string)
    ensures FlowsOf([r], node) == if r.nodeId == node then [r.flow] else []
  {
    assert [r][1..] == [];
  }

  lemma MeasureOne(f: FlowBucket, s: Scope)
    ensures Measure([f], s).flowBuckets == (if Covers(s, f) then 1 else 0) && Measure([], s).flowBuckets == 0
  {
    assert [f][1..] == [];
  }

  lemma PlusAssociative(a: Totals, b: Totals, c: Totals)
    ensures a.Plus(b.Plus(c)) == a.Plus(b).Plus(c)
  {
  }

  lemma {:induction false} MeasureConcat(a: seq<FlowBucket>, b: seq<FlowBucket>, s: Scope)
    ensures Measure(a + b, s) == Measure(a, s).Plus(Measure(b, s))
  {
    if a == [] {
      assert a + b == b;
      MeasureStep(a, s);
    } else {
      hide Measure, One;
      ConcatHead(a, b);
      MeasureStep(a, s);
      MeasureStep(a + b, s);
      MeasureConcat(a[1..], b, s);
      PlusAssociative(One(s, a[0]), Measure(a[1..], s), Measure(b, s));
    }
  }

  function PointScope(point: Option<string>): Scope { Scope(point, None, 0, None) }

  datatype ControlStats = ControlStats(batches: nat, flowBuckets: nat, packets: nat, bytes: nat)

  function BatchIds(rows: seq<BucketRow>, node: string, point: string): set<string> {
    set r | r in rows && r.nodeId == node && r.flow.key.capturePoint == point :: r.batchId
  }

  function Stats(s: Store, node: string, point: Option<string>): ControlStats {
    var m := Measure(FlowsOf(s.buckets, node), PointScope(point));
    ControlStats(if point.Some? then |BatchIds(s.buckets, node, point.value)|
                 else |set id | id in s.batches && s.batches[id].nodeId == node|,
                 m.flowBuckets, m.packets, m.bytes)
  }

  datatype QueryError = EmptyWindow | SeriesOutOfRange

  function Series(s: Store, node: string, point: Option<string>, from: Option<nat>, to: Option<nat>)
    : Result<seq<SeriesPoint>, QueryError>
  {
    var lo := if from.Some? then from.value else 0;
    var hi := if to.Some? then to.value else I64_MAX;
    if lo > hi then Err(EmptyWindow)
    else if !Fits(lo) || !Fits(hi) then Err(SeriesOutOfRange)
    else Ok(Grouped(FlowsOf(s.buckets, node), Scope(point, None, lo, Some(hi))))
  }

  /** A request is refused exactly for an empty window or a bound that does not
      fit; a missing bound does not restrict. */
  lemma SeriesRefusedExactly(s: Store, node: string, point: Option<string>, from: Option<nat>, to: Option<nat>)
    ensures
      var r := Series(s, node, point, from, to);
      && (r.Err? <==> (from.Some? && !Fits(from.value)) || (to.Some? && !Fits(to.value))
                      || (from.Some? && to.Some? && from.value > to.value))
      && (r == Err(EmptyWindow) <==> from.Some? && from.value > if to.Some? then to.value else I64_MAX)
      && (r.Ok? ==> IsGrouping(r.value, FlowsOf(s.buckets, node),
                               Scope(point, None, if from.Some? then from.value else 0,
                                     if to.Some? then to else Some(I64_MAX))))
  {
    hide FlowsOf, Grouped, IsGrouping;
    GroupedIsGrouping(FlowsOf(s.buckets, node), Scope(point, None, if from.Some? then from.value else 0,
                                                      if to.Some? then to else Some(I64_MAX)));
  }

  // ---------------------------------------------------------------- inventory

  datatype NodeItem = NodeItem(nodeId: string, capturePoint: string, firstBucketStart: nat, lastBucketStart: nat)

  function ItemCode(nodeId: string, capturePoint: string): Code { [Chars(nodeId), Chars(capturePoint)] }

  /** By node and then by capture point, as texts. */
  ghost predicate InOrder(items: seq<NodeItem>) {
    forall i, j | 0 <= i < j < |items| ::
      || TextBefore(items[i].nodeId, items[j].nodeId)
      || (items[i].nodeId == items[j].nodeId && TextBefore(items[i].capturePoint, items[j].capturePoint))
  }

  lemma ItemCodeOrder(a: NodeItem, b: NodeItem)
    ensures Before(CodeOf(a), CodeOf(b))
       <==> TextBefore(a.nodeId, b.nodeId) || (a.nodeId == b.nodeId && TextBefore(a.capturePoint, b.capturePoint))
  {
    CharsBefore(a.nodeId, b.nodeId);
    CharsBefore(a.capturePoint, b.capturePoint);
    TextsDiffer(a.nodeId, b.nodeId);
    TextsDiffer(a.capturePoint, b.capturePoint);
    hide Before, Chars, ColumnBefore, TextBefore;
    var x, y := CodeOf(a), CodeOf(b);
    CodeStep(x, y, 0);
    CodeStep(x, y, 1);
    NothingBefore();
    assert x[0..] == x && y[0..] == y && x[2..] == [] && y[2..] == [];
  }

  lemma TextsDiffer(s: string, t: string)
    ensures Chars(s) == Chars(t) <==> s == t
    ensures s == t ==> !TextBefore(s, t)
  {
    if Chars(s) == Chars(t) { CharsInjective(s, t); }
    CharsBefore(s, t);
    ColumnTotal(Chars(s), Chars(t));
  }

  lemma ItemsInOrder(items: seq<NodeItem>)
    ensures ItemsSorted(items) <==> InOrder(items)
  {
    hide Before, CodeOf, TextBefore;
    forall i, j | 0 <= i < j < |items|
      ensures Before(CodeOf(items[i]), CodeOf(items[j]))
         <==> TextBefore(items[i].nodeId, items[j].nodeId)
              || (items[i].nodeId == items[j].nodeId && TextBefore(items[i].capturePoint, items[j].capturePoint))
    {
      ItemCodeOrder(items[i], items[j]);
    }
  }

  predicate SameItem(i: NodeItem, r: BucketRow) { i.nodeId == r.nodeId && i.capturePoint == r.flow.key.capturePoint }

  function CodeOf(i: NodeItem): Code { ItemCode(i.nodeId, i.capturePoint) }

  function Widen(i: NodeItem, t: nat): NodeItem {
    i.(firstBucketStart := Min(i.firstBucketStart, t), lastBucketStart := Max(i.lastBucketStart, t))
  }

  function NewItem(r: BucketRow): NodeItem {
    NodeItem(r.nodeId, r.flow.key.capturePoint, r.flow.bucketStart, r.flow.bucketStart)
  }

  function AddItem(items: seq<NodeItem>, r: BucketRow): seq<NodeItem> {
    if items == [] then [NewItem(r)]
    else if SameItem(items[0], r) then [Widen(items[0], r.flow.bucketStart)] + items[1..]
    else if Before(CodeOf(NewItem(r)), CodeOf(items[0])) then [NewItem(r)] + items
    else [items[0]] + AddItem(items[1..], r)
  }

  /** GROUP BY node_id, capture_point ORDER BY both, with MIN and MAX. */
  function Inventory(rows: seq<BucketRow>): seq<NodeItem> {
    if rows == [] then [] else AddItem(Inventory(rows[1..]), rows[0])
  }

  function Nodes(s: Store): seq<NodeItem> { Inventory(s.buckets) }

  ghost predicate ItemsSorted(items: seq<NodeItem>) {
    forall i, j | 0 <= i < j < |items| :: Before(CodeOf(items[i]), CodeOf(items[j]))
  }

  /** The item's window is the exact range of its rows. */
  ghost predicate ExactWindow(i: NodeItem, rows: seq<BucketRow>) {
    && (forall r | r in rows && SameItem(i, r) :: i.firstBucketStart <= r.flow.bucketStart <= i.lastBucketStart)
    && (exists r :: r in rows && SameItem(i, r) && r.flow.bucketStart == i.firstBucketStart)
    && (exists r :: r in rows && SameItem(i, r) && r.flow.bucketStart == i.lastBucketStart)
  }

  ghost predicate HasItem(items: seq<NodeItem>, r: BucketRow) { exists i :: i in items && SameItem(i, r) }

  lemma CodesEqual(a: NodeItem, b: NodeItem)
    requires CodeOf(a) == CodeOf(b)
    ensures a.nodeId == b.nodeId && a.capturePoint == b.capturePoint
  {
    assert CodeOf(a)[0] == CodeOf(b)[0] && CodeOf(a)[1] == CodeOf(b)[1];
    CharsInjective(a.nodeId, b.nodeId);
    CharsInjective(a.capturePoint, b.capturePoint);
  }

  lemma {:induction false} AddItemSorted(items: seq<NodeItem>, r: BucketRow)
    requires ItemsSorted(items)
    ensures ItemsSorted(AddItem(items, r))
    ensures forall i | i in AddItem(items, r) :: CodeOf(i) == CodeOf(NewItem(r)) || i in items
  {
    hide Before, CodeOf;
    if items != [] {
      var head, rest, res := items[0], items[1..], AddItem(items, r);
      HeadTail(items);
      HeadTail(res);
      forall i | i in rest ensures Before(CodeOf(head), CodeOf(i)) {}
      if SameItem(head, r) {
        assert res[1..] == rest;
        SameCode(head, Widen(head, r.flow.bucketStart));
        SameCode(head, NewItem(r));
      } else if Before(CodeOf(NewItem(r)), CodeOf(head)) {
        assert res[1..] == items;
        forall i | i in items ensures Before(CodeOf(NewItem(r)), CodeOf(i)) {
          if i != head { Transitive(CodeOf(NewItem(r)), CodeOf(head), CodeOf(i)); }
        }
      } else {
        AddItemSorted(rest, r);
        assert res[1..] == AddItem(rest, r);
        Total(CodeOf(head), CodeOf(NewItem(r)));
        if CodeOf(head) == CodeOf(NewItem(r)) { CodesEqual(head, NewItem(r)); }
      }
    }
  }

  /** What the entry for the row's pair becomes. */
  ghost predicate Updated(items: seq<NodeItem>, i: NodeItem, r: BucketRow) {
    || (i == NewItem(r) && !HasItem(items, r))
    || exists o :: o in items && SameItem(o, r) && i == Widen(o, r.flow.bucketStart)
  }

  lemma {:induction false} AddItemMembers(items: seq<NodeItem>, r: BucketRow)
    requires ItemsSorted(items)
    ensures forall i | !SameItem(i, r) :: i in AddItem(items, r) <==> i in items
    ensures HasItem(AddItem(items, r), r)
    ensures forall i | i in AddItem(items, r) && SameItem(i, r) :: Updated(items, i, r)
  {
    hide Before, CodeOf;
    var res := AddItem(items, r);
    HeadTail(res);
    if items == [] {
      assert res[1..] == [] && SameItem(res[0], r);
    } else {
      var head, rest := items[0], items[1..];
      HeadTail(items);
      forall i | i in rest ensures Before(CodeOf(head), CodeOf(i)) {}
      if SameItem(head, r) {
        assert res[1..] == rest;
        assert SameItem(res[0], r);
        forall i | i in rest ensures !SameItem(i, r) { NotSame(head, i, r); }
      } else if Before(CodeOf(NewItem(r)), CodeOf(head)) {
        assert res[1..] == items && SameItem(res[0], r);
        forall i | i in items ensures !SameItem(i, r) {
          if i != head { Transitive(CodeOf(NewItem(r)), CodeOf(head), CodeOf(i)); }
          NotSame(NewItem(r), i, r);
        }
      } else {
        AddItemMembers(rest, r);
        assert res[1..] == AddItem(rest, r);
        assert HasItem(items, r) ==> HasItem(rest, r);
        forall i | i in res && SameItem(i, r) ensures Updated(items, i, r) {
          assert Updated(rest, i, r);
        }
        assert HasItem(res, r);
      }
    }
  }

  lemma SameCode(a: NodeItem, b: NodeItem)
    requires a.nodeId == b.nodeId && a.capturePoint == b.capturePoint
    ensures CodeOf(a) == CodeOf(b)
  {
  }

  lemma NotSame(a: NodeItem, b: NodeItem, r: BucketRow)
    requires Before(CodeOf(a), CodeOf(b)) && SameItem(a, r)
    ensures !SameItem(b, r)
  {
    if SameItem(b, r) {
      SameCode(a, b);
      Total(CodeOf(a), CodeOf(b));
    }
  }

  lemma InventoryStep(rows: seq<BucketRow>)
    ensures rows == [] ==> Inventory(rows) == [] && ItemsSorted(Inventory(rows))
    ensures rows != [] ==> Inventory(rows) == AddItem(Inventory(rows[1..]), rows[0])
  {
  }

  /** The inventory lists every (node, capture point) that has rows, once, in
      order, with the exact range of its buckets. */
  lemma {:induction false} InventoryIsExact(rows: seq<BucketRow>)
    ensures ItemsSorted(Inventory(rows)) && InOrder(Inventory(rows))
    ensures forall r | r in rows :: HasItem(Inventory(rows), r)
    ensures forall i | i in Inventory(rows) :: ExactWindow(i, rows)
  {
    hide Inventory, AddItem, ItemsSorted, InOrder, ExactWindow, Updated, Widen, NewItem;
    InventoryStep(rows);
    ItemsInOrder(Inventory(rows));
    if rows != [] {
      var head, rest := rows[0], rows[1..];
      HeadTail(rows);
      InventoryIsExact(rest);
      var before, after := Inventory(rest), Inventory(rows);
      AddItemSorted(before, head);
      AddItemMembers(before, head);
      forall r | r in rows ensures HasItem(after, r) {
        if r in rest {
          var i :| i in before && SameItem(i, r);
          if SameItem(i, head) {
            var j :| j in after && SameItem(j, head);
            assert SameItem(j, r);
          } else {
            assert i in after;
          }
        }
      }
      forall i | i in after ensures ExactWindow(i, rows) {
        if SameItem(i, head) {
          UpdatedWindow(before, i, head, rest, rows);
        } else {
          OtherWindow(i, head, rest, rows);
        }
      }
    }
  }

  lemma UpdatedWindow(before: seq<NodeItem>, i: NodeItem, head: BucketRow, rest: seq<BucketRow>, rows: seq<BucketRow>)
    requires Updated(before, i, head)
    requires (forall r | r in rest :: HasItem(before, r)) && (forall o | o in before :: ExactWindow(o, rest))
    requires forall r :: r in rows <==> r == head || r in rest
    ensures ExactWindow(i, rows)
  {
    hide ExactWindow;
    if o :| o in before && SameItem(o, head) && i == Widen(o, head.flow.bucketStart) {
      WidenedWindow(o, i, head, rest, rows);
    } else {
      forall r | r in rest ensures !SameItem(i, r) {
        var o :| o in before && SameItem(o, r);
        assert !SameItem(o, head);
      }
      FreshWindow(i, head, rest, rows);
    }
  }

  lemma FreshWindow(i: NodeItem, head: BucketRow, rest: seq<BucketRow>, rows: seq<BucketRow>)
    requires i == NewItem(head) && (forall r | r in rest :: !SameItem(i, r))
    requires forall r :: r in rows <==> r == head || r in rest
    ensures ExactWindow(i, rows)
  {
    assert SameItem(i, head) && head in rows;
  }

  lemma WidenedWindow(o: NodeItem, i: NodeItem, head: BucketRow, rest: seq<BucketRow>, rows: seq<BucketRow>)
    requires ExactWindow(o, rest) && SameItem(o, head) && i == Widen(o, head.flow.bucketStart)
    requires forall r :: r in rows <==> r == head || r in rest
    ensures ExactWindow(i, rows)
  {
    var lo :| lo in rest && SameItem(o, lo) && lo.flow.bucketStart == o.firstBucketStart;
    var hi :| hi in rest && SameItem(o, hi) && hi.flow.bucketStart == o.lastBucketStart;
    assert SameItem(i, lo) && SameItem(i, hi) && SameItem(i, head);
    assert forall r :: SameItem(i, r) <==> SameItem(o, r);
  }

  lemma OtherWindow(i: NodeItem, head: BucketRow, rest: seq<BucketRow>, rows: seq<BucketRow>)
    requires ExactWindow(i, rest) && !SameItem(i, head)
    requires forall r :: r in rows <==> r == head || r in rest
    ensures ExactWindow(i, rows)
  {
  }

  // ---------------------------------------------------------------- agreement

  /** The capture points the inventory lists for one node. */
  function PointsOf(items: seq<NodeItem>, node: string): seq<string> {
    if items == [] then []
    else if items[0].nodeId == node then [items[0].capturePoint] + PointsOf(items[1..], node)
    else PointsOf(items[1..], node)
  }

  /** The per-capture-point totals added up. */
  function AddUp(flows: seq<FlowBucket>, points: seq<string>): Totals {
    if points == [] then Totals(0, 0, 0)
    else Measure(flows, PointScope(Some(points[0]))).Plus(AddUp(flows, points[1..]))
  }

  ghost predicate Distinct(points: seq<string>) { forall i, j | 0 <= i < j < |points| :: points[i] != points[j] }

  lemma AddUpStep(flows: seq<FlowBucket>, points: seq<string>)
    ensures points == [] ==> AddUp(flows, points) == Totals(0, 0, 0)
    ensures points != [] ==>
              AddUp(flows, points) == Measure(flows, PointScope(Some(points[0]))).Plus(AddUp(flows, points[1..]))
  {
  }

  lemma DistinctTail(points: seq<string>)
    requires Distinct(points) && points != []
    ensures Distinct(points[1..]) && points[0] !in points[1..]
    ensures forall p :: p in points <==> p == points[0] || p in points[1..]
  {
    HeadTail(points);
    forall p | p in points[1..] ensures p != points[0] {
      var j :| 0 <= j < |points[1..]| && points[1..][j] == p;
      assert points[j + 1] == p;
    }
  }

  lemma {:induction false} AddUpOne(f: FlowBucket, rest: seq<FlowBucket>, points: seq<string>)
    requires Distinct(points)
    ensures AddUp([f] + rest, points)
         == AddUp(rest, points).Plus(
              if f.key.capturePoint in points then Totals(1, f.packets, f.bytes) else Totals(0, 0, 0))
  {
    hide AddUp, Measure, Covers, PointScope, Distinct;
    AddUpStep([f] + rest, points);
    AddUpStep(rest, points);
    if points != [] {
      DistinctTail(points);
      PointCovers(points[0], f);
      MeasureCons(f, rest, PointScope(Some(points[0])));
      AddUpOne(f, rest, points[1..]);
    }
  }

  lemma PointCovers(p: string, f: FlowBucket)
    ensures Covers(PointScope(Some(p)), f) <==> f.key.capturePoint == p
  {
  }

  lemma MeasureCons(f: FlowBucket, rest: seq<FlowBucket>, s: Scope)
    ensures Measure([f] + rest, s) == One(s, f).Plus(Measure(rest, s))
  {
    assert ([f] + rest)[1..] == rest;
  }

  lemma {:induction false} AddUpNothing(points: seq<string>)
    ensures AddUp([], points) == Totals(0, 0, 0)
  {
    if points != [] { AddUpNothing(points[1..]); }
  }

  lemma {:induction false} AddUpCovers(flows: seq<FlowBucket>, points: seq<string>)
    requires Distinct(points) && forall f | f in flows :: f.key.capturePoint in points
    ensures AddUp(flows, points) == Measure(flows, PointScope(None))
  {
    hide Measure, AddUp, Distinct;
    MeasureStep(flows, PointScope(None));
    if flows == [] {
      AddUpNothing(points);
    } else {
      HeadTail(flows);
      assert Covers(PointScope(None), flows[0]);
      AddUpOne(flows[0], flows[1..], points);
      AddUpCovers(flows[1..], points);
    }
  }

  lemma {:induction false} PointsOfFacts(items: seq<NodeItem>, node: string)
    requires ItemsSorted(items)
    ensures Distinct(PointsOf(items, node))
    ensures forall p ::
              p in PointsOf(items, node) <==> exists i :: i in items && i.nodeId == node && i.capturePoint == p
  {
    if items != [] {
      HeadTail(items);
      PointsOfFacts(items[1..], node);
      var tail := PointsOf(items[1..], node);
      if items[0].nodeId == node {
        forall i | i in items[1..] && i.nodeId == node ensures i.capturePoint != items[0].capturePoint {
          var j :| 0 <= j < |items[1..]| && items[1..][j] == i;
          assert Before(CodeOf(items[0]), CodeOf(items[j + 1]));
          Total(CodeOf(items[0]), CodeOf(i));
        }
        assert items[0].capturePoint !in tail;
      }
    }
  }

  lemma StatsTotals(s: Store, node: string, point: Option<string>)
    ensures
      var stats := Stats(s, node, point);
      Totals(stats.flowBuckets, stats.packets, stats.bytes) == Measure(FlowsOf(s.buckets, node), PointScope(point))
  {
  }

  lemma ListedPoints(s: Store, node: string)
    ensures Distinct(PointsOf(Nodes(s), node))
    ensures forall f | f in FlowsOf(s.buckets, node) :: f.key.capturePoint in PointsOf(Nodes(s), node)
  {
    hide Inventory, PointsOf, FlowsOf, ItemsSorted, ExactWindow, Distinct;
    InventoryIsExact(s.buckets);
    PointsOfFacts(Nodes(s), node);
    FlowsOfMembers(s.buckets, node);
    forall f | f in FlowsOf(s.buckets, node) ensures f.key.capturePoint in PointsOf(Nodes(s), node) {
      var r :| r in s.buckets && r.nodeId == node && r.flow == f;
      assert HasItem(Nodes(s), r);
    }
  }

  /** Over the capture points `nodes` lists for a node, the rows, packets and
      bytes of `stats` add up to the node's own. */
  lemma PointsAddUpToNode(s: Store, node: string)
    ensures
      var total := Stats(s, node, None);
      AddUp(FlowsOf(s.buckets, node), PointsOf(Nodes(s), node)) == Totals(total.flowBuckets, total.packets, total.bytes)
    ensures forall p | p in PointsOf(Nodes(s), node) ::
              var part := Stats(s, node, Some(p));
              Measure(FlowsOf(s.buckets, node), PointScope(Some(p)))
                == Totals(part.flowBuckets, part.packets, part.bytes)
  {
    hide Stats, Nodes, PointsOf, FlowsOf, Measure, AddUp, Distinct;
    ListedPoints(s, node);
    AddUpCovers(FlowsOf(s.buckets, node), PointsOf(Nodes(s), node));
    StatsTotals(s, node, None);
    forall p | p in PointsOf(Nodes(s), node)
      ensures
        var part := Stats(s, node, Some(p));
        Measure(FlowsOf(s.buckets, node), PointScope(Some(p))) == Totals(part.flowBuckets, part.packets, part.bytes)
    {
      StatsTotals(s, node, Some(p));
    }
  }

  function SumPoints(points: seq<SeriesPoint>): Tally {
    if points == [] then Tally(0, 0) else Tally(points[0].packets, points[0].bytes).Plus(SumPoints(points[1..]))
  }

  lemma {:induction false} AddPointSum(points: seq<SeriesPoint>, f: FlowBucket)
    ensures SumPoints(AddPoint(points, f)) == SumPoints(points).Plus(Tally(f.packets, f.bytes))
  {
    var r := AddPoint(points, f);
    if points == [] {
      assert r[1..] == [];
    } else if points[0].bucketStart == f.bucketStart {
      assert r[1..] == points[1..];
    } else if f.bucketStart < points[0].bucketStart {
      assert r[1..] == points;
    } else {
      AddPointSum(points[1..], f);
      assert r[1..] == AddPoint(points[1..], f);
    }
  }

  lemma {:induction false} GroupedSum(flows: seq<FlowBucket>, s: Scope)
    ensures SumPoints(Grouped(flows, s)) == Sum(flows, s)
  {
    if flows != [] {
      GroupedSum(flows[1..], s);
      AddPointSum(Grouped(flows[1..], s), flows[0]);
    }
  }

  /** Selections that cover the same flows give the same groups and totals. */
  lemma {:induction false} SameCover(flows: seq<FlowBucket>, a: Scope, b: Scope)
    requires forall f | f in flows :: Covers(a, f) <==> Covers(b, f)
    ensures Grouped(flows, a) == Grouped(flows, b) && Measure(flows, a) == Measure(flows, b)
  {
    if flows != [] {
      HeadTail(flows);
      SameCover(flows[1..], a, b);
    }
  }

  /** The unrestricted series is strictly increasing and sums to `stats`. */
  lemma SeriesSumsToStats(s: Store, node: string, point: Option<string>)
    requires RowsFit(s.buckets)
    ensures
      var series, stats := Series(s, node, point, None, None), Stats(s, node, point);
      series.Ok? && Increasing(series.value) && SumPoints(series.value) == Tally(stats.packets, stats.bytes)
  {
    hide FlowsOf, Grouped, Sum, Measure, SumPoints, Stats, Series, RowsFit;
    var flows := FlowsOf(s.buckets, node);
    var window := Scope(point, None, 0, Some(I64_MAX));
    UnrestrictedSeries(s, node, point);
    GroupedBuckets(flows, window);
    GroupedSum(flows, window);
    MeasureIsSum(flows, window);
    WholeWindow(s, node, point);
    SameCover(flows, window, PointScope(point));
    StatsTotals(s, node, point);
  }

  lemma UnrestrictedSeries(s: Store, node: string, point: Option<string>)
    ensures Series(s, node, point, None, None)
         == Ok(Grouped(FlowsOf(s.buckets, node), Scope(point, None, 0, Some(I64_MAX))))
  {
  }

  lemma WholeWindow(s: Store, node: string, point: Option<string>)
    requires RowsFit(s.buckets)
    ensures forall f | f in FlowsOf(s.buckets, node) ::
              Covers(Scope(point, None, 0, Some(I64_MAX)), f) <==> Covers(PointScope(point), f)
  {
    hide FlowsOf;
    FlowsOfMembers(s.buckets, node);
  }

  /** A window may be split at any point. */
  lemma WindowSplits(flows: seq<FlowBucket>, point: Option<string>, from: nat, mid: nat, to: nat)
    requires from <= mid < to
    ensures Grouped(flows, Scope(point, None, from, Some(mid))) + Grouped(flows, Scope(point, None, mid + 1, Some(to)))
         == Grouped(flows, Scope(point, None, from, Some(to)))
  {
    var left, right := Scope(point, None, from, Some(mid)), Scope(point, None, mid + 1, Some(to));
    var all := Scope(point, None, from, Some(to));
    var p, q := Grouped(flows, left), Grouped(flows, right);
    GroupedIsGrouping(flows, left);
    GroupedIsGrouping(flows, right);
    GroupedIsGrouping(flows, all);
    hide Grouped, Sum;
    assert IsGrouping(p + q, flows, all) by {
      forall t ensures HasFlow(flows, all, t) <==> HasFlow(flows, left, t) || HasFlow(flows, right, t) {
        if HasFlow(flows, all, t) {
          var f :| f in flows && Covers(all, f) && f.bucketStart == t;
          assert Covers(left, f) || Covers(right, f);
        }
        if HasFlow(flows, left, t) {
          var f :| f in flows && Covers(left, f) && f.bucketStart == t;
          assert Covers(all, f);
        }
        if HasFlow(flows, right, t) {
          var f :| f in flows && Covers(right, f) && f.bucketStart == t;
          assert Covers(all, f);
        }
      }
      PointsWithin(p, flows, left);
      PointsWithin(q, flows, right);
      HasPointConcat(p, q);
    }
    GroupingUnique(p + q, Grouped(flows, all), flows, all);
  }

  lemma PointsWithin(points: seq<SeriesPoint>, flows: seq<FlowBucket>, s: Scope)
    requires IsGrouping(points, flows, s)
    ensures forall i | 0 <= i < |points| :: InWindow(s, points[i].bucketStart)
  {
    forall i | 0 <= i < |points| ensures InWindow(s, points[i].bucketStart) {
      assert HasPoint(points, points[i].bucketStart);
      assert HasFlow(flows, s, points[i].bucketStart);
    }
  }

  lemma HasPointConcat(p: seq<SeriesPoint>, q: seq<SeriesPoint>)
    ensures forall t :: HasPoint(p + q, t) <==> HasPoint(p, t) || HasPoint(q, t)
  {
    forall t ensures HasPoint(p + q, t) <==> HasPoint(p, t) || HasPoint(q, t) {
      if HasPoint(p, t) { var i :| 0 <= i < |p| && p[i].bucketStart == t; assert (p + q)[i].bucketStart == t; }
      if HasPoint(q, t) { var i :| 0 <= i < |q| && q[i].bucketStart == t; assert (p + q)[|p| + i].bucketStart == t; }
    }
  }

  /** Two adjacent series requests return the pieces of the one that spans both. */
  lemma SeriesSplits(s: Store, node: string, point: Option<string>, from: nat, mid: nat, to: nat)
    requires from <= mid < to && Fits(to)
    ensures
      var a, b := Series(s, node, point, Some(from), Some(mid)), Series(s, node, point, Some(mid + 1), Some(to));
      a.Ok? && b.Ok? && Series(s, node, point, Some(from), Some(to)) == Ok(a.value + b.value)
  {
    WindowSplits(FlowsOf(s.buckets, node), point, from, mid, to);
  }

  /** Any window that contains the one `nodes` reports, as the dashboard's shared
      window does, returns the unrestricted series. */
  lemma ReportedWindowIsWhole(s: Store, item: NodeItem, from: nat, to: nat)
    requires RowsFit(s.buckets) && item in Nodes(s)
    requires from <= item.firstBucketStart && item.lastBucketStart <= to && Fits(to)
    ensures Series(s, item.nodeId, Some(item.capturePoint), Some(from), Some(to))
         == Series(s, item.nodeId, Some(item.capturePoint), None, None)
    ensures Series(s, item.nodeId, Some(item.capturePoint), Some(from), Some(to)).Ok?
  {
    hide FlowsOf, Inventory, Grouped, Measure, Covers, Series, ItemsSorted, ExactWindow, HasItem, RowsFit;
    var point := item.capturePoint;
    var reported, whole := Scope(Some(point), None, from, Some(to)), Scope(Some(point), None, 0, Some(I64_MAX));
    InventoryIsExact(s.buckets);
    WindowCovers(s.buckets, item, from, to);
    WholeWindow(s, item.nodeId, Some(point));
    SameCover(FlowsOf(s.buckets, item.nodeId), reported, whole);
    FirstNotAfterLast(s.buckets, item);
    UnrestrictedSeries(s, item.nodeId, Some(point));
    WindowSeries(s, item.nodeId, Some(point), from, to);
  }

  lemma WindowSeries(s: Store, node: string, point: Option<string>, from: nat, to: nat)
    requires from <= to && Fits(to)
    ensures Series(s, node, point, Some(from), Some(to))
         == Ok(Grouped(FlowsOf(s.buckets, node), Scope(point, None, from, Some(to))))
  {
  }

  lemma FirstNotAfterLast(rows: seq<BucketRow>, item: NodeItem)
    requires ExactWindow(item, rows)
    ensures item.firstBucketStart <= item.lastBucketStart
  {
  }

  lemma WindowCovers(rows: seq<BucketRow>, item: NodeItem, from: nat, to: nat)
    requires ExactWindow(item, rows) && from <= item.firstBucketStart && item.lastBucketStart <= to
    ensures forall f | f in FlowsOf(rows, item.nodeId) ::
              Covers(Scope(Some(item.capturePoint), None, from, Some(to)), f)
              <==> Covers(PointScope(Some(item.capturePoint)), f)
  {
    hide FlowsOf;
    FlowsOfMembers(rows, item.nodeId);
    forall f | f in FlowsOf(rows, item.nodeId)
      ensures Covers(Scope(Some(item.capturePoint), None, from, Some(to)), f)
              <==> Covers(PointScope(Some(item.capturePoint)), f)
    {
      var r :| r in rows && r.nodeId == item.nodeId && r.flow == f;
      assert f.key.capturePoint == item.capturePoint ==> SameItem(item, r);
    }
  }

  /** An ingest for one node touches another node's rows only by pruning. */
  lemma NodeIsolation(s: Store, maxAge: nat, codec: Codec, e: BatchEnvelope, now: nat, full: bool, node: string)
    requires node != e.body.nodeId && Ingest(s, maxAge, codec, e, now, full).1.Ok?
    ensures FlowsOf(Ingest(s, maxAge, codec, e, now, full).0.buckets, node)
         == FlowsOf(Prune(s, Cutoff(now, maxAge)).buckets, node)
  {
    var p := Prune(s, Cutoff(now, maxAge));
    FlowsOfConcat(p.buckets, RowsOf(e), node);
    FlowsOfOwnRows(e.batchId, e.body.nodeId, e.body.buckets, node);
  }
}
