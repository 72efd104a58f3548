/** Sums over flow buckets and their grouping by bucket start: the common
    meaning of the aggregator's table, a batch's body and the stored rows. */
module Flows {
  import opened Wrappers
  import opened Model
  import opened Sequences

  datatype Tally = Tally(packets: nat, bytes: nat) {
    function Plus(o: Tally): Tally { Tally(packets + o.packets, bytes + o.bytes) }
  }

  /** A selection of flow buckets; absent fields do not restrict. */
  datatype Scope = Scope(point: Option<string>, key: Option<FlowKey>, from: nat, to: Option<nat>)

  predicate InWindow(s: Scope, t: nat) { s.from <= t && (s.to.Some? ==> t <= s.to.value) }

  predicate Covers(s: Scope, f: FlowBucket) {
    && (s.point.Some? ==> f.key.capturePoint == s.point.value)
    && (s.key.Some? ==> f.key == s.key.value)
    && InWindow(s, f.bucketStart)
  }

  /** The same selection at one bucket only. */
  function At(s: Scope, t: nat): Scope { s.(from := t, to := Some(t)) }

  function Weight(s: Scope, f: FlowBucket): Tally {
    if Covers(s, f) then Tally(f.packets, f.bytes) else Tally(0, 0)
  }

  function Sum(flows: seq<FlowBucket>, s: Scope): Tally {
    if flows == [] then Tally(0, 0)
    else Weight(s, flows[0]).Plus(Sum(flows[1..], s))
  }

  lemma {:induction false} SumConcat(a: seq<FlowBucket>, b: seq<FlowBucket>, s: Scope)
    ensures Sum(a + b, s) == Sum(a, s).Plus(Sum(b, s))
  {
    if a == [] {
      assert a + b == b;
    } else {
      SumConcat(a[1..], b, s);
      ConcatHead(a, b);
    }
  }

  lemma SumNothing(s: Scope)
    ensures Sum([], s) == Tally(0, 0)
  {
  }

  lemma SumStep(flows: seq<FlowBucket>, s: Scope)
    requires flows != []
    ensures Sum(flows, s) == Weight(s, flows[0]).Plus(Sum(flows[1..], s))
  {
  }

  lemma SumSingle(f: FlowBucket, s: Scope)
    ensures Sum([f], s) == Weight(s, f)
  {
    assert [f][1..] == [];
  }

  /** A sum is positive exactly when some covered flow has packets. */
  lemma {:induction false} SumWitness(flows: seq<FlowBucket>, s: Scope)
    requires forall f | f in flows :: f.packets >= 1
    ensures Sum(flows, s).packets > 0 <==> exists f :: f in flows && Covers(s, f)
  {
    if flows != [] {
      SumWitness(flows[1..], s);
      HeadTail(flows);
    }
  }

  /** All flow buckets of a list of batches, in order. */
  function Contents(batches: seq<BatchEnvelope>): seq<FlowBucket> {
    if batches == [] then [] else Contents(batches[..|batches| - 1]) + batches[|batches| - 1].body.buckets
  }

  // ----------------------------------------------------------------- grouping

  datatype SeriesPoint = SeriesPoint(bucketStart: nat, packets: nat, bytes: nat)

  ghost predicate Increasing(points: seq<SeriesPoint>) {
    forall i, j | 0 <= i < j < |points| :: points[i].bucketStart < points[j].bucketStart
  }

  ghost predicate HasPoint(points: seq<SeriesPoint>, t: nat) {
    exists i :: 0 <= i < |points| && points[i].bucketStart == t
  }

  ghost predicate HasFlow(flows: seq<FlowBucket>, s: Scope, t: nat) {
    exists f :: f in flows && Covers(s, f) && f.bucketStart == t
  }

  /** What GROUP BY bucket_start ORDER BY bucket_start promises, without saying
      how it is computed: one point per bucket that has a selected flow, in
      order, each carrying the sums of that bucket. */
  ghost predicate IsGrouping(points: seq<SeriesPoint>, flows: seq<FlowBucket>, s: Scope) {
    && Increasing(points)
    && (forall t :: HasPoint(points, t) <==> HasFlow(flows, s, t))
    && (forall i | 0 <= i < |points| ::
          Tally(points[i].packets, points[i].bytes) == Sum(flows, At(s, points[i].bucketStart)))
  }

  /** Adds one flow to a sorted list of points. */
  function AddPoint(points: seq<SeriesPoint>, f: FlowBucket): seq<SeriesPoint> {
    if points == [] then [SeriesPoint(f.bucketStart, f.packets, f.bytes)]
    else if points[0].bucketStart == f.bucketStart then
      [SeriesPoint(f.bucketStart, points[0].packets + f.packets, points[0].bytes + f.bytes)] + points[1..]
    else if f.bucketStart < points[0].bucketStart then [SeriesPoint(f.bucketStart, f.packets, f.bytes)] + points
    else [points[0]] + AddPoint(points[1..], f)
  }

  function Grouped(flows: seq<FlowBucket>, s: Scope): seq<SeriesPoint> {
    if flows == [] then []
    else
      var rest := Grouped(flows[1..], s);
      if Covers(s, flows[0]) then AddPoint(rest, flows[0]) else rest
  }

  /** The tally a list of points carries at bucket `t`. */
  function TallyAt(points: seq<SeriesPoint>, t: nat): Tally {
    if points == [] then Tally(0, 0)
    else if points[0].bucketStart == t then Tally(points[0].packets, points[0].bytes)
    else TallyAt(points[1..], t)
  }

  lemma {:induction false} AddPointKeepsOrder(points: seq<SeriesPoint>, f: FlowBucket)
    requires Increasing(points)
    ensures Increasing(AddPoint(points, f))
    ensures forall t :: HasPoint(AddPoint(points, f), t) <==> HasPoint(points, t) || t == f.bucketStart
  {
    var r := AddPoint(points, f);
    HasPointFirst(r);
    if points == [] {
      assert r[1..] == [];
    } else {
      HasPointFirst(points);
      if points[0].bucketStart == f.bucketStart {
        assert r[1..] == points[1..];
      } else if f.bucketStart < points[0].bucketStart {
        assert r[1..] == points;
      } else {
        AddPointKeepsOrder(points[1..], f);
        assert r[1..] == AddPoint(points[1..], f);
        forall i | 0 <= i < |r[1..]| ensures r[0].bucketStart < r[1..][i].bucketStart {
          assert HasPoint(r[1..], r[1..][i].bucketStart);
        }
      }
    }
  }

  lemma {:induction false} AddPointTally(points: seq<SeriesPoint>, f: FlowBucket, t: nat)
    requires Increasing(points)
    ensures TallyAt(AddPoint(points, f), t)
         == if t == f.bucketStart then TallyAt(points, t).Plus(Tally(f.packets, f.bytes)) else TallyAt(points, t)
  {
    var r := AddPoint(points, f);
    if points == [] {
      assert r[1..] == [];
    } else if points[0].bucketStart == f.bucketStart {
      assert r[1..] == points[1..];
    } else if f.bucketStart < points[0].bucketStart {
      assert r[1..] == points;
      TallyAbsent(points, f.bucketStart);
    } else {
      AddPointTally(points[1..], f, t);
      assert r[1..] == AddPoint(points[1..], f);
    }
  }

  lemma HasPointFirst(points: seq<SeriesPoint>)
    requires points != []
    ensures forall t :: HasPoint(points, t) <==> t == points[0].bucketStart || HasPoint(points[1..], t)
  {
    forall t ensures HasPoint(points, t) <==> t == points[0].bucketStart || HasPoint(points[1..], t) {
      if HasPoint(points, t) && t != points[0].bucketStart {
        var i :| 0 <= i < |points| && points[i].bucketStart == t;
        assert points[1..][i - 1].bucketStart == t;
      }
      if HasPoint(points[1..], t) {
        var i :| 0 <= i < |points[1..]| && points[1..][i].bucketStart == t;
        assert points[i + 1].bucketStart == t;
      }
    }
  }

  lemma {:induction false} TallyAbsent(points: seq<SeriesPoint>, t: nat)
    requires !HasPoint(points, t)
    ensures TallyAt(points, t) == Tally(0, 0)
  {
    if points != [] {
      HasPointFirst(points);
      TallyAbsent(points[1..], t);
    }
  }

  lemma {:induction false} TallyOfIndex(points: seq<SeriesPoint>, i: nat)
    requires Increasing(points) && i < |points|
    ensures TallyAt(points, points[i].bucketStart) == Tally(points[i].packets, points[i].bytes)
  {
    if i > 0 {
      assert points[1..][i - 1] == points[i];
      TallyOfIndex(points[1..], i - 1);
    }
  }

  lemma {:induction false} GroupedBuckets(flows: seq<FlowBucket>, s: Scope)
    ensures Increasing(Grouped(flows, s))
    ensures forall t :: HasPoint(Grouped(flows, s), t) <==> HasFlow(flows, s, t)
  {
    if flows != [] {
      var rest, head := flows[1..], flows[0];
      GroupedBuckets(rest, s);
      HeadTail(flows);
      if Covers(s, head) {
        AddPointKeepsOrder(Grouped(rest, s), head);
      }
      forall t ensures HasFlow(flows, s, t) <==> HasFlow(rest, s, t) || (Covers(s, head) && t == head.bucketStart) {
      }
    }
  }

  lemma {:induction false} GroupedTally(flows: seq<FlowBucket>, s: Scope, t: nat)
    requires InWindow(s, t)
    ensures TallyAt(Grouped(flows, s), t) == Sum(flows, At(s, t))
  {
    if flows != [] {
      var rest, head := flows[1..], flows[0];
      GroupedTally(rest, s, t);
      assert Covers(At(s, t), head) <==> Covers(s, head) && t == head.bucketStart;
      if Covers(s, head) {
        GroupedBuckets(rest, s);
        AddPointTally(Grouped(rest, s), head, t);
      }
    }
  }

  /** The computed grouping is a grouping. */
  lemma GroupedIsGrouping(flows: seq<FlowBucket>, s: Scope)
    ensures IsGrouping(Grouped(flows, s), flows, s)
  {
    GroupedBuckets(flows, s);
    var points := Grouped(flows, s);
    forall i | 0 <= i < |points|
      ensures Tally(points[i].packets, points[i].bytes) == Sum(flows, At(s, points[i].bucketStart))
    {
      TallyOfIndex(points, i);
      assert HasPoint(points, points[i].bucketStart);
      assert HasFlow(flows, s, points[i].bucketStart);
      GroupedTally(flows, s, points[i].bucketStart);
    }
  }

  /** Two increasing lists with the same buckets and tallies are the same list. */
  lemma {:induction false} PointsDetermined(p: seq<SeriesPoint>, q: seq<SeriesPoint>)
    requires Increasing(p) && Increasing(q)
    requires forall t :: HasPoint(p, t) <==> HasPoint(q, t)
    requires forall i, j | 0 <= i < |p| && 0 <= j < |q| && p[i].bucketStart == q[j].bucketStart :: p[i] == q[j]
    ensures p == q
  {
    if p == [] {
      if q != [] {
        assert HasPoint(q, q[0].bucketStart);
      }
    } else {
      assert HasPoint(p, p[0].bucketStart);
      assert HasPoint(q, p[0].bucketStart);
      assert HasPoint(q, q[0].bucketStart);
      assert HasPoint(p, q[0].bucketStart);
      HasPointFirst(p);
      HasPointFirst(q);
      assert p[0] == q[0];
      HeadNotInTail(p);
      HeadNotInTail(q);
      PointsDetermined(p[1..], q[1..]);
      assert p == [p[0]] + p[1..] && q == [q[0]] + q[1..];
    }
  }

  lemma HeadNotInTail(p: seq<SeriesPoint>)
    requires Increasing(p) && p != []
    ensures Increasing(p[1..]) && !HasPoint(p[1..], p[0].bucketStart)
  {
  }

  /** There is only one grouping, so any claim about it may be argued from
      `IsGrouping` alone. */
  lemma GroupingUnique(p: seq<SeriesPoint>, q: seq<SeriesPoint>, flows: seq<FlowBucket>, s: Scope)
    requires IsGrouping(p, flows, s) && IsGrouping(q, flows, s)
    ensures p == q
  {
    forall t ensures HasPoint(p, t) <==> HasPoint(q, t) {
      assert HasPoint(p, t) <==> HasFlow(flows, s, t);
    }
    PointsDetermined(p, q);
  }

  /** Flow lists with equal sums group alike: order, splitting and merging of
      flows do not matter. */
  lemma SameSumsSameGrouping(a: seq<FlowBucket>, b: seq<FlowBucket>, s: Scope)
    requires forall f | f in a || f in b :: f.packets >= 1
    requires forall t | InWindow(s, t) :: Sum(a, At(s, t)) == Sum(b, At(s, t))
    ensures Grouped(a, s) == Grouped(b, s)
  {
    GroupedBuckets(a, s);
    GroupedBuckets(b, s);
    var p, q := Grouped(a, s), Grouped(b, s);
    forall t ensures HasPoint(p, t) <==> HasPoint(q, t) {
      FlowAtBucket(a, s, t);
      FlowAtBucket(b, s, t);
      assert HasPoint(p, t) <==> HasFlow(a, s, t);
    }
    forall i, j | 0 <= i < |p| && 0 <= j < |q| && p[i].bucketStart == q[j].bucketStart ensures p[i] == q[j] {
      TallyOfIndex(p, i);
      TallyOfIndex(q, j);
      var t := p[i].bucketStart;
      assert HasPoint(p, t);
      assert HasFlow(a, s, t);
      GroupedTally(a, s, t);
      GroupedTally(b, s, t);
    }
    PointsDetermined(p, q);
  }

  lemma FlowAtBucket(flows: seq<FlowBucket>, s: Scope, t: nat)
    requires forall f | f in flows :: f.packets >= 1
    ensures HasFlow(flows, s, t) <==> InWindow(s, t) && Sum(flows, At(s, t)).packets > 0
  {
    SumWitness(flows, At(s, t));
    if HasFlow(flows, s, t) {
      var f :| f in flows && Covers(s, f) && f.bucketStart == t;
      assert Covers(At(s, t), f);
    }
    if InWindow(s, t) && Sum(flows, At(s, t)).packets > 0 {
      var f :| f in flows && Covers(At(s, t), f);
      assert Covers(s, f) && f.bucketStart == t;
    }
  }
}
