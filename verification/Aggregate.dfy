/** The time-bucketed counters (src/aggregate.rs). The ordered map is the
    sequence of its entries in key order. */
module Aggregate {
  import opened Model
  import opened Sequences
  import opened Orders
  import opened Flows
  import opened Counts

  function BucketOf(width: nat, timestamp: nat): nat
    requires width > 0
  {
    timestamp / width * width
  }

  /** A packet counted on its own. */
  function Single(width: nat, p: PacketMeta): FlowBucket
    requires width > 0
  {
    FlowBucket(BucketOf(width, p.timestamp), p.key, 1, p.wireBytes)
  }

  function Singles(width: nat, packets: seq<PacketMeta>): seq<FlowBucket>
    requires width > 0
  {
    if packets == [] then [] else Singles(width, packets[..|packets| - 1]) + [Single(width, packets[|packets| - 1])]
  }

  function FlowCode(f: FlowBucket): Code { EntryCode(f.bucketStart, f.key) }

  ghost predicate Sorted(flows: seq<FlowBucket>) {
    forall i, j | 0 <= i < j < |flows| :: Before(FlowCode(flows[i]), FlowCode(flows[j]))
  }

  /** Sorted means strictly increasing in the derived order: by bucket, then by
      the first key field that differs. */
  lemma SortedIsDerived(flows: seq<FlowBucket>)
    ensures Sorted(flows)
       <==> forall i, j | 0 <= i < j < |flows| ::
              || flows[i].bucketStart < flows[j].bucketStart
              || (flows[i].bucketStart == flows[j].bucketStart && KeyBefore(flows[i].key, flows[j].key))
  {
    hide Before, KeyBefore, EntryCode;
    forall i, j | 0 <= i < j < |flows|
      ensures Before(FlowCode(flows[i]), FlowCode(flows[j]))
         <==> || flows[i].bucketStart < flows[j].bucketStart
              || (flows[i].bucketStart == flows[j].bucketStart && KeyBefore(flows[i].key, flows[j].key))
    {
      CodeOrderIsDerived(flows[i].bucketStart, flows[i].key, flows[j].bucketStart, flows[j].key);
    }
  }

  // ---------------------------------------------------- operations on entries

  /** `entry(key).or_default()` followed by the two increments. */
  function Upsert(flows: seq<FlowBucket>, one: FlowBucket): seq<FlowBucket> {
    if flows == [] then [one]
    else if flows[0].bucketStart == one.bucketStart && flows[0].key == one.key then
      [FlowBucket(one.bucketStart, one.key, flows[0].packets + one.packets, flows[0].bytes + one.bytes)] + flows[1..]
    else if Before(FlowCode(one), FlowCode(flows[0])) then [one] + flows
    else [flows[0]] + Upsert(flows[1..], one)
  }

  /** How many leading entries come before `cut`. */
  function SplitPoint(flows: seq<FlowBucket>, cut: Code): (k: nat)
    ensures k <= |flows|
    ensures forall i | 0 <= i < k :: Before(FlowCode(flows[i]), cut)
    ensures k < |flows| ==> !Before(FlowCode(flows[k]), cut)
  {
    if flows == [] || !Before(FlowCode(flows[0]), cut) then 0 else 1 + SplitPoint(flows[1..], cut)
  }

  lemma {:induction false} UpsertSorted(flows: seq<FlowBucket>, one: FlowBucket)
    requires Sorted(flows)
    ensures Sorted(Upsert(flows, one))
    ensures forall f | f in Upsert(flows, one) ::
              FlowCode(f) == FlowCode(one) || exists g :: g in flows && FlowCode(g) == FlowCode(f)
  {
    if flows != [] {
      var head, rest, r := flows[0], flows[1..], Upsert(flows, one);
      HeadTail(flows);
      HeadTail(r);
      forall g | g in rest ensures Before(FlowCode(head), FlowCode(g)) {}
      if head.bucketStart == one.bucketStart && head.key == one.key {
        assert r[1..] == rest && FlowCode(r[0]) == FlowCode(head);
      } else if Before(FlowCode(one), FlowCode(head)) {
        assert r[1..] == flows;
        forall g | g in flows ensures Before(FlowCode(one), FlowCode(g)) {
          if g != head { Transitive(FlowCode(one), FlowCode(head), FlowCode(g)); }
        }
      } else {
        Total(FlowCode(head), FlowCode(one));
        if FlowCode(head) == FlowCode(one) {
          EntryCodeInjective(head.bucketStart, head.key, one.bucketStart, one.key);
        }
        UpsertSorted(rest, one);
        assert r[1..] == Upsert(rest, one);
      }
    }
  }

  lemma {:induction false} UpsertSum(flows: seq<FlowBucket>, one: FlowBucket, s: Scope)
    ensures Sum(Upsert(flows, one), s) == Sum(flows, s).Plus(Weight(s, one))
  {
    var r := Upsert(flows, one);
    if flows == [] {
      SumSingle(one, s);
    } else if flows[0].bucketStart == one.bucketStart && flows[0].key == one.key {
      assert r[1..] == flows[1..];
    } else if Before(FlowCode(one), FlowCode(flows[0])) {
      assert r[1..] == flows;
    } else {
      UpsertSum(flows[1..], one, s);
      assert r[1..] == Upsert(flows[1..], one);
    }
  }

  lemma {:induction false} UpsertPositive(flows: seq<FlowBucket>, one: FlowBucket, width: nat)
    requires width > 0 && one.packets >= 1 && one.bucketStart % width == 0
    requires forall f | f in flows :: f.packets >= 1 && f.bucketStart % width == 0
    ensures forall f | f in Upsert(flows, one) :: f.packets >= 1 && f.bucketStart % width == 0
  {
    if flows != [] {
      HeadTail(flows);
      UpsertPositive(flows[1..], one, width);
    }
  }

  /** `split_off` at (cut, bottom key): what is drained and what stays. */
  function Drain(flows: seq<FlowBucket>, cut: nat): (r: (seq<FlowBucket>, seq<FlowBucket>))
    ensures r.0 + r.1 == flows
  {
    var k := SplitPoint(flows, EntryCode(cut, MinimumFlowKey()));
    (flows[..k], flows[k..])
  }

  /** The split is a cut by bucket alone: exactly the entries of earlier
      buckets are drained, and both parts stay sorted. */
  lemma DrainIsExact(flows: seq<FlowBucket>, cut: nat)
    requires Sorted(flows)
    ensures Sorted(Drain(flows, cut).0) && Sorted(Drain(flows, cut).1)
    ensures forall f | f in Drain(flows, cut).0 :: f.bucketStart < cut
    ensures forall f | f in Drain(flows, cut).1 :: f.bucketStart >= cut
  {
    hide SplitPoint, Before;
    var bottom := EntryCode(cut, MinimumFlowKey());
    var k := SplitPoint(flows, bottom);
    forall i | 0 <= i < |flows| ensures i < k <==> flows[i].bucketStart < cut {
      SplitKeyCutsByBucket(flows[i].bucketStart, flows[i].key, cut);
      if i > k && Before(FlowCode(flows[i]), bottom) {
        Transitive(FlowCode(flows[k]), FlowCode(flows[i]), bottom);
      }
    }
  }

  // ------------------------------------------------------------------- traces

  datatype Op = Push(packet: PacketMeta) | DrainBefore(bucketStart: nat) | DrainAll

  /** The table and everything drained so far, in drain order. */
  datatype Run = Run(flows: seq<FlowBucket>, drained: seq<FlowBucket>)

  function Apply(width: nat, r: Run, op: Op): Run
    requires width > 0
  {
    match op
    case Push(p) => r.(flows := Upsert(r.flows, Single(width, p)))
    case DrainBefore(cut) =>
      var (drained, retained) := Drain(r.flows, cut);
      Run(retained, r.drained + drained)
    case DrainAll => Run([], r.drained + r.flows)
  }

  function Replay(width: nat, ops: seq<Op>): Run
    requires width > 0
  {
    if ops == [] then Run([], []) else Apply(width, Replay(width, ops[..|ops| - 1]), ops[|ops| - 1])
  }

  lemma ReplayLast(width: nat, ops: seq<Op>, op: Op)
    requires width > 0
    ensures Replay(width, ops + [op]) == Apply(width, Replay(width, ops), op)
  {
    assert (ops + [op])[..|ops|] == ops;
  }

  function Pushed(ops: seq<Op>): seq<PacketMeta> {
    if ops == [] then []
    else
      var before := Pushed(ops[..|ops| - 1]);
      if ops[|ops| - 1].Push? then before + [ops[|ops| - 1].packet] else before
  }

  lemma SinglesAppend(width: nat, packets: seq<PacketMeta>, p: PacketMeta, s: Scope)
    requires width > 0
    ensures Sum(Singles(width, packets + [p]), s) == Sum(Singles(width, packets), s).Plus(Weight(s, Single(width, p)))
  {
    assert (packets + [p])[..|packets|] == packets;
    SumConcat(Singles(width, packets), [Single(width, p)], s);
    SumSingle(Single(width, p), s);
  }

  lemma HandingOutKeepsSum(drained: seq<FlowBucket>, part: seq<FlowBucket>, rest: seq<FlowBucket>, s: Scope)
    ensures Sum(rest, s).Plus(Sum(drained + part, s)) == Sum(part + rest, s).Plus(Sum(drained, s))
  {
    hide Sum;
    SumConcat(drained, part, s);
    SumConcat(part, rest, s);
  }

  /** All packets of a run: those in the table and those handed out. */
  function Held(r: Run, s: Scope): Tally { Sum(r.flows, s).Plus(Sum(r.drained, s)) }

  lemma ApplyConserves(width: nat, r: Run, op: Op, s: Scope)
    requires width > 0
    ensures Held(Apply(width, r, op), s)
         == if op.Push? then Held(r, s).Plus(Weight(s, Single(width, op.packet))) else Held(r, s)
  {
    hide Sum, Upsert, SplitPoint;
    match op
    case Push(p) => UpsertSum(r.flows, Single(width, p), s);
    case DrainBefore(cut) =>
      var (part, rest) := Drain(r.flows, cut);
      HandingOutKeepsSum(r.drained, part, rest, s);
    case DrainAll =>
      assert r.flows + [] == r.flows && Sum([], s) == Tally(0, 0) by { SumNothing(s); }
      HandingOutKeepsSum(r.drained, r.flows, [], s);
  }

  /** Nothing is lost or counted twice: over any trace and any selection, the
      table and all drained buckets together hold exactly the pushed packets. */
  lemma {:induction false} Conservation(width: nat, ops: seq<Op>, s: Scope)
    requires width > 0
    ensures Held(Replay(width, ops), s) == Sum(Singles(width, Pushed(ops)), s)
  {
    hide Sum, Singles, Replay, Pushed;
    TraceStep(width, ops);
    if ops == [] {
      SumNothing(s);
    } else {
      var init, op := ops[..|ops| - 1], ops[|ops| - 1];
      Conservation(width, init, s);
      ApplyConserves(width, Replay(width, init), op, s);
      if op.Push? { SinglesAppend(width, Pushed(init), op.packet, s); }
    }
  }

  lemma TraceStep(width: nat, ops: seq<Op>)
    requires width > 0
    ensures ops == [] ==> Replay(width, ops) == Run([], []) && Singles(width, Pushed(ops)) == []
    ensures ops != [] ==>
              var init, op := ops[..|ops| - 1], ops[|ops| - 1];
              && Replay(width, ops) == Apply(width, Replay(width, init), op)
              && Pushed(ops) == if op.Push? then Pushed(init) + [op.packet] else Pushed(init)
  {
    hide Apply;
  }

  /** The table stays sorted; every bucket, kept or drained, counted at least
      one packet and starts on a multiple of the width. */
  lemma {:induction false} TraceInvariant(width: nat, ops: seq<Op>)
    requires width > 0
    ensures
      var r := Replay(width, ops);
      && Sorted(r.flows)
      && (forall f | f in r.flows || f in r.drained :: f.packets >= 1 && f.bucketStart % width == 0)
  {
    if ops != [] {
      var init, op := ops[..|ops| - 1], ops[|ops| - 1];
      TraceInvariant(width, init);
      var r := Replay(width, init);
      match op
      case Push(p) =>
        UpsertSorted(r.flows, Single(width, p));
        BucketContains(width, p.timestamp, BucketOf(width, p.timestamp));
        UpsertPositive(r.flows, Single(width, p), width);
      case DrainBefore(cut) =>
        DrainIsExact(r.flows, cut);
      case DrainAll =>
    }
  }

  /** A packet is counted in the bucket that contains its timestamp. */
  lemma BucketContains(width: nat, timestamp: nat, bucketStart: nat)
    requires width > 0
    ensures BucketOf(width, timestamp) == bucketStart
       <==> bucketStart % width == 0 && bucketStart <= timestamp < bucketStart + width
  {
    var q, b := timestamp / width, bucketStart / width;
    assert timestamp == q * width + timestamp % width;
    MultipleHasNoRemainder(q, width);
    if bucketStart % width == 0 && bucketStart <= timestamp < bucketStart + width {
      assert bucketStart == b * width;
      QuotientIs(timestamp, width, b);
    }
  }

  lemma MultipleHasNoRemainder(q: nat, width: nat)
    requires width > 0
    ensures (q * width) % width == 0
  {
    var n := q * width;
    QuotientIs(n, width, q);
    assert n == (n / width) * width + n % width;
  }

  lemma TimesMonotone(a: nat, b: nat, width: nat)
    requires a <= b
    ensures a * width <= b * width
  {
  }

  lemma QuotientIs(n: nat, width: nat, b: nat)
    requires width > 0 && b * width <= n < b * width + width
    ensures n / width == b
  {
    var q := n / width;
    assert q * width <= n < q * width + width;
    if q < b { TimesMonotone(q + 1, b, width); }
    if b < q { TimesMonotone(b + 1, q, width); }
  }

  lemma SingleFalls(width: nat, p: PacketMeta, w: Which, t: nat)
    requires width > 0 && t % width == 0
    ensures Weight(ScopeOf(w, t), Single(width, p)) == if Falls(w, p, t, width)
             then Tally(1, p.wireBytes) else Tally(0, 0)
  {
    BucketContains(width, p.timestamp, t);
  }

  /** The packets counted on their own add up to the plain counts. */
  lemma {:induction false} SinglesAreCounts(width: nat, packets: seq<PacketMeta>, w: Which, t: nat)
    requires width > 0 && t % width == 0
    ensures Sum(Singles(width, packets), ScopeOf(w, t))
         == Tally(PacketsIn(packets, w, t, width), BytesIn(packets, w, t, width))
  {
    hide Sum, Singles;
    if packets == [] {
      NoSingles(width, ScopeOf(w, t));
    } else {
      var init, p := packets[..|packets| - 1], packets[|packets| - 1];
      SinglesAreCounts(width, init, w, t);
      SinglesAppend(width, init, p, ScopeOf(w, t));
      assert packets == init + [p];
      SingleFalls(width, p, w, t);
    }
  }

  lemma NoSingles(width: nat, s: Scope)
    requires width > 0
    ensures Sum(Singles(width, []), s) == Tally(0, 0)
  {
  }

  /** Over any trace, for any key, capture point or all, and any aligned bucket:
      what the table and the drained buckets report is the number of packets
      pushed with a timestamp in that bucket, and their bytes. */
  lemma PacketsCounted(width: nat, ops: seq<Op>, w: Which, t: nat)
    requires width > 0 && t % width == 0
    ensures
      var r := Replay(width, ops);
      && EntryPackets(r.flows, w, t) + EntryPackets(r.drained, w, t) == PacketsIn(Pushed(ops), w, t, width)
      && EntryBytes(r.flows, w, t) + EntryBytes(r.drained, w, t) == BytesIn(Pushed(ops), w, t, width)
  {
    hide Sum, Singles, Replay, Pushed, EntryPackets, EntryBytes, PacketsIn, BytesIn;
    var r := Replay(width, ops);
    Conservation(width, ops, ScopeOf(w, t));
    EntriesAreSums(r.flows, w, t);
    EntriesAreSums(r.drained, w, t);
    SinglesAreCounts(width, Pushed(ops), w, t);
  }

  /** A packet counted once, with its bytes, in its own bucket and nowhere
      else. */
  ghost predicate Counted(width: nat, before: seq<FlowBucket>, after: seq<FlowBucket>, p: PacketMeta)
    requires width > 0
  {
    forall w, t: nat | t % width == 0 ::
      && EntryPackets(after, w, t) == EntryPackets(before, w, t) + (if Falls(w, p, t, width) then 1 else 0)
      && EntryBytes(after, w, t) == EntryBytes(before, w, t) + (if Falls(w, p, t, width) then p.wireBytes else 0)
  }

  lemma PushCounts(width: nat, before: seq<FlowBucket>, after: seq<FlowBucket>, p: PacketMeta)
    requires width > 0
    requires forall s :: Sum(after, s) == Sum(before, s).Plus(Weight(s, Single(width, p)))
    ensures Counted(width, before, after, p)
  {
    hide Sum, EntryPackets, EntryBytes;
    forall w, t: nat | t % width == 0
      ensures EntryPackets(after, w, t) == EntryPackets(before, w, t) + (if Falls(w, p, t, width) then 1 else 0)
      ensures EntryBytes(after, w, t) == EntryBytes(before, w, t) + (if Falls(w, p, t, width) then p.wireBytes else 0)
    {
      EntriesAreSums(after, w, t);
      EntriesAreSums(before, w, t);
      SingleFalls(width, p, w, t);
    }
  }

  /** The aggregator: a table updated in place. The ghost trace records its
      calls, so every fact about traces is a fact about the object. */
  class Aggregator {
    const bucketSeconds: nat
    var flows: seq<FlowBucket>
    ghost var trace: seq<Op>

    ghost predicate Valid()
      reads this
    {
      bucketSeconds > 0 && Replay(bucketSeconds, trace).flows == flows
    }

    /** All buckets the object has handed out. */
    ghost function Drained(): seq<FlowBucket>
      reads this
      requires Valid()
    {
      Replay(bucketSeconds, trace).drained
    }

    constructor (bucketSeconds: nat)
      requires bucketSeconds > 0
      ensures Valid() && this.bucketSeconds == bucketSeconds && flows == [] && trace == []
    {
      this.bucketSeconds := bucketSeconds;
      flows := [];
      trace := [];
    }

    method Push(packet: PacketMeta)
      requires Valid()
      modifies this
      ensures Valid() && trace == old(trace) + [Op.Push(packet)]
      ensures forall s :: Sum(flows, s) == Sum(old(flows), s).Plus(Weight(s, Single(bucketSeconds, packet)))
      ensures Counted(bucketSeconds, old(flows), flows, packet)
    {
      hide Replay, Sum, Upsert, Counted, Weight;
      ghost var before := flows;
      ReplayLast(bucketSeconds, trace, Op.Push(packet));
      var bucketStart := packet.timestamp / bucketSeconds * bucketSeconds;
      var one := FlowBucket(bucketStart, packet.key, 1, packet.wireBytes);
      forall s ensures Sum(Upsert(flows, one), s) == Sum(flows, s).Plus(Weight(s, one)) {
        UpsertSum(flows, one, s);
      }
      flows := Upsert(flows, one);
      PushCounts(bucketSeconds, before, flows, packet);
      trace := trace + [Op.Push(packet)];
    }

    method DrainBefore(bucketStart: nat) returns (drained: seq<FlowBucket>)
      requires Valid()
      modifies this
      ensures Valid() && trace == old(trace) + [Op.DrainBefore(bucketStart)]
      ensures drained + flows == old(flows) && Drained() == old(Drained()) + drained
      ensures Sorted(drained) && Sorted(flows)
      ensures forall f | f in drained :: f.bucketStart < bucketStart && f.packets >= 1
      ensures forall f | f in flows :: f.bucketStart >= bucketStart
    {
      hide Replay, Drain, Before;
      TraceInvariant(bucketSeconds, trace);
      ReplayLast(bucketSeconds, trace, Op.DrainBefore(bucketStart));
      DrainIsExact(flows, bucketStart);
      var split := Drain(flows, bucketStart);
      drained, flows := split.0, split.1;
      trace := trace + [Op.DrainBefore(bucketStart)];
    }

    method DrainAll() returns (drained: seq<FlowBucket>)
      requires Valid()
      modifies this
      ensures Valid() && trace == old(trace) + [Op.DrainAll]
      ensures drained == old(flows) && flows == [] && Drained() == old(Drained()) + drained
      ensures Sorted(drained) && forall f | f in drained :: f.packets >= 1
    {
      hide Replay, Before;
      TraceInvariant(bucketSeconds, trace);
      ReplayLast(bucketSeconds, trace, Op.DrainAll);
      drained, flows := flows, [];
      trace := trace + [Op.DrainAll];
    }
  }
}
