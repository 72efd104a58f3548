/** Packets and bytes counted one by one, and what table entries, batches and
    series carry of them: the plain meaning of the sums in `Flows`. */
module Counts {
  import opened Wrappers
  import opened Model
  import opened Flows

  /** Which packets or flows to count. */
  datatype Which = Anything | OfPoint(point: string) | OfKey(key: FlowKey)

  predicate Is(w: Which, k: FlowKey) {
    match w
    case Anything => true
    case OfPoint(point) => k.capturePoint == point
    case OfKey(key) => k == key
  }

  /** Whether a packet counts for `w` in the bucket of `width` seconds from `t`. */
  predicate Falls(w: Which, p: PacketMeta, t: nat, width: nat) { Is(w, p.key) && t <= p.timestamp < t + width }

  /** How many packets there are for `w` in the bucket. */
  function PacketsIn(packets: seq<PacketMeta>, w: Which, t: nat, width: nat): nat {
    if packets == [] then 0
    else
      PacketsIn(packets[..|packets| - 1], w, t, width) + if Falls(w, packets[|packets| - 1], t, width) then 1 else 0
  }

  /** How many bytes they had on the wire. */
  function BytesIn(packets: seq<PacketMeta>, w: Which, t: nat, width: nat): nat {
    if packets == [] then 0
    else
      var p := packets[|packets| - 1];
      BytesIn(packets[..|packets| - 1], w, t, width) + if Falls(w, p, t, width) then p.wireBytes else 0
  }

  predicate Mine(f: FlowBucket, w: Which, t: nat) { Is(w, f.key) && f.bucketStart == t }

  /** The packets that table entries report for `w` in the bucket from `t`. */
  function EntryPackets(flows: seq<FlowBucket>, w: Which, t: nat): nat {
    if flows == [] then 0
    else (if Mine(flows[0], w, t) then flows[0].packets else 0) + EntryPackets(flows[1..], w, t)
  }

  function EntryBytes(flows: seq<FlowBucket>, w: Which, t: nat): nat {
    if flows == [] then 0
    else (if Mine(flows[0], w, t) then flows[0].bytes else 0) + EntryBytes(flows[1..], w, t)
  }

  function ScopeOf(w: Which, t: nat): Scope {
    match w
    case Anything => Scope(None, None, t, Some(t))
    case OfPoint(point) => Scope(Some(point), None, t, Some(t))
    case OfKey(key) => Scope(None, Some(key), t, Some(t))
  }

  lemma {:induction false} EntriesAreSums(flows: seq<FlowBucket>, w: Which, t: nat)
    ensures Sum(flows, ScopeOf(w, t)) == Tally(EntryPackets(flows, w, t), EntryBytes(flows, w, t))
  {
    hide Sum, EntryPackets, EntryBytes, Weight;
    EntryStep(flows, w, t);
    if flows == [] {
      SumNothing(ScopeOf(w, t));
    } else {
      EntriesAreSums(flows[1..], w, t);
      SumStep(flows, ScopeOf(w, t));
      EntryWeight(flows[0], w, t);
    }
  }

  lemma EntryStep(flows: seq<FlowBucket>, w: Which, t: nat)
    ensures flows == [] ==> EntryPackets(flows, w, t) == 0 && EntryBytes(flows, w, t) == 0
    ensures flows != [] ==>
              var f, mine := flows[0], Is(w, flows[0].key) && flows[0].bucketStart == t;
              && EntryPackets(flows, w, t) == (if mine then f.packets else 0) + EntryPackets(flows[1..], w, t)
              && EntryBytes(flows, w, t) == (if mine then f.bytes else 0) + EntryBytes(flows[1..], w, t)
  {
  }

  lemma EntryWeight(f: FlowBucket, w: Which, t: nat)
    ensures Weight(ScopeOf(w, t), f)
         == if Is(w, f.key) && f.bucketStart == t then Tally(f.packets, f.bytes) else Tally(0, 0)
  {
  }

  lemma {:induction false} AnyPacket(packets: seq<PacketMeta>, w: Which, t: nat, width: nat)
    ensures PacketsIn(packets, w, t, width) > 0 <==> exists p :: p in packets && Falls(w, p, t, width)
  {
    if packets != [] {
      var init, last := packets[..|packets| - 1], packets[|packets| - 1];
      AnyPacket(init, w, t, width);
      assert packets == init + [last];
    }
  }

  /** The series of some packets: a point for every bucket that contains one of
      them, in increasing order, with their number and their bytes. */
  ghost predicate IsSeriesOf(points: seq<SeriesPoint>, packets: seq<PacketMeta>, w: Which, width: nat)
    requires width > 0
  {
    && Increasing(points)
    && (forall i | 0 <= i < |points| ::
          && points[i].bucketStart % width == 0
          && points[i].packets == PacketsIn(packets, w, points[i].bucketStart, width) > 0
          && points[i].bytes == BytesIn(packets, w, points[i].bucketStart, width))
    && (forall p | p in packets && Is(w, p.key) ::
          exists i :: 0 <= i < |points| && Falls(w, p, points[i].bucketStart, width))
  }
}
