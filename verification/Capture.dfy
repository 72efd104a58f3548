/** The capture loop (src/capture.rs) over an abstract stream of events: what
    the capture handle returned, what the clock read, what the driver counted. */
module Capture {
  import opened Wrappers
  import opened Model
  import opened Sequences
  import opened Flows
  import opened Aggregate
  import opened Packet
  import SpoolSpec
  import SpoolProofs
  import opened SpoolStore

  datatype CaptureConfig = CaptureConfig(
    localIps: seq<IpAddr>,
    nodeId: string,
    bootId: string,
    capturePoint: string,
    bucketSeconds: nat,
    maxBatches: Option<nat>)

  datatype Read = Frame(data: Packet.Frame, timestamp: nat, length: nat) | TimeoutExpired | ReadFailed

  datatype Counters = Counters(received: nat, dropped: nat, interfaceDropped: nat)

  /** One turn of the loop: the read, the clock after it, the driver's counters
      (none when asking fails), whether an enqueue runs out of space, and the
      clock and space of the final enqueue. */
  datatype Turn = Turn(read: Read, clock: Option<nat>, stats: Option<Counters>, spoolFull: bool,
                       finalClock: Option<nat>, finalFull: bool)

  datatype Stop = LocalIpsMissing | PcapError | ClockError | StatsError | SpoolFailure(error: SpoolSpec.SpoolError)

  /** How far the loop got: it returned, or it used up the given turns. */
  datatype Outcome = Returned | Failed(stop: Stop) | Running

  function ParseTurn(c: CaptureConfig, linkType: int, t: Turn): Result<Option<PacketMeta>, PacketError>
    requires t.read.Frame?
  {
    ParsePacket(t.read.data, linkType, t.read.timestamp, t.read.length, c.capturePoint, c.localIps)
  }

  /** The packets parsed from a stream of turns. */
  function Parsed(c: CaptureConfig, linkType: int, turns: seq<Turn>): seq<PacketMeta> {
    if turns == [] then []
    else
      var before, t := Parsed(c, linkType, turns[..|turns| - 1]), turns[|turns| - 1];
      if t.read.Frame? && ParseTurn(c, linkType, t).Ok? && ParseTurn(c, linkType, t).value.Some?
      then before + [ParseTurn(c, linkType, t).value.value] else before
  }

  /** How many frames of a stream failed to parse. */
  function Failures(c: CaptureConfig, linkType: int, turns: seq<Turn>): nat {
    if turns == [] then 0
    else
      var t := turns[|turns| - 1];
      Failures(c, linkType, turns[..|turns| - 1]) + if t.read.Frame? && ParseTurn(c, linkType, t).Err? then 1 else 0
  }

  /** What the driver had counted at the end of turn `used`; nothing at first. */
  function CountersAt(turns: seq<Turn>, used: nat): Counters {
    if 0 < used <= |turns| && turns[used - 1].stats.Some? then turns[used - 1].stats.value else Counters(0, 0, 0)
  }

  /** What a batch closed after turn `to` has to report when the one before it
      closed after turn `from`. */
  function Delta(c: CaptureConfig, linkType: int, turns: seq<Turn>, from: nat, to: nat): CaptureDiagnostics
    requires from <= to <= |turns|
  {
    var was, now := CountersAt(turns, from), CountersAt(turns, to);
    CaptureDiagnostics(
      SaturatingSub(now.received, was.received), SaturatingSub(now.dropped, was.dropped),
      SaturatingSub(now.interfaceDropped, was.interfaceDropped),
      SaturatingSub(Failures(c, linkType, turns[..to]), Failures(c, linkType, turns[..from])))
  }

  /** The packets of the stream are those in the batches, those still in the
      aggregator, and those lost with a failing step. */
  ghost predicate Conserved(width: nat, parsed: seq<PacketMeta>, emitted: seq<FlowBucket>, retained: seq<FlowBucket>,
                            lost: seq<FlowBucket>)
    requires width > 0
  {
    forall s :: Sum(Singles(width, parsed), s) == Sum(emitted, s).Plus(Sum(retained, s)).Plus(Sum(lost, s))
  }

  /** Buckets worth a batch: some, each with a packet, in strict key order. */
  ghost predicate Shipment(buckets: seq<FlowBucket>) {
    buckets != [] && Sorted(buckets) && forall f | f in buckets :: f.packets >= 1
  }

  ghost predicate FromCapture(c: CaptureConfig, e: BatchEnvelope) {
    e.body.nodeId == c.nodeId && e.body.bootId == c.bootId && Shipment(e.body.buckets)
  }

  /** Every one of the first `n` turns was read and had a clock. */
  ghost predicate Healthy(turns: seq<Turn>, n: nat) {
    n <= |turns| && forall k | 0 <= k < n :: !turns[k].read.ReadFailed? && turns[k].clock.Some?
  }

  /** Nothing retained after a turn had closed by its clock. */
  ghost predicate NothingOverdue(width: nat, turns: seq<Turn>, used: nat, retained: seq<FlowBucket>)
    requires width > 0
  {
    0 < used <= |turns| ==>
      turns[used - 1].clock.Some?
      && forall f | f in retained :: f.bucketStart >= BucketOf(width, turns[used - 1].clock.value)
  }

  /** What each way of stopping says about the turn it stopped in. */
  ghost predicate StopsFor(c: CaptureConfig, turns: seq<Turn>, used: nat, outcome: Outcome, lost: seq<FlowBucket>) {
    match outcome
    case Running => c.localIps != [] && Healthy(turns, used) && used == |turns|
    case Returned => c.localIps != [] && Healthy(turns, used) && used > 0
    case Failed(LocalIpsMissing) => c.localIps == [] && used == 0
    case Failed(PcapError) => Healthy(turns, used) && used < |turns| && turns[used].read.ReadFailed?
    case Failed(ClockError) =>
      && 0 < used <= |turns| && Healthy(turns, used - 1) && !turns[used - 1].read.ReadFailed?
      && (turns[used - 1].clock.None? || (turns[used - 1].finalClock.None? && lost != []))
    case Failed(StatsError) => 0 < used && Healthy(turns, used) && turns[used - 1].stats.None? && lost != []
    case Failed(SpoolFailure(_)) => 0 < used && Healthy(turns, used) && turns[used - 1].stats.Some? && lost != []
  }

  /** A batch sent at the end of turn `to`: only buckets earlier than the one
      containing its clock, and the exact account since the batch before. */
  ghost predicate Closed(c: CaptureConfig, linkType: int, turns: seq<Turn>, from: nat, to: nat, e: BatchEnvelope)
    requires c.bucketSeconds > 0
  {
    && from < to <= |turns| && turns[to - 1].clock == Some(e.body.createdAt) && turns[to - 1].stats.Some?
    && e.body.diagnostics == Delta(c, linkType, turns, from, to) && FromCapture(c, e)
    && forall f | f in e.body.buckets :: f.bucketStart < BucketOf(c.bucketSeconds, e.body.createdAt)
  }

  /** The turn after which batch `i` starts; with `i` the length, the last one. */
  function Start(marks: seq<nat>, i: nat): nat
    requires i <= |marks|
  {
    if i == 0 then 0 else marks[i - 1]
  }

  /** The failures of the turns so far: reported by the last mark, or counted
      since. */
  ghost predicate Accounted(c: CaptureConfig, linkType: int, turns: seq<Turn>, used: nat, parseErrors: nat,
                            marks: seq<nat>) {
    && used <= |turns| && Start(marks, |marks|) <= used
    && Failures(c, linkType, turns[..used]) == Failures(c, linkType, turns[..Start(marks, |marks|)]) + parseErrors
  }

  ghost predicate AllClosed(c: CaptureConfig, linkType: int, turns: seq<Turn>, marks: seq<nat>,
                            batches: seq<BatchEnvelope>)
    requires c.bucketSeconds > 0
  {
    |marks| <= |batches| && forall i | 0 <= i < |marks| ::
      Closed(c, linkType, turns, Start(marks, i), marks[i], batches[i])
  }

  lemma StreamGrows(c: CaptureConfig, linkType: int, turns: seq<Turn>, k: nat)
    requires k < |turns|
    ensures
      var t := turns[k];
      var isFrame := t.read.Frame?;
      && Parsed(c, linkType, turns[..k + 1])
         == Parsed(c, linkType, turns[..k])
            + (if isFrame && ParseTurn(c, linkType, t).Ok? && ParseTurn(c, linkType, t).value.Some?
               then [ParseTurn(c, linkType, t).value.value] else [])
      && Failures(c, linkType, turns[..k + 1])
         == Failures(c, linkType, turns[..k]) + if isFrame && ParseTurn(c, linkType, t).Err? then 1 else 0
  {
    hide ParsePacket;
    assert turns[..k + 1][..k] == turns[..k];
  }

  lemma LogGrew(batches: seq<BatchEnvelope>, e: BatchEnvelope)
    ensures Contents(batches + [e]) == Contents(batches) + e.body.buckets
  {
    assert (batches + [e])[..|batches|] == batches;
  }

  lemma PushConserves(width: nat, parsed: seq<PacketMeta>, p: PacketMeta, emitted: seq<FlowBucket>,
                      before: seq<FlowBucket>, after: seq<FlowBucket>)
    requires width > 0 && Conserved(width, parsed, emitted, before, [])
    requires forall s :: Sum(after, s) == Sum(before, s).Plus(Weight(s, Single(width, p)))
    ensures Conserved(width, parsed + [p], emitted, after, [])
  {
    hide Sum, Singles;
    forall s ensures Sum(Singles(width, parsed + [p]), s) == Sum(emitted, s).Plus(Sum(after, s)).Plus(Sum([], s)) {
      SinglesAppend(width, parsed, p, s);
    }
  }

  lemma DrainConserves(width: nat, parsed: seq<PacketMeta>, emitted: seq<FlowBucket>, before: seq<FlowBucket>,
                       drained: seq<FlowBucket>, after: seq<FlowBucket>)
    requires width > 0 && Conserved(width, parsed, emitted, before, []) && drained + after == before
    ensures Conserved(width, parsed, emitted, after, drained)
    ensures Conserved(width, parsed, emitted + drained, after, [])
  {
    hide Sum, Singles;
    forall s
      ensures Sum(Singles(width, parsed), s) == Sum(emitted, s).Plus(Sum(after, s)).Plus(Sum(drained, s))
      ensures Sum(Singles(width, parsed), s) == Sum(emitted + drained, s).Plus(Sum(after, s)).Plus(Sum([], s))
    {
      SumConcat(drained, after, s);
      SumConcat(emitted, drained, s);
      SumNothing(s);
    }
  }

  lemma NothingYet(c: CaptureConfig, linkType: int, turns: seq<Turn>)
    requires c.bucketSeconds > 0
    ensures Conserved(c.bucketSeconds, [], [], [], [])
    ensures Parsed(c, linkType, []) == [] && Failures(c, linkType, []) == 0 && Contents([]) == []
    ensures AllClosed(c, linkType, turns, [], []) && Accounted(c, linkType, turns, 0, 0, [])
    ensures Start([], 0) == 0 && CountersAt(turns, 0) == Counters(0, 0, 0)
  {
  }

  /** A committed enqueue logs exactly the envelope asked for. */
  lemma EnqueueLogs(s: SpoolSpec.State, limits: SpoolSpec.Limits, codec: Codec, r: SpoolSpec.Request, full: bool)
    ensures
      var (after, result) := SpoolSpec.Enqueue(s, limits, codec, r, full);
      && (result.Ok? ==> after.log == s.log + [SpoolSpec.EnvelopeFor(codec, s.nextSeq, r)])
      && (result.Err? ==> after == s) && after.acked == s.acked
  {
    hide SpoolSpec.Kept, SpoolSpec.Evicted, SpoolSpec.AddGaps, SpoolSpec.TotalBytes;
  }

  /** Handles what one read returned; the clock is not looked at yet. */
  method HandleRead(c: CaptureConfig, linkType: int, aggregator: Aggregator, turns: seq<Turn>, used: nat,
                    parseErrors0: nat, ghost emitted: seq<FlowBucket>, ghost marks: seq<nat>)
    returns (parseErrors: nat)
    requires aggregator.Valid() && aggregator.bucketSeconds == c.bucketSeconds && used < |turns|
    requires !turns[used].read.ReadFailed? && Accounted(c, linkType, turns, used, parseErrors0, marks)
    requires Conserved(c.bucketSeconds, Parsed(c, linkType, turns[..used]), emitted, aggregator.flows, [])
    modifies aggregator
    ensures aggregator.Valid()
    ensures Conserved(c.bucketSeconds, Parsed(c, linkType, turns[..used + 1]), emitted, aggregator.flows, [])
    ensures Accounted(c, linkType, turns, used + 1, parseErrors, marks) && Start(marks, |marks|) < used + 1
  {
    hide ParsePacket, Conserved, Parsed, Failures, Sum;
    StreamGrows(c, linkType, turns, used);
    parseErrors := parseErrors0;
    if turns[used].read.Frame? {
      var read := turns[used].read;
      var parsed := ReadPacket(read.data, linkType, read.timestamp, read.length, c.capturePoint, c.localIps);
      if parsed.Err? {
        parseErrors := parseErrors + 1;
      } else if parsed.value.Some? {
        ghost var flows := aggregator.flows;
        aggregator.Push(parsed.value.value);
        PushConserves(c.bucketSeconds, Parsed(c, linkType, turns[..used]), parsed.value.value, emitted, flows,
                      aggregator.flows);
      }
    }
    NoneAppended(Parsed(c, linkType, turns[..used]));
  }

  lemma NoneAppended(packets: seq<PacketMeta>)
    ensures packets + [] == packets
  {
  }

  /** Enqueues one batch; the ghost result is what the spool logged. */
  method Emit(c: CaptureConfig, spool: Spool, now: nat, buckets: seq<FlowBucket>, diagnostics: CaptureDiagnostics,
              full: bool, ghost log0: seq<BatchEnvelope>, ghost batches: seq<BatchEnvelope>)
    returns (r: Result<SpoolSpec.EnqueueResult, SpoolSpec.SpoolError>, ghost after: seq<BatchEnvelope>)
    requires spool.Valid() && spool.log == log0 + batches && Shipment(buckets)
    modifies spool
    ensures spool.Valid() && spool.log == log0 + after && spool.acked == old(spool.acked)
    ensures r.Err? ==> after == batches
    ensures r.Ok? ==>
              && |after| == |batches| + 1 && after[..|batches|] == batches && FromCapture(c, after[|batches|])
              && after[|batches|].body.buckets == buckets && after[|batches|].body.createdAt == now
              && after[|batches|].body.diagnostics == diagnostics
              && Contents(after) == Contents(batches) + buckets
  {
    hide SpoolSpec.Enqueue, Contents, Shipment;
    var request := SpoolSpec.Request(c.nodeId, c.bootId, now, buckets, diagnostics);
    ghost var e := SpoolSpec.EnvelopeFor(spool.codec, spool.nextSeq, request);
    EnqueueLogs(spool.View(), spool.limits, spool.codec, request, full);
    r := spool.Enqueue(request, full);
    after := batches;
    if r.Ok? {
      LogGrew(batches, e);
      Associative(log0, batches, [e]);
      after := batches + [e];
    }
  }

  /** The middle of a turn that closed some buckets: account and enqueue. */
  method Report(c: CaptureConfig, linkType: int, spool: Spool, turns: seq<Turn>, used: nat, buckets: seq<FlowBucket>,
                prior: Counters, parseErrors: nat,
                ghost log0: seq<BatchEnvelope>, ghost batches: seq<BatchEnvelope>, ghost marks: seq<nat>)
    returns (r: Result<SpoolSpec.EnqueueResult, SpoolSpec.SpoolError>, ghost after: seq<BatchEnvelope>)
    requires spool.Valid() && spool.log == log0 + batches && c.bucketSeconds > 0
    requires Start(marks, |marks|) < used <= |turns| && turns[used - 1].clock.Some? && turns[used - 1].stats.Some?
    requires Shipment(buckets)
    requires forall f | f in buckets :: f.bucketStart < BucketOf(c.bucketSeconds, turns[used - 1].clock.value)
    requires prior == CountersAt(turns, Start(marks, |marks|))
    requires Accounted(c, linkType, turns, used, parseErrors, marks)
    requires |batches| == |marks| && AllClosed(c, linkType, turns, marks, batches)
    modifies spool
    ensures spool.Valid() && spool.log == log0 + after && spool.acked == old(spool.acked)
    ensures r.Err? ==> after == batches
    ensures r.Ok? ==>
              && |after| == |marks| + 1 && AllClosed(c, linkType, turns, marks + [used], after)
              && Start(marks + [used], |marks| + 1) == used && turns[used - 1].stats.value == CountersAt(turns, used)
              && Accounted(c, linkType, turns, used, 0, marks + [used])
              && Contents(after) == Contents(batches) + buckets
  {
    hide Contents, Failures, AllClosed, Closed, FromCapture, Shipment, SpoolProofs.Inv;
    var t := turns[used - 1];
    var current := t.stats.value;
    var diagnostics := CaptureDiagnostics(
      SaturatingSub(current.received, prior.received), SaturatingSub(current.dropped, prior.dropped),
      SaturatingSub(current.interfaceDropped, prior.interfaceDropped), parseErrors);
    r, after := Emit(c, spool, t.clock.value, buckets, diagnostics, t.spoolFull, log0, batches);
    if r.Ok? {
      IsClosed(c, linkType, turns, Start(marks, |marks|), used, after[|batches|], current, prior, parseErrors);
      OneMoreClosed(c, linkType, turns, marks, used, batches, after);
    }
  }

  lemma OneMoreClosed(c: CaptureConfig, linkType: int, turns: seq<Turn>, marks: seq<nat>, used: nat,
                      batches: seq<BatchEnvelope>, after: seq<BatchEnvelope>)
    requires c.bucketSeconds > 0 && AllClosed(c, linkType, turns, marks, batches) && |marks| == |batches|
    requires |after| == |batches| + 1 && after[..|batches|] == batches
    requires Start(marks, |marks|) < used <= |turns|
    requires Closed(c, linkType, turns, Start(marks, |marks|), used, after[|batches|])
    ensures AllClosed(c, linkType, turns, marks + [used], after)
  {
    hide Closed;
    forall i | 0 <= i <= |marks| ensures Start(marks + [used], i) == Start(marks, i) {}
    forall i | 0 <= i < |marks| ensures after[i] == batches[i] { assert after[..|batches|][i] == batches[i]; }
  }

  lemma IsClosed(c: CaptureConfig, linkType: int, turns: seq<Turn>, from: nat, used: nat, e: BatchEnvelope,
                 current: Counters, prior: Counters, parseErrors: nat)
    requires c.bucketSeconds > 0 && from < used <= |turns| && FromCapture(c, e)
    requires turns[used - 1].clock == Some(e.body.createdAt) && turns[used - 1].stats == Some(current)
    requires forall f | f in e.body.buckets :: f.bucketStart < BucketOf(c.bucketSeconds, e.body.createdAt)
    requires prior == CountersAt(turns, from)
    requires Failures(c, linkType, turns[..used]) == Failures(c, linkType, turns[..from]) + parseErrors
    requires e.body.diagnostics
          == CaptureDiagnostics(
               SaturatingSub(current.received, prior.received), SaturatingSub(current.dropped, prior.dropped),
               SaturatingSub(current.interfaceDropped, prior.interfaceDropped), parseErrors)
    ensures Closed(c, linkType, turns, from, used, e)
  {
    hide Failures, FromCapture;
  }

  /** The last batch of a run has its own clock and reports nothing. */
  ghost predicate IsFinal(t: Turn, e: BatchEnvelope) {
    e.body.diagnostics == CaptureDiagnostics(0, 0, 0, 0) && t.finalClock == Some(e.body.createdAt)
  }

  /** The end of a run: whatever the aggregator still holds goes into a final
      batch. */
  method Finish(c: CaptureConfig, linkType: int, spool: Spool, aggregator: Aggregator, turns: seq<Turn>, used: nat,
                ghost log0: seq<BatchEnvelope>, ghost batches: seq<BatchEnvelope>, ghost marks: seq<nat>)
    returns (outcome: Outcome, ghost after: seq<BatchEnvelope>, ghost lost: seq<FlowBucket>)
    requires spool.Valid() && spool.log == log0 + batches && 0 < used <= |turns|
    requires aggregator.Valid() && aggregator.bucketSeconds == c.bucketSeconds && c.bucketSeconds > 0
    requires Conserved(c.bucketSeconds, Parsed(c, linkType, turns[..used]), Contents(batches), aggregator.flows, [])
    requires AllClosed(c, linkType, turns, marks, batches) && |marks| == |batches|
    modifies spool, aggregator
    ensures spool.Valid() && spool.log == log0 + after && spool.acked == old(spool.acked)
    ensures outcome.Returned? || outcome.Failed?
    ensures Conserved(c.bucketSeconds, Parsed(c, linkType, turns[..used]), Contents(after), [], lost)
    ensures outcome.Failed? ==> after == batches && lost == old(aggregator.flows)
    ensures outcome.Returned? ==> lost == [] && |marks| <= |after| <= |marks| + 1
    ensures outcome.Failed? ==>
              lost != [] && (outcome.stop.SpoolFailure?
                             || (outcome.stop.ClockError? && turns[used - 1].finalClock.None?))
    ensures |after| > |marks| ==> IsFinal(turns[used - 1], after[|marks|])
    ensures AllClosed(c, linkType, turns, marks, after) && forall i | 0 <= i < |after| :: FromCapture(c, after[i])
  {
    hide Conserved, Closed, AllClosed, FromCapture, Parsed, Contents, Sum, Sorted, Replay,
         SpoolSpec.Enqueue, SpoolProofs.Inv;
    ClosedFromCapture(c, linkType, turns, marks, batches);
    ghost var retained := aggregator.flows;
    var t := turns[used - 1];
    var remaining := aggregator.DrainAll();
    assert remaining + [] == remaining;
    DrainConserves(c.bucketSeconds, Parsed(c, linkType, turns[..used]), Contents(batches), retained, remaining, []);
    after, lost := batches, remaining;
    assert remaining != [] ==> Shipment(remaining);
    if remaining != [] {
      if t.finalClock.None? { return Failed(ClockError), after, lost; }
      var result;
      ghost var logged;
      result, logged := Emit(c, spool, t.finalClock.value, remaining, CaptureDiagnostics(0, 0, 0, 0), t.finalFull,
                             log0, batches);
      if result.Err? { return Failed(SpoolFailure(result.error)), after, lost; }
      MoreBatches(c, linkType, turns, marks, batches, logged);
      after, lost := logged, [];
    }
    return Returned, after, lost;
  }

  /** What holds at the head of the loop: the packets are in batches or in the
      aggregator, the failures are reported or counted, every closed bucket has
      been sent, and the batch limit is not reached. */
  ghost predicate Going(c: CaptureConfig, linkType: int, turns: seq<Turn>, used: nat, parseErrors: nat, prior: Counters,
                        emitted: nat, batches: seq<BatchEnvelope>, marks: seq<nat>, flows: seq<FlowBucket>)
    requires c.bucketSeconds > 0
  {
    && used <= |turns| && c.localIps != [] && Healthy(turns, used)
    && Conserved(c.bucketSeconds, Parsed(c, linkType, turns[..used]), Contents(batches), flows, [])
    && |marks| == |batches| == emitted && prior == CountersAt(turns, Start(marks, |marks|))
    && Accounted(c, linkType, turns, used, parseErrors, marks) && AllClosed(c, linkType, turns, marks, batches)
    && NothingOverdue(c.bucketSeconds, turns, used, flows)
    && (c.maxBatches.Some? ==> emitted < Max(1, c.maxBatches.value))
  }

  /** What holds when the loop is left, in whatever way. */
  ghost predicate Ended(c: CaptureConfig, linkType: int, turns: seq<Turn>, outcome: Outcome, used: nat,
                        parseErrors: nat, batches: seq<BatchEnvelope>, marks: seq<nat>, retained: seq<FlowBucket>,
                        lost: seq<FlowBucket>, lostErrors: nat)
    requires c.bucketSeconds > 0
  {
    && used <= |turns| && StopsFor(c, turns, used, outcome, lost)
    && (c.localIps == [] ==> outcome == Failed(LocalIpsMissing) && batches == [])
    // packets are all accounted for, whatever happens
    && Conserved(c.bucketSeconds, Parsed(c, linkType, turns[..used]), Contents(batches), retained, lost)
    && (outcome.Running? || outcome.Returned? ==> lost == [])
    // each batch reports exactly what was counted since the one before
    && AllClosed(c, linkType, turns, marks, batches) && (forall i | 0 <= i < |batches| :: FromCapture(c, batches[i]))
    // parse failures too: reported, still counted, or dropped with a batch the spool refused
    && Accounted(c, linkType, turns, used, parseErrors + lostErrors, marks)
    && (lostErrors > 0 ==> outcome.Failed? && outcome.stop.SpoolFailure? && lost != [] && parseErrors == 0)
    // while it runs, every closed bucket has been sent
    && (outcome.Running? ==> used == |turns| && NothingOverdue(c.bucketSeconds, turns, used, retained))
    && (outcome.Running? && c.maxBatches.Some? ==> |marks| < Max(1, c.maxBatches.value))
    // a normal return leaves nothing behind and adds at most one batch
    && (outcome.Returned? ==> retained == [] && parseErrors == 0 && |batches| <= |marks| + 1)
    && (outcome.Returned? ==> c.maxBatches.Some? && |marks| == Max(1, c.maxBatches.value))
    && (|batches| > |marks| ==> used > 0 && IsFinal(turns[used - 1], batches[|marks|]))
    && (!outcome.Returned? ==> |batches| == |marks|)
  }

  /** One turn. `Running` means that the loop goes on. */
  method TakeTurn(c: CaptureConfig, linkType: int, spool: Spool, aggregator: Aggregator, turns: seq<Turn>, used0: nat,
                  parseErrors0: nat, prior0: Counters, emitted0: nat, ghost log0: seq<BatchEnvelope>,
                  ghost batches0: seq<BatchEnvelope>, ghost marks0: seq<nat>)
    returns (outcome: Outcome, used: nat, parseErrors: nat, prior: Counters, emitted: nat,
             ghost batches: seq<BatchEnvelope>, ghost marks: seq<nat>, ghost retained: seq<FlowBucket>,
             ghost lost: seq<FlowBucket>, ghost lostErrors: nat)
    requires spool.Valid() && spool.log == log0 + batches0 && aggregator.Valid() && c.bucketSeconds > 0
    requires aggregator.bucketSeconds == c.bucketSeconds && used0 < |turns|
    requires Going(c, linkType, turns, used0, parseErrors0, prior0, emitted0, batches0, marks0, aggregator.flows)
    modifies spool, aggregator
    ensures spool.Valid() && spool.log == log0 + batches && spool.acked == old(spool.acked)
    ensures outcome.Running? ==>
              && aggregator.Valid() && used == used0 + 1
              && Going(c, linkType, turns, used, parseErrors, prior, emitted, batches, marks, aggregator.flows)
    ensures !outcome.Running? ==>
              Ended(c, linkType, turns, outcome, used, parseErrors, batches, marks, retained, lost, lostErrors)
  {
    hide ParsePacket, Conserved, Closed, AllClosed, Accounted, FromCapture, Parsed, Failures, Contents, Sum, Sorted,
         SpoolSpec.Enqueue, SpoolProofs.Inv, Replay, Start, CountersAt, Healthy, NothingOverdue, Shipment, IsFinal,
         StopsFor;
    used, parseErrors, prior, emitted, batches, marks := used0, parseErrors0, prior0, emitted0, batches0, marks0;
    retained, lost, lostErrors := aggregator.flows, [], 0;
    ClosedFromCapture(c, linkType, turns, marks, batches);
    OneMoreTurn(turns, used);
    StopsAsSaid(c, turns);
    var t := turns[used];
    if t.read.ReadFailed? { outcome := Failed(PcapError); return; }
    parseErrors := HandleRead(c, linkType, aggregator, turns, used, parseErrors, Contents(batches), marks);
    used := used + 1;
    retained := aggregator.flows;
    if t.clock.None? { outcome := Failed(ClockError); return; }
    var now := t.clock.value;
    var buckets := aggregator.DrainBefore(now / c.bucketSeconds * c.bucketSeconds);
    OpenBuckets(c.bucketSeconds, turns, used, now, buckets, aggregator.flows);
    DrainConserves(c.bucketSeconds, Parsed(c, linkType, turns[..used]), Contents(batches), retained, buckets,
                   aggregator.flows);
    outcome := Running;
    if buckets == [] {
      assert Contents(batches) + [] == Contents(batches);
      return;
    }
    retained, lost := aggregator.flows, buckets;
    if t.stats.None? { outcome := Failed(StatsError); return; }
    var result;
    ghost var logged;
    result, logged := Report(c, linkType, spool, turns, used, buckets, prior, parseErrors, log0, batches, marks);
    lostErrors := if result.Err? then parseErrors else 0;
    prior, parseErrors := t.stats.value, 0;
    if result.Err? { outcome := Failed(SpoolFailure(result.error)); return; }
    batches, marks, lost := logged, marks + [used], [];
    emitted := emitted + 1;
    if c.maxBatches.Some? && emitted >= c.maxBatches.value {
      outcome, batches, lost := Finish(c, linkType, spool, aggregator, turns, used, log0, batches, marks);
      retained := [];
    }
  }

  /** The loop. `used` counts the turns whose packet was handled, `batches` are
      the envelopes the spool logged meanwhile, and `marks` the turns at whose
      end a batch of closed buckets was sent. */
  method Run(c: CaptureConfig, linkType: int, spool: Spool, turns: seq<Turn>)
    returns (outcome: Outcome, used: nat, parseErrors: nat, ghost batches: seq<BatchEnvelope>, ghost marks: seq<nat>,
             ghost retained: seq<FlowBucket>, ghost lost: seq<FlowBucket>, ghost lostErrors: nat)
    requires spool.Valid() && c.bucketSeconds > 0
    modifies spool
    ensures spool.Valid() && spool.log == old(spool.log) + batches && spool.acked == old(spool.acked)
    ensures Ended(c, linkType, turns, outcome, used, parseErrors, batches, marks, retained, lost, lostErrors)
  {
    hide Going, Ended, SpoolProofs.Inv, Replay;
    ghost var log0 := spool.log;
    used, parseErrors, batches, marks, retained, lost, lostErrors := 0, 0, [], [], [], [], 0;
    BeforeTheLoop(c, linkType, turns);
    assert log0 + [] == log0;
    if c.localIps == [] { outcome := Failed(LocalIpsMissing); return; }
    var aggregator := new Aggregator(c.bucketSeconds);
    var prior, emitted := Counters(0, 0, 0), 0;
    while used < |turns|
      invariant used <= |turns| && spool.Valid() && aggregator.Valid() && fresh(aggregator)
      invariant spool.acked == old(spool.acked) && aggregator.bucketSeconds == c.bucketSeconds && spool.log == log0 + batches
      invariant Going(c, linkType, turns, used, parseErrors, prior, emitted, batches, marks, aggregator.flows)
      decreases |turns| - used
    {
      outcome, used, parseErrors, prior, emitted, batches, marks, retained, lost, lostErrors :=
        TakeTurn(c, linkType, spool, aggregator, turns, used, parseErrors, prior, emitted, log0, batches, marks);
      if !outcome.Running? { return; }
    }
    outcome, retained, lost, lostErrors := Running, aggregator.flows, [], 0;
    StillRunning(c, linkType, turns, parseErrors, prior, emitted, batches, marks, retained);
  }

  lemma BeforeTheLoop(c: CaptureConfig, linkType: int, turns: seq<Turn>)
    requires c.bucketSeconds > 0
    ensures c.localIps == [] ==> Ended(c, linkType, turns, Failed(LocalIpsMissing), 0, 0, [], [], [], [], 0)
    ensures c.localIps != [] ==> Going(c, linkType, turns, 0, 0, Counters(0, 0, 0), 0, [], [], [])
  {
    hide Conserved, AllClosed, Accounted, Parsed, Contents, Healthy, NothingOverdue, StopsFor, CountersAt, Start;
    assert turns[..0] == [];
    NoTurnYet(c, turns);
    NothingYet(c, linkType, turns);
    StopsAsSaid(c, turns);
  }

  lemma StillRunning(c: CaptureConfig, linkType: int, turns: seq<Turn>, parseErrors: nat, prior: Counters, emitted: nat,
                     batches: seq<BatchEnvelope>, marks: seq<nat>, flows: seq<FlowBucket>)
    requires c.bucketSeconds > 0
    requires Going(c, linkType, turns, |turns|, parseErrors, prior, emitted, batches, marks, flows)
    ensures Ended(c, linkType, turns, Running, |turns|, parseErrors, batches, marks, flows, [], 0)
  {
    hide Conserved, AllClosed, Accounted, FromCapture, Parsed, Contents, Healthy, NothingOverdue, StopsFor, CountersAt,
         Start;
    StopsAsSaid(c, turns);
    ClosedFromCapture(c, linkType, turns, marks, batches);
  }

  /** The ways of stopping, each with what the loop knows there. */
  lemma StopsAsSaid(c: CaptureConfig, turns: seq<Turn>)
    ensures forall lost :: c.localIps == [] ==> StopsFor(c, turns, 0, Failed(LocalIpsMissing), lost)
    ensures forall lost, used: nat :: c.localIps != [] && Healthy(turns, used) ==>
              && (used == |turns| ==> StopsFor(c, turns, used, Running, lost))
              && (used > 0 ==> StopsFor(c, turns, used, Returned, lost))
              && (used < |turns| && turns[used].read.ReadFailed? ==> StopsFor(c, turns, used, Failed(PcapError), lost))
              && (used > 0 && turns[used - 1].stats.None? && lost != [] ==>
                    StopsFor(c, turns, used, Failed(StatsError), lost))
              && (used > 0 && turns[used - 1].finalClock.None? && lost != [] ==>
                    StopsFor(c, turns, used, Failed(ClockError), lost))
    ensures forall lost, used: nat, error ::
              Healthy(turns, used) && used > 0 && turns[used - 1].stats.Some? && lost != [] ==>
                StopsFor(c, turns, used, Failed(SpoolFailure(error)), lost)
    ensures forall lost, used: nat ::
              (0 < used <= |turns| && Healthy(turns, used - 1) && !turns[used - 1].read.ReadFailed?
               && turns[used - 1].clock.None?) ==>
                StopsFor(c, turns, used, Failed(ClockError), lost)
  {
  }

  lemma NoTurnYet(c: CaptureConfig, turns: seq<Turn>)
    requires c.bucketSeconds > 0
    ensures Healthy(turns, 0) && NothingOverdue(c.bucketSeconds, turns, 0, [])
  {
  }

  lemma OneMoreTurn(turns: seq<Turn>, used: nat)
    requires Healthy(turns, used) && used < |turns|
    ensures !turns[used].read.ReadFailed? && turns[used].clock.Some? ==> Healthy(turns, used + 1)
  {
  }

  lemma OpenBuckets(width: nat, turns: seq<Turn>, used: nat, now: nat, drained: seq<FlowBucket>,
                    retained: seq<FlowBucket>)
    requires width > 0 && 0 < used <= |turns| && turns[used - 1].clock == Some(now)
    requires forall f | f in retained :: f.bucketStart >= BucketOf(width, now)
    requires Sorted(drained) && forall f | f in drained :: f.packets >= 1
    ensures NothingOverdue(width, turns, used, retained) && (drained != [] ==> Shipment(drained))
  {
  }

  lemma ClosedFromCapture(c: CaptureConfig, linkType: int, turns: seq<Turn>, marks: seq<nat>,
                          batches: seq<BatchEnvelope>)
    requires c.bucketSeconds > 0 && AllClosed(c, linkType, turns, marks, batches) && |marks| == |batches|
    ensures forall i | 0 <= i < |batches| :: FromCapture(c, batches[i])
  {
    forall i | 0 <= i < |batches| ensures FromCapture(c, batches[i]) {
      assert Closed(c, linkType, turns, Start(marks, i), marks[i], batches[i]);
    }
  }

  lemma MoreBatches(c: CaptureConfig, linkType: int, turns: seq<Turn>, marks: seq<nat>, batches: seq<BatchEnvelope>,
                    after: seq<BatchEnvelope>)
    requires c.bucketSeconds > 0 && AllClosed(c, linkType, turns, marks, batches) && |marks| == |batches|
    requires |after| == |batches| + 1 && after[..|batches|] == batches && FromCapture(c, after[|batches|])
    ensures AllClosed(c, linkType, turns, marks, after)
    ensures forall i | 0 <= i < |after| :: FromCapture(c, after[i])
  {
    ClosedFromCapture(c, linkType, turns, marks, batches);
    hide Closed, FromCapture;
    forall i | 0 <= i < |batches| ensures after[i] == batches[i] { assert after[..|batches|][i] == batches[i]; }
  }

  // ----------------------------------------------------------- what is reported

  datatype Counter = Received | Dropped | InterfaceDropped

  function Get(c: Counters, k: Counter): nat {
    match k
    case Received => c.received
    case Dropped => c.dropped
    case InterfaceDropped => c.interfaceDropped
  }

  function GetReported(d: CaptureDiagnostics, k: Counter): nat {
    match k
    case Received => d.received
    case Dropped => d.dropped
    case InterfaceDropped => d.interfaceDropped
  }

  function Reported(batches: seq<BatchEnvelope>, k: Counter): nat {
    if batches == [] then 0
    else Reported(batches[..|batches| - 1], k) + GetReported(batches[|batches| - 1].body.diagnostics, k)
  }

  function ReportedErrors(batches: seq<BatchEnvelope>): nat {
    if batches == [] then 0
    else ReportedErrors(batches[..|batches| - 1]) + batches[|batches| - 1].body.diagnostics.parseErrors
  }

  /** The driver's counter never went back between two batches. */
  ghost predicate Steady(turns: seq<Turn>, marks: seq<nat>, k: Counter) {
    forall i | 0 <= i < |marks| :: Get(CountersAt(turns, Start(marks, i)), k) <= Get(CountersAt(turns, marks[i]), k)
  }

  lemma {:induction false} FailuresGrow(c: CaptureConfig, linkType: int, turns: seq<Turn>, m: nat, n: nat)
    requires m <= n <= |turns|
    ensures Failures(c, linkType, turns[..m]) <= Failures(c, linkType, turns[..n])
    decreases n
  {
    hide Failures, Parsed;
    if m < n {
      FailuresGrow(c, linkType, turns, m, n - 1);
      StreamGrows(c, linkType, turns, n - 1);
    }
  }

  /** Summed over the batches, the reports give every parse failure up to the
      last of them, and the driver's count exactly when it never went back; if
      it did, they give more. */
  lemma {:induction false} ReportsAddUp(c: CaptureConfig, linkType: int, turns: seq<Turn>, marks: seq<nat>,
                                        batches: seq<BatchEnvelope>, k: Counter)
    requires c.bucketSeconds > 0 && AllClosed(c, linkType, turns, marks, batches) && |marks| == |batches|
    ensures Start(marks, |marks|) <= |turns|
    ensures ReportedErrors(batches) == Failures(c, linkType, turns[..Start(marks, |marks|)])
    ensures Reported(batches, k) >= Get(CountersAt(turns, Start(marks, |marks|)), k)
    ensures |marks| > 0 ==>
              var last := marks[|marks| - 1];
              0 < last <= |turns| && turns[last - 1].stats.Some?
                && Reported(batches, k) >= Get(turns[last - 1].stats.value, k)
    ensures Reported(batches, k) == Get(CountersAt(turns, Start(marks, |marks|)), k) <==> Steady(turns, marks, k)
  {
    hide Failures, CountersAt, Closed, AllClosed, Steady, Reported, ReportedErrors, Start, Get, GetReported;
    if |marks| == 0 {
      NothingReported(c, linkType, turns, marks, batches, k);
    } else {
      var n := |marks| - 1;
      LastClosed(c, linkType, turns, marks, batches);
      ReportedStep(batches, k);
      var was, now := Start(marks, n), Start(marks, |marks|);
      ReportsAddUp(c, linkType, turns, marks[..n], batches[..n], k);
      FailuresGrow(c, linkType, turns, was, now);
      ClosedReports(c, linkType, turns, was, now, batches[n], k);
      SteadyStep(turns, marks, k);
    }
  }

  lemma NothingReported(c: CaptureConfig, linkType: int, turns: seq<Turn>, marks: seq<nat>, batches: seq<BatchEnvelope>,
                        k: Counter)
    requires marks == [] && batches == []
    ensures Start(marks, |marks|) == 0 && ReportedErrors(batches) == 0 && Reported(batches, k) == 0
    ensures Failures(c, linkType, turns[..0]) == 0 && Get(CountersAt(turns, 0), k) == 0 && Steady(turns, marks, k)
  {
  }

  lemma LastClosed(c: CaptureConfig, linkType: int, turns: seq<Turn>, marks: seq<nat>, batches: seq<BatchEnvelope>)
    requires c.bucketSeconds > 0 && AllClosed(c, linkType, turns, marks, batches) && |marks| == |batches| > 0
    ensures
      var n := |marks| - 1;
      && AllClosed(c, linkType, turns, marks[..n], batches[..n])
      && Start(marks[..n], n) == Start(marks, n) < Start(marks, |marks|) == marks[n] <= |turns|
      && Closed(c, linkType, turns, Start(marks, n), marks[n], batches[n])
      && turns[marks[n] - 1].stats == Some(CountersAt(turns, marks[n]))
  {
    hide Closed;
    var n := |marks| - 1;
    ClosedSpan(c, linkType, turns, Start(marks, n), marks[n], batches[n]);
    forall i | 0 <= i <= n ensures Start(marks[..n], i) == Start(marks, i) {}
    forall i | 0 <= i < n ensures batches[..n][i] == batches[i] && marks[..n][i] == marks[i] {}
  }

  lemma ClosedSpan(c: CaptureConfig, linkType: int, turns: seq<Turn>, from: nat, used: nat, e: BatchEnvelope)
    requires c.bucketSeconds > 0 && Closed(c, linkType, turns, from, used, e)
    ensures from < used <= |turns| && turns[used - 1].stats == Some(CountersAt(turns, used))
  {
  }

  lemma ReportedStep(batches: seq<BatchEnvelope>, k: Counter)
    requires batches != []
    ensures
      var n := |batches| - 1;
      && Reported(batches, k) == Reported(batches[..n], k) + GetReported(batches[n].body.diagnostics, k)
      && ReportedErrors(batches) == ReportedErrors(batches[..n]) + batches[n].body.diagnostics.parseErrors
  {
  }

  lemma ClosedReports(c: CaptureConfig, linkType: int, turns: seq<Turn>, from: nat, used: nat, e: BatchEnvelope,
                      k: Counter)
    requires c.bucketSeconds > 0 && Closed(c, linkType, turns, from, used, e)
    requires Failures(c, linkType, turns[..from]) <= Failures(c, linkType, turns[..used])
    ensures
      && e.body.diagnostics.parseErrors == Failures(c, linkType, turns[..used]) - Failures(c, linkType, turns[..from])
      && GetReported(e.body.diagnostics, k)
         == SaturatingSub(Get(CountersAt(turns, used), k), Get(CountersAt(turns, from), k))
  {
    hide Failures, CountersAt, FromCapture;
  }

  lemma SteadyStep(turns: seq<Turn>, marks: seq<nat>, k: Counter)
    requires |marks| > 0
    ensures
      var n := |marks| - 1;
      Steady(turns, marks, k)
      <==> Steady(turns, marks[..n], k)
           && Get(CountersAt(turns, Start(marks, n)), k) <= Get(CountersAt(turns, marks[n]), k)
  {
    hide CountersAt, Get;
    var n := |marks| - 1;
    assert forall i | 0 <= i <= n :: Start(marks[..n], i) == Start(marks, i);
  }
}
