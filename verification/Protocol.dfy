/** The delivery protocol: one spool, any number of uploaders on it, an
    unreliable network and the control store, interleaved in any order
    (src/spool.rs, src/upload.rs, src/control.rs). */
module Protocol {
  import opened Wrappers
  import opened Model
  import SpoolSpec
  import opened SpoolProofs
  import ControlSpec

  datatype Config = Config(limits: SpoolSpec.Limits, codec: Codec, maxAge: nat)

  /** `snapshots` are the envelopes some uploader has read from the spool and may
      still send, `requests` those that may yet reach the store (again),
      `acks` the batch ids of answers that may yet reach an uploader, and
      `committed` every envelope the store ever inserted. A duplicate answer
      adds nothing to it. */
  datatype World = World(
    spool: SpoolSpec.State,
    store: ControlSpec.Store,
    snapshots: set<BatchEnvelope>,
    requests: set<BatchEnvelope>,
    acks: set<string>,
    committed: set<BatchEnvelope>)

  const START := World(SpoolSpec.EMPTY, ControlSpec.EMPTY, {}, {}, {}, {})

  datatype Event =
    | Enqueue(request: SpoolSpec.Request, spoolFull: bool)
    | Snapshot(limit: nat)
    | Send(envelope: BatchEnvelope)
    | LoseRequest(envelope: BatchEnvelope)
    | Deliver(envelope: BatchEnvelope, now: nat, storeFull: bool)   // the request stays, so it may arrive twice
    | LoseAck(batchId: string)
    | Acknowledge(envelope: BatchEnvelope)
    | Forget(envelope: BatchEnvelope)                                // an uploader gives up or ends

  predicate Enabled(w: World, ev: Event) {
    match ev
    case Send(e) => e in w.snapshots
    case Deliver(e, _, _) => e in w.requests
    case Acknowledge(e) => e in w.snapshots && e.batchId in w.acks
    case _ => true
  }

  /** One step; an event that cannot happen changes nothing. Snapshots are not
      tied to the current table, so an enqueue, an eviction or another
      acknowledgement may fall between reading a batch and acknowledging it. */
  function Step(c: Config, w: World, ev: Event): World {
    if !Enabled(w, ev) then w
    else
      match ev
      case Enqueue(r, full) => w.(spool := SpoolSpec.Enqueue(w.spool, c.limits, c.codec, r, full).0)
      case Snapshot(limit) => w.(snapshots := w.snapshots + set e | e in SpoolSpec.Pending(w.spool, limit))
      case Send(e) => w.(requests := w.requests + {e})
      case LoseRequest(e) => w.(requests := w.requests - {e})
      case Deliver(e, now, full) =>
        var (store, outcome) := ControlSpec.Ingest(w.store, c.maxAge, c.codec, e, now, full);
        w.(store := store,
           acks := if outcome.Ok? then w.acks + {e.batchId} else w.acks,
           committed := if outcome == Ok(ControlSpec.Inserted) then w.committed + {e} else w.committed)
      case LoseAck(id) => w.(acks := w.acks - {id})
      case Acknowledge(e) => w.(spool := SpoolSpec.Acknowledge(w.spool, e.batchId, e.checksum).0)
      case Forget(e) => w.(snapshots := w.snapshots - {e})
  }

  function RunFrom(c: Config, w: World, events: seq<Event>): World {
    if events == [] then w else Step(c, RunFrom(c, w, events[..|events| - 1]), events[|events| - 1])
  }

  function Run(c: Config, events: seq<Event>): World { RunFrom(c, START, events) }

  // ---------------------------------------------------------------- invariant

  function Logged(s: SpoolSpec.State): set<BatchEnvelope> { set e | e in s.log }

  /** Every number below `nextSeq` is pending, recorded as lost or acknowledged,
      and exactly one of them; every acknowledged envelope was committed. */
  ghost predicate NothingLost(w: World) {
    && Partition(w.spool.nextSeq, Seqs(w.spool.batches), w.spool.gaps.Keys, w.spool.acked)
    && w.spool.nextSeq == |w.spool.log|
    && forall q | q in w.spool.acked :: q < |w.spool.log| && w.spool.log[q] in w.committed
  }

  ghost predicate Good(c: Config, w: World) {
    && Inv(w.spool, c.limits, c.codec)
    && w.snapshots <= Logged(w.spool) && w.requests <= Logged(w.spool) && w.committed <= Logged(w.spool)
    && (forall id | id in w.acks :: exists e :: e in w.committed && e.batchId == id)
    && ControlSpec.Mirrors(w.store, w.committed) && (forall e | e in w.committed :: ControlSpec.InRange(e))
    && NothingLost(w)
  }

  /** Envelopes of one spool never contradict each other: this is where the batch
      id has to give back the sequence number. */
  lemma OneSpoolIsHonest(c: Config, s: SpoolSpec.State)
    requires Inv(s, c.limits, c.codec)
    ensures ControlSpec.NonConflicting(Logged(s))
  {
    forall a, b | a in Logged(s) && b in Logged(s)
      && (a.batchId == b.batchId
          || ControlSpec.SameIdentity(ControlSpec.BatchRowOf(a), b.body.nodeId, b.body.bootId, b.body.seqNo))
      ensures a == b
    {
      var i :| 0 <= i < |s.log| && s.log[i] == a;
      var j :| 0 <= j < |s.log| && s.log[j] == b;
      if a.batchId == b.batchId { IdsAreDistinct(c.codec, s.log, i, j); }
    }
  }

  lemma EnqueueAppends(s: SpoolSpec.State, limits: SpoolSpec.Limits, codec: Codec, r: SpoolSpec.Request, full: bool)
    ensures
      var after := SpoolSpec.Enqueue(s, limits, codec, r, full).0;
      after.acked == s.acked && (after == s || after.log == s.log + [SpoolSpec.EnvelopeFor(codec, s.nextSeq, r)])
  {
    hide SpoolSpec.Kept, SpoolSpec.Evicted, SpoolSpec.AddGaps, SpoolSpec.TotalBytes;
  }

  lemma EnqueueKeepsGood(c: Config, w: World, r: SpoolSpec.Request, full: bool)
    requires Good(c, w)
    ensures Good(c, Step(c, w, Enqueue(r, full)))
  {
    hide SpoolSpec.Enqueue, SpoolSpec.TotalBytes, RowsOk, GapsOk, LogOk, Partition;
    EnqueueKeepsInv(w.spool, c.limits, c.codec, r, full);
    EnqueueAppends(w.spool, c.limits, c.codec, r, full);
    var after := SpoolSpec.Enqueue(w.spool, c.limits, c.codec, r, full).0;
    assert forall e | e in w.spool.log :: e in after.log;
  }

  lemma SnapshotKeepsGood(c: Config, w: World, limit: nat)
    requires Good(c, w)
    ensures Good(c, Step(c, w, Snapshot(limit)))
  {
    hide SpoolSpec.TotalBytes, GapsOk, Partition, ControlSpec.Mirrors, ControlSpec.InRange;
    forall e | e in SpoolSpec.Pending(w.spool, limit) ensures e in w.spool.log {
      var i :| 0 <= i < |SpoolSpec.Pending(w.spool, limit)| && SpoolSpec.Pending(w.spool, limit)[i] == e;
      assert w.spool.batches[i] in w.spool.batches && w.spool.batches[i].payload == e;
    }
  }

  lemma DeliverKeepsGood(c: Config, w: World, e: BatchEnvelope, now: nat, full: bool)
    requires Good(c, w)
    ensures Good(c, Step(c, w, Deliver(e, now, full)))
  {
    hide Inv, Partition, ControlSpec.Ingest, ControlSpec.Mirrors, ControlSpec.InRange, ControlSpec.Stores;
    if e in w.requests {
      OneSpoolIsHonest(c, w.spool);
      ControlSpec.HonestDelivery(w.store, w.committed, Logged(w.spool), c.maxAge, c.codec, e, now, full);
      var r := ControlSpec.Ingest(w.store, c.maxAge, c.codec, e, now, full).1;
      var after := Step(c, w, Deliver(e, now, full));
      assert r.Ok? ==> r.value.Inserted? || r.value.Duplicate?;
      forall id | id in after.acks ensures exists a :: a in after.committed && a.batchId == id {
        if id in w.acks {
          var a :| a in w.committed && a.batchId == id;
          assert a in after.committed;
        } else {
          assert e in after.committed && e.batchId == id;
        }
      }
    }
  }

  /** An acknowledged envelope is the committed one, although only its id came
      back. */
  lemma AcknowledgeKeepsGood(c: Config, w: World, e: BatchEnvelope)
    requires Good(c, w)
    ensures Good(c, Step(c, w, Acknowledge(e)))
  {
    hide SpoolSpec.Acknowledge, SpoolSpec.TotalBytes, Inv, Partition, ControlSpec.Mirrors, ControlSpec.InRange;
    if e in w.snapshots && e.batchId in w.acks {
      var a :| a in w.committed && a.batchId == e.batchId;
      OneSpoolIsHonest(c, w.spool);
      assert a == e;
      AckKeepsInv(w.spool, c.limits, c.codec, e.batchId, e.checksum);
      AckMovesOwn(c, w.spool, e);
      InvPartition(Step(c, w, Acknowledge(e)).spool, c);
    }
  }

  lemma InvPartition(s: SpoolSpec.State, c: Config)
    requires Inv(s, c.limits, c.codec)
    ensures Partition(s.nextSeq, Seqs(s.batches), s.gaps.Keys, s.acked) && s.nextSeq == |s.log|
  {
  }

  /** Only the envelope's own number can become acknowledged. */
  lemma AckMovesOwn(c: Config, s: SpoolSpec.State, e: BatchEnvelope)
    requires Inv(s, c.limits, c.codec) && e in Logged(s)
    ensures
      var after := SpoolSpec.Acknowledge(s, e.batchId, e.checksum).0;
      && after.log == s.log && after.nextSeq == s.nextSeq && after.gaps == s.gaps
      && forall q | q in after.acked && q !in s.acked :: q < |s.log| && s.log[q] == e
  {
    hide SpoolSpec.Unmatched, SpoolSpec.TotalBytes, Partition, GapsOk;
    var j :| 0 <= j < |s.log| && s.log[j] == e;
    forall row | row in s.batches && SpoolSpec.AckMatches(row, e.batchId, e.checksum) ensures row.seqNo == j {
      IdsAreDistinct(c.codec, s.log, row.seqNo, j);
    }
  }

  lemma StepKeepsGood(c: Config, w: World, ev: Event)
    requires Good(c, w)
    ensures Good(c, Step(c, w, ev))
  {
    hide Inv, Partition, ControlSpec.Mirrors, ControlSpec.InRange, Logged;
    match ev
    case Enqueue(r, full) => EnqueueKeepsGood(c, w, r, full);
    case Snapshot(limit) => SnapshotKeepsGood(c, w, limit);
    case Deliver(e, now, full) => DeliverKeepsGood(c, w, e, now, full);
    case Acknowledge(e) => AcknowledgeKeepsGood(c, w, e);
    case Send(e) =>
    case LoseRequest(e) =>
    case LoseAck(id) =>
    case Forget(e) =>
  }

  lemma {:induction false} RunKeepsGood(c: Config, w: World, events: seq<Event>)
    requires Good(c, w)
    ensures Good(c, RunFrom(c, w, events))
  {
    hide Good, Step;
    if events != [] {
      RunKeepsGood(c, w, events[..|events| - 1]);
      StepKeepsGood(c, RunFrom(c, w, events[..|events| - 1]), events[|events| - 1]);
    }
  }

  lemma OneMoreEvent(c: Config, w: World, events: seq<Event>, ev: Event)
    ensures RunFrom(c, w, events + [ev]) == Step(c, RunFrom(c, w, events), ev)
  {
    assert (events + [ev])[..|events|] == events;
  }

  lemma StartIsGood(c: Config)
    ensures Good(c, START)
  {
  }

  // ------------------------------------------------------------- main results

  /** At some point of the run the store held the batch with all its rows. */
  ghost predicate WasStored(c: Config, events: seq<Event>, e: BatchEnvelope) {
    exists k :: 0 <= k <= |events| && ControlSpec.Stores(Run(c, events[..k]).store, e)
  }

  lemma StoredLater(c: Config, events: seq<Event>, ev: Event, e: BatchEnvelope)
    requires WasStored(c, events, e)
    ensures WasStored(c, events + [ev], e)
  {
    hide Run, ControlSpec.Stores;
    var k :| 0 <= k <= |events| && ControlSpec.Stores(Run(c, events[..k]).store, e);
    assert (events + [ev])[..k] == events[..k];
  }

  lemma StoredNow(c: Config, events: seq<Event>, e: BatchEnvelope)
    requires ControlSpec.Stores(Run(c, events).store, e)
    ensures WasStored(c, events, e)
  {
    assert events[..|events|] == events;
  }

  /** An answer is positive only if the store then holds the very envelope. */
  lemma AnsweredIsStored(c: Config, w: World, e: BatchEnvelope, now: nat, full: bool)
    requires Good(c, w) && e in Logged(w.spool)
    ensures
      var (after, r) := ControlSpec.Ingest(w.store, c.maxAge, c.codec, e, now, full);
      && (r.Ok? ==> ControlSpec.Stores(after, e) && ControlSpec.InRange(e))
      && (r == Ok(ControlSpec.Duplicate) ==> e in w.committed)
  {
    hide Inv, Partition, ControlSpec.Ingest, ControlSpec.Mirrors, ControlSpec.InRange, ControlSpec.Stores;
    OneSpoolIsHonest(c, w.spool);
    ControlSpec.HonestDelivery(w.store, w.committed, Logged(w.spool), c.maxAge, c.codec, e, now, full);
    var r := ControlSpec.Ingest(w.store, c.maxAge, c.codec, e, now, full).1;
    assert r.Ok? ==> r.value.Inserted? || r.value.Duplicate?;
  }

  lemma CommittedStep(c: Config, w: World, ev: Event)
    requires Good(c, w)
    ensures
      var after := Step(c, w, ev);
      forall e | e in after.committed && e !in w.committed :: ControlSpec.Stores(after.store, e)
  {
    hide Inv, Partition, ControlSpec.Ingest, ControlSpec.Mirrors, ControlSpec.InRange, ControlSpec.Stores;
    if ev.Deliver? && Enabled(w, ev) { AnsweredIsStored(c, w, ev.envelope, ev.now, ev.storeFull); }
  }

  /** What counts as committed was in the store, whole. */
  lemma {:induction false} CommittedWasStored(c: Config, events: seq<Event>)
    ensures forall e | e in Run(c, events).committed :: WasStored(c, events, e)
  {
    hide Step, Good, WasStored, ControlSpec.Stores;
    if events != [] {
      var init, ev := events[..|events| - 1], events[|events| - 1];
      CommittedWasStored(c, init);
      StartIsGood(c);
      RunKeepsGood(c, START, init);
      CommittedStep(c, Run(c, init), ev);
      assert events == init + [ev];
      forall e | e in Run(c, events).committed ensures WasStored(c, events, e) {
        if e in Run(c, init).committed { StoredLater(c, init, ev, e); } else { StoredNow(c, events, e); }
      }
    }
  }

  /** No silent loss: after any interleaving of enqueues, evictions, snapshots,
      sends, lost and repeated requests, ingests, prunes, lost answers and
      acknowledgements, every batch ever numbered is pending, has a gap record
      or is acknowledged, exactly one of them; and at some time the store held
      every acknowledged batch, field for field, with exactly its bucket rows. */
  lemma NoSilentLoss(c: Config, events: seq<Event>)
    ensures NothingLost(Run(c, events))
    ensures forall q | q in Run(c, events).spool.acked :: WasStored(c, events, Run(c, events).spool.log[q])
  {
    hide Step, Inv, Partition, ControlSpec.Mirrors, ControlSpec.InRange, Logged, WasStored;
    StartIsGood(c);
    RunKeepsGood(c, START, events);
    CommittedWasStored(c, events);
  }

  // ------------------------------------------------ batches the store refuses

  /** A batch with a value outside the store's range is refused each time. */
  lemma OutOfRangeIsRefused(c: Config, w: World, e: BatchEnvelope, now: nat, full: bool)
    requires Good(c, w) && e in Logged(w.spool) && !ControlSpec.InRange(e)
    ensures ControlSpec.Ingest(w.store, c.maxAge, c.codec, e, now, full).1.Err?
  {
    hide Good, ControlSpec.Ingest, ControlSpec.InRange, Logged;
    AnsweredIsStored(c, w, e, now, full);
  }

  lemma StepOnlyGrows(c: Config, w: World, ev: Event)
    ensures w.spool.log <= Step(c, w, ev).spool.log
  {
    hide SpoolSpec.Enqueue, SpoolSpec.Unmatched, ControlSpec.Ingest;
    if ev.Enqueue? { EnqueueAppends(w.spool, c.limits, c.codec, ev.request, ev.spoolFull); }
  }

  lemma {:induction false} LogOnlyGrows(c: Config, w: World, events: seq<Event>)
    ensures w.spool.log <= RunFrom(c, w, events).spool.log
  {
    hide Step;
    if events != [] {
      LogOnlyGrows(c, w, events[..|events| - 1]);
      StepOnlyGrows(c, RunFrom(c, w, events[..|events| - 1]), events[|events| - 1]);
    }
  }

  /** So along every run it is never acknowledged: once numbered it stays pending
      until it becomes a gap. */
  lemma OutOfRangeOnlyBecomesAGap(c: Config, events: seq<Event>, more: seq<Event>, q: nat)
    requires q < |Run(c, events).spool.log| && !ControlSpec.InRange(Run(c, events).spool.log[q])
    ensures
      var s := RunFrom(c, Run(c, events), more).spool;
      && q < |s.log| && s.log[q] == Run(c, events).spool.log[q]
      && q !in s.acked && (q in Seqs(s.batches) <==> q !in s.gaps)
  {
    hide Step, Inv, ControlSpec.Mirrors, ControlSpec.InRange, Logged, Seqs;
    StartIsGood(c);
    RunKeepsGood(c, START, events);
    RunKeepsGood(c, Run(c, events), more);
    LogOnlyGrows(c, Run(c, events), more);
  }

  // ------------------------------------------------- while nothing expires

  ghost predicate AllStored(w: World) { forall e | e in w.committed :: ControlSpec.Stores(w.store, e) }

  /** No delivery of the run is later than `latest`. */
  ghost predicate Within(events: seq<Event>, latest: nat) {
    forall ev | ev in events && ev.Deliver? :: ev.now <= latest
  }

  ghost predicate FreshAt(c: Config, s: SpoolSpec.State, latest: nat) {
    forall e | e in s.log :: e.body.createdAt >= Cutoff(latest, c.maxAge)
  }

  lemma StepKeepsStored(c: Config, w: World, ev: Event, latest: nat)
    requires Good(c, w) && AllStored(w) && FreshAt(c, w.spool, latest) && (ev.Deliver? ==> ev.now <= latest)
    ensures AllStored(Step(c, w, ev))
  {
    hide Inv, Partition, ControlSpec.Ingest, ControlSpec.InRange, ControlSpec.RowsBy, ControlSpec.RowsOf,
         ControlSpec.UniqueIdentities, ControlSpec.NoOrphans, ControlSpec.From;
    CommittedStep(c, w, ev);
    if ev.Deliver? && Enabled(w, ev) {
      OneSpoolIsHonest(c, w.spool);
      ControlSpec.SomeNonConflicting(Logged(w.spool), w.committed);
      ControlSpec.FromIsUnique(w.store, w.committed);
      ControlSpec.IngestOnlyAdds(w.store, c.maxAge, c.codec, ev.envelope, ev.now, ev.storeFull);
    }
  }

  lemma FreshEarlier(c: Config, s: SpoolSpec.State, later: SpoolSpec.State, latest: nat)
    requires s.log <= later.log && FreshAt(c, later, latest)
    ensures FreshAt(c, s, latest)
  {
    assert forall i | 0 <= i < |s.log| :: s.log[i] == later.log[i] && later.log[i] in later.log;
  }

  /** While the store's clock leaves every spooled batch in age, what was once
      committed stays in the store. */
  lemma {:induction false} NothingExpires(c: Config, w: World, events: seq<Event>, latest: nat)
    requires Good(c, w) && AllStored(w) && Within(events, latest) && FreshAt(c, RunFrom(c, w, events).spool, latest)
    ensures AllStored(RunFrom(c, w, events))
  {
    hide Good, Step, FreshAt, AllStored, ControlSpec.Stores;
    if events != [] {
      var init, ev := events[..|events| - 1], events[|events| - 1];
      var before := RunFrom(c, w, init);
      assert events == init + [ev];
      OneMoreEvent(c, w, init, ev);
      StepOnlyGrows(c, before, ev);
      FreshEarlier(c, before.spool, Step(c, before, ev).spool, latest);
      NothingExpires(c, w, init, latest);
      RunKeepsGood(c, w, init);
      StepKeepsStored(c, before, ev, latest);
    }
  }

  /** Along every run the byte ledger balances and the budget holds. */
  lemma LedgerBalances(c: Config, events: seq<Event>)
    ensures
      var s := Run(c, events).spool;
      && s.nextSeq == |s.log| && SpoolSpec.TotalBytes(s.batches) <= c.limits.maxPayloadBytes
      && EnqueuedBytes(c.codec, s.log, s.nextSeq)
         == SpoolSpec.TotalBytes(s.batches) + LostBytes(SpoolSpec.GapList(s.gaps, s.nextSeq))
            + Bytes(c.codec, s.log, s.acked, s.nextSeq)
      && GapsOk(c.limits, c.codec, s.gaps, s.log)
  {
    hide Step, Partition, ControlSpec.Mirrors, ControlSpec.InRange, Logged, SpoolSpec.TotalBytes;
    StartIsGood(c);
    RunKeepsGood(c, START, events);
    ByteLedger(Run(c, events).spool, c.limits, c.codec);
  }

  /** An honest agent never sees a conflict: whatever happened before, no request
      in flight and no pending batch can be refused as one. */
  lemma NeverConflict(c: Config, events: seq<Event>, e: BatchEnvelope, now: nat, full: bool)
    requires
      var w := Run(c, events);
      e in w.requests || e in SpoolSpec.Payloads(w.spool.batches)
    ensures ControlSpec.Ingest(Run(c, events).store, c.maxAge, c.codec, e, now, full).1 != Err(ControlSpec.Conflict)
  {
    hide Step, Partition, ControlSpec.Mirrors, ControlSpec.InRange, GapsOk, SpoolSpec.TotalBytes, ControlSpec.Ingest;
    StartIsGood(c);
    RunKeepsGood(c, START, events);
    var w := Run(c, events);
    if e in SpoolSpec.Payloads(w.spool.batches) {
      var i :| 0 <= i < |w.spool.batches| && SpoolSpec.Payloads(w.spool.batches)[i] == e;
      assert w.spool.batches[i] in w.spool.batches;
    }
    OneSpoolIsHonest(c, w.spool);
    ControlSpec.HonestDelivery(w.store, w.committed, Logged(w.spool), c.maxAge, c.codec, e, now, full);
  }

  /** And it is accepted unless the store is out of space or range. */
  lemma PendingIsAccepted(c: Config, w: World, e: BatchEnvelope, now: nat)
    requires Good(c, w) && e in Logged(w.spool)
    requires ControlSpec.InRange(e) && Fits(Cutoff(now, c.maxAge))
    ensures ControlSpec.Ingest(w.store, c.maxAge, c.codec, e, now, false).1.Ok?
  {
    hide Partition, ControlSpec.Mirrors, ControlSpec.InRange, GapsOk, RowsOk, SpoolSpec.TotalBytes;
    OneSpoolIsHonest(c, w.spool);
    ControlSpec.HonestDelivery(w.store, w.committed, Logged(w.spool), c.maxAge, c.codec, e, now, false);
    var i :| 0 <= i < |w.spool.log| && w.spool.log[i] == e;
    assert HasValidChecksum(c.codec, e);
  }

  // ------------------------------------------- what the ledger does not exclude

  lemma FirstEnqueue(c: Config, r: SpoolSpec.Request)
    requires c.limits == SpoolSpec.Limits(1, 1) && r.createdAt == 0 && r.buckets == []
    requires c.codec.size(SpoolSpec.EnvelopeFor(c.codec, 0, r)) == 1
    ensures
      var e := SpoolSpec.EnvelopeFor(c.codec, 0, r);
      var row := SpoolSpec.RowOf(c.codec, e);
      SpoolSpec.Enqueue(SpoolSpec.EMPTY, c.limits, c.codec, r, false).0 == SpoolSpec.State(1, [row], map[], [e], {})
  {
    var row := SpoolSpec.RowOf(c.codec, SpoolSpec.EnvelopeFor(c.codec, 0, r));
    assert [] + [row] == [row] && [row][0..] == [row] && [row][1..] == [];
    SpoolSpec.EvictNothing([row], 1, 0);
  }

  lemma SecondEnqueue(c: Config, r: SpoolSpec.Request, s: SpoolSpec.State, row: SpoolSpec.Row)
    requires c.limits == SpoolSpec.Limits(1, 1) && (forall e :: c.codec.size(e) == 1)
    requires r.createdAt == 0 && r.buckets == []
    requires s.nextSeq == 1 && s.batches == [row] && row.payloadBytes == 1 && row.seqNo == 0
    ensures
      var after := SpoolSpec.Enqueue(s, c.limits, c.codec, r, false).0;
      0 in after.gaps && |after.log| == |s.log| + 1 && after.log[..|s.log|] == s.log
  {
    var e := SpoolSpec.EnvelopeFor(c.codec, 1, r);
    var last := SpoolSpec.RowOf(c.codec, e);
    var rows := [row] + [last];
    assert [last][1..] == [] && rows[1..] == [last];
    assert SpoolSpec.TotalBytes([last]) == 1;
    SpoolSpec.TotalOne(row, [last]);
    hide SpoolSpec.TotalBytes, SpoolSpec.Evicted, SpoolSpec.Kept, SpoolSpec.AddGaps, SpoolSpec.MinBucket,
         SpoolSpec.MaxBucket, BatchId;
    SpoolSpec.EvictOldest(rows, 1, 0);
    AddGapsAdds(s.gaps, SpoolSpec.Evicted(rows, 1, 0), 0, 0);
    assert rows[0] in SpoolSpec.Evicted(rows, 1, 0);
  }

  /** A gap record does not mean the batch never arrived: it may have been
      committed and evicted while its answer was on the way. The run is enqueue,
      snapshot, send, deliver, and a second enqueue over a budget of one batch. */
  lemma GapMayBeCommitted() returns (c: Config, events: seq<Event>)
    ensures
      var w := Run(c, events);
      0 in w.spool.gaps && |w.spool.log| > 0 && w.spool.log[0] in w.committed
  {
    var digest: Digest := seq(64, _ => '0');
    var codec := Codec(_ => digest, _ => 1);
    c := Config(SpoolSpec.Limits(1, 1), codec, 1);
    var r := SpoolSpec.Request("node", "boot", 0, [], CaptureDiagnostics(0, 0, 0, 0));
    var e := SpoolSpec.EnvelopeFor(codec, 0, r);
    var row := SpoolSpec.RowOf(codec, e);
    var s0 := SpoolSpec.Enqueue(SpoolSpec.EMPTY, c.limits, codec, r, false).0;
    FirstEnqueue(c, r);
    var w1 := START.(spool := s0);
    assert Step(c, START, Enqueue(r, false)) == w1;
    assert SpoolSpec.Pending(s0, 1) == [e];
    var w2 := w1.(snapshots := {e});
    assert e in SpoolSpec.Pending(s0, 1);
    assert Step(c, w1, Snapshot(1)) == w2;
    var w3 := w2.(requests := {e});
    assert Step(c, w2, Send(e)) == w3;
    var w4 := Step(c, w3, Deliver(e, 0, false));
    assert w4.spool == s0 && e in w4.committed;
    SecondEnqueue(c, r, s0, row);
    events := [];
    assert Run(c, events) == START;
    OneMoreEvent(c, START, [], Enqueue(r, false));
    OneMoreEvent(c, START, [] + [Enqueue(r, false)], Snapshot(1));
    OneMoreEvent(c, START, [] + [Enqueue(r, false)] + [Snapshot(1)], Send(e));
    OneMoreEvent(c, START, [] + [Enqueue(r, false)] + [Snapshot(1)] + [Send(e)], Deliver(e, 0, false));
    OneMoreEvent(c, START, [] + [Enqueue(r, false)] + [Snapshot(1)] + [Send(e)] + [Deliver(e, 0, false)],
                 Enqueue(r, false));
    events := [] + [Enqueue(r, false)] + [Snapshot(1)] + [Send(e)] + [Deliver(e, 0, false)] + [Enqueue(r, false)];
  }

  /** An oversized batch leaves an expired one pending: a batch of time 0 and an
      oversized one of time 5, under an age limit of one second. */
  lemma ExpiredMayStayPending() returns (c: Config, first: SpoolSpec.Request, second: SpoolSpec.Request)
    ensures
      var before := Run(c, [Enqueue(first, false)]).spool;
      var (after, result) := SpoolSpec.Enqueue(before, c.limits, c.codec, second, false);
      && Inv(before, c.limits, c.codec) && result.Ok? && Inv(after, c.limits, c.codec)
      && exists row :: row in after.batches && row.createdAt < Cutoff(second.createdAt, c.limits.maxAgeSeconds)
  {
    var digest: Digest := seq(64, _ => '0');
    var codec := Codec(_ => digest, (e: BatchEnvelope) => if e.body.createdAt == 0 then 1 else 2);
    c := Config(SpoolSpec.Limits(1, 1), codec, 1);
    first := SpoolSpec.Request("node", "boot", 0, [], CaptureDiagnostics(0, 0, 0, 0));
    second := first.(createdAt := 5);
    FirstEnqueue(c, first);
    OneMoreEvent(c, START, [], Enqueue(first, false));
    assert [] + [Enqueue(first, false)] == [Enqueue(first, false)];
    var before := Run(c, [Enqueue(first, false)]).spool;
    EnqueueKeepsInv(SpoolSpec.EMPTY, c.limits, codec, first, false);
    EnqueueKeepsInv(before, c.limits, codec, second, false);
    OversizedSkipsAgeLimit(before, c.limits, codec, second);
    var row := SpoolSpec.RowOf(codec, SpoolSpec.EnvelopeFor(codec, 0, first));
    assert row in SpoolSpec.Enqueue(before, c.limits, codec, second, false).0.batches;
  }
}
