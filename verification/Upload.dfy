/** The uploader loop (src/upload.rs) over a spool and a control store, with the
    network's behaviour for each request as an input. */
module Upload {
  import opened Wrappers
  import opened Model
  import opened Sequences
  import SpoolSpec
  import opened SpoolProofs
  import opened SpoolStore
  import opened ControlStoreObject
  import ControlSpec
  import opened Protocol

  /** `WrongAnswer` is an answer that names some other batch. */
  datatype Fault = Delivered | RequestLost | AnswerLost | StoreFull | WrongAnswer(batchId: string)

  /** What happens to one request, and the store's clock when it arrives. */
  datatype Exchange = Exchange(now: nat, fault: Fault)

  datatype UploadError = Transport | Refused | AckIdMismatch | Spooling(error: SpoolSpec.SpoolError)

  /** An exchange without a fault, for a batch the store can represent. */
  predicate Faultless(x: Exchange, e: BatchEnvelope, maxAge: nat) {
    x.fault.Delivered? && Fits(Cutoff(x.now, maxAge)) && ControlSpec.InRange(e)
  }

  /** An answer came back and names the batch that was sent. */
  predicate Heard(x: Exchange, e: BatchEnvelope) {
    x.fault.Delivered? || (x.fault.WrongAnswer? && x.fault.batchId == e.batchId)
  }

  /** A batch that may be acknowledged: heard of, and one the store can hold. */
  predicate Passed(x: Exchange, e: BatchEnvelope) { Heard(x, e) && ControlSpec.InRange(e) }

  /** How an exchange that does not succeed is reported. */
  function FaultError(x: Exchange, e: BatchEnvelope): UploadError {
    if x.fault.RequestLost? || x.fault.AnswerLost? then Transport
    else if x.fault.WrongAnswer? && x.fault.batchId != e.batchId then AckIdMismatch
    else Refused
  }

  /** An exchange that ends a run is faulty and reported as what it was. */
  predicate StopsAt(x: Exchange, e: BatchEnvelope, maxAge: nat, error: UploadError) {
    !Faultless(x, e, maxAge) && error == FaultError(x, e)
  }

  /** Sends one envelope: the answer's batch id, or an error. The ghost events
      are the protocol steps it amounts to. */
  method Post(control: ControlStore, e: BatchEnvelope, x: Exchange, ghost c: Config, ghost w: World)
    returns (r: Result<string, UploadError>, ghost events: seq<Event>)
    requires control.Valid() && control.maxAgeSeconds == c.maxAge && control.codec == c.codec
    requires Good(c, w) && w.store == control.View() && e in w.snapshots
    modifies control
    ensures control.Valid() && Good(c, RunFrom(c, w, events))
    ensures RunFrom(c, w, events).store == control.View() && RunFrom(c, w, events).spool == w.spool
    ensures RunFrom(c, w, events).snapshots == w.snapshots
    ensures Within(events, x.now)
    ensures r == Ok(e.batchId) ==>
              && e.batchId in RunFrom(c, w, events).acks
              && ControlSpec.Stores(control.View(), e) && Passed(x, e)
    ensures r != Ok(e.batchId) ==> FaultError(x, e) == if r.Err? then r.error else AckIdMismatch
    ensures control.View()
         == if x.fault.RequestLost? then old(control.View())
            else ControlSpec.Ingest(old(control.View()), c.maxAge, c.codec, e, x.now, x.fault.StoreFull?).0
    ensures Faultless(x, e, c.maxAge) ==> r == Ok(e.batchId)
  {
    hide Good, Step, Within, ControlSpec.Ingest, ControlSpec.InRange, ControlSpec.Stores;
    events := [];
    WithinNone(x.now);
    NoEvents(c, w);
    if x.fault.RequestLost? { return Err(Transport), []; }
    events := [Event.Send(e), Event.Deliver(e, x.now, x.fault.StoreFull?)];
    WithinSend(e, x.now, x.fault.StoreFull?);
    FullIsRefused(control.View(), c, e, x.now);
    SendAndDeliver(c, w, e, x.now, x.fault.StoreFull?);
    RunKeepsGood(c, w, events);
    LoggedSnapshot(c, w, e);
    AnsweredIsStored(c, w, e, x.now, x.fault.StoreFull?);
    if Faultless(x, e, c.maxAge) { PendingIsAccepted(c, w, e, x.now); }
    var outcome := control.IngestAt(e, x.now, x.fault.StoreFull?);
    if x.fault.AnswerLost? { return Err(Transport), events; }
    if x.fault.WrongAnswer? && x.fault.batchId != e.batchId { return Ok(x.fault.batchId), events; }
    if outcome.Err? { return Err(Refused), events; }
    return Ok(e.batchId), events;
  }

  lemma NoEvents(c: Config, w: World)
    ensures RunFrom(c, w, []) == w
  {
  }

  lemma FullIsRefused(s: ControlSpec.Store, c: Config, e: BatchEnvelope, now: nat)
    ensures ControlSpec.Ingest(s, c.maxAge, c.codec, e, now, true).1.Err?
  {
  }

  lemma WithinNone(latest: nat)
    ensures Within([], latest)
  {
  }

  lemma WithinSnapshot(limit: nat, latest: nat)
    ensures Within([Event.Snapshot(limit)], latest)
  {
  }

  lemma WithinSend(e: BatchEnvelope, now: nat, full: bool)
    ensures Within([Event.Send(e), Event.Deliver(e, now, full)], now)
  {
  }

  lemma WithinAppend(a: seq<Event>, b: seq<Event>, now: nat, latest: nat)
    requires Within(b, now)
    ensures Within(a, latest) && now <= latest ==> Within(a + b, latest)
  {
  }

  lemma WithinAck(a: seq<Event>, e: BatchEnvelope, latest: nat)
    ensures Within(a, latest) ==> Within(a + [Event.Acknowledge(e)], latest)
  {
  }

  lemma LoggedSnapshot(c: Config, w: World, e: BatchEnvelope)
    requires Good(c, w) && e in w.snapshots
    ensures e in Logged(w.spool)
  {
  }

  lemma {:induction false} RunsCompose(c: Config, w: World, a: seq<Event>, b: seq<Event>)
    ensures RunFrom(c, w, a + b) == RunFrom(c, RunFrom(c, w, a), b)
  {
    if b == [] {
      assert a + b == a;
    } else {
      var init := b[..|b| - 1];
      RunsCompose(c, w, a, init);
      assert b == init + [b[|b| - 1]] && a + b == (a + init) + [b[|b| - 1]];
      OneMoreEvent(c, w, a + init, b[|b| - 1]);
    }
  }

  lemma SendAndDeliver(c: Config, w: World, e: BatchEnvelope, now: nat, full: bool)
    requires e in w.snapshots
    ensures
      var (store, outcome) := ControlSpec.Ingest(w.store, c.maxAge, c.codec, e, now, full);
      var after := RunFrom(c, w, [Event.Send(e), Event.Deliver(e, now, full)]);
      && after.store == store && after.spool == w.spool && after.snapshots == w.snapshots
      && (outcome.Ok? ==> e.batchId in after.acks)
  {
    hide ControlSpec.Ingest;
    NoEvents(c, w);
    OneMoreEvent(c, w, [], Event.Send(e));
    assert [] + [Event.Send(e)] == [Event.Send(e)];
    OneMoreEvent(c, w, [Event.Send(e)], Event.Deliver(e, now, full));
    assert [Event.Send(e)] + [Event.Deliver(e, now, full)] == [Event.Send(e), Event.Deliver(e, now, full)];
  }

  lemma {:induction false} SnapshotTaken(c: Config, w: World, limit: nat)
    ensures
      var after := RunFrom(c, w, [Event.Snapshot(limit)]);
      && after.spool == w.spool && after.store == w.store
      && forall e | e in SpoolSpec.Pending(w.spool, limit) :: e in after.snapshots
  {
    NoEvents(c, w);
    OneMoreEvent(c, w, [], Event.Snapshot(limit));
    assert [] + [Event.Snapshot(limit)] == [Event.Snapshot(limit)];
  }

  /** The row at the head is the envelope's, so acknowledging it drops the head. */
  lemma AckHead(c: Config, s: SpoolSpec.State, e: BatchEnvelope)
    requires Inv(s, c.limits, c.codec) && s.batches != [] && s.batches[0].payload == e
    ensures SpoolSpec.Acknowledge(s, e.batchId, e.checksum)
         == (s.(batches := s.batches[1..], acked := s.acked + {s.batches[0].seqNo}), Ok(()))
  {
    var row := s.batches[0];
    assert row in s.batches && row == SpoolSpec.RowOf(c.codec, s.log[row.seqNo]);
    AckRemovesOne(s, c.limits, c.codec, 0);
    assert Without(s.batches, 0) == s.batches[1..];
  }

  /** Acknowledging the oldest pending batch, as one step of the protocol. */
  method AcknowledgeHead(spool: Spool, e: BatchEnvelope, ghost c: Config, ghost w: World)
    requires spool.Valid() && spool.limits == c.limits && spool.codec == c.codec
    requires Good(c, w) && w.spool == spool.View() && e in w.snapshots && e.batchId in w.acks
    requires spool.batches != [] && spool.batches[0].payload == e
    modifies spool
    ensures spool.Valid() && spool.batches == old(spool.batches)[1..]
    ensures spool.acked == old(spool.acked) + {old(spool.batches)[0].seqNo}
    ensures spool.gaps == old(spool.gaps) && spool.log == old(spool.log) && spool.nextSeq == old(spool.nextSeq)
    ensures Step(c, w, Event.Acknowledge(e)) == w.(spool := spool.View()) && Good(c, w.(spool := spool.View()))
  {
    hide Good, Inv, SpoolSpec.Acknowledge;
    GoodSpool(c, w);
    AckHead(c, w.spool, e);
    StepKeepsGood(c, w, Event.Acknowledge(e));
    var ack := spool.Acknowledge(e.batchId, e.checksum);
    assert ack.Ok?;
  }

  lemma GoodSpool(c: Config, w: World)
    requires Good(c, w)
    ensures Inv(w.spool, c.limits, c.codec)
  {
  }

  /** The spool after its `n` oldest pending batches were acknowledged and nothing
      else happened to it. */
  predicate Drained(was: SpoolSpec.State, now: SpoolSpec.State, n: nat) {
    && n <= |was.batches|
    && now == was.(batches := was.batches[n..], acked := was.acked + Seqs(was.batches[..n]))
  }

  lemma DrainOneMore(was: SpoolSpec.State, now: SpoolSpec.State, n: nat)
    requires Drained(was, now, n) && n < |was.batches|
    ensures now.batches != [] && now.batches[0] == was.batches[n]
    ensures Drained(was, now.(batches := now.batches[1..], acked := now.acked + {now.batches[0].seqNo}), n + 1)
  {
    OneMoreSeq(was.batches, n);
  }

  lemma DrainNone(was: SpoolSpec.State)
    ensures Drained(was, was, 0)
  {
    NoSeqs(was.batches);
  }

  lemma DrainMore(was: SpoolSpec.State, middle: SpoolSpec.State, now: SpoolSpec.State, n: nat, m: nat)
    requires Drained(was, middle, n) && Drained(middle, now, m)
    ensures Drained(was, now, n + m) && |now.batches| == |middle.batches| - m
    ensures forall row | row in middle.batches :: row in was.batches
  {
    SeqsCompose(was.batches, n, m);
    assert was.acked + Seqs(was.batches[..n]) + Seqs(was.batches[n..][..m])
        == was.acked + (Seqs(was.batches[..n]) + Seqs(was.batches[n..][..m]));
  }

  /** One turn of the loop: send the oldest pending batch and acknowledge it when
      its own id came back. */
  method SendOne(spool: Spool, control: ControlStore, e: BatchEnvelope, x: Exchange, ghost c: Config, ghost w: World)
    returns (r: Result<(), UploadError>, ghost events: seq<Event>)
    requires spool.Valid() && control.Valid() && spool.limits == c.limits && spool.codec == c.codec
    requires control.maxAgeSeconds == c.maxAge && control.codec == c.codec
    requires Good(c, w) && w.spool == spool.View() && w.store == control.View() && e in w.snapshots
    requires spool.batches != [] && spool.batches[0].payload == e
    modifies spool, control
    ensures spool.Valid() && control.Valid() && Good(c, RunFrom(c, w, events)) && Within(events, x.now)
    ensures RunFrom(c, w, events).spool == spool.View() && RunFrom(c, w, events).store == control.View()
    ensures RunFrom(c, w, events).snapshots == w.snapshots
    ensures r.Ok? ==>
              && Passed(x, e)
              && spool.View()
                 == old(spool.View()).(batches := old(spool.batches)[1..],
                                       acked := old(spool.acked) + {old(spool.batches)[0].seqNo})
    ensures r.Err? ==> spool.View() == old(spool.View()) && r.error == FaultError(x, e)
    ensures Faultless(x, e, c.maxAge) ==> r.Ok?
  {
    hide Good, Within, Passed, FaultError, Faultless, Inv, Step, RunFrom,
         ControlSpec.Ingest, ControlSpec.InRange, ControlSpec.Stores;
    var answer, steps := Post(control, e, x, c, w);
    events := steps;
    if answer.Err? { return Err(answer.error), events; }
    if answer.value != e.batchId { return Err(AckIdMismatch), events; }
    ghost var sent := RunFrom(c, w, events);
    OneMoreEvent(c, w, events, Event.Acknowledge(e));
    WithinAck(events, e, x.now);
    AcknowledgeHead(spool, e, c, sent);
    events := events + [Event.Acknowledge(e)];
    return Ok(()), events;
  }

  lemma OneMoreSeq(rows: seq<SpoolSpec.Row>, i: nat)
    requires i < |rows|
    ensures Seqs(rows[..i + 1]) == Seqs(rows[..i]) + {rows[i].seqNo} && rows[i..][1..] == rows[i + 1..]
    ensures rows[i..] != [] && rows[i..][0] == rows[i]
  {
    assert rows[..i + 1] == rows[..i] + [rows[i]];
  }

  lemma NoSeqs(rows: seq<SpoolSpec.Row>)
    ensures Seqs(rows[..0]) == {} && rows[0..] == rows
  {
  }

  /** One upload run. It acknowledges a prefix of the snapshot, leaves the rest
      pending, and stops at the first exchange with a fault; without a fault it
      acknowledges min(limit, pending). It never passes a batch the store cannot
      represent or a lost or foreign answer. The ghost events show the run as steps
      of the protocol. */
  method UploadOnce(spool: Spool, control: ControlStore, limit: nat, net: nat -> Exchange,
                    ghost c: Config, ghost w0: World, ghost latest: nat)
    returns (r: Result<nat, UploadError>, ghost events: seq<Event>)
    requires spool.Valid() && control.Valid() && spool.limits == c.limits && spool.codec == c.codec
    requires control.maxAgeSeconds == c.maxAge && control.codec == c.codec
    requires Good(c, w0) && w0.spool == spool.View() && w0.store == control.View()
    modifies spool, control
    ensures spool.Valid() && control.Valid()
    ensures RunFrom(c, w0, events).spool == spool.View() && RunFrom(c, w0, events).store == control.View()
    ensures
      var before, n := old(spool.batches), |old(spool.batches)| - |spool.batches|;
      && 0 <= n <= Min(limit, |before|) && Drained(old(spool.View()), spool.View(), n)
      && (forall j | 0 <= j < n :: Passed(net(j), before[j].payload))
      && (r.Ok? ==> r.value == n == Min(limit, |before|))
      && (r.Err? && Fits(limit) ==> n < Min(limit, |before|) && StopsAt(net(n), before[n].payload, c.maxAge, r.error))
      && (r.Err? && !Fits(limit) ==> n == 0 && r.error.Spooling?)
    ensures (forall j :: net(j).now <= latest) ==> Within(events, latest)
  {
    hide Good, Within, Passed, FaultError, Faultless, Drained, Step, Inv, RunFrom;
    ghost var before, was := spool.batches, spool.View();
    NoEvents(c, w0);
    DrainNone(was);
    events := [];
    WithinNone(latest);
    var snapshot := spool.Pending(limit);
    if snapshot.Err? { return Err(Spooling(snapshot.error)), events; }
    events := [Event.Snapshot(limit)];
    WithinSnapshot(limit, latest);
    ghost var w := RunFrom(c, w0, events);
    SnapshotTaken(c, w0, limit);
    RunKeepsGood(c, w0, events);
    var envelopes := snapshot.value;
    var i := 0;
    while i < |envelopes|
      invariant i <= |envelopes| == Min(limit, |before|)
      invariant spool.Valid() && control.Valid()
      invariant w == RunFrom(c, w0, events) && Good(c, w) && w.spool == spool.View() && w.store == control.View()
      invariant forall j | 0 <= j < |envelopes| :: envelopes[j] in w.snapshots && envelopes[j] == before[j].payload
      invariant forall j | 0 <= j < i :: Passed(net(j), before[j].payload)
      invariant (forall j :: net(j).now <= latest) ==> Within(events, latest)
      invariant Drained(was, spool.View(), i) && |spool.batches| == |before| - i
    {
      var e := envelopes[i];
      DrainOneMore(was, spool.View(), i);
      var sent, steps := SendOne(spool, control, e, net(i), c, w);
      RunsCompose(c, w0, events, steps);
      WithinAppend(events, steps, net(i).now, latest);
      events := events + steps;
      w := RunFrom(c, w0, events);
      if sent.Err? { return Err(sent.error), events; }
      i := i + 1;
    }
    return Ok(i), events;
  }

  /** Runs of `upload_once` with a positive limit, repeated as long as batches
      are pending, empty the spool when no exchange fails: each run shortens the
      table. */
  method UploadUntilEmpty(spool: Spool, control: ControlStore, limit: nat, net: nat -> Exchange, ghost c: Config,
                          ghost w0: World)
    returns (runs: nat, ghost events: seq<Event>)
    requires spool.Valid() && control.Valid() && spool.limits == c.limits && spool.codec == c.codec
    requires control.maxAgeSeconds == c.maxAge && control.codec == c.codec
    requires Good(c, w0) && w0.spool == spool.View() && w0.store == control.View()
    requires limit >= 1 && Fits(limit)
    requires forall i, row | row in spool.batches :: Faultless(net(i), row.payload, c.maxAge)
    modifies spool, control
    ensures spool.Valid() && spool.batches == [] && spool.acked == old(spool.acked) + Seqs(old(spool.batches))
    ensures spool.gaps == old(spool.gaps) && spool.log == old(spool.log)
    ensures RunFrom(c, w0, events).spool == spool.View() && RunFrom(c, w0, events).store == control.View()
  {
    hide Good, Step, Inv, Faultless, Passed, StopsAt, Drained, RunFrom, Within;
    ghost var was := spool.View();
    ghost var done: nat := 0;
    DrainNone(was);
    NoEvents(c, w0);
    runs, events := 0, [];
    while |spool.batches| > 0
      invariant spool.Valid() && control.Valid() && Drained(was, spool.View(), done)
      invariant RunFrom(c, w0, events).spool == spool.View() && RunFrom(c, w0, events).store == control.View()
      invariant forall row | row in spool.batches :: row in was.batches
      decreases |spool.batches|
    {
      RunKeepsGood(c, w0, events);
      ghost var middle := spool.View();
      var r, steps := UploadOnce(spool, control, limit, net, c, RunFrom(c, w0, events), 0);
      RunsCompose(c, w0, events, steps);
      events := events + steps;
      ghost var n := |middle.batches| - |spool.batches|;
      DrainMore(was, middle, spool.View(), done, n);
      assert r.Ok? by { NoFaultNoStop(was.batches, middle.batches, net, n, c.maxAge, r); }
      done := done + n;
      runs := runs + 1;
    }
    AllDrained(was, spool.View(), done);
  }

  lemma NoFaultNoStop(all: seq<SpoolSpec.Row>, rows: seq<SpoolSpec.Row>, net: nat -> Exchange, n: nat, maxAge: nat,
                      r: Result<nat, UploadError>)
    requires forall i, row | row in all :: Faultless(net(i), row.payload, maxAge)
    requires forall row | row in rows :: row in all
    requires r.Err? ==> n < |rows| && StopsAt(net(n), rows[n].payload, maxAge, r.error)
    ensures r.Ok?
  {
    assert n < |rows| ==> rows[n] in rows && rows[n] in all;
  }

  lemma AllDrained(was: SpoolSpec.State, now: SpoolSpec.State, n: nat)
    requires Drained(was, now, n) && now.batches == []
    ensures now.acked == was.acked + Seqs(was.batches) && now.gaps == was.gaps && now.log == was.log
  {
    assert was.batches[..n] == was.batches;
  }

  lemma SeqsCompose(rows: seq<SpoolSpec.Row>, a: nat, b: nat)
    requires a + b <= |rows|
    ensures Seqs(rows[..a]) + Seqs(rows[a..][..b]) == Seqs(rows[..a + b]) && rows[a..][b..] == rows[a + b..]
  {
    assert rows[..a + b] == rows[..a] + rows[a..][..b];
  }
}
