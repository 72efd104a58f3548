/** The whole path in one program: capture, upload and query (src/main.rs runs
    them as separate processes on the same spool). */
module Pipeline {
  import opened Wrappers
  import opened Model
  import opened Flows
  import opened Counts
  import opened Aggregate
  import SpoolSpec
  import opened SpoolProofs
  import opened SpoolStore
  import ControlSpec
  import opened ControlStoreObject
  import Queries
  import Protocol
  import Capture
  import Upload
  import EndToEnd
  import Packet
  import PacketRoundTrip
  import PacketOutcomes

  function WorldOf(spool: SpoolSpec.State, store: ControlSpec.Store): Protocol.World {
    Protocol.World(spool, store, {}, {}, {}, {})
  }

  lemma FreshWorldIsGood(c: Protocol.Config, spool: SpoolSpec.State)
    requires Inv(spool, c.limits, c.codec) && spool.acked == {}
    ensures Protocol.Good(c, WorldOf(spool, ControlSpec.EMPTY))
    ensures Protocol.AllStored(WorldOf(spool, ControlSpec.EMPTY))
  {
    hide RowsOk, GapsOk, LogOk, SpoolSpec.TotalBytes;
  }

  /** When nothing is pending, nothing was lost and nothing expired, the store's
      rows for the node are exactly the spooled batches. */
  lemma DeliveredRows(c: Protocol.Config, w: Protocol.World, node: string)
    requires Protocol.Good(c, w) && Protocol.AllStored(w)
    requires w.spool.batches == [] && w.spool.gaps == map[]
    requires forall e | e in w.spool.log :: e.body.nodeId == node
    ensures EndToEnd.RowsAre(w.store.buckets, node, w.spool.log)
  {
    hide RowsOk, GapsOk, SpoolSpec.TotalBytes, ControlSpec.RowsBy, ControlSpec.RowsOf, ControlSpec.InRange;
    var log := w.spool.log;
    forall i, j | 0 <= i < j < |log| ensures log[i].batchId != log[j].batchId {
      if log[i].batchId == log[j].batchId { IdsAreDistinct(c.codec, log, i, j); }
    }
    forall e | e in log ensures ControlSpec.Stores(w.store, e) {
      var q :| 0 <= q < |log| && log[q] == e;
      assert q in Seqs(w.spool.batches) || q in w.spool.gaps.Keys || q in w.spool.acked;
    }
    forall r | r in w.store.buckets && r.nodeId == node ensures exists e :: e in log && e.batchId == r.batchId {
      assert r.batchId in w.store.batches;
      var e :| e in w.committed && e.batchId == r.batchId;
      assert e in Protocol.Logged(w.spool);
    }
  }

  /** What one turn adds: a frame that some encoding describes adds one packet with
      its addresses, ports, direction, time and length; a frame that is no
      encoding and is not skipped adds one failure; anything else adds nothing. */
  lemma TurnAdds(c: Capture.CaptureConfig, linkType: int, turns: seq<Capture.Turn>, t: Capture.Turn)
    ensures
      var before, after := Capture.Parsed(c, linkType, turns), Capture.Parsed(c, linkType, turns + [t]);
      var failed := Capture.Failures(c, linkType, turns + [t]) - Capture.Failures(c, linkType, turns);
      && (forall s: PacketRoundTrip.Sent ::
            t.read.Frame? && PacketRoundTrip.Valid(s) && PacketRoundTrip.LinkType(s.link) == linkType
            && t.read.data == PacketRoundTrip.Encode(s) ==>
              && |after| == |before| + 1 && after[..|before|] == before && failed == 0
              && PacketRoundTrip.Describes(after[|before|], s, t.read.timestamp, t.read.length, c.capturePoint,
                                           c.localIps))
      && (!IsEncoding(t, linkType) ==> after == before && failed == if t.read.Frame?
          && !IsSkipped(c, linkType, t) then 1 else 0)
  {
    var n := |turns|;
    assert (turns + [t])[..n] == turns && (turns + [t])[..n + 1] == turns + [t] && (turns + [t])[n] == t;
    Capture.StreamGrows(c, linkType, turns + [t], n);
    hide Packet.ParsePacket, Capture.Parsed, Capture.Failures, PacketRoundTrip.Encode, PacketRoundTrip.Describes;
    if t.read.Frame? {
      PacketOutcomes.AcceptsExactlyEncodings(t.read.data, linkType, t.read.timestamp, t.read.length, c.capturePoint,
                                             c.localIps);
      forall s: PacketRoundTrip.Sent | PacketRoundTrip.Valid(s) && PacketRoundTrip.LinkType(s.link) == linkType
        && t.read.data == PacketRoundTrip.Encode(s)
        ensures
          var r := Capture.ParseTurn(c, linkType, t);
          && r.Ok? && r.value.Some?
          && PacketRoundTrip.Describes(r.value.value, s, t.read.timestamp, t.read.length, c.capturePoint, c.localIps)
      {
        PacketRoundTrip.RoundTrip(s, t.read.timestamp, t.read.length, c.capturePoint, c.localIps);
      }
    }
  }

  ghost predicate IsEncoding(t: Capture.Turn, linkType: int) {
    t.read.Frame? && exists s: PacketRoundTrip.Sent ::
      PacketRoundTrip.Valid(s) && PacketRoundTrip.LinkType(s.link) == linkType
        && t.read.data == PacketRoundTrip.Encode(s)
  }

  predicate IsSkipped(c: Capture.CaptureConfig, linkType: int, t: Capture.Turn)
    requires t.read.Frame?
  {
    PacketOutcomes.Skips(Packet.ParsePacket(t.read.data, linkType, t.read.timestamp, t.read.length, c.capturePoint,
                                            c.localIps))
  }

  /** Captures into a new spool, uploads for a number of rounds over any network
      and asks for the series. When the capture returned, every batch got through
      and none expired, the answer is the captured frames grouped by time. */
  method CaptureUploadQuery(c: Capture.CaptureConfig, linkType: int, turns: seq<Capture.Turn>, config: Protocol.Config,
                            limit: nat, rounds: nat, net: (nat, nat) -> Upload.Exchange, ghost latest: nat)
    returns (outcome: Capture.Outcome, used: nat, delivered: bool, answer: Result<seq<SeriesPoint>, Queries.QueryError>,
             ghost batches: seq<BatchEnvelope>)
    requires c.bucketSeconds > 0 && config.maxAge > 0
    requires config.limits.maxPayloadBytes > 0 && config.limits.maxAgeSeconds > 0
    ensures used <= |turns|
    ensures
      && outcome.Returned? && delivered
      && (forall k, i :: net(k, i).now <= latest)
      && (forall e | e in batches :: e.body.createdAt >= Cutoff(latest, config.maxAge))
      ==> answer == Ok(Grouped(Singles(c.bucketSeconds, Capture.Parsed(c, linkType, turns[..used])),
                               Queries.PointScope(Some(c.capturePoint))))
          && IsSeriesOf(answer.value, Capture.Parsed(c, linkType, turns[..used]), OfPoint(c.capturePoint),
                        c.bucketSeconds)
  {
    hide Inv, Protocol.Good, Protocol.AllStored, Protocol.Within, Protocol.FreshAt, Protocol.Step, Protocol.RunFrom,
         Capture.Conserved, Capture.Parsed, Capture.FromCapture, Capture.AllClosed, Capture.Accounted, EndToEnd.RowsAre,
         Queries.RowsFit, Queries.Series, Grouped, Singles, Contents, IsSeriesOf;
    var spool := new Spool(config.limits, config.codec);
    var control := new ControlStore(config.maxAge, config.codec);
    var parseErrors;
    ghost var marks, retained, lost, lostErrors;
    outcome, used, parseErrors, batches, marks, retained, lost, lostErrors := Capture.Run(c, linkType, spool, turns);
    assert [] + batches == batches;
    ghost var w0 := WorldOf(spool.View(), control.View());
    FreshWorldIsGood(config, spool.View());
    ghost var events: seq<Protocol.Event> := [];
    Upload.NoEvents(config, w0);
    Upload.WithinNone(latest);
    for round := 0 to rounds
      invariant spool.Valid() && control.Valid() && spool.log == batches
      invariant Protocol.Good(config, Protocol.RunFrom(config, w0, events))
      invariant Protocol.RunFrom(config, w0, events).spool == spool.View()
      invariant Protocol.RunFrom(config, w0, events).store == control.View()
      invariant (forall k, i :: net(k, i).now <= latest) ==> Protocol.Within(events, latest)
    {
      var report, steps := Upload.UploadOnce(spool, control, limit, (i: nat) => net(round, i), config,
                                             Protocol.RunFrom(config, w0, events), latest);
      Upload.RunsCompose(config, w0, events, steps);
      if forall k, i :: net(k, i).now <= latest { Upload.WithinAppend(events, steps, latest, latest); }
      Protocol.RunKeepsGood(config, w0, events + steps);
      events := events + steps;
    }
    delivered := |spool.batches| == 0 && |spool.gaps| == 0;
    answer := control.Series(c.nodeId, Some(c.capturePoint), None, None);
    if outcome.Returned? && delivered && (forall k, i :: net(k, i).now <= latest)
       && (forall e | e in batches :: e.body.createdAt >= Cutoff(latest, config.maxAge))
    {
      BatchesFresh(config, spool.View(), latest);
      Protocol.NothingExpires(config, w0, events, latest);
      NodeOfCapture(c, batches);
      DeliveredRows(config, Protocol.RunFrom(config, w0, events), c.nodeId);
      EndToEnd.CapturedSeries(c, linkType, turns[..used], batches, control.View());
    }
  }

  lemma BatchesFresh(c: Protocol.Config, s: SpoolSpec.State, latest: nat)
    requires forall e | e in s.log :: e.body.createdAt >= Cutoff(latest, c.maxAge)
    ensures Protocol.FreshAt(c, s, latest)
  {
  }

  lemma NodeOfCapture(c: Capture.CaptureConfig, batches: seq<BatchEnvelope>)
    requires forall i | 0 <= i < |batches| :: Capture.FromCapture(c, batches[i])
    ensures forall e | e in batches :: e.body.nodeId == c.nodeId
  {
    forall e | e in batches ensures e.body.nodeId == c.nodeId {
      var i :| 0 <= i < |batches| && batches[i] == e;
      assert Capture.FromCapture(c, batches[i]);
    }
  }
}
