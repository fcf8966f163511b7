/**
 The classes of src/serversession.cc: sessions and their manager, updated in place.

 Each method is proved to take the step of the same name in ServerModel, so what is proved there
 of every run holds of these objects.
 */
module ServerSessions {
  import opened SeqWindow
  import opened GuidOrder
  import opened ServerModel
  import opened Statistics

  class ServerSession {
    var clientStartTime: int
    var successor: Guid
    var lastArrival: int
    var minSeq: SeqNum
    var maxSeq: SeqNum
    const stats: Stats
    const guid: Guid
    const source: Source
    ghost const id: nat
    ghost var arrivals: seq<Arrival>

    ghost predicate Valid()
      reads `arrivals, stats
    {
      stats.owner == id && stats.Figures() == Summarise(arrivals)
    }

    ghost function Value(): Session
      reads this
    {
      Session(source, clientStartTime, id, successor, lastArrival, Window(minSeq, maxSeq), arrivals)
    }

    constructor (source: Source, p: Packet, ghost id: nat)
      ensures Valid() && fresh(stats) && guid == p.guid
      ensures Value() == Session(source, p.startTime, id, "", 0, Window(p.seqNum, p.seqNum), [])
    {
      this.source, this.guid, this.id := source, p.guid, id;
      minSeq := p.seqNum;
      maxSeq := p.seqNum;
      clientStartTime := p.startTime;
      successor := "";
      lastArrival := 0;
      arrivals := [];
      stats := new Stats(id);
    }

    method RecordSeq(seqNum: SeqNum)
      modifies this`minSeq, this`maxSeq
      ensures Window(minSeq, maxSeq) == Record(old(Window(minSeq, maxSeq)), seqNum)
    {
      var diff: SeqNum := Wrap(seqNum - maxSeq);
      if diff > 0 && diff < 10 {
        maxSeq := seqNum;
      }
      diff := Wrap(minSeq - seqNum);
      if diff > 0 && diff < 10 {
        minSeq := seqNum;
      }
    }

    /** The record handed to the writers. */
    method WriteStats(now: int) returns (r: StatsRecord)
      requires Valid()
      modifies stats`targetCount
      ensures Valid()
      ensures r == StatsRecord(guid, source, Summarise(arrivals), TargetCount(Window(minSeq, maxSeq)), now)
    {
      var targetCount: SeqNum := Wrap(1 + maxSeq - minSeq);
      stats.SetTargetCount(targetCount);
      r := StatsRecord(guid, source, stats.Figures(), stats.targetCount, now);
    }

    /** What `receivePing` does to the session of an arriving packet. */
    method Receive(a: Arrival, now: int)
      requires Valid()
      modifies this, stats
      ensures Valid() && Value() == Append(old(Value()), a, now)
    {
      lastArrival := now;
      RecordSeq(a.packet.seqNum);
      var elapsed := a.rcvdNsec as real;
      elapsed := elapsed - a.packet.sentNsec as real;
      elapsed := elapsed / 1000000000.0;
      elapsed := elapsed + a.rcvdSec as real;
      elapsed := elapsed - a.packet.sentSec as real;
      elapsed := elapsed * 1000.0;
      var _ := stats.AddDataPoint(elapsed);
      arrivals := arrivals + [a];
      assert arrivals[..|arrivals| - 1] == old(arrivals);
    }
  }

  function RecordsOf(es: seq<Emission>): (rs: seq<StatsRecord>)
    ensures |rs| == |es| && forall i | 0 <= i < |es| :: rs[i] == es[i].ToRecord()
  {
    seq(|es|, i requires 0 <= i < |es| => es[i].ToRecord())
  }

  lemma ArriveInParts(st: Server, source: Source, a: Arrival, now: int)
    ensures var st1 := GetSession(st.(intervalPackets := st.intervalPackets + 1), source, a.packet);
            Arrive(st, source, a, now)
            == st1.(sessions := st1.sessions[a.packet.guid := Append(st1.sessions[a.packet.guid], a, now)])
  {
  }

  class ServerSessionManager {
    var sessionMap: map<Guid, ServerSession?>
    var sourceMap: map<Source, ServerSession>
    var intervalPacketsReceived: nat
    const keepalive: int
    /** What the writers were given, in order. */
    var written: seq<StatsRecord>
    ghost var emitted: seq<Emission>
    /** The session objects ever created, reported ones included; each one's `id` is its place. */
    ghost var objects: seq<ServerSession>
    ghost var Repr: set<object>

    ghost predicate Valid()
      reads `sessionMap, `sourceMap, `written, `emitted, `objects, `Repr, Repr
    {
      ObjectsValid() && SessionMapValid() && SourceMapValid() && written == RecordsOf(emitted)
    }

    ghost predicate ObjectsValid()
      reads `objects, `Repr, Repr
    {
      && this !in Repr
      && (forall i | 0 <= i < |objects| :: objects[i] in Repr && objects[i].stats in Repr)
      && (forall i | 0 <= i < |objects| :: objects[i].id == i && objects[i].Valid())
    }

    ghost predicate SessionMapValid()
      reads `sessionMap, `objects
    {
      forall g | g in sessionMap :: sessionMap[g] != null && Known(sessionMap[g]) && sessionMap[g].guid == g
    }

    ghost predicate SourceMapValid()
      reads `sourceMap, `objects
    {
      forall s | s in sourceMap :: Known(sourceMap[s])
    }

    ghost predicate Known(ds: ServerSession)
      reads `objects
    {
      ds.id < |objects| && objects[ds.id] == ds
    }

    ghost function Sessions(): map<Guid, Session>
      requires SessionMapValid() && ObjectsValid()
      reads `sessionMap, `objects, `Repr, Repr
    {
      map g | g in sessionMap :: sessionMap[g].Value()
    }

    ghost function Sources(): map<Source, nat>
      reads `sourceMap
    {
      map s | s in sourceMap :: sourceMap[s].id
    }

    /** The abstract server this object stands for. */
    ghost function State(): Server
      requires Valid()
      reads this, Repr
    {
      Server(keepalive, Sessions(), Sources(), intervalPacketsReceived, |objects|, emitted)
    }

    constructor (keepalive: int)
      ensures Valid() && State() == Init(keepalive) && Repr == {}
    {
      this.keepalive := keepalive;
      sessionMap, sourceMap := map[], map[];
      intervalPacketsReceived := 0;
      written, objects, emitted, Repr := [], [], [], {};
    }

    method GetServerSession(source: Source, p: Packet) returns (ds: ServerSession)
      requires Valid()
      modifies this, Repr
      ensures Valid() && fresh(Repr - old(Repr))
      ensures State() == GetSession(old(State()), source, p)
      ensures p.guid in sessionMap && sessionMap[p.guid] == ds
    {
      assert p.guid in GetSession(State(), source, p).sessions;
      if p.guid !in sessionMap {
        OpenSession(source, p);
      }
      ds := sessionMap[p.guid];
    }

    method OpenSession(source: Source, p: Packet)
      requires Valid() && p.guid !in sessionMap
      modifies this, Repr
      ensures Valid() && fresh(Repr - old(Repr))
      ensures State() == GetSession(old(State()), source, p)
    {
      ghost var st := State();
      var ds := new ServerSession(source, p, |objects|);
      assert State() == st;
      LinkPredecessor(source, ds.clientStartTime, p.guid);
      ghost var linked := Sessions();
      Install(source, p.guid, ds);
      assert State() == st.(sessions := linked[p.guid := ds.Value()], sources := st.sources[source := st.created],
                            created := st.created + 1);
    }

    method LinkPredecessor(source: Source, startTime: int, g: Guid)
      requires Valid()
      modifies Repr
      ensures Valid()
      ensures Sessions() == if source in sourceMap then Link(old(Sessions()), Sources()[source], startTime, g)
                            else old(Sessions())
    {
      if source in sourceMap {
        SetPredecessorLink(sourceMap[source], startTime, g);
      }
    }

    /** The outgoing session of the source, if it is of the same run, is told its successor. */
    method SetPredecessorLink(predecessor: ServerSession, startTime: int, g: Guid)
      requires Valid() && Known(predecessor)
      modifies predecessor`successor
      ensures Valid()
      ensures Sessions() == Link(old(Sessions()), predecessor.id, startTime, g)
    {
      ghost var linked := Link(Sessions(), predecessor.id, startTime, g);
      assert forall k | k in sessionMap :: sessionMap[k].id == predecessor.id <==> sessionMap[k] == predecessor;
      if predecessor.clientStartTime == startTime {
        predecessor.successor := g;
      }
      assert Sessions() == linked;
    }

    method Install(source: Source, g: Guid, ds: ServerSession)
      requires Valid() && ds.Valid() && ds.id == |objects| && ds.guid == g
      requires ds !in Repr && ds.stats !in Repr
      modifies `sessionMap, `sourceMap, `objects, `Repr
      ensures Valid() && Repr == old(Repr) + {ds, ds.stats} && sessionMap == old(sessionMap)[g := ds]
      ensures Sessions() == old(Sessions())[g := ds.Value()]
      ensures Sources() == old(Sources())[source := |old(objects)|]
      ensures |objects| == |old(objects)| + 1
    {
      Own(ds);
      SetSource(source, ds);
      SetSession(g, ds);
    }

    method SetSession(g: Guid, ds: ServerSession)
      requires ObjectsValid() && SessionMapValid() && Known(ds) && ds.guid == g
      modifies `sessionMap
      ensures SessionMapValid() && sessionMap == old(sessionMap)[g := ds]
      ensures Sessions() == old(Sessions())[g := ds.Value()] && Sources() == old(Sources())
    {
      sessionMap := sessionMap[g := ds];
    }

    method SetSource(source: Source, ds: ServerSession)
      requires ObjectsValid() && SessionMapValid() && SourceMapValid() && Known(ds)
      modifies `sourceMap
      ensures SourceMapValid() && Sessions() == old(Sessions()) && Sources() == old(Sources())[source := ds.id]
    {
      sourceMap := sourceMap[source := ds];
    }

    ghost method Own(ds: ServerSession)
      requires Valid() && ds.Valid() && ds.id == |objects|
      requires ds !in Repr && ds.stats !in Repr
      modifies `objects, `Repr
      ensures Valid() && Known(ds) && Repr == old(Repr) + {ds, ds.stats} && |objects| == |old(objects)| + 1
      ensures Sessions() == old(Sessions()) && Sources() == old(Sources())
    {
      objects := objects + [ds];
      Repr := Repr + {ds, ds.stats};
    }

    /** If the session has a live successor, its window is extended to end just before it. */
    method ExtendToSuccessor(ds: ServerSession)
      requires ObjectsValid() && SessionMapValid() && ds.guid in sessionMap && sessionMap[ds.guid] == ds
      modifies ds`minSeq, ds`maxSeq
      ensures ObjectsValid() && Sessions() - {ds.guid} == old(Sessions()) - {ds.guid}
      ensures Window(ds.minSeq, ds.maxSeq)
              == Emission(ds.guid, old(ds.Value()), Find(old(Sessions()), ds.successor), 0).FinalWindow()
    {
      if ds.successor in sessionMap {
        var successor := sessionMap[ds.successor];
        if successor != null {
          ds.RecordSeq(Wrap(successor.minSeq - 1));
        }
      }
    }

    method Report(ds: ServerSession, now: int, ghost e: Emission)
      requires Valid() && Known(ds)
      requires e.guid == ds.guid && e.session.source == ds.source && e.session.arrivals == ds.arrivals && e.at == now
      requires e.FinalWindow() == Window(ds.minSeq, ds.maxSeq)
      modifies `written, `emitted, ds.stats`targetCount
      ensures Valid() && Sessions() == old(Sessions()) && emitted == old(emitted) + [e]
    {
      var r := ds.WriteStats(now);
      Write(r, e);
    }

    method Remove(g: Guid)
      requires ObjectsValid() && SessionMapValid() && g in sessionMap
      modifies `sessionMap
      ensures SessionMapValid() && Sessions() == old(Sessions()) - {g}
    {
      sessionMap := sessionMap - {g};
    }

    method Write(r: StatsRecord, ghost e: Emission)
      requires written == RecordsOf(emitted) && r == e.ToRecord()
      modifies `written, `emitted
      ensures written == RecordsOf(emitted) && emitted == old(emitted) + [e]
    {
      written := written + [r];
      emitted := emitted + [e];
    }

    /** A session is reported with its window extended. */
    method ReportExtended(ds: ServerSession, now: int)
      requires Valid() && ds.guid in sessionMap && sessionMap[ds.guid] == ds
      modifies `written, `emitted, ds`minSeq, ds`maxSeq, ds.stats`targetCount
      ensures Valid() && Sessions() - {ds.guid} == old(Sessions()) - {ds.guid}
      ensures emitted
              == old(emitted) + [Emission(ds.guid, old(ds.Value()), Find(old(Sessions()), old(ds.successor)), now)]
    {
      ghost var e := Emission(ds.guid, ds.Value(), Find(Sessions(), ds.successor), now);
      ExtendToSuccessor(ds);
      Report(ds, now, e);
    }

    /** An expired session is reported and forgotten. */
    method ReportAndRemove(ds: ServerSession, now: int)
      requires Valid() && ds.guid in sessionMap && sessionMap[ds.guid] == ds
      modifies `written, `emitted, `sessionMap, Repr
      ensures Valid() && Sessions() == old(Sessions()) - {ds.guid}
      ensures emitted
              == old(emitted) + [Emission(ds.guid, old(ds.Value()), Find(old(Sessions()), old(ds.successor)), now)]
    {
      ReportExtended(ds, now);
      Remove(ds.guid);
    }

    /** One entry of the sweep. */
    method SweepEntry(g: Guid, now: int)
      requires Valid() && g in sessionMap
      modifies `written, `emitted, `sessionMap, Repr
      ensures Valid() && Repr == old(Repr) && State() == Visit(old(State()), g, now)
    {
      var ds := sessionMap[g];
      if ds != null {
        if ds.lastArrival < now - keepalive {
          ReportAndRemove(ds, now);
        }
      } else {
        assert false;
      }
    }

    method SweepServerSessions(now: int)
      requires Valid()
      modifies `written, `emitted, `sessionMap, Repr
      ensures Valid() && Repr == old(Repr) && State() == Sweep(old(State()), now)
    {
      ghost var start := State();
      ghost var st := start;
      var keys := sessionMap.Keys;
      assert keys == start.sessions.Keys;
      while keys != {}
        invariant Valid() && Repr == old(Repr) && State() == st && keys <= st.sessions.Keys
        invariant SweepKeys(st, keys, now) == Sweep(start, now)
        decreases keys
      {
        LeastExists(keys);
        var g :| g in keys && forall h | h in keys :: Below(g, h);
        SweepKeysStep(st, keys, g, now);
        SweepEntry(g, now);
        st := Visit(st, g, now);
        keys := keys - {g};
      }
    }

    method ReceivePing(source: Source, a: Arrival, arrivedAt: int, sweptAt: int)
      requires Valid()
      modifies this, Repr
      ensures Valid() && fresh(Repr - old(Repr))
      ensures State() == Step(old(State()), Ping(source, a, arrivedAt, sweptAt))
    {
      Accept(source, a, arrivedAt);
      SweepServerSessions(sweptAt);
    }

    /** The packet is counted and joins the session of its GUID. */
    method Accept(source: Source, a: Arrival, now: int)
      requires Valid()
      modifies this, Repr
      ensures Valid() && fresh(Repr - old(Repr))
      ensures State() == Arrive(old(State()), source, a, now)
    {
      ghost var st := State();
      intervalPacketsReceived := intervalPacketsReceived + 1;
      assert State() == st.(intervalPackets := st.intervalPackets + 1);
      Join(source, a, now);
      ArriveInParts(st, source, a, now);
    }

    /** The session of the packet's GUID is found or opened, and takes the packet. */
    method Join(source: Source, a: Arrival, now: int)
      requires Valid()
      modifies this, Repr
      ensures Valid() && fresh(Repr - old(Repr))
      ensures var st, g := GetSession(old(State()), source, a.packet), a.packet.guid;
              g in st.sessions && State() == st.(sessions := st.sessions[g := Append(st.sessions[g], a, now)])
    {
      var ds := GetServerSession(source, a.packet);
      ReceiveInto(ds, a, now);
    }

    method ReceiveInto(ds: ServerSession, a: Arrival, now: int)
      requires Valid() && a.packet.guid in sessionMap && sessionMap[a.packet.guid] == ds
      modifies ds, ds.stats
      ensures Valid()
      ensures Sessions() == old(Sessions())[a.packet.guid := Append(old(Sessions())[a.packet.guid], a, now)]
    {
      ds.Receive(a, now);
    }

    method HandleAlarm(now: int)
      requires Valid()
      modifies `written, `emitted, `sessionMap, `intervalPacketsReceived, Repr
      ensures Valid() && State() == Step(old(State()), Alarm(now))
    {
      if intervalPacketsReceived == 0 {
        SweepServerSessions(now);
      }
      intervalPacketsReceived := 0;
    }

    /** One packet or one alarm. */
    method Handle(e: Event)
      requires Valid()
      modifies this, Repr
      ensures Valid() && fresh(Repr - old(Repr)) && State() == Step(old(State()), e)
    {
      match e {
        case Ping(source, a, arrivedAt, sweptAt) => ReceivePing(source, a, arrivedAt, sweptAt);
        case Alarm(now) => HandleAlarm(now);
      }
    }
  }

  /** A server that is handed `events` one after the other has taken the run `Run(keepalive, events)`,
      and has written exactly its records. */
  method Serve(keepalive: int, events: seq<Event>) returns (m: ServerSessionManager)
    ensures fresh(m) && m.Valid() && m.State() == Run(keepalive, events)
    ensures m.written == RecordsOf(Run(keepalive, events).emitted)
  {
    m := new ServerSessionManager(keepalive);
    var i := 0;
    while i < |events|
      invariant 0 <= i <= |events|
      invariant fresh(m) && m.Valid() && m.State() == Run(keepalive, events[..i])
      invariant fresh(m.Repr)
    {
      m.Handle(events[i]);
      assert events[..i + 1][..i] == events[..i];
      i := i + 1;
    }
    assert events[..i] == events;
  }
}
