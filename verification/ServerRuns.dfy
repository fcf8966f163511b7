/**
 What every run of the UDPing server keeps: nothing that arrived is lost or counted twice, and no
 session is reported later than three keepalive intervals after its last packet.
 */
module ServerRuns {
  import opened SeqWindow
  import opened GuidOrder
  import opened ServerModel
  import Statistics

  // ---------- Well-formed sessions ----------

  ghost predicate SessionOf(s: Session, g: Guid) {
    && s.arrivals != []
    && s.window == WindowOf(SeqNums(s.arrivals))
    && s.startTime == s.arrivals[0].packet.startTime
    && forall i | 0 <= i < |s.arrivals| :: s.arrivals[i].packet.guid == g
  }

  ghost predicate SessionsOf(st: Server) {
    && (forall g | g in st.sessions :: SessionOf(st.sessions[g], g))
    && (forall i | 0 <= i < |st.emitted| :: SessionOf(st.emitted[i].session, st.emitted[i].guid))
  }

  /** Session identities are used once, and a swept session's identity is never live again. */
  ghost predicate UniqueIds(st: Server) {
    LiveIdsUnique(st) && ReportedIdsPast(st) && forall source | source in st.sources :: st.sources[source] < st.created
  }

  ghost predicate LiveIdsUnique(st: Server) {
    && (forall g | g in st.sessions :: st.sessions[g].id < st.created)
    && (forall g, h | g in st.sessions && h in st.sessions && st.sessions[g].id == st.sessions[h].id :: g == h)
  }

  ghost predicate ReportedIdsPast(st: Server) {
    && (forall i | 0 <= i < |st.emitted| :: st.emitted[i].session.id < st.created)
    && (forall i, g | 0 <= i < |st.emitted| && g in st.sessions :: st.emitted[i].session.id != st.sessions[g].id)
  }

  /** The source map never leads to a live session of another source. */
  ghost predicate SourcesOwn(st: Server) {
    forall source, g | source in st.sources && g in st.sessions && st.sources[source] == st.sessions[g].id ::
      st.sessions[g].source == source
  }

  ghost predicate WellFormed(st: Server) {
    SessionsOf(st) && UniqueIds(st) && SourcesOwn(st) && st.created == |st.sessions| + |st.emitted|
  }

  lemma AppendSession(s: Session, g: Guid, a: Arrival, now: int)
    requires a.packet.guid == g
    requires SessionOf(s, g) || (s.arrivals == [] && s.startTime == a.packet.startTime
                                 && s.window == Window(a.packet.seqNum, a.packet.seqNum))
    ensures SessionOf(Append(s, a, now), g)
  {
    var arrivals := s.arrivals + [a];
    assert SeqNums(arrivals)[..|s.arrivals|] == SeqNums(s.arrivals);
  }

  /** An arrival changes its own session, and at most the successor of another. */
  lemma ArriveFrame(st: Server, source: Source, a: Arrival, now: int)
    ensures var r, g := Arrive(st, source, a, now), a.packet.guid;
            && r.sessions.Keys == st.sessions.Keys + {g}
            && (forall h | h in st.sessions && h != g ::
                  r.sessions[h] == st.sessions[h].(successor := r.sessions[h].successor))
            && r.sessions[g] == Append(if g in st.sessions then st.sessions[g]
                                       else Session(source, a.packet.startTime, st.created, "", 0,
                                                    Window(a.packet.seqNum, a.packet.seqNum), []), a, now)
            && r.created == (if g in st.sessions then st.created else st.created + 1)
            && r.emitted == st.emitted && r.keepalive == st.keepalive
            && r.intervalPackets == st.intervalPackets + 1
  {
  }

  lemma ArriveWellFormed(st: Server, source: Source, a: Arrival, now: int)
    requires WellFormed(st)
    ensures WellFormed(Arrive(st, source, a, now))
  {
    var r, g := Arrive(st, source, a, now), a.packet.guid;
    ArriveFrame(st, source, a, now);
    ArriveSessionsOf(st, source, a, now);
    ArriveUniqueIds(st, source, a, now);
    ArriveSourcesOwn(st, source, a, now);
    assert |r.sessions.Keys| == |st.sessions.Keys| + if g in st.sessions then 0 else 1;
    assert |r.sessions| == |r.sessions.Keys| && |st.sessions| == |st.sessions.Keys|;
  }

  lemma ArriveUniqueIds(st: Server, source: Source, a: Arrival, now: int)
    requires UniqueIds(st)
    ensures UniqueIds(Arrive(st, source, a, now))
  {
    ArriveFrame(st, source, a, now);
    ArriveLiveIds(st, source, a, now);
  }

  lemma ArriveLiveIds(st: Server, source: Source, a: Arrival, now: int)
    requires LiveIdsUnique(st)
    ensures LiveIdsUnique(Arrive(st, source, a, now))
  {
    ArriveFrame(st, source, a, now);
  }

  lemma ArriveSourcesOwn(st: Server, source: Source, a: Arrival, now: int)
    requires UniqueIds(st) && SourcesOwn(st)
    ensures SourcesOwn(Arrive(st, source, a, now))
  {
    ArriveFrame(st, source, a, now);
  }

  lemma ArriveSessionsOf(st: Server, source: Source, a: Arrival, now: int)
    requires SessionsOf(st)
    ensures SessionsOf(Arrive(st, source, a, now))
  {
    var r, g := Arrive(st, source, a, now), a.packet.guid;
    ArriveFrame(st, source, a, now);
    AppendSession(if g in st.sessions then st.sessions[g]
                  else Session(source, a.packet.startTime, st.created, "", 0,
                               Window(a.packet.seqNum, a.packet.seqNum), []), g, a, now);
    forall h | h in r.sessions && h != g ensures SessionOf(r.sessions[h], h) {
      assert SessionOf(st.sessions[h], h);
    }
  }

  lemma VisitWellFormed(st: Server, g: Guid, now: int)
    requires WellFormed(st) && g in st.sessions
    ensures WellFormed(Visit(st, g, now))
  {
    if Expired(st, st.sessions[g], now) {
      var r := Visit(st, g, now);
      VisitSessionsOf(st, g, now);
      VisitUniqueIds(st, g, now);
      assert r.sessions.Keys == st.sessions.Keys - {g};
      assert |r.sessions| == |r.sessions.Keys| && |st.sessions| == |st.sessions.Keys|;
    }
  }

  lemma VisitUniqueIds(st: Server, g: Guid, now: int)
    requires UniqueIds(st) && SourcesOwn(st) && g in st.sessions
    ensures UniqueIds(Visit(st, g, now)) && SourcesOwn(Visit(st, g, now))
  {
  }

  lemma VisitSessionsOf(st: Server, g: Guid, now: int)
    requires SessionsOf(st) && g in st.sessions
    ensures SessionsOf(Visit(st, g, now))
  {
    var r := Visit(st, g, now);
    forall h | h in r.sessions ensures SessionOf(r.sessions[h], h) {
      assert SessionOf(st.sessions[h], h);
    }
  }

  lemma {:induction false} SweepWellFormed(st: Server, keys: set<Guid>, now: int)
    requires WellFormed(st) && keys <= st.sessions.Keys
    ensures WellFormed(SweepKeys(st, keys, now))
    decreases keys
  {
    if keys != {} {
      VisitWellFormed(st, Least(keys), now);
      SweepWellFormed(Visit(st, Least(keys), now), keys - {Least(keys)}, now);
    }
  }

  lemma StepWellFormed(st: Server, e: Event)
    requires WellFormed(st)
    ensures WellFormed(Step(st, e))
  {
    match e
    case Ping(source, a, arrivedAt, sweptAt) =>
      ArriveWellFormed(st, source, a, arrivedAt);
      var p := Arrive(st, source, a, arrivedAt);
      SweepWellFormed(p, p.sessions.Keys, sweptAt);
    case Alarm(now) =>
      SweepWellFormed(st, st.sessions.Keys, now);
      IntervalIrrelevant(if st.intervalPackets == 0 then Sweep(st, now) else st);
  }

  lemma IntervalIrrelevant(st: Server)
    requires WellFormed(st)
    ensures WellFormed(st.(intervalPackets := 0))
  {
  }

  /** In every run a session's window is the one its own arrivals determine, and the sessions ever
      created are the live ones and the reported ones. */
  lemma {:induction false} RunWellFormed(keepalive: int, events: seq<Event>)
    ensures WellFormed(Run(keepalive, events))
    ensures Run(keepalive, events).keepalive == keepalive
  {
    if events != [] {
      RunWellFormed(keepalive, events[..|events| - 1]);
      var st, e := Run(keepalive, events[..|events| - 1]), events[|events| - 1];
      StepWellFormed(st, e);
      StepKeepalive(st, e);
    }
  }

  lemma StepKeepalive(st: Server, e: Event)
    ensures Step(st, e).keepalive == st.keepalive
  {
    match e
    case Ping(source, a, arrivedAt, sweptAt) => SweepExact(Arrive(st, source, a, arrivedAt), sweptAt);
    case Alarm(now) => SweepExact(st, now);
  }

  // ---------- Every arrival is in exactly one session, in order ----------

  /** The arrivals with GUID `g`, in order. */
  function ArrivalsOf(events: seq<Event>, g: Guid): seq<Arrival> {
    if events == [] then []
    else
      var e := events[|events| - 1];
      ArrivalsOf(events[..|events| - 1], g) + if e.Ping? && e.arrival.packet.guid == g then [e.arrival] else []
  }

  /** The arrivals in the records emitted for `g`, in order. */
  function EmittedArrivals(es: seq<Emission>, g: Guid): seq<Arrival> {
    if es == [] then []
    else
      var e := es[|es| - 1];
      EmittedArrivals(es[..|es| - 1], g) + if e.guid == g then e.session.arrivals else []
  }

  function LiveArrivals(sessions: map<Guid, Session>, g: Guid): seq<Arrival> {
    if g in sessions then sessions[g].arrivals else []
  }

  function History(st: Server, g: Guid): seq<Arrival> {
    EmittedArrivals(st.emitted, g) + LiveArrivals(st.sessions, g)
  }

  lemma VisitHistory(st: Server, k: Guid, now: int, g: Guid)
    requires k in st.sessions
    ensures History(Visit(st, k, now), g) == History(st, g)
  {
    var r := Visit(st, k, now);
    if Expired(st, st.sessions[k], now) {
      assert r.emitted[..|r.emitted| - 1] == st.emitted;
      if g == k {
        assert g !in r.sessions;
      }
    }
  }

  lemma {:induction false} SweepHistory(st: Server, keys: set<Guid>, now: int, g: Guid)
    requires keys <= st.sessions.Keys
    ensures History(SweepKeys(st, keys, now), g) == History(st, g)
    decreases keys
  {
    if keys != {} {
      VisitHistory(st, Least(keys), now, g);
      SweepHistory(Visit(st, Least(keys), now), keys - {Least(keys)}, now, g);
    }
  }

  lemma ArriveHistory(st: Server, source: Source, a: Arrival, now: int, g: Guid)
    ensures History(Arrive(st, source, a, now), g)
            == History(st, g) + if a.packet.guid == g then [a] else []
  {
    var r := Arrive(st, source, a, now);
    assert r.emitted == st.emitted;
    assert LiveArrivals(r.sessions, g) == LiveArrivals(st.sessions, g) + if a.packet.guid == g then [a] else [];
  }

  /** For every run and every GUID: the records emitted for it followed by its live session, if any,
      hold exactly the arrivals with that GUID, each once and in order of arrival. */
  lemma {:induction false} RunHistory(keepalive: int, events: seq<Event>, g: Guid)
    ensures History(Run(keepalive, events), g) == ArrivalsOf(events, g)
  {
    if events != [] {
      var front, e := events[..|events| - 1], events[|events| - 1];
      RunHistory(keepalive, front, g);
      var st := Run(keepalive, front);
      match e
      case Ping(source, a, arrivedAt, sweptAt) =>
        ArriveHistory(st, source, a, arrivedAt, g);
        var p := Arrive(st, source, a, arrivedAt);
        SweepHistory(p, p.sessions.Keys, sweptAt, g);
      case Alarm(now) =>
        SweepHistory(st, st.sessions.Keys, now, g);
    }
  }

  // ---------- Conservation of counts ----------

  function PingCount(events: seq<Event>): nat {
    if events == [] then 0
    else PingCount(events[..|events| - 1]) + if events[|events| - 1].Ping? then 1 else 0
  }

  function EmittedCount(es: seq<Emission>): nat {
    if es == [] then 0 else EmittedCount(es[..|es| - 1]) + es[|es| - 1].Count()
  }

  ghost function LiveCount(sessions: map<Guid, Session>): nat {
    if sessions == map[] then 0
    else
      var g :| g in sessions;
      |sessions[g].arrivals| + LiveCount(sessions - {g})
  }

  lemma {:induction false} LiveCountRemove(sessions: map<Guid, Session>, g: Guid)
    requires g in sessions
    ensures LiveCount(sessions) == |sessions[g].arrivals| + LiveCount(sessions - {g})
  {
    var h :| h in sessions && LiveCount(sessions) == |sessions[h].arrivals| + LiveCount(sessions - {h});
    if g != h {
      LiveCountRemove(sessions - {h}, g);
      LiveCountRemove(sessions - {g}, h);
      assert sessions - {g} - {h} == sessions - {h} - {g};
    }
  }

  lemma {:induction false} LiveCountSame(m: map<Guid, Session>, m': map<Guid, Session>)
    requires m.Keys == m'.Keys && forall g | g in m :: |m[g].arrivals| == |m'[g].arrivals|
    ensures LiveCount(m) == LiveCount(m')
  {
    if m != map[] {
      var g :| g in m;
      LiveCountRemove(m, g);
      LiveCountRemove(m', g);
      LiveCountSame(m - {g}, m' - {g});
    }
  }

  lemma ArriveCount(st: Server, source: Source, a: Arrival, now: int)
    ensures LiveCount(Arrive(st, source, a, now).sessions) == LiveCount(st.sessions) + 1
  {
    var g := a.packet.guid;
    var r := Arrive(st, source, a, now);
    LiveCountRemove(r.sessions, g);
    assert (r.sessions - {g}).Keys == (st.sessions - {g}).Keys;
    LiveCountSame(r.sessions - {g}, st.sessions - {g});
    if g in st.sessions {
      LiveCountRemove(st.sessions, g);
    } else {
      assert st.sessions - {g} == st.sessions;
    }
  }

  lemma {:induction false} SweepCount(st: Server, keys: set<Guid>, now: int)
    requires keys <= st.sessions.Keys
    ensures var r := SweepKeys(st, keys, now);
            LiveCount(r.sessions) + EmittedCount(r.emitted) == LiveCount(st.sessions) + EmittedCount(st.emitted)
    decreases keys
  {
    if keys != {} {
      var k := Least(keys);
      var st1 := Visit(st, k, now);
      SweepCount(st1, keys - {k}, now);
      if Expired(st, st.sessions[k], now) {
        LiveCountRemove(st.sessions, k);
        assert st1.emitted[..|st1.emitted| - 1] == st.emitted;
      }
    }
  }

  /** Accepted pings = counts of live sessions + counts of emitted records;
      sessions created = sessions live + records emitted. */
  lemma {:induction false} RunConservesCounts(keepalive: int, events: seq<Event>)
    ensures var st := Run(keepalive, events);
            && PingCount(events) == LiveCount(st.sessions) + EmittedCount(st.emitted)
            && st.created == |st.sessions| + |st.emitted|
  {
    RunWellFormed(keepalive, events);
    if events != [] {
      var front, e := events[..|events| - 1], events[|events| - 1];
      RunConservesCounts(keepalive, front);
      var st := Run(keepalive, front);
      match e
      case Ping(source, a, arrivedAt, sweptAt) =>
        ArriveCount(st, source, a, arrivedAt);
        var p := Arrive(st, source, a, arrivedAt);
        SweepCount(p, p.sessions.Keys, sweptAt);
      case Alarm(now) =>
        SweepCount(st, st.sessions.Keys, now);
    }
  }

  /** Every record of every run is consistent with itself. */
  lemma RecordsConsistent(keepalive: int, events: seq<Event>, i: nat)
    requires i < |Run(keepalive, events).emitted|
    ensures var e := Run(keepalive, events).emitted[i];
            var r := e.ToRecord();
            && r.summary.count == e.Count() >= 1
            && r.summary.IsConsistent()
            && (9 * e.Count() < MODULUS - 18 ==> 1 <= r.targetCount <= 1 + 9 * e.Count())
  {
    RunWellFormed(keepalive, events);
    var e := Run(keepalive, events).emitted[i];
    assert SessionOf(e.session, e.guid);
    SummaryMeaning(e.session.arrivals);
    Statistics.PointsConsistent(Latencies(e.session.arrivals));
    if 9 * e.Count() < MODULUS - 18 {
      EmittedTargetBound(e);
    }
  }

  lemma EmittedTargetBound(e: Emission)
    requires SessionOf(e.session, e.guid) && 9 * e.Count() < MODULUS - 18
    ensures 1 <= e.Target() <= 1 + 9 * e.Count()
  {
    TargetCountBound(SeqNums(e.session.arrivals), if e.next.Some? then Wrap(e.next.value.window.min - 1) else 0);
  }

  // ---------- Bounded reporting delay ----------

  function LastAlarm(start: int, events: seq<Event>): int {
    if events == [] then start
    else
      var e := events[|events| - 1];
      if e.Alarm? then e.now else LastAlarm(start, events[..|events| - 1])
  }

  function Clock(start: int, events: seq<Event>): int {
    if events == [] then start
    else match events[|events| - 1]
      case Ping(_, _, _, sweptAt) => sweptAt
      case Alarm(now) => now
  }

  /** A run started at `start` whose clock never goes back and whose alarms are never more than
      `keepalive` apart. */
  ghost predicate Timely(keepalive: int, start: int, events: seq<Event>) {
    events == [] ||
    var front, e := events[..|events| - 1], events[|events| - 1];
    && Timely(keepalive, start, front)
    && Clock(start, events) <= LastAlarm(start, front) + keepalive
    && match e
       case Ping(_, _, arrivedAt, sweptAt) => Clock(start, front) <= arrivedAt <= sweptAt
       case Alarm(now) => Clock(start, front) <= now
  }

  lemma {:induction false} LastAlarmPast(keepalive: int, start: int, events: seq<Event>)
    requires Timely(keepalive, start, events)
    ensures start <= LastAlarm(start, events) <= Clock(start, events)
  {
    if events != [] {
      LastAlarmPast(keepalive, start, events[..|events| - 1]);
    }
  }

  /** While `s` is live: either the last alarm did not find it expired, or it did, packets had come
      in that interval so it did not sweep, and none has come since. */
  ghost predicate Pending(st: Server, s: Session, lastAlarm: int, clock: int) {
    && s.lastArrival <= clock
    && (lastAlarm <= clock <= s.lastArrival + st.keepalive
        || (clock == lastAlarm <= s.lastArrival + 2 * st.keepalive && st.intervalPackets == 0))
  }

  ghost predicate OnTime(keepalive: int, e: Emission) {
    e.session.lastArrival + keepalive < e.ToRecord().time <= e.session.lastArrival + 3 * keepalive
  }

  ghost predicate AllOnTime(st: Server) {
    forall i | 0 <= i < |st.emitted| :: OnTime(st.keepalive, st.emitted[i])
  }

  ghost predicate AllPending(st: Server, lastAlarm: int, clock: int) {
    forall g | g in st.sessions :: Pending(st, st.sessions[g], lastAlarm, clock)
  }

  /** Every record of a timely run is emitted more than one and at most three keepalive intervals
      after the last arrival of its session, and a session is never live more than two after it. */
  lemma {:induction false} ReportingDelay(keepalive: int, start: int, events: seq<Event>)
    requires keepalive >= 1 && Timely(keepalive, start, events)
    ensures var st := Run(keepalive, events);
            && AllOnTime(st)
            && AllPending(st, LastAlarm(start, events), Clock(start, events))
            && st.keepalive == keepalive
            && (forall g | g in st.sessions ::
                  Clock(start, events) <= st.sessions[g].lastArrival + 2 * keepalive)
  {
    LastAlarmPast(keepalive, start, events);
    if events != [] {
      var front, e := events[..|events| - 1], events[|events| - 1];
      ReportingDelay(keepalive, start, front);
      LastAlarmPast(keepalive, start, front);
      var st, la := Run(keepalive, front), LastAlarm(start, front);
      match e
      case Ping(source, a, arrivedAt, sweptAt) =>
        PingOnTime(st, source, a, la, Clock(start, front), arrivedAt, sweptAt);
      case Alarm(now) =>
        AlarmOnTime(st, la, Clock(start, front), now);
    }
  }

  lemma PingOnTime(st: Server, source: Source, a: Arrival, lastAlarm: int, clock: int, arrivedAt: int, sweptAt: int)
    requires st.keepalive >= 1 && AllOnTime(st) && AllPending(st, lastAlarm, clock)
    requires lastAlarm <= clock <= arrivedAt <= sweptAt <= lastAlarm + st.keepalive
    ensures var r := Step(st, Ping(source, a, arrivedAt, sweptAt));
            AllOnTime(r) && AllPending(r, lastAlarm, sweptAt) && r.keepalive == st.keepalive
  {
    ArriveFrame(st, source, a, arrivedAt);
    var p := Arrive(st, source, a, arrivedAt);
    forall g | g in p.sessions
      ensures p.sessions[g].lastArrival <= arrivedAt && sweptAt <= p.sessions[g].lastArrival + 3 * p.keepalive
    {
      if g != a.packet.guid { assert Pending(st, st.sessions[g], lastAlarm, clock); }
    }
    SweepOnTime(p, sweptAt);
  }

  lemma AlarmOnTime(st: Server, lastAlarm: int, clock: int, now: int)
    requires st.keepalive >= 1 && AllOnTime(st) && AllPending(st, lastAlarm, clock)
    requires lastAlarm <= clock <= now <= lastAlarm + st.keepalive
    ensures var r := Step(st, Alarm(now));
            AllOnTime(r) && AllPending(r, now, now) && r.keepalive == st.keepalive
  {
    forall g | g in st.sessions ensures now <= st.sessions[g].lastArrival + 3 * st.keepalive {
      assert Pending(st, st.sessions[g], lastAlarm, clock);
    }
    SweepOnTime(st, now);
  }

  lemma SweepOnTime(p: Server, now: int)
    requires forall g | g in p.sessions :: now <= p.sessions[g].lastArrival + 3 * p.keepalive
    requires AllOnTime(p)
    ensures var r := Sweep(p, now);
            && AllOnTime(r)
            && (forall g | g in r.sessions :: g in p.sessions && r.sessions[g] == p.sessions[g]
                                              && now <= r.sessions[g].lastArrival + p.keepalive)
            && r.keepalive == p.keepalive && r.intervalPackets == p.intervalPackets
  {
    SweepExact(p, now);
    var r := Sweep(p, now);
    forall i | 0 <= i < |r.emitted| ensures OnTime(p.keepalive, r.emitted[i]) {
      if i < |p.emitted| {
        assert r.emitted[..|p.emitted|][i] == p.emitted[i];
      } else {
        var es := r.emitted[|p.emitted|..];
        assert es[i - |p.emitted|] == r.emitted[i];
        assert Due(p, p.sessions.Keys, r.emitted[i].guid, now);
      }
    }
  }

  /** The bound is attained, for every keepalive interval and every two GUIDs: the alarms one and two
      intervals after `a` each find a packet in their interval, and only the third sweeps. */
  lemma ReportingDelayTight(keepalive: int, source: Source, a: Arrival, b: Arrival)
    requires keepalive >= 1 && a.packet.guid != b.packet.guid
    ensures var events := TightRun(keepalive, source, a, b);
            && Timely(keepalive, 0, events)
            && exists i :: 0 <= i < |Run(keepalive, events).emitted|
                 && Run(keepalive, events).emitted[i].guid == a.packet.guid
                 && Run(keepalive, events).emitted[i].at
                    == Run(keepalive, events).emitted[i].session.lastArrival + 3 * keepalive
  {
    TightRunSteps(keepalive, source, a, b);
    var s3 := Run(keepalive, TightRun(keepalive, source, a, b)[..3]);
    TightPrefix(keepalive, source, a, b, s3);
    TightSuffix(s3, a.packet.guid);
  }

  lemma TightRunSteps(keepalive: int, source: Source, a: Arrival, b: Arrival)
    requires keepalive >= 1
    ensures var events := TightRun(keepalive, source, a, b);
            && Timely(keepalive, 0, events)
            && Run(keepalive, events[..3]) == Step(Step(Step(Init(keepalive), events[0]), events[1]), events[2])
            && Run(keepalive, events) == Step(Step(Run(keepalive, events[..3]), events[3]), events[4])
  {
    var events := TightRun(keepalive, source, a, b);
    TightRunStart(keepalive, source, a, b);
    RunNext(keepalive, 0, events, 3);
    RunNext(keepalive, 0, events, 4);
    assert events[..5] == events;
  }

  lemma TightRunStart(keepalive: int, source: Source, a: Arrival, b: Arrival)
    requires keepalive >= 1
    ensures var events := TightRun(keepalive, source, a, b);
            && Timely(keepalive, 0, events[..3])
            && Clock(0, events[..3]) == LastAlarm(0, events[..3]) == keepalive
            && Run(keepalive, events[..3]) == Step(Step(Step(Init(keepalive), events[0]), events[1]), events[2])
  {
    var events := TightRun(keepalive, source, a, b);
    RunNext(keepalive, 0, events, 0);
    RunNext(keepalive, 0, events, 1);
    RunNext(keepalive, 0, events, 2);
  }

  function TightRun(keepalive: int, source: Source, a: Arrival, b: Arrival): seq<Event> {
    [Ping(source, a, 0, 0), Alarm(keepalive), Ping(source, b, keepalive, keepalive),
     Alarm(2 * keepalive), Alarm(3 * keepalive)]
  }

  lemma RunNext(keepalive: int, start: int, events: seq<Event>, i: nat)
    requires i < |events|
    ensures var before, after, e := events[..i], events[..i + 1], events[i];
            && Run(keepalive, after) == Step(Run(keepalive, before), e)
            && Clock(start, after) == (match e case Ping(_, _, _, sweptAt) => sweptAt case Alarm(now) => now)
            && LastAlarm(start, after) == (if e.Alarm? then e.now else LastAlarm(start, before))
            && (Timely(keepalive, start, after) <==>
                && Timely(keepalive, start, before)
                && Clock(start, after) <= LastAlarm(start, before) + keepalive
                && match e
                   case Ping(_, _, arrivedAt, sweptAt) => Clock(start, before) <= arrivedAt <= sweptAt
                   case Alarm(now) => Clock(start, before) <= now)
  {
    assert events[..i + 1][..i] == events[..i];
  }

  lemma TightPrefix(keepalive: int, source: Source, a: Arrival, b: Arrival, s3: Server)
    requires keepalive >= 1 && a.packet.guid != b.packet.guid
    requires s3 == Step(Step(Step(Init(keepalive), Ping(source, a, 0, 0)), Alarm(keepalive)),
                        Ping(source, b, keepalive, keepalive))
    ensures a.packet.guid in s3.sessions && s3.sessions[a.packet.guid].lastArrival == 0
    ensures s3.intervalPackets == 1 && s3.keepalive == keepalive
  {
    var p1 := Arrive(Init(keepalive), source, a, 0);
    ArriveFrame(Init(keepalive), source, a, 0);
    SweepExact(p1, 0);
    var s2 := Step(Step(Init(keepalive), Ping(source, a, 0, 0)), Alarm(keepalive));
    assert s2 == Sweep(p1, 0).(intervalPackets := 0);
    ArriveFrame(s2, source, b, keepalive);
    SweepExact(Arrive(s2, source, b, keepalive), keepalive);
  }

  lemma TightSuffix(s3: Server, g: Guid)
    requires g in s3.sessions && s3.sessions[g].lastArrival == 0 && s3.intervalPackets == 1 && s3.keepalive >= 1
    ensures var r := Step(Step(s3, Alarm(2 * s3.keepalive)), Alarm(3 * s3.keepalive));
            exists i :: 0 <= i < |r.emitted| && r.emitted[i].guid == g
              && r.emitted[i].at == r.emitted[i].session.lastArrival + 3 * s3.keepalive
  {
    var now := 3 * s3.keepalive;
    var s4 := Step(s3, Alarm(2 * s3.keepalive));
    SweepExact(s4, now);
    var r := Step(s4, Alarm(now));
    var es := r.emitted[|s4.emitted|..];
    assert Due(s4, s4.sessions.Keys, g, now);
    var i :| 0 <= i < |es| && es[i].guid == g;
    assert r.emitted[|s4.emitted| + i] == es[i];
  }
}
