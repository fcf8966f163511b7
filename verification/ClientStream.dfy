/**
 The packets of one client run from one port, and what may happen to them on the way to the server.

 A run sends an unbounded sequence of packets, with one GUID for each measurement interval; packets are
 lost and reordered, and those that arrive are grouped by GUID into server sessions.  The same port may
 carry other runs before and after: a client that is restarted is told apart by its start time.
 */
module ClientStreams {
  import opened SeqWindow
  import opened GuidOrder
  import opened ServerModel
  import opened ServerRuns

  // ---------- Windows of sessions and of reports ----------

  function Indices(arrivals: seq<Arrival>): (ts: seq<int>)
    ensures |ts| == |arrivals|
    ensures forall i | 0 <= i < |arrivals| :: ts[i] == arrivals[i].packet.index
  {
    seq(|arrivals|, i requires 0 <= i < |arrivals| => arrivals[i].packet.index)
  }

  ghost predicate Honest(arrivals: seq<Arrival>) {
    forall i | 0 <= i < |arrivals| :: arrivals[i].packet.seqNum == Wrap(arrivals[i].packet.index)
  }

  lemma SessionWindowExact(s: Session, g: Guid)
    requires SessionOf(s, g) && Honest(s.arrivals)
    requires Tolerant(Indices(s.arrivals)) && RangeOf(Indices(s.arrivals)).Span() <= MAX_SPAN
    ensures Represents(s.window, RangeOf(Indices(s.arrivals)))
  {
    assert SeqNums(s.arrivals) == Wires(Indices(s.arrivals));
    WindowExact(Indices(s.arrivals));
  }

  // ---------- The stream of one port, and what is assumed of its run ----------

  /** The packets one client run sends from one port: one GUID per measurement interval. */
  datatype Stream = Stream(source: Source, startTime: int, guids: seq<Guid>)

  function IndicesOf(events: seq<Event>, g: Guid): seq<int> {
    Indices(ArrivalsOf(events, g))
  }

  /** The range of true sequence numbers that arrived with GUID `g`. */
  function Arrived(events: seq<Event>, g: Guid): Range
    requires ArrivalsOf(events, g) != []
  {
    RangeOf(IndicesOf(events, g))
  }

  /** The true sequence numbers that arrived with any of `guids`, in order of arrival. */
  function Delivered(events: seq<Event>, guids: seq<Guid>): seq<int> {
    if events == [] then []
    else
      var e := events[|events| - 1];
      Delivered(events[..|events| - 1], guids)
      + if e.Ping? && e.arrival.packet.guid in guids then [e.arrival.packet.index] else []
  }

  /** The records for `guids`, in the order they were emitted. */
  function Reports(es: seq<Emission>, guids: seq<Guid>): seq<Emission> {
    if es == [] then []
    else
      var e := es[|es| - 1];
      Reports(es[..|es| - 1], guids) + if e.guid in guids then [e] else []
  }

  function TotalTarget(es: seq<Emission>): int {
    if es == [] then 0 else TotalTarget(es[..|es| - 1]) + es[|es| - 1].Target()
  }

  /** GUIDs are distinct and nonempty; the packets that carry the stream's come from its source, with
      its start time and the client's counter modulo 2^32; any others from that source are of runs
      with another start time. */
  ghost predicate Carries(events: seq<Event>, s: Stream) {
    Distinct(s.guids) && forall i | 0 <= i < |events| :: CarriedBy(events[i], s)
  }

  ghost predicate CarriedBy(e: Event, s: Stream) {
    e.Ping? ==>
      var p := e.arrival.packet;
      && p.guid != ""
      && (p.guid in s.guids ==> e.source == s.source && p.startTime == s.startTime && p.seqNum == Wrap(p.index))
      && (e.source == s.source && p.guid !in s.guids ==> p.startTime != s.startTime)
  }

  /** Each interval's arrivals stay within tolerance, and the intervals' ranges follow one another. */
  ghost predicate Spaced(events: seq<Event>, s: Stream) {
    && (forall k | 0 <= k < |s.guids| ::
          && ArrivalsOf(events, s.guids[k]) != []
          && Tolerant(IndicesOf(events, s.guids[k]))
          && Arrived(events, s.guids[k]).Span() <= MAX_SPAN)
    && (forall j, k | 0 <= j < k < |s.guids| && k == j + 1 ::
          var r, n := Arrived(events, s.guids[j]), Arrived(events, s.guids[k]).lo;
          r.hi < n && n - 1 - r.lo <= MAX_SPAN)
  }

  /** And at most 9 packets are lost between the last arrival of one interval and the first of the next. */
  ghost predicate SmallGaps(events: seq<Event>, s: Stream) {
    && Spaced(events, s)
    && forall j, k | 0 <= j < k < |s.guids| && k == j + 1 ::
         Arrived(events, s.guids[k]).lo <= Arrived(events, s.guids[j]).hi + 10
  }

  /** The first packet of an interval does not overtake the first of an interval before. */
  ghost predicate FirstArrivalsInOrder(events: seq<Event>, s: Stream) {
    forall i | 0 <= i <= |events| :: Ordered(events[..i], s)
  }

  ghost predicate Ordered(pre: seq<Event>, s: Stream) {
    forall j, k | 0 <= j < k < |s.guids| ::
      ArrivalsOf(pre, s.guids[k]) != [] ==> ArrivalsOf(pre, s.guids[j]) != []
  }

  /** When a packet of another run opens a session of the same source, either none or all of this
      run's intervals have begun. */
  ghost predicate RunsApart(keepalive: int, events: seq<Event>, s: Stream) {
    forall i | 0 <= i < |events| && OpensOtherRun(Run(keepalive, events[..i]), events[i], s) ::
      NoneOrAllBegun(events[..i], s)
  }

  ghost predicate OpensOtherRun(st: Server, e: Event, s: Stream) {
    e.Ping? && e.source == s.source && e.arrival.packet.guid !in s.guids && e.arrival.packet.guid !in st.sessions
  }

  ghost predicate NoneOrAllBegun(pre: seq<Event>, s: Stream) {
    || (forall k | 0 <= k < |s.guids| :: ArrivalsOf(pre, s.guids[k]) == [])
    || (forall k | 0 <= k < |s.guids| :: ArrivalsOf(pre, s.guids[k]) != [])
  }

  /** No packet of the stream arrives after its session was reported. */
  ghost predicate NoneAfterReport(keepalive: int, events: seq<Event>, s: Stream) {
    forall i | 0 <= i < |events| && events[i].Ping? && events[i].arrival.packet.guid in s.guids ::
      !WasReported(Run(keepalive, events[..i]), events[i].arrival.packet.guid)
  }

  ghost predicate WasReported(st: Server, g: Guid) {
    exists i :: 0 <= i < |st.emitted| && st.emitted[i].guid == g
  }

  ghost function Before(st: Server, e: Event): Server {
    match e
    case Ping(source, a, arrivedAt, _) => Arrive(st, source, a, arrivedAt)
    case Alarm(_) => st
  }

  /** The server at event `i`, before its sweep. */
  ghost function AboutToSweep(keepalive: int, events: seq<Event>, i: nat): Server
    requires i < |events|
  {
    Before(Run(keepalive, events[..i]), events[i])
  }

  ghost function SweepTime(e: Event): int {
    match e case Ping(_, _, _, sweptAt) => sweptAt case Alarm(now) => now
  }

  ghost predicate Reported(st: Server, e: Event, g: Guid) {
    g in Before(st, e).sessions && g !in Step(st, e).sessions
  }

  /** The sweep of `p` at `now`, reporting `g`, finds the next session `h`. */
  ghost predicate Meets(p: Server, now: int, g: Guid, h: Guid) {
    h in p.sessions && (Expired(p, p.sessions[h], now) ==> Below(g, h))
  }

  /** The least packet of `h` has arrived. */
  ghost predicate LeastSettled(p: Server, events: seq<Event>, h: Guid)
    requires h in p.sessions
  {
    && p.sessions[h].arrivals != [] && ArrivalsOf(events, h) != []
    && RangeOf(Indices(p.sessions[h].arrivals)).lo == Arrived(events, h).lo
  }

  ghost predicate LeastsSettled(keepalive: int, events: seq<Event>, s: Stream) {
    forall i, j, k | 0 <= i < |events| && 0 <= j < k < |s.guids| && k == j + 1
                     && Reported(Run(keepalive, events[..i]), events[i], s.guids[j])
                     && s.guids[k] in AboutToSweep(keepalive, events, i).sessions ::
      LeastSettled(AboutToSweep(keepalive, events, i), events, s.guids[k])
  }

  ghost predicate SuccessorSettled(p: Server, now: int, events: seq<Event>, g: Guid, h: Guid) {
    Meets(p, now, g, h) && LeastSettled(p, events, h)
  }

  ghost predicate SuccessorsSettled(keepalive: int, events: seq<Event>, s: Stream) {
    forall i, j, k | 0 <= i < |events| && 0 <= j < k < |s.guids| && k == j + 1
                     && Reported(Run(keepalive, events[..i]), events[i], s.guids[j]) ::
      SuccessorSettled(AboutToSweep(keepalive, events, i), SweepTime(events[i]), events,
                       s.guids[j], s.guids[k])
  }

  ghost predicate AllReported(keepalive: int, events: seq<Event>, s: Stream) {
    forall k | 0 <= k < |s.guids| :: s.guids[k] !in Run(keepalive, events).sessions
  }

  ghost predicate Accountable(keepalive: int, events: seq<Event>, s: Stream) {
    && s.guids != []
    && Carries(events, s)
    && SmallGaps(events, s)
    && FirstArrivalsInOrder(events, s)
    && RunsApart(keepalive, events, s)
    && NoneAfterReport(keepalive, events, s)
    && SuccessorsSettled(keepalive, events, s)
    && AllReported(keepalive, events, s)
  }

  // ---------- Steps of a run ----------

  lemma RunStep(keepalive: int, events: seq<Event>, i: nat)
    requires i < |events|
    ensures Run(keepalive, events[..i + 1]) == Step(Run(keepalive, events[..i]), events[i])
  {
    assert events[..i + 1][..i] == events[..i];
  }

  lemma ArrivalsStep(events: seq<Event>, i: nat, g: Guid)
    requires i < |events|
    ensures ArrivalsOf(events[..i + 1], g)
            == ArrivalsOf(events[..i], g)
               + if events[i].Ping? && events[i].arrival.packet.guid == g then [events[i].arrival] else []
  {
    assert events[..i + 1][..i] == events[..i];
  }

  lemma DeliveredStep(events: seq<Event>, i: nat, guids: seq<Guid>)
    requires i < |events|
    ensures Delivered(events[..i + 1], guids)
            == Delivered(events[..i], guids)
               + if events[i].Ping? && events[i].arrival.packet.guid in guids
                 then [events[i].arrival.packet.index] else []
  {
    assert events[..i + 1][..i] == events[..i];
  }

  /** What a step's sweep removes it reports; a sweep changes no other session. */
  lemma StepEffect(st: Server, e: Event)
    ensures var p, r := Before(st, e), Step(st, e);
            && (forall g | g in r.sessions :: g in p.sessions && r.sessions[g] == p.sessions[g])
            && Extends(st.emitted, r.emitted)
            && (forall g | g in p.sessions && g !in r.sessions ::
                  Expired(p, p.sessions[g], SweepTime(e))
                  && exists i :: 0 <= i < |r.emitted| && r.emitted[i].guid == g)
            && (forall g | g in r.sessions && (e.Ping? || st.intervalPackets == 0) ::
                  !Expired(p, p.sessions[g], SweepTime(e)))
  {
    var p, r, now := Before(st, e), Step(st, e), SweepTime(e);
    SweepExact(p, now);
    if e.Ping? || st.intervalPackets == 0 {
      assert r.sessions == Sweep(p, now).sessions;
      forall g | g in p.sessions && g !in r.sessions
        ensures exists i :: 0 <= i < |r.emitted| && r.emitted[i].guid == g
      {
        var es := r.emitted[|p.emitted|..];
        assert Due(p, p.sessions.Keys, g, now);
        var i :| 0 <= i < |es| && es[i].guid == g;
        assert r.emitted[|p.emitted| + i].guid == g;
      }
    }
  }

  lemma NotBackBefore(st: Server, e: Event, g: Guid)
    requires g !in st.sessions && (e.Ping? ==> e.arrival.packet.guid != g)
    ensures g !in Before(st, e).sessions
  {
    match e
    case Ping(source, a, arrivedAt, _) => ArriveFrame(st, source, a, arrivedAt);
    case Alarm(_) =>
  }

  lemma StillReported(st: Server, e: Event, g: Guid)
    requires WasReported(st, g)
    ensures WasReported(Step(st, e), g)
  {
    StepEffect(st, e);
    var m :| 0 <= m < |st.emitted| && st.emitted[m].guid == g;
    assert Step(st, e).emitted[..|st.emitted|][m] == Step(st, e).emitted[m];
  }

  /** Reported, and not live. */
  ghost predicate Gone(st: Server, g: Guid) {
    WasReported(st, g) && g !in st.sessions
  }

  lemma StaysGone(st: Server, e: Event, g: Guid)
    requires Gone(st, g) && (e.Ping? ==> e.arrival.packet.guid != g)
    ensures Gone(Step(st, e), g)
  {
    StillReported(st, e, g);
    NotBackBefore(st, e, g);
    StepEffect(st, e);
  }

  /** A reported session of the stream never comes back. */
  lemma {:induction false} NeverBack(keepalive: int, events: seq<Event>, s: Stream, g: Guid, i: nat, j: nat)
    requires i <= j <= |events| && g in s.guids && NoneAfterReport(keepalive, events, s)
    requires Gone(Run(keepalive, events[..i]), g)
    ensures Gone(Run(keepalive, events[..j]), g)
    decreases j - i
  {
    if i < j {
      NotBackNext(keepalive, events, s, g, i);
      NeverBack(keepalive, events, s, g, i + 1, j);
    }
  }

  lemma NotBackNext(keepalive: int, events: seq<Event>, s: Stream, g: Guid, i: nat)
    requires i < |events| && g in s.guids && NoneAfterReport(keepalive, events, s)
    requires Gone(Run(keepalive, events[..i]), g)
    ensures Gone(Run(keepalive, events[..i + 1]), g)
  {
    NotRenewed(keepalive, events, s, g, i);
    StaysGone(Run(keepalive, events[..i]), events[i], g);
    RunStep(keepalive, events, i);
  }

  lemma NotRenewed(keepalive: int, events: seq<Event>, s: Stream, g: Guid, j: nat)
    requires j < |events| && g in s.guids && NoneAfterReport(keepalive, events, s)
    requires Gone(Run(keepalive, events[..j]), g)
    ensures events[j].Ping? ==> events[j].arrival.packet.guid != g
    ensures g !in Before(Run(keepalive, events[..j]), events[j]).sessions
  {
    NotBackBefore(Run(keepalive, events[..j]), events[j], g);
  }

  /** A session live after event `i` and gone at the end was reported by some later event. */
  lemma {:induction false} ReportedLater(keepalive: int, events: seq<Event>, g: Guid, i: nat)
    returns (j: nat)
    requires i <= |events| && g in Run(keepalive, events[..i]).sessions
    requires g !in Run(keepalive, events).sessions
    ensures i <= j < |events| && Reported(Run(keepalive, events[..j]), events[j], g)
    decreases |events| - i
  {
    assert events[..|events|] == events;
    var st := Run(keepalive, events[..i]);
    RunStep(keepalive, events, i);
    if g in Run(keepalive, events[..i + 1]).sessions {
      j := ReportedLater(keepalive, events, g, i + 1);
    } else {
      j := i;
      match events[i]
      case Ping(source, a, arrivedAt, _) => ArriveFrame(st, source, a, arrivedAt);
      case Alarm(_) =>
    }
  }

  /** A session is not reported while the session of the interval before is still live. */
  lemma ReportedInOrder(keepalive: int, events: seq<Event>, s: Stream, i: nat, j: nat, k: nat)
    requires NoneAfterReport(keepalive, events, s) && SuccessorsSettled(keepalive, events, s)
    requires AllReported(keepalive, events, s)
    requires i < |events| && j < k < |s.guids| && k == j + 1
    requires Reported(Run(keepalive, events[..i]), events[i], s.guids[k])
    ensures s.guids[j] !in Run(keepalive, events[..i + 1]).sessions
  {
    if s.guids[j] in Run(keepalive, events[..i + 1]).sessions {
      RunStep(keepalive, events, i);
      StepEffect(Run(keepalive, events[..i]), events[i]);
      var i' := ReportedLater(keepalive, events, s.guids[j], i + 1);
      SuccessorSettledAt(keepalive, events, s, i', j, k);
      NeverBack(keepalive, events, s, s.guids[k], i + 1, i');
      NotRenewed(keepalive, events, s, s.guids[k], i');
    }
  }

  lemma SuccessorSettledAt(keepalive: int, events: seq<Event>, s: Stream, i: nat, j: nat, k: nat)
    requires SuccessorsSettled(keepalive, events, s) && i < |events| && j < k < |s.guids| && k == j + 1
    requires Reported(Run(keepalive, events[..i]), events[i], s.guids[j])
    ensures SuccessorSettled(AboutToSweep(keepalive, events, i), SweepTime(events[i]), events,
                             s.guids[j], s.guids[k])
  {
  }
}
