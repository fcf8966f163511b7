/**
 The UDPing server of src/serversession.cc as a state machine over values.

 The classes of ServerSession.dfy are proved to take exactly these steps; the properties of whole
 runs are proved here and in the modules that import this one.  Two fields are auxiliary, that is,
 recorded but never consulted by a step: the `arrivals` of a session, and the `index` of a packet.
 */
module GuidOrder {

  /** The order in which a map keyed by strings is traversed. */
  predicate Below(a: string, b: string) {
    a == [] || (b != [] && (a[0] < b[0] || (a[0] == b[0] && Below(a[1..], b[1..]))))
  }

  /** The first place where `a` and `b` have different characters. */
  ghost predicate DifferFirstAt(a: string, b: string, k: int) {
    0 <= k < |a| && k < |b| && a[..k] == b[..k] && a[k] != b[k]
  }

  /** Dictionary order: `a` is the beginning of `b`, or has the smaller character where they first differ. */
  lemma {:induction false} BelowIff(a: string, b: string)
    ensures Below(a, b) <==> a <= b || exists k :: DifferFirstAt(a, b, k) && a[k] < b[k]
  {
    if a != [] && b != [] {
      if a[0] == b[0] {
        BelowIff(a[1..], b[1..]);
        assert a == [a[0]] + a[1..] && b == [b[0]] + b[1..];
        forall k | DifferFirstAt(a[1..], b[1..], k) ensures DifferFirstAt(a, b, k + 1) {
          assert a[..k + 1] == [a[0]] + a[1..][..k] && b[..k + 1] == [b[0]] + b[1..][..k];
        }
        forall k | DifferFirstAt(a, b, k) ensures k > 0 && DifferFirstAt(a[1..], b[1..], k - 1) {
          assert a[1..][..k - 1] == a[..k][1..] && b[1..][..k - 1] == b[..k][1..];
        }
      } else {
        assert DifferFirstAt(a, b, 0);
      }
    }
  }

  lemma {:induction false} BelowAt(a: string, b: string, k: int)
    requires DifferFirstAt(a, b, k)
    ensures Below(a, b) <==> a[k] < b[k]
    decreases k
  {
    if k > 0 {
      assert a[0] == a[..k][0] && b[0] == b[..k][0];
      assert a[1..][..k - 1] == a[..k][1..] && b[1..][..k - 1] == b[..k][1..];
      BelowAt(a[1..], b[1..], k - 1);
    }
  }

  lemma BelowTotal(a: string, b: string)
    ensures Below(a, b) || Below(b, a)
  {
  }

  lemma BelowAntisymmetric(a: string, b: string)
    requires Below(a, b) && Below(b, a)
    ensures a == b
  {
    if a != [] && b != [] {
      BelowAntisymmetric(a[1..], b[1..]);
      assert a == [a[0]] + a[1..] && b == [b[0]] + b[1..];
    }
  }

  lemma BelowTransitive(a: string, b: string, c: string)
    requires Below(a, b) && Below(b, c)
    ensures Below(a, c)
  {
  }

  ghost predicate IsLeast(g: string, s: set<string>) {
    g in s && forall h | h in s :: Below(g, h)
  }

  lemma LeastExists(s: set<string>)
    requires s != {}
    ensures exists g :: IsLeast(g, s)
  {
    var x :| x in s;
    if s == {x} {
      BelowTotal(x, x);
      assert IsLeast(x, s);
    } else {
      LeastExists(s - {x});
      var g :| IsLeast(g, s - {x});
      BelowTotal(x, g);
      BelowTotal(x, x);
      if Below(x, g) {
        forall h | h in s ensures Below(x, h) {
          if h != x { BelowTransitive(x, g, h); }
        }
        assert IsLeast(x, s);
      } else {
        assert IsLeast(g, s);
      }
    }
  }

  ghost function Least(s: set<string>): (g: string)
    requires s != {}
    ensures IsLeast(g, s)
  {
    LeastExists(s);
    var g :| IsLeast(g, s);
    g
  }

  lemma LeastUnique(g: string, s: set<string>)
    requires s != {} && IsLeast(g, s)
    ensures g == Least(s)
  {
    BelowAntisymmetric(g, Least(s));
  }
}

module ServerModel {
  import opened Options
  import opened SeqWindow
  import opened GuidOrder
  import Statistics

  type Guid = string

  datatype Source = Source(peer: string, port: int)

  /** The header fields the server reads; `index` is the packet's place in the unbounded sequence of
      packets its client sent from that port. */
  datatype Packet = Packet(
    guid: Guid, startTime: int, seqNum: SeqNum, sentSec: int, sentNsec: int, index: int)

  datatype Arrival = Arrival(packet: Packet, rcvdSec: int, rcvdNsec: int)

  datatype Session = Session(
    source: Source, startTime: int, id: nat, successor: Guid, lastArrival: int,
    window: Window, arrivals: seq<Arrival>)

  /** One call of `writeStats`: the expired session, and its successor if that was found. */
  datatype Emission = Emission(guid: Guid, session: Session, next: Option<Session>, at: int) {
    function FinalWindow(): Window {
      if next.Some? then Record(session.window, Wrap(next.value.window.min - 1)) else session.window
    }

    function Count(): nat {
      |session.arrivals|
    }

    function Target(): SeqNum {
      TargetCount(FinalWindow())
    }

    function ToRecord(): StatsRecord {
      StatsRecord(guid, session.source, Summarise(session.arrivals), Target(), at)
    }
  }

  /** What the stats writers are given. */
  datatype StatsRecord = StatsRecord(
    guid: Guid, source: Source, summary: Statistics.Summary, targetCount: SeqNum, time: int)

  datatype Server = Server(
    keepalive: int, sessions: map<Guid, Session>, sources: map<Source, nat>,
    intervalPackets: nat, created: nat, emitted: seq<Emission>)

  /** `arrivedAt` and `sweptAt` are the two clock readings of `receivePing`. */
  datatype Event =
    | Ping(source: Source, arrival: Arrival, arrivedAt: int, sweptAt: int)
    | Alarm(now: int)

  /** The elapsed time in milliseconds, computed in the order the code computes it. */
  function Latency(a: Arrival): real {
    var nanos := a.rcvdNsec as real - a.packet.sentNsec as real;
    var seconds := nanos / 1000000000.0 + a.rcvdSec as real - a.packet.sentSec as real;
    seconds * 1000.0
  }

  function Latencies(arrivals: seq<Arrival>): (points: seq<real>)
    ensures |points| == |arrivals|
    ensures forall i | 0 <= i < |arrivals| :: points[i] == Latency(arrivals[i])
  {
    seq(|arrivals|, i requires 0 <= i < |arrivals| => Latency(arrivals[i]))
  }

  /** What `Stats` holds after these arrivals, one data point at a time. */
  function Summarise(arrivals: seq<Arrival>): Statistics.Summary {
    if arrivals == [] then Statistics.NO_DATA
    else Summarise(arrivals[..|arrivals| - 1]).Add(Latency(arrivals[|arrivals| - 1]))
  }

  /** The accumulated figures are the count, sum, sum of squares and maximum of the latencies. */
  lemma {:induction false} SummaryMeaning(arrivals: seq<Arrival>)
    ensures Summarise(arrivals) == Statistics.FiguresOf(Latencies(arrivals))
  {
    if arrivals != [] {
      var front := arrivals[..|arrivals| - 1];
      SummaryMeaning(front);
      LatenciesSnoc(front, arrivals[|front|]);
      assert arrivals == front + [arrivals[|front|]];
      Statistics.FiguresSnoc(Latencies(front), Latency(arrivals[|front|]));
    }
  }

  lemma LatenciesSnoc(front: seq<Arrival>, a: Arrival)
    ensures Latencies(front + [a]) == Latencies(front) + [Latency(a)]
  {
  }

  function SeqNums(arrivals: seq<Arrival>): (ss: seq<SeqNum>)
    ensures |ss| == |arrivals|
    ensures forall i | 0 <= i < |arrivals| :: ss[i] == arrivals[i].packet.seqNum
  {
    seq(|arrivals|, i requires 0 <= i < |arrivals| => arrivals[i].packet.seqNum)
  }

  // ---------- Steps ----------

  function Init(keepalive: int): Server {
    Server(keepalive, map[], map[], 0, 0, [])
  }

  /** `setSuccessor` on the session object `id`, if it is of the same run; an object that was already
      swept is in no map, so nothing changes. */
  function Link(sessions: map<Guid, Session>, id: nat, startTime: int, g: Guid): (r: map<Guid, Session>)
    ensures r.Keys == sessions.Keys
  {
    map k | k in sessions ::
      if sessions[k].id == id && sessions[k].startTime == startTime
      then sessions[k].(successor := g)
      else sessions[k]
  }

  function GetSession(st: Server, source: Source, p: Packet): (r: Server)
    ensures p.guid in r.sessions
  {
    if p.guid in st.sessions then st
    else
      var ds := Session(source, p.startTime, st.created, "", 0, Window(p.seqNum, p.seqNum), []);
      var linked := if source in st.sources
                    then Link(st.sessions, st.sources[source], p.startTime, p.guid)
                    else st.sessions;
      st.(sessions := linked[p.guid := ds],
          sources := st.sources[source := st.created],
          created := st.created + 1)
  }

  function Append(s: Session, a: Arrival, now: int): Session {
    s.(lastArrival := now, window := Record(s.window, a.packet.seqNum), arrivals := s.arrivals + [a])
  }

  /** `receivePing` up to its sweep. */
  function Arrive(st: Server, source: Source, a: Arrival, now: int): Server {
    var st1 := GetSession(st, source, a.packet);
    var g := a.packet.guid;
    st1.(sessions := st1.sessions[g := Append(st1.sessions[g], a, now)],
         intervalPackets := st1.intervalPackets + 1)
  }

  predicate Expired(st: Server, s: Session, now: int) {
    s.lastArrival < now - st.keepalive
  }

  function Find(sessions: map<Guid, Session>, g: Guid): Option<Session> {
    if g in sessions then Some(sessions[g]) else None
  }

  /** The sweep's treatment of one entry of the session map. */
  function Visit(st: Server, g: Guid, now: int): Server
    requires g in st.sessions
  {
    var s := st.sessions[g];
    if Expired(st, s, now) then
      st.(sessions := st.sessions - {g},
          emitted := st.emitted + [Emission(g, s, Find(st.sessions, s.successor), now)])
    else st
  }

  /** The rest of the sweep when the entries `keys` are still to be visited, in key order. */
  ghost function SweepKeys(st: Server, keys: set<Guid>, now: int): Server
    requires keys <= st.sessions.Keys
    decreases keys
  {
    if keys == {} then st
    else SweepKeys(Visit(st, Least(keys), now), keys - {Least(keys)}, now)
  }

  lemma SweepKeysStep(st: Server, keys: set<Guid>, g: Guid, now: int)
    requires keys <= st.sessions.Keys && IsLeast(g, keys)
    ensures keys - {g} <= Visit(st, g, now).sessions.Keys
    ensures SweepKeys(st, keys, now) == SweepKeys(Visit(st, g, now), keys - {g}, now)
  {
    LeastUnique(g, keys);
  }

  ghost function Sweep(st: Server, now: int): Server {
    SweepKeys(st, st.sessions.Keys, now)
  }

  ghost function Step(st: Server, e: Event): Server {
    match e
    case Ping(source, a, arrivedAt, sweptAt) => Sweep(Arrive(st, source, a, arrivedAt), sweptAt)
    case Alarm(now) => (if st.intervalPackets == 0 then Sweep(st, now) else st).(intervalPackets := 0)
  }

  ghost function Run(keepalive: int, events: seq<Event>): Server {
    if events == [] then Init(keepalive)
    else Step(Run(keepalive, events[..|events| - 1]), events[|events| - 1])
  }

  // ---------- What a sweep does, independently of the traversal ----------

  /** The session found as the successor of `g` by a sweep that still has `keys` to visit: it is in
      the map, and not itself removed before `g` is reached. */
  ghost function FoundSuccessor(st: Server, keys: set<Guid>, g: Guid, now: int): Option<Session>
    requires g in st.sessions
  {
    var h := st.sessions[g].successor;
    if h in st.sessions && (h in keys && Expired(st, st.sessions[h], now) ==> Below(g, h))
    then Some(st.sessions[h]) else None
  }

  ghost predicate Due(st: Server, keys: set<Guid>, g: Guid, now: int) {
    g in keys && g in st.sessions && Expired(st, st.sessions[g], now)
  }

  /** `es` holds exactly one emission for each due session, in key order. */
  ghost predicate EmitsExactlyDue(st: Server, keys: set<Guid>, es: seq<Emission>, now: int) {
    && (forall i | 0 <= i < |es| :: Due(st, keys, es[i].guid, now)
          && es[i] == Emission(es[i].guid, st.sessions[es[i].guid], FoundSuccessor(st, keys, es[i].guid, now), now))
    && (forall i, j | 0 <= i < j < |es| :: es[i].guid != es[j].guid && Below(es[i].guid, es[j].guid))
    && (forall g | Due(st, keys, g, now) :: exists i :: 0 <= i < |es| && es[i].guid == g)
  }

  ghost predicate Extends<T>(s: seq<T>, t: seq<T>) {
    |s| <= |t| && t[..|s|] == s
  }

  ghost predicate SweepsExactly(st: Server, keys: set<Guid>, r: Server, now: int) {
    && r.sessions == (map g | g in st.sessions && !Due(st, keys, g, now) :: st.sessions[g])
    && r == st.(sessions := r.sessions, emitted := r.emitted)
    && Extends(st.emitted, r.emitted)
    && EmitsExactlyDue(st, keys, r.emitted[|st.emitted|..], now)
  }

  lemma {:induction false} SweepKeysExact(st: Server, keys: set<Guid>, now: int)
    requires keys <= st.sessions.Keys
    ensures SweepsExactly(st, keys, SweepKeys(st, keys, now), now)
    decreases keys
  {
    if keys == {} {
      assert st.sessions == map g | g in st.sessions && !Due(st, keys, g, now) :: st.sessions[g];
      assert st.emitted[|st.emitted|..] == [];
    } else {
      var k := Least(keys);
      SweepKeysExact(Visit(st, k, now), keys - {k}, now);
      VisitThenSweep(st, keys, k, SweepKeys(st, keys, now), now);
    }
  }

  lemma FoundSuccessorStable(st: Server, keys: set<Guid>, k: Guid, g: Guid, now: int)
    requires IsLeast(k, keys) && k in st.sessions && g in keys - {k} && g in st.sessions
    ensures FoundSuccessor(Visit(st, k, now), keys - {k}, g, now) == FoundSuccessor(st, keys, g, now)
  {
    if Below(g, k) { BelowAntisymmetric(g, k); }
  }

  lemma VisitThenSweep(st: Server, keys: set<Guid>, k: Guid, r: Server, now: int)
    requires IsLeast(k, keys) && keys <= st.sessions.Keys
    requires SweepsExactly(Visit(st, k, now), keys - {k}, r, now)
    ensures SweepsExactly(st, keys, r, now)
  {
    var st1, rest := Visit(st, k, now), keys - {k};
    forall g | g in rest && g in st1.sessions
      ensures FoundSuccessor(st1, rest, g, now) == FoundSuccessor(st, keys, g, now)
    {
      FoundSuccessorStable(st, keys, k, g, now);
    }
    var es := r.emitted[|st.emitted|..];
    if Due(st, keys, k, now) {
      var e := Emission(k, st.sessions[k], FoundSuccessor(st, keys, k, now), now);
      assert st1.emitted == st.emitted + [e] by { BelowTotal(k, k); }
      EmittedTail(st.emitted, e, r.emitted);
    }
    EmitsCons(st, st1, keys, k, es, now);
    DueCons(st, keys, k, now);
    assert r.sessions == map g | g in st.sessions && !Due(st, keys, g, now) :: st.sessions[g];
  }

  lemma EmittedTail<T>(s: seq<T>, e: T, t: seq<T>)
    requires Extends(s + [e], t)
    ensures Extends(s, t) && t[|s|..] != [] && t[|s|..][0] == e && t[|s|..][1..] == t[|s + [e]|..]
  {
    assert t[..|s|] == (s + [e])[..|s|];
    assert t[|s|] == t[..|s| + 1][|s|];
  }

  lemma DueCons(st: Server, keys: set<Guid>, k: Guid, now: int)
    requires IsLeast(k, keys) && k in st.sessions
    ensures forall g :: Due(st, keys, g, now)
                        <==> Due(Visit(st, k, now), keys - {k}, g, now) || (g == k && Due(st, keys, k, now))
  {
  }

  /** Prepending the emission of the least key, when that key is due. */
  lemma EmitsCons(st: Server, st1: Server, keys: set<Guid>, k: Guid, es: seq<Emission>, now: int)
    requires IsLeast(k, keys) && k in st.sessions && st1 == Visit(st, k, now)
    requires forall g | g in keys - {k} && g in st1.sessions ::
               FoundSuccessor(st1, keys - {k}, g, now) == FoundSuccessor(st, keys, g, now)
    requires if Due(st, keys, k, now)
             then es != []
                  && es[0] == Emission(k, st.sessions[k], FoundSuccessor(st, keys, k, now), now)
                  && EmitsExactlyDue(st1, keys - {k}, es[1..], now)
             else EmitsExactlyDue(st1, keys - {k}, es, now)
    ensures EmitsExactlyDue(st, keys, es, now)
  {
    DueCons(st, keys, k, now);
    if Due(st, keys, k, now) {
      assert forall i | 0 < i < |es| :: es[i] == es[1..][i - 1];
      forall g | Due(st, keys, g, now) ensures exists i :: 0 <= i < |es| && es[i].guid == g {
        if g == k { assert es[0].guid == g; }
        else {
          var i :| 0 <= i < |es[1..]| && es[1..][i].guid == g;
          assert es[i + 1].guid == g;
        }
      }
    }
  }

  /** A sweep removes exactly the sessions whose last arrival is more than `keepalive` old, leaves the
      others untouched, and emits one record for each removed session. */
  lemma SweepExact(st: Server, now: int)
    ensures var r := Sweep(st, now);
            && SweepsExactly(st, st.sessions.Keys, r, now)
            && (forall g :: g in r.sessions <==> g in st.sessions && !(st.sessions[g].lastArrival < now - st.keepalive))
            && (forall g | g in r.sessions :: r.sessions[g] == st.sessions[g])
  {
    SweepKeysExact(st, st.sessions.Keys, now);
  }

  lemma RecordOfExpired(st: Server, g: Guid, now: int) returns (i: nat)
    requires g in st.sessions && Expired(st, st.sessions[g], now)
    ensures |st.emitted| <= i < |Sweep(st, now).emitted|
    ensures Sweep(st, now).emitted[i]
            == Emission(g, st.sessions[g], FoundSuccessor(st, st.sessions.Keys, g, now), now)
  {
    SweepKeysExact(st, st.sessions.Keys, now);
    var es := Sweep(st, now).emitted[|st.emitted|..];
    assert Due(st, st.sessions.Keys, g, now);
    var n :| 0 <= n < |es| && es[n].guid == g;
    i := |st.emitted| + n;
    assert Sweep(st, now).emitted[i] == es[n];
  }

  /** When a session and its successor expire in one sweep, the record of the first names the second if
      its GUID has the smaller character where the two first differ; otherwise it names nobody. */
  lemma NamedInOrder(st: Server, g: Guid, h: Guid, k: int, now: int) returns (i: nat)
    requires g in st.sessions && st.sessions[g].successor == h && h in st.sessions && DifferFirstAt(g, h, k)
    requires Expired(st, st.sessions[g], now) && Expired(st, st.sessions[h], now)
    ensures |st.emitted| <= i < |Sweep(st, now).emitted|
    ensures Sweep(st, now).emitted[i]
            == Emission(g, st.sessions[g], if g[k] < h[k] then Some(st.sessions[h]) else None, now)
  {
    i := RecordOfExpired(st, g, now);
    BelowAt(g, h, k);
  }

  lemma EmissionsAreDue(st: Server, keys: set<Guid>, es: seq<Emission>, now: int)
    requires EmitsExactlyDue(st, keys, es, now)
    ensures es == [] || exists g :: Due(st, keys, g, now)
  {
    assert es == [] || Due(st, keys, es[0].guid, now);
  }

  /** A second sweep at the same time changes nothing. */
  lemma SweepIdempotent(st: Server, now: int)
    ensures Sweep(Sweep(st, now), now) == Sweep(st, now)
  {
    var r := Sweep(st, now);
    SweepExact(st, now);
    SweepExact(r, now);
    var r2 := Sweep(r, now);
    assert r2.sessions == r.sessions;
    var es := r2.emitted[|r.emitted|..];
    EmissionsAreDue(r, r.sessions.Keys, es, now);
    assert r2.emitted == r2.emitted[..|r.emitted|] + es;
  }

  /** Tiling: when the sweep finds the successor, the record covers exactly the numbers from its own
      minimum up to the successor's if and only if 0 to 9 numbers are missing between the two, and the
      successor does not begin just before the session itself. */
  lemma TilesIff(e: Emission)
    requires e.next.Some?
    ensures var w, last := e.session.window, Wrap(e.next.value.window.min - 1);
            e.Target() == Wrap(e.next.value.window.min - w.min)
            <==> Wrap(last - w.max) <= 9 && !(0 < Wrap(w.min - last) < 10)
  {
    WindowTilesIff(e.session.window, e.next.value.window.min);
  }

  lemma LatencyIsClockDifference(a: Arrival)
    ensures Latency(a) * 1000000.0
            == (a.rcvdSec * 1000000000 + a.rcvdNsec) as real
               - (a.packet.sentSec * 1000000000 + a.packet.sentNsec) as real
  {
  }
}
