/**
 What every run of the server keeps of a client run: its live sessions are linked, each to the next, and
 each of its sessions that is gone has exactly one record, of all its packets.
 */
module RunTraces {
  import opened SeqWindow
  import opened GuidOrder
  import opened ServerModel
  import opened ServerRuns
  import opened ClientStreams

  // ---------- The sessions of the stream, linked ----------

  /** The first `c` intervals have begun; the live session of an interval holds its packets so far, and
      knows the next one if that has begun; the source map leads to the last that was opened. */
  ghost predicate Linked(st: Server, pre: seq<Event>, s: Stream, c: nat) {
    && c <= |s.guids|
    && (forall k | 0 <= k < |s.guids| :: Entry(st, pre, s, k, c))
    && (0 < c < |s.guids| ==> LastOpened(st, s, c))
  }

  ghost predicate Entry(st: Server, pre: seq<Event>, s: Stream, k: nat, c: nat)
    requires k < |s.guids| && c <= |s.guids|
  {
    && (k < c <==> ArrivalsOf(pre, s.guids[k]) != [])
    && (s.guids[k] in st.sessions ==> k < c && LiveLink(st.sessions[s.guids[k]], pre, s, k, c))
  }

  ghost predicate LiveLink(live: Session, pre: seq<Event>, s: Stream, k: nat, c: nat)
    requires k < c <= |s.guids|
  {
    && live.source == s.source && live.startTime == s.startTime
    && live.successor == (if k + 1 < c then s.guids[k + 1] else "")
    && live.arrivals == ArrivalsOf(pre, s.guids[k])
  }

  ghost predicate LastOpened(st: Server, s: Stream, c: nat) {
    && s.source in st.sources
    && forall k | 0 <= k < |s.guids| && s.guids[k] in st.sessions ::
         st.sessions[s.guids[k]].id == st.sources[s.source] <==> k == c - 1
  }

  /** What the links need to know about the state `p` after the arrival of `a` in `st`. */
  ghost predicate ArrivesAs(st: Server, p: Server, source: Source, a: Arrival) {
    var g := a.packet.guid;
    && p.sessions.Keys == st.sessions.Keys + {g}
    && p.emitted == st.emitted
    && p.sources == (if g in st.sessions then st.sources else st.sources[source := st.created])
    && (forall h | h in st.sessions && h != g ::
          && SameButSuccessor(st.sessions[h], p.sessions[h])
          && p.sessions[h].successor ==
             (if g !in st.sessions && source in st.sources && st.sources[source] == st.sessions[h].id
                 && st.sessions[h].startTime == a.packet.startTime
              then g else st.sessions[h].successor))
    && (g in st.sessions ==>
          SameButArrivals(st.sessions[g], p.sessions[g])
          && p.sessions[g].arrivals == st.sessions[g].arrivals + [a])
    && (g !in st.sessions ==>
          && p.sessions[g].source == source && p.sessions[g].startTime == a.packet.startTime
          && p.sessions[g].id == st.created && p.sessions[g].successor == ""
          && p.sessions[g].arrivals == [a])
  }

  ghost predicate SameButSuccessor(s: Session, t: Session) {
    s.source == t.source && s.startTime == t.startTime && s.id == t.id && s.arrivals == t.arrivals
  }

  ghost predicate SameButArrivals(s: Session, t: Session) {
    s.source == t.source && s.startTime == t.startTime && s.id == t.id && s.successor == t.successor
  }

  lemma ArriveArrives(st: Server, source: Source, a: Arrival, now: int)
    ensures ArrivesAs(st, Arrive(st, source, a, now), source, a)
  {
  }

  lemma ArrivalsSnoc(pre: seq<Event>, e: Event, g: Guid)
    ensures ArrivalsOf(pre + [e], g)
            == ArrivalsOf(pre, g) + if e.Ping? && e.arrival.packet.guid == g then [e.arrival] else []
  {
    assert (pre + [e])[..|pre|] == pre;
  }

  lemma NoneOrAllOfChain(st: Server, pre: seq<Event>, s: Stream, c: nat)
    requires Linked(st, pre, s, c) && NoneOrAllBegun(pre, s)
    ensures c == 0 || c == |s.guids|
  {
    assert s.guids != [] ==> Entry(st, pre, s, 0, c);
    assert c < |s.guids| ==> Entry(st, pre, s, c, c);
  }

  /** A packet of another source, or of another run of this one. */
  lemma ForeignArrival(st: Server, p: Server, pre: seq<Event>, e: Event, s: Stream, c: nat)
    requires Linked(st, pre, s, c) && SourcesOwn(st) && CarriedBy(e, s)
    requires e.Ping? && e.arrival.packet.guid !in s.guids && ArrivesAs(st, p, e.source, e.arrival)
    requires OpensOtherRun(st, e, s) ==> NoneOrAllBegun(pre, s)
    ensures Linked(p, pre + [e], s, c)
  {
    forall k | 0 <= k < |s.guids| ensures Entry(p, pre + [e], s, k, c) {
      assert Entry(st, pre, s, k, c);
      ArrivalsSnoc(pre, e, s.guids[k]);
    }
    if NoneOrAllBegun(pre, s) {
      NoneOrAllOfChain(st, pre, s, c);
    }
  }

  lemma LiveArrival(st: Server, p: Server, pre: seq<Event>, e: Event, s: Stream, c: nat, j: nat)
    requires Linked(st, pre, s, c) && CarriedBy(e, s) && Distinct(s.guids) && j < |s.guids|
    requires e.Ping? && e.arrival.packet.guid == s.guids[j] && s.guids[j] in st.sessions
    requires ArrivesAs(st, p, e.source, e.arrival)
    ensures Linked(p, pre + [e], s, c)
  {
    assert Entry(st, pre, s, j, c);
    forall k | 0 <= k < |s.guids| ensures Entry(p, pre + [e], s, k, c) {
      assert Entry(st, pre, s, k, c);
      ArrivalsSnoc(pre, e, s.guids[k]);
    }
  }

  /** The first packet of an interval opens its session and links the session of the one before. */
  lemma FirstArrival(st: Server, p: Server, pre: seq<Event>, e: Event, s: Stream, c: nat)
    requires Linked(st, pre, s, c) && UniqueIds(st) && CarriedBy(e, s) && Distinct(s.guids)
    requires e.Ping? && c < |s.guids| && e.arrival.packet.guid == s.guids[c] && ArrivesAs(st, p, e.source, e.arrival)
    ensures Linked(p, pre + [e], s, c + 1)
  {
    var c' := c + 1;
    forall k | 0 <= k < |s.guids| ensures Entry(p, pre + [e], s, k, c') {
      FirstArrivalEntry(st, p, pre, e, s, c, k);
    }
    FirstArrivalOpened(st, p, pre, e, s, c);
  }

  lemma FirstArrivalOpened(st: Server, p: Server, pre: seq<Event>, e: Event, s: Stream, c: nat)
    requires Linked(st, pre, s, c) && UniqueIds(st) && CarriedBy(e, s) && Distinct(s.guids)
    requires e.Ping? && c < |s.guids| && e.arrival.packet.guid == s.guids[c] && ArrivesAs(st, p, e.source, e.arrival)
    ensures LastOpened(p, s, c + 1)
  {
    assert Entry(st, pre, s, c, c);
    forall k | 0 <= k < |s.guids| && s.guids[k] in p.sessions
      ensures p.sessions[s.guids[k]].id == p.sources[s.source] <==> k == c
    {
    }
  }

  lemma FirstArrivalEntry(st: Server, p: Server, pre: seq<Event>, e: Event, s: Stream, c: nat, k: nat)
    requires Linked(st, pre, s, c) && CarriedBy(e, s) && Distinct(s.guids) && k < |s.guids|
    requires e.Ping? && c < |s.guids| && e.arrival.packet.guid == s.guids[c] && ArrivesAs(st, p, e.source, e.arrival)
    ensures Entry(p, pre + [e], s, k, c + 1)
  {
    assert Entry(st, pre, s, k, c) && Entry(st, pre, s, c, c);
    ArrivalsSnoc(pre, e, s.guids[k]);
  }

  /** The interval whose first packet has just arrived is the next one. */
  lemma NextInOrder(st: Server, pre: seq<Event>, e: Event, s: Stream, c: nat, j: nat)
    requires Linked(st, pre, s, c) && Distinct(s.guids) && Ordered(pre + [e], s)
    requires c <= j < |s.guids| && e.Ping? && e.arrival.packet.guid == s.guids[j]
    ensures j == c
  {
    assert Entry(st, pre, s, c, c);
    if c < j {
      assert s.guids[c] != s.guids[j];
      ArrivalsSnoc(pre, e, s.guids[j]);
      ArrivalsSnoc(pre, e, s.guids[c]);
    }
  }

  lemma AlarmKeepsLinks(st: Server, pre: seq<Event>, e: Event, s: Stream, c: nat)
    requires Linked(st, pre, s, c) && e.Alarm?
    ensures Linked(st, pre + [e], s, c)
  {
    forall k | 0 <= k < |s.guids| ensures Entry(st, pre + [e], s, k, c) {
      assert Entry(st, pre, s, k, c);
      ArrivalsSnoc(pre, e, s.guids[k]);
    }
  }

  /** No packet comes for an interval that has begun and is no longer live. */
  ghost predicate FindsLive(st: Server, e: Event, s: Stream, c: nat) {
    e.Ping? ==> forall k | 0 <= k < c && k < |s.guids| && s.guids[k] == e.arrival.packet.guid ::
                  s.guids[k] in st.sessions
  }

  /** Any event, up to its sweep. */
  lemma ArrivalKeepsLinks(st: Server, pre: seq<Event>, e: Event, s: Stream, c: nat) returns (c': nat)
    requires Linked(st, pre, s, c) && UniqueIds(st) && SourcesOwn(st) && FindsLive(st, e, s, c)
    requires CarriedBy(e, s) && Distinct(s.guids) && Ordered(pre + [e], s)
    requires OpensOtherRun(st, e, s) ==> NoneOrAllBegun(pre, s)
    ensures Linked(Before(st, e), pre + [e], s, c') && c <= c' <= c + 1
    ensures c' > c ==> e.Ping? && e.arrival.packet.guid == s.guids[c]
  {
    c' := c;
    if e.Alarm? {
      AlarmKeepsLinks(st, pre, e, s, c);
    } else {
      var p := Before(st, e);
      ArriveArrives(st, e.source, e.arrival, e.arrivedAt);
      if j :| 0 <= j < |s.guids| && s.guids[j] == e.arrival.packet.guid {
        if j < c {
          LiveArrival(st, p, pre, e, s, c, j);
        } else {
          NextInOrder(st, pre, e, s, c, j);
          FirstArrival(st, p, pre, e, s, c);
          c' := c + 1;
        }
      } else {
        ForeignArrival(st, p, pre, e, s, c);
      }
    }
  }

  lemma SweepKeepsLinks(p: Server, r: Server, pre: seq<Event>, s: Stream, c: nat)
    requires Linked(p, pre, s, c) && r.sources == p.sources
    requires forall g | g in r.sessions :: g in p.sessions && r.sessions[g] == p.sessions[g]
    ensures Linked(r, pre, s, c)
  {
    forall k | 0 <= k < |s.guids| ensures Entry(r, pre, s, k, c) {
      assert Entry(p, pre, s, k, c);
    }
  }

  // ---------- The record of each interval ----------

  /** The record `r` of interval `k` was emitted by event `n`; it is tied to the first packet of the next
      interval if and only if that session was met. */
  ghost predicate EmittedAt(r: Emission, keepalive: int, events: seq<Event>, s: Stream, k: nat, n: nat)
    requires k < |s.guids| && n < |events|
  {
    && Reported(Run(keepalive, events[..n]), events[n], s.guids[k])
    && (r.next.Some? <==>
          && k + 1 < |s.guids|
          && Meets(AboutToSweep(keepalive, events, n), SweepTime(events[n]), s.guids[k], s.guids[k + 1]))
    && (r.next.Some? ==>
          ArrivalsOf(events, s.guids[k + 1]) != []
          && r.next.value.window.min == Wrap(Arrived(events, s.guids[k + 1]).lo))
  }

  /** Interval `k` has no record until its session is gone, and then exactly one, of all its packets. */
  ghost predicate RecordedOnce(st: Server, keepalive: int, events: seq<Event>, i: nat, s: Stream, k: nat, c: nat)
    requires k < |s.guids| && i <= |events|
  {
    var rs := Reports(st.emitted, [s.guids[k]]);
    if k < c && s.guids[k] !in st.sessions
    then |rs| == 1 && rs[0].guid == s.guids[k] && rs[0].session.arrivals == ArrivalsOf(events[..i], s.guids[k])
         && exists n :: 0 <= n < i && EmittedAt(rs[0], keepalive, events, s, k, n)
    else rs == []
  }

  lemma {:induction false} ReportsConcat(es: seq<Emission>, fs: seq<Emission>, guids: seq<Guid>)
    ensures Reports(es + fs, guids) == Reports(es, guids) + Reports(fs, guids)
    decreases |fs|
  {
    if fs == [] {
      assert es + fs == es;
    } else {
      var n := |fs| - 1;
      ReportsConcat(es, fs[..n], guids);
      assert (es + fs)[..|es| + n] == es + fs[..n];
      assert (es + fs)[|es| + n] == fs[n];
    }
  }

  lemma {:induction false} NoReports(es: seq<Emission>, g: Guid)
    requires forall i | 0 <= i < |es| :: es[i].guid != g
    ensures Reports(es, [g]) == []
  {
    if es != [] { NoReports(es[..|es| - 1], g); }
  }

  lemma {:induction false} OneReport(es: seq<Emission>, g: Guid, i: nat)
    requires i < |es| && es[i].guid == g && forall j | 0 <= j < |es| && j != i :: es[j].guid != g
    ensures Reports(es, [g]) == [es[i]]
    decreases |es|
  {
    var n := |es| - 1;
    if i < n {
      OneReport(es[..n], g, i);
    } else {
      NoReports(es[..n], g);
    }
  }

  /** What a sweep adds to the records of `g`. */
  lemma SweepReports(p: Server, now: int, g: Guid)
    ensures Reports(Sweep(p, now).emitted, [g])
            == Reports(p.emitted, [g])
               + if g in p.sessions && Expired(p, p.sessions[g], now)
                 then [Emission(g, p.sessions[g], FoundSuccessor(p, p.sessions.Keys, g, now), now)] else []
  {
    SweepExact(p, now);
    var r, n := Sweep(p, now), |p.emitted|;
    var es := r.emitted[n..];
    assert r.emitted == p.emitted + es by { assert r.emitted[..n] == p.emitted; }
    ReportsConcat(p.emitted, es, [g]);
    NewReports(p, es, now, g);
  }

  lemma NewReports(p: Server, es: seq<Emission>, now: int, g: Guid)
    requires EmitsExactlyDue(p, p.sessions.Keys, es, now)
    ensures Reports(es, [g])
            == if g in p.sessions && Expired(p, p.sessions[g], now)
               then [Emission(g, p.sessions[g], FoundSuccessor(p, p.sessions.Keys, g, now), now)] else []
  {
    if Due(p, p.sessions.Keys, g, now) {
      var i :| 0 <= i < |es| && es[i].guid == g;
      OneReport(es, g, i);
    } else {
      NoReports(es, g);
    }
  }

  /** A record found its successor exactly if that was met, and then is tied to its first packet so far. */
  lemma FoundIfMet(p: Server, pre: seq<Event>, s: Stream, k: nat, c: nat, now: int)
    requires Linked(p, pre, s, c) && "" !in p.sessions && k < |s.guids| && s.guids[k] in p.sessions
    ensures var found := FoundSuccessor(p, p.sessions.Keys, s.guids[k], now);
            && (found.Some? <==> k + 1 < |s.guids| && Meets(p, now, s.guids[k], s.guids[k + 1]))
            && (found.Some? ==> found.value == p.sessions[s.guids[k + 1]])
  {
    assert Entry(p, pre, s, k, c);
    assert k + 1 < |s.guids| ==> Entry(p, pre, s, k + 1, c);
  }

  // ---------- Whole runs ----------

  lemma {:induction false} ArrivalsPrefix(events: seq<Event>, i: nat, g: Guid)
    requires i <= |events|
    ensures |ArrivalsOf(events[..i], g)| <= |ArrivalsOf(events, g)|
    ensures ArrivalsOf(events[..i], g) == ArrivalsOf(events, g)[..|ArrivalsOf(events[..i], g)|]
    decreases |events|
  {
    if i == |events| {
      assert events[..i] == events;
    } else {
      var front := events[..|events| - 1];
      ArrivalsPrefix(front, i, g);
      assert front[..i] == events[..i];
    }
  }

  lemma {:induction false} StreamHonest(events: seq<Event>, s: Stream, g: Guid)
    requires g in s.guids && forall i | 0 <= i < |events| :: CarriedBy(events[i], s)
    ensures Honest(ArrivalsOf(events, g))
  {
    if events != [] {
      StreamHonest(events[..|events| - 1], s, g);
      assert CarriedBy(events[|events| - 1], s);
    }
  }

  /** At any moment, a session of the stream that holds all its arrivals so far has the exact window. */
  lemma WindowSoFar(events: seq<Event>, s: Stream, i: nat, k: nat, live: Session)
    requires i <= |events| && k < |s.guids| && Carries(events, s) && Spaced(events, s)
    requires SessionOf(live, s.guids[k]) && live.arrivals == ArrivalsOf(events[..i], s.guids[k])
    ensures Represents(live.window, RangeOf(Indices(live.arrivals)))
  {
    var g := s.guids[k];
    ArrivalsPrefix(events, i, g);
    assert Indices(live.arrivals) == IndicesOf(events, g)[..|live.arrivals|];
    TolerantPrefix(IndicesOf(events, g), |live.arrivals|);
    PrefixRange(IndicesOf(events, g), |live.arrivals|);
    StreamHonest(events[..i], s, g);
    SessionWindowExact(live, g);
  }

  lemma {:induction false} ReportsAreEmitted(es: seq<Emission>, guids: seq<Guid>)
    ensures forall r | r in Reports(es, guids) :: r in es && r.guid in guids
  {
    if es != [] {
      ReportsAreEmitted(es[..|es| - 1], guids);
    }
  }

  lemma BeforeWellFormed(st: Server, e: Event)
    requires WellFormed(st)
    ensures WellFormed(Before(st, e)) && Before(st, e).emitted == st.emitted
  {
    match e
    case Ping(source, a, arrivedAt, _) =>
      ArriveWellFormed(st, source, a, arrivedAt);
      ArriveFrame(st, source, a, arrivedAt);
    case Alarm(_) =>
  }

  ghost predicate Traced(st: Server, keepalive: int, events: seq<Event>, i: nat, s: Stream, c: nat)
    requires i <= |events|
  {
    && Linked(st, events[..i], s, c) && "" !in st.sessions
    && forall k | 0 <= k < |s.guids| :: RecordedOnce(st, keepalive, events, i, s, k, c)
  }

  /** An interval that has begun and is gone was reported, so no packet of it comes. */
  lemma GoneFindsLive(keepalive: int, events: seq<Event>, s: Stream, i: nat, c: nat)
    requires NoneAfterReport(keepalive, events, s) && i < |events|
    requires Traced(Run(keepalive, events[..i]), keepalive, events, i, s, c)
    ensures FindsLive(Run(keepalive, events[..i]), events[i], s, c)
  {
    var st, e := Run(keepalive, events[..i]), events[i];
    if e.Ping? {
      forall k | 0 <= k < c && k < |s.guids| && s.guids[k] == e.arrival.packet.guid ensures s.guids[k] in st.sessions {
        assert RecordedOnce(st, keepalive, events, i, s, k, c);
        ReportsAreEmitted(st.emitted, [s.guids[k]]);
        if s.guids[k] !in st.sessions {
          assert Reports(st.emitted, [s.guids[k]])[0] in st.emitted;
          assert WasReported(st, s.guids[k]);
        }
      }
    }
  }

  lemma RecordKept(st: Server, p: Server, e: Event, keepalive: int, events: seq<Event>, i: nat, s: Stream, k: nat,
                   c: nat, c': nat)
    requires i < |events| && e == events[i] && k < |s.guids| && c <= c' <= c + 1 && Distinct(s.guids)
    requires RecordedOnce(st, keepalive, events, i, s, k, c) && FindsLive(st, e, s, c) && p == Before(st, e)
    requires c' > c ==> c < |s.guids| && e.Ping? && e.arrival.packet.guid == s.guids[c]
    ensures RecordedOnce(p, keepalive, events, i + 1, s, k, c')
  {
    if e.Ping? { ArriveFrame(st, e.source, e.arrival, e.arrivedAt); }
    ArrivalsStep(events, i, s.guids[k]);
  }

  /** A session of the next interval, met when its least packet has come, ties the record to that packet. */
  lemma TiedToLeast(p: Server, keepalive: int, events: seq<Event>, i: nat, s: Stream, k: nat, c: nat)
    requires i < |events| && Carries(events, s) && Spaced(events, s) && WellFormed(p)
    requires Linked(p, events[..i + 1], s, c) && k < |s.guids| && s.guids[k] in p.sessions
    requires LeastSettled(p, events, s.guids[k])
    ensures p.sessions[s.guids[k]].window.min == Wrap(Arrived(events, s.guids[k]).lo)
  {
    assert Entry(p, events[..i + 1], s, k, c);
    WindowSoFar(events, s, i + 1, k, p.sessions[s.guids[k]]);
  }

  /** The record made of an expired session. */
  lemma RecordMade(p: Server, keepalive: int, events: seq<Event>, i: nat, s: Stream, k: nat, c: nat)
    requires i < |events| && p == AboutToSweep(keepalive, events, i) && WellFormed(p) && "" !in p.sessions
    requires Carries(events, s) && Spaced(events, s) && LeastsSettled(keepalive, events, s)
    requires Linked(p, events[..i + 1], s, c) && k < |s.guids| && s.guids[k] in p.sessions
    requires Reported(Run(keepalive, events[..i]), events[i], s.guids[k])
    ensures var g, now := s.guids[k], SweepTime(events[i]);
            EmittedAt(Emission(g, p.sessions[g], FoundSuccessor(p, p.sessions.Keys, g, now), now),
                      keepalive, events, s, k, i)
  {
    var g, now := s.guids[k], SweepTime(events[i]);
    FoundIfMet(p, events[..i + 1], s, k, c, now);
    if FoundSuccessor(p, p.sessions.Keys, g, now).Some? {
      SettledAt(keepalive, events, s, i, k, k + 1);
      TiedToLeast(p, keepalive, events, i, s, k + 1, c);
    }
  }

  lemma RecordSwept(p: Server, keepalive: int, events: seq<Event>, i: nat, s: Stream, k: nat, c: nat)
    requires i < |events| && p == AboutToSweep(keepalive, events, i) && WellFormed(p) && "" !in p.sessions
    requires Step(Run(keepalive, events[..i]), events[i]).sessions == Sweep(p, SweepTime(events[i])).sessions
    requires Carries(events, s) && Spaced(events, s) && LeastsSettled(keepalive, events, s)
    requires Linked(p, events[..i + 1], s, c) && k < |s.guids| && RecordedOnce(p, keepalive, events, i + 1, s, k, c)
    ensures RecordedOnce(Sweep(p, SweepTime(events[i])), keepalive, events, i + 1, s, k, c)
  {
    var g, now := s.guids[k], SweepTime(events[i]);
    assert Entry(p, events[..i + 1], s, k, c);
    SweepReports(p, now, g);
    SweepExact(p, now);
    if g in p.sessions && Expired(p, p.sessions[g], now) {
      RecordMade(p, keepalive, events, i, s, k, c);
    }
  }

  lemma SettledAt(keepalive: int, events: seq<Event>, s: Stream, i: nat, j: nat, k: nat)
    requires LeastsSettled(keepalive, events, s) && i < |events| && j < k < |s.guids| && k == j + 1
    requires Reported(Run(keepalive, events[..i]), events[i], s.guids[j])
    requires s.guids[k] in AboutToSweep(keepalive, events, i).sessions
    ensures LeastSettled(AboutToSweep(keepalive, events, i), events, s.guids[k])
  {
  }

  lemma TakeSnoc<T>(ts: seq<T>, i: nat)
    requires i < |ts|
    ensures ts[..i] + [ts[i]] == ts[..i + 1]
  {
  }

  /** What the accounting asks of a run, whatever is lost between intervals. */
  ghost predicate Traceable(keepalive: int, events: seq<Event>, s: Stream) {
    && Carries(events, s) && Spaced(events, s)
    && FirstArrivalsInOrder(events, s) && RunsApart(keepalive, events, s)
    && NoneAfterReport(keepalive, events, s) && LeastsSettled(keepalive, events, s)
  }

  lemma ArrivalTraced(keepalive: int, events: seq<Event>, s: Stream, i: nat, c: nat) returns (c': nat)
    requires Traceable(keepalive, events, s) && i < |events|
    requires Traced(Run(keepalive, events[..i]), keepalive, events, i, s, c)
    ensures Traced(AboutToSweep(keepalive, events, i), keepalive, events, i + 1, s, c')
  {
    var st, e := Run(keepalive, events[..i]), events[i];
    RunWellFormed(keepalive, events[..i]);
    GoneFindsLive(keepalive, events, s, i, c);
    TakeSnoc(events, i);
    c' := ArrivalKeepsLinks(st, events[..i], e, s, c);
    NotBackBefore(st, e, "");
    var next := i + 1;
    forall k | 0 <= k < |s.guids| ensures RecordedOnce(Before(st, e), keepalive, events, next, s, k, c') {
      RecordKept(st, Before(st, e), e, keepalive, events, i, s, k, c, c');
    }
  }

  lemma SweepTraced(keepalive: int, events: seq<Event>, s: Stream, i: nat, c: nat)
    requires Traceable(keepalive, events, s) && i < |events|
    requires Traced(AboutToSweep(keepalive, events, i), keepalive, events, i + 1, s, c)
    ensures Traced(Run(keepalive, events[..i + 1]), keepalive, events, i + 1, s, c)
  {
    var st, e := Run(keepalive, events[..i]), events[i];
    RunStep(keepalive, events, i);
    if e.Ping? || st.intervalPackets == 0 {
      var r := Sweep(Before(st, e), SweepTime(e));
      SweptTraced(keepalive, events, s, i, c, r);
      TracedIgnoresInterval(r, Step(st, e), keepalive, events, i + 1, s, c);
    } else {
      TracedIgnoresInterval(st, Step(st, e), keepalive, events, i + 1, s, c);
    }
  }

  lemma SweptTraced(keepalive: int, events: seq<Event>, s: Stream, i: nat, c: nat, r: Server)
    requires Traceable(keepalive, events, s) && i < |events|
    requires events[i].Ping? || Run(keepalive, events[..i]).intervalPackets == 0
    requires Traced(AboutToSweep(keepalive, events, i), keepalive, events, i + 1, s, c)
    requires r == Sweep(AboutToSweep(keepalive, events, i), SweepTime(events[i]))
    ensures Traced(r, keepalive, events, i + 1, s, c)
  {
    var p, now, next := AboutToSweep(keepalive, events, i), SweepTime(events[i]), i + 1;
    RunWellFormed(keepalive, events[..i]);
    BeforeWellFormed(Run(keepalive, events[..i]), events[i]);
    SweepExact(p, now);
    SweepKeepsLinks(p, r, events[..next], s, c);
    forall k | 0 <= k < |s.guids| ensures RecordedOnce(r, keepalive, events, next, s, k, c) {
      RecordSwept(p, keepalive, events, i, s, k, c);
    }
  }

  lemma TracedIgnoresInterval(st: Server, r: Server, keepalive: int, events: seq<Event>, i: nat, s: Stream, c: nat)
    requires i <= |events| && Traced(st, keepalive, events, i, s, c)
    requires r == st.(intervalPackets := r.intervalPackets)
    ensures Traced(r, keepalive, events, i, s, c)
  {
    SweepKeepsLinks(st, r, events[..i], s, c);
    forall k | 0 <= k < |s.guids| ensures RecordedOnce(r, keepalive, events, i, s, k, c) {
      assert RecordedOnce(st, keepalive, events, i, s, k, c);
    }
  }

  /** At every moment of a run the stream's live sessions are linked, each to the next, and each interval
      whose session is gone has exactly one record. */
  lemma {:induction false} RunTraced(keepalive: int, events: seq<Event>, s: Stream, i: nat)
    requires Traceable(keepalive, events, s) && i <= |events|
    ensures exists c :: Traced(Run(keepalive, events[..i]), keepalive, events, i, s, c)
    decreases i
  {
    if i == 0 {
      assert Traced(Run(keepalive, events[..0]), keepalive, events, 0, s, 0);
    } else {
      RunTraced(keepalive, events, s, i - 1);
      var c :| Traced(Run(keepalive, events[..i - 1]), keepalive, events, i - 1, s, c);
      c := ArrivalTraced(keepalive, events, s, i - 1, c);
      SweepTraced(keepalive, events, s, i - 1, c);
    }
  }

  /** Once all are reported, every interval has its one record. */
  lemma AllRecorded(keepalive: int, events: seq<Event>, s: Stream, k: nat)
    requires Traceable(keepalive, events, s) && AllReported(keepalive, events, s) && k < |s.guids|
    ensures IntervalRecord(keepalive, events, s, k)
  {
    RunTraced(keepalive, events, s, |events|);
    assert events[..|events|] == events;
    var c :| Traced(Run(keepalive, events), keepalive, events, |events|, s, c);
    assert Entry(Run(keepalive, events), events, s, k, c);
    assert RecordedOnce(Run(keepalive, events), keepalive, events, |events|, s, k, c);
  }

  ghost predicate IntervalRecord(keepalive: int, events: seq<Event>, s: Stream, k: nat)
    requires k < |s.guids|
  {
    var rs := Reports(Run(keepalive, events).emitted, [s.guids[k]]);
    && |rs| == 1 && rs[0].guid == s.guids[k] && rs[0].session.arrivals == ArrivalsOf(events, s.guids[k])
    && exists n :: 0 <= n < |events| && EmittedAt(rs[0], keepalive, events, s, k, n)
  }

  // ---------- The chain of live sessions ----------

  lemma SettledIsTraceable(keepalive: int, events: seq<Event>, s: Stream)
    requires Accountable(keepalive, events, s)
    ensures Traceable(keepalive, events, s)
  {
    forall i, j, k | 0 <= i < |events| && 0 <= j < k < |s.guids| && k == j + 1
                     && Reported(Run(keepalive, events[..i]), events[i], s.guids[j])
                     && s.guids[k] in AboutToSweep(keepalive, events, i).sessions
      ensures LeastSettled(AboutToSweep(keepalive, events, i), events, s.guids[k])
    {
      SuccessorSettledAt(keepalive, events, s, i, j, k);
    }
  }

  /** The live sessions are those of intervals `m` to `c - 1`; those before are reported. */
  ghost predicate ChainedAt(keepalive: int, events: seq<Event>, s: Stream, i: nat, m: nat, c: nat)
    requires i <= |events|
  {
    var st := Run(keepalive, events[..i]);
    && m <= c && Linked(st, events[..i], s, c)
    && forall k | 0 <= k < |s.guids| :: s.guids[k] in st.sessions <==> m <= k < c
  }

  /** Once an interval is reported, the one before is gone. */
  lemma GoneBefore(keepalive: int, events: seq<Event>, s: Stream, n: nat, j: nat, k: nat)
    requires Traceable(keepalive, events, s) && SuccessorsSettled(keepalive, events, s)
    requires AllReported(keepalive, events, s) && n < |events| && j < k < |s.guids| && k == j + 1
    requires Reported(Run(keepalive, events[..n]), events[n], s.guids[k])
    ensures Gone(Run(keepalive, events[..n + 1]), s.guids[j])
  {
    RunTraced(keepalive, events, s, n);
    var c :| Traced(Run(keepalive, events[..n]), keepalive, events, n, s, c);
    c := ArrivalTraced(keepalive, events, s, n, c);
    assert Entry(AboutToSweep(keepalive, events, n), events[..n + 1], s, k, c);
    SweepTraced(keepalive, events, s, n, c);
    ReportedInOrder(keepalive, events, s, n, j, k);
    RecordedWasReported(keepalive, events, s, n + 1, j, c);
  }

  lemma RecordedWasReported(keepalive: int, events: seq<Event>, s: Stream, i: nat, k: nat, c: nat)
    requires i <= |events| && k < |s.guids| && k < c && s.guids[k] !in Run(keepalive, events[..i]).sessions
    requires Traced(Run(keepalive, events[..i]), keepalive, events, i, s, c)
    ensures WasReported(Run(keepalive, events[..i]), s.guids[k])
  {
    var st := Run(keepalive, events[..i]);
    assert RecordedOnce(st, keepalive, events, i, s, k, c);
    ReportsAreEmitted(st.emitted, [s.guids[k]]);
    assert Reports(st.emitted, [s.guids[k]])[0] in st.emitted;
  }

  /** While an interval is live, so is the next, if that has begun. */
  lemma NextIsLive(keepalive: int, events: seq<Event>, s: Stream, i: nat, j: nat, c: nat)
    requires i <= |events| && j + 1 < c <= |s.guids| && NotReportedYet(keepalive, events, i, s.guids[j + 1])
    requires Traced(Run(keepalive, events[..i]), keepalive, events, i, s, c)
    ensures s.guids[j + 1] in Run(keepalive, events[..i]).sessions
  {
    if s.guids[j + 1] !in Run(keepalive, events[..i]).sessions {
      var n := ReportedAt(keepalive, events, s, i, j + 1, c);
    }
  }

  ghost predicate NotReportedYet(keepalive: int, events: seq<Event>, i: nat, g: Guid)
    requires i <= |events|
  {
    forall n | 0 <= n < i :: !Reported(Run(keepalive, events[..n]), events[n], g)
  }

  lemma NextNotReported(keepalive: int, events: seq<Event>, s: Stream, i: nat, j: nat)
    requires Accountable(keepalive, events, s) && i <= |events| && j + 1 < |s.guids|
    requires s.guids[j] in Run(keepalive, events[..i]).sessions
    ensures NotReportedYet(keepalive, events, i, s.guids[j + 1])
  {
    SettledIsTraceable(keepalive, events, s);
    forall n | 0 <= n < i && Reported(Run(keepalive, events[..n]), events[n], s.guids[j + 1]) ensures false {
      GoneSince(keepalive, events, s, i, j, n);
    }
  }

  lemma GoneSince(keepalive: int, events: seq<Event>, s: Stream, i: nat, j: nat, n: nat)
    requires Traceable(keepalive, events, s) && SuccessorsSettled(keepalive, events, s)
    requires AllReported(keepalive, events, s) && n < i <= |events| && j + 1 < |s.guids|
    requires Reported(Run(keepalive, events[..n]), events[n], s.guids[j + 1])
    ensures s.guids[j] !in Run(keepalive, events[..i]).sessions
  {
    GoneBefore(keepalive, events, s, n, j, j + 1);
    NeverBack(keepalive, events, s, s.guids[j], n + 1, i);
  }

  lemma ReportedAt(keepalive: int, events: seq<Event>, s: Stream, i: nat, k: nat, c: nat) returns (n: nat)
    requires i <= |events| && k < c <= |s.guids| && s.guids[k] !in Run(keepalive, events[..i]).sessions
    requires Traced(Run(keepalive, events[..i]), keepalive, events, i, s, c)
    ensures n < i && Reported(Run(keepalive, events[..n]), events[n], s.guids[k])
  {
    var st := Run(keepalive, events[..i]);
    assert RecordedOnce(st, keepalive, events, i, s, k, c);
    n :| 0 <= n < i && EmittedAt(Reports(st.emitted, [s.guids[k]])[0], keepalive, events, s, k, n);
  }

  /** At every moment of an accountable run the stream's sessions form a chain: the oldest are reported,
      in order, the others live, each linked to the next. */
  lemma RunChained(keepalive: int, events: seq<Event>, s: Stream, i: nat)
    requires Accountable(keepalive, events, s) && i <= |events|
    ensures exists m, c :: ChainedAt(keepalive, events, s, i, m, c)
  {
    SettledIsTraceable(keepalive, events, s);
    RunTraced(keepalive, events, s, i);
    var c :| Traced(Run(keepalive, events[..i]), keepalive, events, i, s, c);
    var live := Run(keepalive, events[..i]).sessions.Keys;
    LiveUpward(keepalive, events, s, i, c, live);
    var m := OldestOf(s.guids, live, c);
    assert ChainedAt(keepalive, events, s, i, m, c);
  }

  /** No GUID from the `c`-th on is live, and after a live one all before that are. */
  ghost predicate Upward(guids: seq<Guid>, live: set<Guid>, c: nat) {
    && (forall k | 0 <= k < |guids| && guids[k] in live :: k < c)
    && (forall j | 0 <= j < |guids| :: NextLive(guids, live, c, j))
  }

  ghost predicate NextLive(guids: seq<Guid>, live: set<Guid>, c: nat, j: nat)
    requires j < |guids|
  {
    j + 1 < c && j + 1 < |guids| && guids[j] in live ==> guids[j + 1] in live
  }

  lemma LiveUpward(keepalive: int, events: seq<Event>, s: Stream, i: nat, c: nat, live: set<Guid>)
    requires Accountable(keepalive, events, s) && i <= |events|
    requires Traced(Run(keepalive, events[..i]), keepalive, events, i, s, c)
    requires live == Run(keepalive, events[..i]).sessions.Keys
    ensures Upward(s.guids, live, c)
  {
    LiveBelow(Run(keepalive, events[..i]), events[..i], s, c, live);
    forall j | 0 <= j < |s.guids| ensures NextLive(s.guids, live, c, j) {
      if j + 1 < c && s.guids[j] in live {
        NextNotReported(keepalive, events, s, i, j);
        NextIsLive(keepalive, events, s, i, j, c);
      }
    }
  }

  lemma LiveBelow(st: Server, pre: seq<Event>, s: Stream, c: nat, live: set<Guid>)
    requires Linked(st, pre, s, c) && live == st.sessions.Keys
    ensures forall k | 0 <= k < |s.guids| && s.guids[k] in live :: k < c
  {
    forall k | 0 <= k < |s.guids| && s.guids[k] in live ensures k < c {
      assert Entry(st, pre, s, k, c);
    }
  }

  lemma OldestOf(guids: seq<Guid>, live: set<Guid>, c: nat) returns (m: nat)
    requires Upward(guids, live, c) && c <= |guids|
    ensures m <= c && forall k | 0 <= k < |guids| :: guids[k] in live <==> m <= k < c
  {
    m := 0;
    while m < c && guids[m] !in live
      invariant m <= c && forall k | 0 <= k < m :: guids[k] !in live
    {
      m := m + 1;
    }
    forall k | m <= k < c ensures guids[k] in live {
      AllAfter(guids, live, c, m, k);
    }
  }

  lemma {:induction false} AllAfter(guids: seq<Guid>, live: set<Guid>, c: nat, j: nat, k: nat)
    requires Upward(guids, live, c) && j <= k < c <= |guids| && guids[j] in live
    ensures guids[k] in live
    decreases k - j
  {
    assert NextLive(guids, live, c, j);
    if j < k { AllAfter(guids, live, c, j + 1, k); }
  }
}
