/**
 Loss accounting from the log of events alone.

 For a server whose clock never goes back, the live sessions are those whose last packet is at most
 `keepalive` older than the last sweep.  With that, the conditions of the accounting on the server's
 state are equivalent to conditions on the times at which packets and alarms came.
 */
module PunctualLogs {
  import opened SeqWindow
  import opened GuidOrder
  import opened ServerModel
  import opened ServerRuns
  import opened ClientStreams
  import opened RunTraces
  import opened LossAccounting

  // ---------- Clock readings ----------

  /** When the packets with GUID `g` arrived. */
  function TimesOf(events: seq<Event>, g: Guid): seq<int> {
    if events == [] then []
    else
      var e := events[|events| - 1];
      TimesOf(events[..|events| - 1], g) + if e.Ping? && e.arrival.packet.guid == g then [e.arrivedAt] else []
  }

  function LastTime(events: seq<Event>, g: Guid): int
    requires TimesOf(events, g) != []
  {
    TimesOf(events, g)[|TimesOf(events, g)| - 1]
  }

  /** The clock never goes back. */
  ghost predicate Forward(start: int, events: seq<Event>) {
    events == [] ||
    var front, e := events[..|events| - 1], events[|events| - 1];
    && Forward(start, front)
    && match e
       case Ping(_, _, arrivedAt, sweptAt) => Clock(start, front) <= arrivedAt <= sweptAt
       case Alarm(now) => Clock(start, front) <= now
  }

  /** When the last sweep was: every packet sweeps, and an alarm does if no packet came since the one before. */
  function LastSweep(start: int, events: seq<Event>): int {
    if events == [] then start
    else
      var front, e := events[..|events| - 1], events[|events| - 1];
      match e
      case Ping(_, _, _, sweptAt) => sweptAt
      case Alarm(now) => if front == [] || front[|front| - 1].Alarm? then now else LastSweep(start, front)
  }

  /** Whether event `n` sweeps. */
  predicate Sweeps(events: seq<Event>, n: nat)
    requires n < |events|
  {
    events[n].Ping? || n == 0 || events[n - 1].Alarm?
  }

  predicate IsPing(e: Event, g: Guid) {
    e.Ping? && e.arrival.packet.guid == g
  }

  lemma {:induction false} ForwardPrefix(start: int, events: seq<Event>, i: nat)
    requires Forward(start, events) && i <= |events|
    ensures Forward(start, events[..i]) && Clock(start, events[..i]) <= Clock(start, events)
    decreases |events|
  {
    if i == |events| {
      assert events[..i] == events;
    } else {
      var front := events[..|events| - 1];
      ForwardPrefix(start, front, i);
      assert front[..i] == events[..i];
    }
  }

  lemma {:induction false} SweepPast(start: int, events: seq<Event>)
    requires Forward(start, events)
    ensures LastSweep(start, events) <= Clock(start, events)
  {
    if events != [] { SweepPast(start, events[..|events| - 1]); }
  }

  lemma TimesStep(events: seq<Event>, i: nat, g: Guid)
    requires i < |events|
    ensures TimesOf(events[..i + 1], g)
            == TimesOf(events[..i], g)
               + if events[i].Ping? && events[i].arrival.packet.guid == g then [events[i].arrivedAt] else []
  {
    assert events[..i + 1][..i] == events[..i];
  }

  /** The readings after event `i` come on top of those before, and are not earlier than the clock then. */
  lemma {:induction false} LaterTimes(start: int, events: seq<Event>, i: nat, g: Guid)
    requires Forward(start, events) && i <= |events|
    ensures var before, all := TimesOf(events[..i], g), TimesOf(events, g);
            && |before| <= |all| && all[..|before|] == before
            && forall n | |before| <= n < |all| :: Clock(start, events[..i]) <= all[n]
    decreases |events|
  {
    if i == |events| {
      assert events[..i] == events;
    } else {
      var front := events[..|events| - 1];
      LaterTimes(start, front, i, g);
      ForwardPrefix(start, front, i);
      assert front[..i] == events[..i];
    }
  }

  lemma {:induction false} TimesAscend(start: int, events: seq<Event>, g: Guid)
    requires Forward(start, events)
    ensures forall t | t in TimesOf(events, g) :: t <= LastTime(events, g) <= Clock(start, events)
  {
    if events != [] {
      TimesAscend(start, events[..|events| - 1], g);
    }
  }

  // ---------- Which sessions are live ----------

  ghost predicate RemembersLast(st: Server, events: seq<Event>) {
    forall g | g in st.sessions :: TimesOf(events, g) != [] && st.sessions[g].lastArrival == LastTime(events, g)
  }

  lemma BeforeRemembers(st: Server, front: seq<Event>, e: Event)
    requires RemembersLast(st, front)
    ensures RemembersLast(Before(st, e), front + [e])
  {
    var p := Before(st, e);
    if e.Ping? { ArriveFrame(st, e.source, e.arrival, e.arrivedAt); }
    forall g | g in p.sessions
      ensures TimesOf(front + [e], g) != [] && p.sessions[g].lastArrival == LastTime(front + [e], g)
    {
      assert (front + [e])[..|front|] == front;
    }
  }

  lemma StepRemembers(st: Server, e: Event, events: seq<Event>)
    requires RemembersLast(Before(st, e), events)
    ensures RemembersLast(Step(st, e), events)
  {
    StepEffect(st, e);
  }

  lemma FrontAndLast<T>(ts: seq<T>)
    requires ts != []
    ensures ts == ts[..|ts| - 1] + [ts[|ts| - 1]]
  {
  }

  /** `lastArrival` is the time of the GUID's last packet. */
  lemma {:induction false} LastArrivalRemembered(keepalive: int, events: seq<Event>)
    ensures RemembersLast(Run(keepalive, events), events)
  {
    if events != [] {
      var front, e := events[..|events| - 1], events[|events| - 1];
      LastArrivalRemembered(keepalive, front);
      BeforeRemembers(Run(keepalive, front), front, e);
      StepRemembers(Run(keepalive, front), e, front + [e]);
      FrontAndLast(events);
    }
  }

  lemma {:induction false} QuietInterval(keepalive: int, events: seq<Event>)
    ensures Run(keepalive, events).intervalPackets == 0 <==> events == [] || events[|events| - 1].Alarm?
  {
    if events != [] {
      var front, e := events[..|events| - 1], events[|events| - 1];
      var st := Run(keepalive, front);
      match e
      case Ping(source, a, arrivedAt, sweptAt) =>
        ArriveFrame(st, source, a, arrivedAt);
        SweepExact(Arrive(st, source, a, arrivedAt), sweptAt);
      case Alarm(_) =>
    }
  }

  ghost predicate Recent(keepalive: int, start: int, events: seq<Event>, g: Guid) {
    TimesOf(events, g) != [] && LastSweep(start, events) <= LastTime(events, g) + keepalive
  }

  lemma BeforeKeepalive(keepalive: int, events: seq<Event>, e: Event)
    ensures Before(Run(keepalive, events), e).keepalive == keepalive
  {
    RunWellFormed(keepalive, events);
    if e.Ping? { ArriveFrame(Run(keepalive, events), e.source, e.arrival, e.arrivedAt); }
  }

  lemma RecentStep(keepalive: int, start: int, front: seq<Event>, e: Event, g: Guid)
    requires Forward(start, front + [e])
    requires g in Run(keepalive, front).sessions <==> Recent(keepalive, start, front, g)
    ensures g in Run(keepalive, front + [e]).sessions <==> Recent(keepalive, start, front + [e], g)
  {
    var st := Run(keepalive, front);
    assert (front + [e])[..|front|] == front;
    LastArrivalRemembered(keepalive, front);
    BeforeRemembers(st, front, e);
    BeforeKeepalive(keepalive, front, e);
    SweepPast(start, front);
    QuietInterval(keepalive, front);
    SurvivesIff(st, e, g);
  }

  lemma SurvivesIff(st: Server, e: Event, g: Guid)
    ensures var p := Before(st, e);
            g in Step(st, e).sessions
            <==> g in p.sessions && ((e.Ping? || st.intervalPackets == 0) ==> !Expired(p, p.sessions[g], SweepTime(e)))
    ensures g in Before(st, e).sessions <==> g in st.sessions || (e.Ping? && e.arrival.packet.guid == g)
  {
    StepEffect(st, e);
    if e.Ping? { ArriveFrame(st, e.source, e.arrival, e.arrivedAt); }
  }

  /** While the clock does not go back, a session is live exactly while the last sweep is at most
      `keepalive` after its last packet. */
  lemma {:induction false} LiveIffRecent(keepalive: int, start: int, events: seq<Event>, g: Guid)
    requires Forward(start, events)
    ensures g in Run(keepalive, events).sessions <==> Recent(keepalive, start, events, g)
  {
    if events != [] {
      var front := events[..|events| - 1];
      LiveIffRecent(keepalive, start, front, g);
      FrontAndLast(events);
      RecentStep(keepalive, start, front, events[|events| - 1], g);
    }
  }

  // ---------- Sweeps in the log ----------

  /** Later events sweep no earlier. */
  lemma SweepTimesAscend(start: int, events: seq<Event>, m: nat, n: nat)
    requires Forward(start, events) && m <= n < |events|
    ensures SweepTime(events[m]) <= SweepTime(events[n])
    ensures m < n && events[n].Ping? ==> SweepTime(events[m]) <= events[n].arrivedAt
  {
    if m < n {
      ForwardPrefix(start, events, n + 1);
      assert events[..n + 1][..n] == events[..n];
      ForwardPrefix(start, events[..n], m + 1);
      assert events[..n][..m + 1] == events[..m + 1];
    }
  }

  /** The sweeps so far are no later than the last. */
  lemma {:induction false} SweepsBounded(start: int, events: seq<Event>, n: nat)
    requires Forward(start, events) && n < |events| && Sweeps(events, n)
    ensures SweepTime(events[n]) <= LastSweep(start, events)
    decreases |events|
  {
    if n < |events| - 1 {
      var front := events[..|events| - 1];
      SweepsBounded(start, front, n);
      SweepPast(start, front);
    }
  }

  lemma SweepIsLast(start: int, events: seq<Event>, n: nat)
    requires n < |events|
    ensures Sweeps(events, n) ==> LastSweep(start, events[..n + 1]) == SweepTime(events[n])
  {
    assert events[..n + 1][..n] == events[..n];
  }

  /** The last sweep is one of the events, if any packet has come, and no packet came after it. */
  lemma LastSweepEvent(start: int, events: seq<Event>, i: nat, g: Guid) returns (m: nat)
    requires i <= |events| && TimesOf(events[..i], g) != []
    ensures m < i && Sweeps(events, m) && SweepTime(events[m]) == LastSweep(start, events[..i])
    ensures forall n | m < n < i :: events[n].Alarm?
  {
    m := i - 1;
    assert i > 1 ==> events[..i][..i - 1] == events[..i - 1];
    if !Sweeps(events, m) {
      m := m - 1;
    }
  }

  lemma {:induction false} TimesSame(events: seq<Event>, m: nat, n: nat, g: Guid)
    requires m <= n <= |events| && forall i | m <= i < n :: !IsPing(events[i], g)
    ensures TimesOf(events[..n], g) == TimesOf(events[..m], g)
    decreases n - m
  {
    if m < n {
      TimesStep(events, m, g);
      TimesSame(events, m + 1, n, g);
    }
  }

  // ---------- Packets after a report ----------

  /** No sweep before a packet of `g` finds the packets of `g` so far more than `keepalive` old. */
  ghost predicate Unbroken(keepalive: int, events: seq<Event>, g: Guid) {
    forall m, n | 0 <= m < n < |events| :: StillInTime(keepalive, events, g, m, n)
  }

  ghost predicate StillInTime(keepalive: int, events: seq<Event>, g: Guid, m: nat, n: nat)
    requires m < n < |events|
  {
    Sweeps(events, m) && IsPing(events[n], g) && TimesOf(events[..m + 1], g) != []
    ==> SweepTime(events[m]) <= LastTime(events[..m + 1], g) + keepalive
  }

  /** In particular, a GUID whose packets are at most `keepalive` apart is unbroken. */
  lemma SteadyIsUnbroken(keepalive: int, start: int, events: seq<Event>, g: Guid)
    requires Forward(start, events)
    requires forall i, j | 0 <= i < j < |TimesOf(events, g)| && j == i + 1 ::
               TimesOf(events, g)[j] <= TimesOf(events, g)[i] + keepalive
    ensures Unbroken(keepalive, events, g)
  {
    forall m, n | 0 <= m < n < |events| ensures StillInTime(keepalive, events, g, m, n) {
      if IsPing(events[n], g) && TimesOf(events[..m + 1], g) != [] {
        NextTime(start, events, m, n, g);
      }
    }
  }

  /** Before event `n` the next packet after event `m` comes no earlier than that event's sweep. */
  lemma NextTime(start: int, events: seq<Event>, m: nat, n: nat, g: Guid)
    requires Forward(start, events) && m < n < |events| && IsPing(events[n], g) && TimesOf(events[..m + 1], g) != []
    ensures var k, all := |TimesOf(events[..m + 1], g)|, TimesOf(events, g);
            k < |all| && all[k - 1] == LastTime(events[..m + 1], g) && SweepTime(events[m]) <= all[k]
  {
    LaterTimes(start, events, m + 1, g);
    LaterTimes(start, events, n + 1, g);
    TimesStep(events, n, g);
    ForwardPrefix(start, events, n);
    LaterTimes(start, events[..n], m + 1, g);
    assert events[..n][..m + 1] == events[..m + 1];
    var before, all := TimesOf(events[..m + 1], g), TimesOf(events, g);
    assert all[|before| - 1] == all[..|before|][|before| - 1];
  }

  /** Once a sweep is more than `keepalive` past the last packet of an unbroken GUID, no more come. */
  lemma NothingMore(keepalive: int, start: int, events: seq<Event>, i: nat, g: Guid)
    requires Forward(start, events) && i <= |events| && Unbroken(keepalive, events, g)
    requires TimesOf(events[..i], g) != []
    requires LastTime(events[..i], g) + keepalive < LastSweep(start, events[..i])
    ensures TimesOf(events, g) == TimesOf(events[..i], g)
    ensures forall n | i <= n < |events| :: !IsPing(events[n], g)
  {
    var m := LastSweepEvent(start, events, i, g);
    TimesSame(events, m + 1, i, g);
    NoLaterPing(keepalive, events, m, g);
    TimesSame(events, i, |events|, g);
    assert events[..|events|] == events;
  }

  lemma NoLaterPing(keepalive: int, events: seq<Event>, m: nat, g: Guid)
    requires Unbroken(keepalive, events, g) && m < |events| && Sweeps(events, m)
    requires TimesOf(events[..m + 1], g) != [] && LastTime(events[..m + 1], g) + keepalive < SweepTime(events[m])
    ensures forall n | m < n < |events| :: !IsPing(events[n], g)
  {
    forall n | m < n < |events| ensures !IsPing(events[n], g) {
      assert StillInTime(keepalive, events, g, m, n);
    }
  }

  /** A session that is gone was reported. */
  lemma GoneWasReported(keepalive: int, events: seq<Event>, g: Guid)
    requires TimesOf(events, g) != [] && g !in Run(keepalive, events).sessions
    ensures WasReported(Run(keepalive, events), g)
  {
    RunHistory(keepalive, events, g);
    TimesAndArrivals(events, g);
    var es := Run(keepalive, events).emitted;
    if forall i | 0 <= i < |es| :: es[i].guid != g {
      NoEmittedArrivals(es, g);
    }
  }

  lemma {:induction false} TimesAndArrivals(events: seq<Event>, g: Guid)
    ensures |TimesOf(events, g)| == |ArrivalsOf(events, g)|
  {
    if events != [] { TimesAndArrivals(events[..|events| - 1], g); }
  }

  lemma {:induction false} NoEmittedArrivals(es: seq<Emission>, g: Guid)
    requires forall i | 0 <= i < |es| :: es[i].guid != g
    ensures EmittedArrivals(es, g) == []
  {
    if es != [] { NoEmittedArrivals(es[..|es| - 1], g); }
  }

  lemma {:induction false} ReportedFrom(keepalive: int, events: seq<Event>, g: Guid, i: nat, j: nat)
    requires i <= j <= |events| && WasReported(Run(keepalive, events[..i]), g)
    ensures WasReported(Run(keepalive, events[..j]), g)
    decreases j - i
  {
    if i < j {
      RunStep(keepalive, events, i);
      StillReported(Run(keepalive, events[..i]), events[i], g);
      ReportedFrom(keepalive, events, g, i + 1, j);
    }
  }

  /** What is reported anew is removed. */
  lemma NewlyReported(st: Server, e: Event, g: Guid)
    requires WasReported(Step(st, e), g) && !WasReported(st, g)
    ensures Reported(st, e, g)
  {
    var p, r, now := Before(st, e), Step(st, e), SweepTime(e);
    if e.Ping? { ArriveFrame(st, e.source, e.arrival, e.arrivedAt); }
    assert p.emitted == st.emitted;
    SweepExact(p, now);
    if e.Ping? || st.intervalPackets == 0 {
      NewAmong(p, Sweep(p, now), now, g);
    }
  }

  lemma NewAmong(p: Server, r: Server, now: int, g: Guid)
    requires SweepsExactly(p, p.sessions.Keys, r, now) && WasReported(r, g) && !WasReported(p, g)
    ensures Due(p, p.sessions.Keys, g, now) && g !in r.sessions
  {
    var i :| 0 <= i < |r.emitted| && r.emitted[i].guid == g;
    var n := |p.emitted|;
    forall j | 0 <= j < n ensures r.emitted[j] == p.emitted[j] {
      assert r.emitted[j] == r.emitted[..n][j];
    }
    assert r.emitted[n..][i - n] == r.emitted[i];
  }

  lemma {:induction false} ReportingEvent(keepalive: int, events: seq<Event>, g: Guid, i: nat) returns (n: nat)
    requires i <= |events| && WasReported(Run(keepalive, events[..i]), g)
    ensures n < i && Reported(Run(keepalive, events[..n]), events[n], g)
    decreases i
  {
    RunStep(keepalive, events, i - 1);
    if WasReported(Run(keepalive, events[..i - 1]), g) {
      n := ReportingEvent(keepalive, events, g, i - 1);
    } else {
      n := i - 1;
      NewlyReported(Run(keepalive, events[..n]), events[n], g);
    }
  }

  /** At the event that reports `g` and removes it, its session holds its packets so far, the last of
      them more than `keepalive` ago. */
  lemma ReportedIsLate(keepalive: int, start: int, events: seq<Event>, i: nat, g: Guid)
    requires Forward(start, events) && i < |events| && Reported(Run(keepalive, events[..i]), events[i], g)
    ensures Sweeps(events, i) && LastSweep(start, events[..i + 1]) == SweepTime(events[i])
    ensures TimesOf(events[..i + 1], g) != []
    ensures AboutToSweep(keepalive, events, i).sessions[g].lastArrival == LastTime(events[..i + 1], g)
    ensures LastTime(events[..i + 1], g) + keepalive < SweepTime(events[i])
  {
    BeforeAt(keepalive, events, i);
    QuietInterval(keepalive, events[..i]);
    SurvivesIff(Run(keepalive, events[..i]), events[i], g);
    SweepIsLast(start, events, i);
  }

  lemma BeforeAt(keepalive: int, events: seq<Event>, i: nat)
    requires i < |events|
    ensures RemembersLast(AboutToSweep(keepalive, events, i), events[..i + 1])
    ensures AboutToSweep(keepalive, events, i).keepalive == keepalive
  {
    LastArrivalRemembered(keepalive, events[..i]);
    TakeSnoc(events, i);
    BeforeRemembers(Run(keepalive, events[..i]), events[..i], events[i]);
    BeforeKeepalive(keepalive, events[..i], events[i]);
  }

  /** No packet of `g` comes after its report if and only if `g` is unbroken. */
  lemma NoneAfterIff(keepalive: int, start: int, events: seq<Event>, g: Guid)
    requires Forward(start, events)
    ensures Unbroken(keepalive, events, g)
            <==> forall i | 0 <= i < |events| && IsPing(events[i], g) :: !WasReported(Run(keepalive, events[..i]), g)
  {
    if Unbroken(keepalive, events, g) {
      forall i | 0 <= i < |events| && IsPing(events[i], g) ensures !WasReported(Run(keepalive, events[..i]), g) {
        if WasReported(Run(keepalive, events[..i]), g) {
          var n := ReportingEvent(keepalive, events, g, i);
          assert StillInTime(keepalive, events, g, n, i);
          ReportedIsLate(keepalive, start, events, n, g);
        }
      }
    }
    if forall i | 0 <= i < |events| && IsPing(events[i], g) :: !WasReported(Run(keepalive, events[..i]), g) {
      forall m, n | 0 <= m < n < |events| ensures StillInTime(keepalive, events, g, m, n) {
        if !StillInTime(keepalive, events, g, m, n) {
          LateIsReported(keepalive, start, events, m, g);
          ReportedFrom(keepalive, events, g, m + 1, n);
        }
      }
    }
  }

  lemma LateIsReported(keepalive: int, start: int, events: seq<Event>, m: nat, g: Guid)
    requires Forward(start, events) && m < |events| && Sweeps(events, m) && TimesOf(events[..m + 1], g) != []
    requires LastTime(events[..m + 1], g) + keepalive < SweepTime(events[m])
    ensures WasReported(Run(keepalive, events[..m + 1]), g)
  {
    ForwardPrefix(start, events, m + 1);
    LiveIffRecent(keepalive, start, events[..m + 1], g);
    SweepIsLast(start, events, m);
    GoneWasReported(keepalive, events[..m + 1], g);
  }

  // ---------- Where the sweeps fall at a handover ----------

  /** Event `n` comes before any sweep finds the last packet of `g` more than `keepalive` old. */
  ghost predicate InTime(keepalive: int, events: seq<Event>, g: Guid, n: nat)
    requires TimesOf(events, g) != []
  {
    forall m | 0 <= m < n && m < |events| && Sweeps(events, m) ::
      SweepTime(events[m]) <= LastTime(events, g) + keepalive
  }

  /** A sweep falls after `a`, and not after `b`. */
  ghost predicate SweepIn(events: seq<Event>, a: int, b: int) {
    exists n :: 0 <= n < |events| && Sweeps(events, n) && a < SweepTime(events[n]) <= b
  }

  /** The first sweep to find `g` expired does not find `h` expired, or comes to `g` first and finds `h` there. */
  ghost predicate Outlasts(keepalive: int, events: seq<Event>, g: Guid, h: Guid)
    requires TimesOf(events, g) != [] && TimesOf(events, h) != []
  {
    var a, b := LastTime(events, g) + keepalive, LastTime(events, h) + keepalive;
    SweepIn(events, a, b) || (Below(g, h) && !SweepIn(events, b, a))
  }

  ghost predicate BegunInTime(keepalive: int, events: seq<Event>, g: Guid, h: Guid)
    requires TimesOf(events, g) != []
  {
    exists n :: 0 <= n < |events| && IsPing(events[n], h) && InTime(keepalive, events, g, n)
  }

  ghost predicate LeastInTime(keepalive: int, events: seq<Event>, g: Guid, h: Guid)
    requires TimesOf(events, g) != []
  {
    exists n :: 0 <= n < |events| && LeastOf(events, n, h) && InTime(keepalive, events, g, n)
  }

  /** Event `n` is the arrival of the least packet of `h`. */
  ghost predicate LeastOf(events: seq<Event>, n: nat, h: Guid)
    requires n < |events|
  {
    IsPing(events[n], h) && ArrivalsOf(events, h) != [] && events[n].arrival.packet.index == Arrived(events, h).lo
  }

  lemma TimesGrow(start: int, events: seq<Event>, i: nat, g: Guid)
    requires Forward(start, events) && i <= |events| && TimesOf(events[..i], g) != []
    ensures TimesOf(events, g) != [] && LastTime(events[..i], g) <= LastTime(events, g)
  {
    LaterTimes(start, events, i, g);
    TimesAscend(start, events, g);
    var n, all := |TimesOf(events[..i], g)|, TimesOf(events, g);
    assert LastTime(events[..i], g) == all[..n][n - 1] == all[n - 1];
    assert all[n - 1] in all;
  }

  /** A live GUID was heard of at most `keepalive` before every sweep so far. */
  lemma LiveBound(keepalive: int, start: int, events: seq<Event>, i: nat, g: Guid, m: nat)
    requires Forward(start, events) && m < i <= |events| && Sweeps(events, m)
    requires g in Run(keepalive, events[..i]).sessions
    ensures TimesOf(events, g) != [] && SweepTime(events[m]) <= LastTime(events, g) + keepalive
  {
    ForwardPrefix(start, events, i);
    LiveIffRecent(keepalive, start, events[..i], g);
    SweepsBounded(start, events[..i], m);
    TimesGrow(start, events, i, g);
  }

  lemma PingBound(keepalive: int, start: int, events: seq<Event>, i: nat, g: Guid, m: nat)
    requires keepalive >= 0 && Forward(start, events) && m < i < |events| && IsPing(events[i], g)
    ensures TimesOf(events, g) != [] && SweepTime(events[m]) <= LastTime(events, g) + keepalive
  {
    SweepTimesAscend(start, events, m, i);
    TimesStep(events, i, g);
    TimesGrow(start, events, i + 1, g);
  }

  /** And so was one that has a session when event `i` is about to sweep. */
  lemma PresentBound(keepalive: int, start: int, events: seq<Event>, i: nat, g: Guid, m: nat)
    requires keepalive >= 0 && Forward(start, events) && m < i < |events| && Sweeps(events, m)
    requires g in AboutToSweep(keepalive, events, i).sessions
    ensures TimesOf(events, g) != [] && SweepTime(events[m]) <= LastTime(events, g) + keepalive
  {
    SurvivesIff(Run(keepalive, events[..i]), events[i], g);
    if g in Run(keepalive, events[..i]).sessions {
      LiveBound(keepalive, start, events, i, g, m);
    } else {
      PingBound(keepalive, start, events, i, g, m);
    }
  }

  lemma PresentInTime(keepalive: int, start: int, events: seq<Event>, i: nat, g: Guid)
    requires keepalive >= 0 && Forward(start, events) && i < |events| && TimesOf(events, g) != []
    requires g in AboutToSweep(keepalive, events, i).sessions
    ensures InTime(keepalive, events, g, i)
  {
    forall m | 0 <= m < i && m < |events| && Sweeps(events, m)
      ensures SweepTime(events[m]) <= LastTime(events, g) + keepalive
    {
      PresentBound(keepalive, start, events, i, g, m);
    }
  }

  /** A GUID that has no session any more has had its last packet, and was past by an earlier sweep. */
  lemma AbsentIsOver(keepalive: int, start: int, events: seq<Event>, i: nat, h: Guid) returns (m: nat)
    requires Forward(start, events) && i < |events| && Unbroken(keepalive, events, h)
    requires TimesOf(events[..i + 1], h) != [] && h !in AboutToSweep(keepalive, events, i).sessions
    ensures m < i && Sweeps(events, m) && TimesOf(events, h) != []
    ensures LastTime(events, h) + keepalive < SweepTime(events[m])
    ensures forall n | i <= n < |events| :: !IsPing(events[n], h)
  {
    SurvivesIff(Run(keepalive, events[..i]), events[i], h);
    TimesStep(events, i, h);
    ForwardPrefix(start, events, i);
    LiveIffRecent(keepalive, start, events[..i], h);
    NothingMore(keepalive, start, events, i, h);
    m := LastSweepEvent(start, events, i, h);
  }

  /** The event that reports `g` is the first sweep that finds its last packet more than `keepalive` old. */
  lemma ReportIsFirst(keepalive: int, start: int, events: seq<Event>, i: nat, g: Guid)
    requires keepalive >= 0 && Forward(start, events) && i < |events| && Unbroken(keepalive, events, g)
    requires Reported(Run(keepalive, events[..i]), events[i], g)
    ensures TimesOf(events, g) != [] && Sweeps(events, i)
    ensures LastTime(events, g) + keepalive < SweepTime(events[i])
    ensures InTime(keepalive, events, g, i)
  {
    ReportedIsLate(keepalive, start, events, i, g);
    NothingMore(keepalive, start, events, i + 1, g);
    PresentInTime(keepalive, start, events, i, g);
  }

  lemma InTimeIff(keepalive: int, start: int, events: seq<Event>, i: nat, g: Guid, n: nat)
    requires keepalive >= 0 && Forward(start, events) && i < |events| && Unbroken(keepalive, events, g)
    requires Reported(Run(keepalive, events[..i]), events[i], g)
    ensures TimesOf(events, g) != [] && (InTime(keepalive, events, g, n) <==> n <= i)
  {
    ReportIsFirst(keepalive, start, events, i, g);
  }

  /** A sweep falls between the expiry of `g` and `b` if and only if the one that reports `g` does. */
  lemma SweepInIff(keepalive: int, start: int, events: seq<Event>, i: nat, g: Guid, b: int)
    requires keepalive >= 0 && Forward(start, events) && i < |events| && Unbroken(keepalive, events, g)
    requires Reported(Run(keepalive, events[..i]), events[i], g)
    ensures TimesOf(events, g) != []
    ensures SweepIn(events, LastTime(events, g) + keepalive, b) <==> SweepTime(events[i]) <= b
  {
    ReportIsFirst(keepalive, start, events, i, g);
    if n :| 0 <= n < |events| && Sweeps(events, n) && LastTime(events, g) + keepalive < SweepTime(events[n]) <= b {
      if i <= n { SweepTimesAscend(start, events, i, n); }
    }
  }

  /** A later session is expired at the sweep that reports `g` exactly if that comes after its expiry. */
  lemma ExpiredIff(keepalive: int, start: int, events: seq<Event>, i: nat, h: Guid)
    requires Forward(start, events) && i < |events| && Unbroken(keepalive, events, h) && Sweeps(events, i)
    requires h in AboutToSweep(keepalive, events, i).sessions
    ensures TimesOf(events, h) != []
    ensures var p := AboutToSweep(keepalive, events, i);
            Expired(p, p.sessions[h], SweepTime(events[i])) <==> LastTime(events, h) + keepalive < SweepTime(events[i])
  {
    BeforeAt(keepalive, events, i);
    TimesGrow(start, events, i + 1, h);
    SweepIsLast(start, events, i);
    if LastTime(events[..i + 1], h) + keepalive < SweepTime(events[i]) {
      NothingMore(keepalive, start, events, i + 1, h);
    }
  }

  lemma {:induction false} PingCounted(events: seq<Event>, i: nat, n: nat)
    requires n < i <= |events| && events[n].Ping?
    ensures events[n].arrival in ArrivalsOf(events[..i], events[n].arrival.packet.guid)
    ensures TimesOf(events[..i], events[n].arrival.packet.guid) != []
    decreases i
  {
    var g := events[n].arrival.packet.guid;
    ArrivalsStep(events, i - 1, g);
    TimesStep(events, i - 1, g);
    if n < i - 1 { PingCounted(events, i - 1, n); }
  }

  /** An arrival so far is one of the events so far. */
  lemma {:induction false} ArrivalEvent(events: seq<Event>, i: nat, g: Guid, a: Arrival) returns (n: nat)
    requires i <= |events| && a in ArrivalsOf(events[..i], g)
    ensures n < i && IsPing(events[n], g) && events[n].arrival == a
    decreases i
  {
    ArrivalsStep(events, i - 1, g);
    if IsPing(events[i - 1], g) && events[i - 1].arrival == a {
      n := i - 1;
    } else {
      n := ArrivalEvent(events, i - 1, g, a);
    }
  }

  lemma BegunSoFar(events: seq<Event>, i: nat, h: Guid) returns (n: nat)
    requires i <= |events| && TimesOf(events[..i], h) != []
    ensures n < i && IsPing(events[n], h)
  {
    TimesAndArrivals(events[..i], h);
    n := ArrivalEvent(events, i, h, ArrivalsOf(events[..i], h)[0]);
  }

  /** At the event that reports `g`, the session of `h` is in the map if and only if it began in time and
      no sweep before found it expired. */
  lemma PresentIff(keepalive: int, start: int, events: seq<Event>, i: nat, g: Guid, h: Guid)
    requires keepalive >= 0 && Forward(start, events) && i < |events|
    requires Unbroken(keepalive, events, g) && Unbroken(keepalive, events, h) && TimesOf(events, h) != []
    requires Reported(Run(keepalive, events[..i]), events[i], g)
    ensures TimesOf(events, g) != []
    ensures h in AboutToSweep(keepalive, events, i).sessions
            <==> BegunInTime(keepalive, events, g, h)
                 && !exists m :: 0 <= m < i && Sweeps(events, m)
                                 && LastTime(events, h) + keepalive < SweepTime(events[m])
  {
    ReportIsFirst(keepalive, start, events, i, g);
    if h in AboutToSweep(keepalive, events, i).sessions {
      BeforeAt(keepalive, events, i);
      var n := BegunSoFar(events, i + 1, h);
      InTimeIff(keepalive, start, events, i, g, n);
      forall m | 0 <= m < i && Sweeps(events, m) ensures SweepTime(events[m]) <= LastTime(events, h) + keepalive {
        PresentBound(keepalive, start, events, i, h, m);
      }
    } else if BegunInTime(keepalive, events, g, h) {
      var n :| 0 <= n < |events| && IsPing(events[n], h) && InTime(keepalive, events, g, n);
      InTimeIff(keepalive, start, events, i, g, n);
      PingCounted(events, i + 1, n);
      var m := AbsentIsOver(keepalive, start, events, i, h);
    }
  }

  /** Whether `h` takes over from `g`: it begins in time, and outlasts `g`. */
  ghost predicate Passes(keepalive: int, events: seq<Event>, g: Guid, h: Guid)
    requires TimesOf(events, g) != [] && TimesOf(events, h) != []
  {
    BegunInTime(keepalive, events, g, h) && Outlasts(keepalive, events, g, h)
  }

  /** The sweep that reports `g` finds the session of `h` if and only if the log has it take over. */
  lemma MeetsIff(keepalive: int, start: int, events: seq<Event>, i: nat, g: Guid, h: Guid)
    requires keepalive >= 0 && Forward(start, events) && i < |events|
    requires Unbroken(keepalive, events, g) && Unbroken(keepalive, events, h) && TimesOf(events, h) != []
    requires Reported(Run(keepalive, events[..i]), events[i], g)
    ensures TimesOf(events, g) != []
    ensures Meets(AboutToSweep(keepalive, events, i), SweepTime(events[i]), g, h) <==> Passes(keepalive, events, g, h)
  {
    ReportIsFirst(keepalive, start, events, i, g);
    PresentIff(keepalive, start, events, i, g, h);
    SweepInIff(keepalive, start, events, i, g, LastTime(events, h) + keepalive);
    SweptBeforeIff(keepalive, start, events, i, g, LastTime(events, h) + keepalive);
    if h in AboutToSweep(keepalive, events, i).sessions {
      ExpiredIff(keepalive, start, events, i, h);
    }
  }

  /** A sweep up to the expiry of `g` is one before its report. */
  lemma SweptBeforeIff(keepalive: int, start: int, events: seq<Event>, i: nat, g: Guid, b: int)
    requires keepalive >= 0 && Forward(start, events) && i < |events| && Unbroken(keepalive, events, g)
    requires Reported(Run(keepalive, events[..i]), events[i], g)
    ensures TimesOf(events, g) != []
    ensures SweepIn(events, b, LastTime(events, g) + keepalive)
            <==> exists m :: 0 <= m < i && Sweeps(events, m) && b < SweepTime(events[m])
  {
    ReportIsFirst(keepalive, start, events, i, g);
    if n :| 0 <= n < |events| && Sweeps(events, n) && b < SweepTime(events[n]) <= LastTime(events, g) + keepalive {
      if i <= n { SweepTimesAscend(start, events, i, n); }
    }
  }

  // ---------- Least packets ----------

  /** A session that is live when event `i` is about to sweep was never reported. */
  lemma LiveNotReported(keepalive: int, start: int, events: seq<Event>, i: nat, h: Guid)
    requires keepalive >= 0 && Forward(start, events) && i < |events| && Unbroken(keepalive, events, h)
    requires h in AboutToSweep(keepalive, events, i).sessions
    ensures !WasReported(Run(keepalive, events[..i]), h)
  {
    if WasReported(Run(keepalive, events[..i]), h) {
      var n := ReportingEvent(keepalive, events, h, i);
      ReportIsFirst(keepalive, start, events, n, h);
      PresentBound(keepalive, start, events, i, h, n);
    }
  }

  /** So it holds all its packets so far. */
  lemma HoldsAllArrivals(keepalive: int, start: int, events: seq<Event>, i: nat, h: Guid)
    requires keepalive >= 0 && Forward(start, events) && i < |events| && Unbroken(keepalive, events, h)
    requires h in AboutToSweep(keepalive, events, i).sessions
    ensures AboutToSweep(keepalive, events, i).sessions[h].arrivals == ArrivalsOf(events[..i + 1], h)
  {
    var st, e := Run(keepalive, events[..i]), events[i];
    LiveNotReported(keepalive, start, events, i, h);
    RunHistory(keepalive, events[..i], h);
    NoEmittedArrivals(st.emitted, h);
    ArrivalsStep(events, i, h);
    if e.Ping? {
      ArriveFrame(st, e.source, e.arrival, e.arrivedAt);
      ArriveHistory(st, e.source, e.arrival, e.arrivedAt, h);
    }
    assert [] + Before(st, e).sessions[h].arrivals == Before(st, e).sessions[h].arrivals;
  }

  /** The least packet so far is the least of all exactly if that has come. */
  lemma LeastSoFarIff(events: seq<Event>, i: nat, h: Guid)
    requires i <= |events| && ArrivalsOf(events[..i], h) != []
    ensures ArrivalsOf(events, h) != []
    ensures RangeOf(Indices(ArrivalsOf(events[..i], h))).lo == Arrived(events, h).lo
            <==> exists n :: 0 <= n < i && LeastOf(events, n, h)
  {
    ArrivalsPrefix(events, i, h);
    var before := ArrivalsOf(events[..i], h);
    assert Indices(before) == IndicesOf(events, h)[..|before|];
    RangeOfBounds(Indices(before));
    if n :| 0 <= n < i && LeastOf(events, n, h) {
      PingCounted(events, i, n);
      var k :| 0 <= k < |before| && before[k] == events[n].arrival;
      assert Indices(before)[k] == Arrived(events, h).lo;
      LeastOfPrefix(IndicesOf(events, h), |before|);
    }
    if RangeOf(Indices(before)).lo == Arrived(events, h).lo {
      var k :| 0 <= k < |before| && Indices(before)[k] == Arrived(events, h).lo;
      var n := ArrivalEvent(events, i, h, before[k]);
      assert LeastOf(events, n, h);
    }
  }

  lemma LeastOfPrefix(ts: seq<int>, n: nat)
    requires 0 < n <= |ts| && RangeOf(ts).lo in ts[..n]
    ensures RangeOf(ts[..n]).lo == RangeOf(ts).lo
  {
    RangeOfBounds(ts);
    RangeOfBounds(ts[..n]);
    assert RangeOf(ts[..n]).lo in ts;
  }

  /** At the report of `g`, a live `h` has had its least packet if and only if that came in time. */
  lemma LeastSettledIff(keepalive: int, start: int, events: seq<Event>, i: nat, g: Guid, h: Guid)
    requires keepalive >= 0 && Forward(start, events) && i < |events|
    requires Unbroken(keepalive, events, g) && Unbroken(keepalive, events, h)
    requires Reported(Run(keepalive, events[..i]), events[i], g)
    requires h in AboutToSweep(keepalive, events, i).sessions
    ensures TimesOf(events, g) != []
    ensures LeastSettled(AboutToSweep(keepalive, events, i), events, h) <==> LeastInTime(keepalive, events, g, h)
  {
    HoldsAllArrivals(keepalive, start, events, i, h);
    BeforeAt(keepalive, events, i);
    TimesAndArrivals(events[..i + 1], h);
    LeastSoFarIff(events, i + 1, h);
    LeastInTimeIff(keepalive, start, events, i, g, h);
  }

  lemma LeastInTimeIff(keepalive: int, start: int, events: seq<Event>, i: nat, g: Guid, h: Guid)
    requires keepalive >= 0 && Forward(start, events) && i < |events| && Unbroken(keepalive, events, g)
    requires Reported(Run(keepalive, events[..i]), events[i], g)
    ensures TimesOf(events, g) != []
    ensures LeastInTime(keepalive, events, g, h) <==> exists n :: 0 <= n < i + 1 && LeastOf(events, n, h)
  {
    InTimeIff(keepalive, start, events, i, g, 0);
    if n :| 0 <= n < i + 1 && LeastOf(events, n, h) {
      InTimeIff(keepalive, start, events, i, g, n);
    }
    if LeastInTime(keepalive, events, g, h) {
      var n :| 0 <= n < |events| && LeastOf(events, n, h) && InTime(keepalive, events, g, n);
      InTimeIff(keepalive, start, events, i, g, n);
    }
  }

  // ---------- Conditions on the log ----------

  /** The least packet of `h` comes before `g` can be reported, and `h` outlasts `g`. */
  ghost predicate Handover(keepalive: int, events: seq<Event>, g: Guid, h: Guid) {
    && TimesOf(events, g) != [] && TimesOf(events, h) != []
    && LeastInTime(keepalive, events, g, h) && Outlasts(keepalive, events, g, h)
  }

  /** The sweep that reports `g` finds `h` settled if and only if the log has it so. */
  lemma HandedOverIff(keepalive: int, start: int, events: seq<Event>, i: nat, g: Guid, h: Guid)
    requires keepalive >= 0 && Forward(start, events) && i < |events|
    requires Unbroken(keepalive, events, g) && Unbroken(keepalive, events, h) && TimesOf(events, h) != []
    requires Reported(Run(keepalive, events[..i]), events[i], g)
    ensures SuccessorSettled(AboutToSweep(keepalive, events, i), SweepTime(events[i]), events, g, h)
            <==> Handover(keepalive, events, g, h)
  {
    ReportIsFirst(keepalive, start, events, i, g);
    LeastIsBegun(keepalive, events, g, h);
    MeetsIff(keepalive, start, events, i, g, h);
    if h in AboutToSweep(keepalive, events, i).sessions {
      LeastSettledIff(keepalive, start, events, i, g, h);
    }
  }

  lemma LeastIsBegun(keepalive: int, events: seq<Event>, g: Guid, h: Guid)
    requires TimesOf(events, g) != []
    ensures LeastInTime(keepalive, events, g, h) ==> BegunInTime(keepalive, events, g, h)
  {
    if LeastInTime(keepalive, events, g, h) {
      var n :| 0 <= n < |events| && LeastOf(events, n, h) && InTime(keepalive, events, g, n);
      assert IsPing(events[n], h);
    }
  }

  /** A packet of another run comes only while none or all of the stream's intervals have begun, or for
      a session that is still live. */
  ghost predicate OthersApart(keepalive: int, start: int, events: seq<Event>, s: Stream) {
    forall i | 0 <= i < |events| && OtherRun(events[i], s) ::
      NoneOrAllBegun(events[..i], s) || Recent(keepalive, start, events[..i], events[i].arrival.packet.guid)
  }

  ghost predicate OtherRun(e: Event, s: Stream) {
    e.Ping? && e.source == s.source && e.arrival.packet.guid !in s.guids
  }

  /** `g` is unbroken, and a sweep comes more than `keepalive` after its last packet. */
  ghost predicate HeardOut(keepalive: int, start: int, events: seq<Event>, g: Guid) {
    && TimesOf(events, g) != [] && Unbroken(keepalive, events, g)
    && LastTime(events, g) + keepalive < LastSweep(start, events)
  }

  lemma ApartIff(keepalive: int, start: int, events: seq<Event>, s: Stream)
    requires Forward(start, events)
    ensures RunsApart(keepalive, events, s) <==> OthersApart(keepalive, start, events, s)
  {
    forall i | 0 <= i < |events| && OtherRun(events[i], s)
      ensures OpensOtherRun(Run(keepalive, events[..i]), events[i], s)
              <==> !Recent(keepalive, start, events[..i], events[i].arrival.packet.guid)
    {
      ForwardPrefix(start, events, i);
      LiveIffRecent(keepalive, start, events[..i], events[i].arrival.packet.guid);
    }
  }

  /** The stream's packets come before its reports, and all are reported, if and only if each GUID is heard out. */
  lemma HeardOutIff(keepalive: int, start: int, events: seq<Event>, s: Stream)
    requires Forward(start, events) && forall k | 0 <= k < |s.guids| :: ArrivalsOf(events, s.guids[k]) != []
    ensures NoneAfterReport(keepalive, events, s) && AllReported(keepalive, events, s)
            <==> forall k | 0 <= k < |s.guids| :: HeardOut(keepalive, start, events, s.guids[k])
  {
    forall k | 0 <= k < |s.guids|
      ensures HeardOut(keepalive, start, events, s.guids[k])
              <==> Unbroken(keepalive, events, s.guids[k]) && s.guids[k] !in Run(keepalive, events).sessions
      ensures Unbroken(keepalive, events, s.guids[k])
              <==> forall i | 0 <= i < |events| && IsPing(events[i], s.guids[k]) ::
                     !WasReported(Run(keepalive, events[..i]), s.guids[k])
    {
      TimesAndArrivals(events, s.guids[k]);
      LiveIffRecent(keepalive, start, events, s.guids[k]);
      NoneAfterIff(keepalive, start, events, s.guids[k]);
    }
  }

  /** A GUID that is heard out was reported by some event. */
  lemma ReportOf(keepalive: int, start: int, events: seq<Event>, g: Guid) returns (n: nat)
    requires Forward(start, events) && HeardOut(keepalive, start, events, g)
    ensures n < |events| && Reported(Run(keepalive, events[..n]), events[n], g)
  {
    LiveIffRecent(keepalive, start, events, g);
    GoneWasReported(keepalive, events, g);
    assert events[..|events|] == events;
    n := ReportingEvent(keepalive, events, g, |events|);
  }

  ghost predicate AllHeardOut(keepalive: int, start: int, events: seq<Event>, s: Stream) {
    forall k | 0 <= k < |s.guids| :: HeardOut(keepalive, start, events, s.guids[k])
  }

  /** Every reported session finds its successor settled if and only if each interval is handed over. */
  lemma SettledIff(keepalive: int, start: int, events: seq<Event>, s: Stream)
    requires keepalive >= 0 && Forward(start, events) && AllHeardOut(keepalive, start, events, s)
    ensures SuccessorsSettled(keepalive, events, s)
            <==> forall j, k | 0 <= j < k < |s.guids| && k == j + 1 ::
                   Handover(keepalive, events, s.guids[j], s.guids[k])
  {
    forall i, j, k | 0 <= i < |events| && 0 <= j < k < |s.guids| && k == j + 1
                     && Reported(Run(keepalive, events[..i]), events[i], s.guids[j])
      ensures SuccessorSettled(AboutToSweep(keepalive, events, i), SweepTime(events[i]), events, s.guids[j], s.guids[k])
              <==> Handover(keepalive, events, s.guids[j], s.guids[k])
    {
      HandedOverIff(keepalive, start, events, i, s.guids[j], s.guids[k]);
    }
    if SuccessorsSettled(keepalive, events, s) {
      forall j, k | 0 <= j < k < |s.guids| && k == j + 1 ensures Handover(keepalive, events, s.guids[j], s.guids[k]) {
        var i := ReportOf(keepalive, start, events, s.guids[j]);
        SuccessorSettledAt(keepalive, events, s, i, j, k);
      }
    }
  }

  /** If the next interval begins before an interval can be reported, so does its least packet come. */
  ghost predicate LeastFirst(keepalive: int, events: seq<Event>, g: Guid, h: Guid)
    requires TimesOf(events, g) != []
  {
    BegunInTime(keepalive, events, g, h) ==> LeastInTime(keepalive, events, g, h)
  }

  lemma LeastFirstIff(keepalive: int, start: int, events: seq<Event>, i: nat, g: Guid, h: Guid)
    requires keepalive >= 0 && Forward(start, events) && i < |events|
    requires Unbroken(keepalive, events, g) && Unbroken(keepalive, events, h) && TimesOf(events, h) != []
    requires Reported(Run(keepalive, events[..i]), events[i], g)
    ensures TimesOf(events, g) != []
    ensures (h in AboutToSweep(keepalive, events, i).sessions
             ==> LeastSettled(AboutToSweep(keepalive, events, i), events, h))
            <==> LeastFirst(keepalive, events, g, h)
  {
    PresentIff(keepalive, start, events, i, g, h);
    if h in AboutToSweep(keepalive, events, i).sessions {
      LeastSettledIff(keepalive, start, events, i, g, h);
    } else if BegunInTime(keepalive, events, g, h) {
      AllCome(keepalive, start, events, i, g, h);
    }
  }

  /** An interval that began in time and has no session any more has had its least packet. */
  lemma AllCome(keepalive: int, start: int, events: seq<Event>, i: nat, g: Guid, h: Guid)
    requires keepalive >= 0 && Forward(start, events) && i < |events|
    requires Unbroken(keepalive, events, g) && Unbroken(keepalive, events, h) && TimesOf(events, g) != []
    requires Reported(Run(keepalive, events[..i]), events[i], g) && BegunInTime(keepalive, events, g, h)
    requires h !in AboutToSweep(keepalive, events, i).sessions
    ensures LeastInTime(keepalive, events, g, h)
  {
    var n :| 0 <= n < |events| && IsPing(events[n], h) && InTime(keepalive, events, g, n);
    InTimeIff(keepalive, start, events, i, g, n);
    PingCounted(events, i + 1, n);
    var m := AbsentIsOver(keepalive, start, events, i, h);
    var l := LeastEver(events, h);
    InTimeIff(keepalive, start, events, i, g, l);
  }

  lemma LeastEver(events: seq<Event>, h: Guid) returns (n: nat)
    requires TimesOf(events, h) != []
    ensures n < |events| && LeastOf(events, n, h)
  {
    assert events[..|events|] == events;
    TimesAndArrivals(events, h);
    LeastSoFarIff(events, |events|, h);
    n :| 0 <= n < |events| && LeastOf(events, n, h);
  }

  lemma LeastsIff(keepalive: int, start: int, events: seq<Event>, s: Stream)
    requires keepalive >= 0 && Forward(start, events) && AllHeardOut(keepalive, start, events, s)
    ensures LeastsSettled(keepalive, events, s)
            <==> forall j, k | 0 <= j < k < |s.guids| && k == j + 1 ::
                   TimesOf(events, s.guids[j]) != [] && LeastFirst(keepalive, events, s.guids[j], s.guids[k])
  {
    forall i, j, k | 0 <= i < |events| && 0 <= j < k < |s.guids| && k == j + 1
                     && Reported(Run(keepalive, events[..i]), events[i], s.guids[j])
      ensures TimesOf(events, s.guids[j]) != []
      ensures (s.guids[k] in AboutToSweep(keepalive, events, i).sessions
               ==> LeastSettled(AboutToSweep(keepalive, events, i), events, s.guids[k]))
              <==> LeastFirst(keepalive, events, s.guids[j], s.guids[k])
    {
      LeastFirstIff(keepalive, start, events, i, s.guids[j], s.guids[k]);
    }
    if LeastsSettled(keepalive, events, s) {
      forall j, k | 0 <= j < k < |s.guids| && k == j + 1
        ensures TimesOf(events, s.guids[j]) != [] && LeastFirst(keepalive, events, s.guids[j], s.guids[k])
      {
        var i := ReportOf(keepalive, start, events, s.guids[j]);
        LeastFirstIff(keepalive, start, events, i, s.guids[j], s.guids[k]);
        if s.guids[k] in AboutToSweep(keepalive, events, i).sessions { SettledAt(keepalive, events, s, i, j, k); }
      }
    }
  }

  // ---------- The loss accounting ----------

  /** Packets and alarms come in time: conditions on the log alone. */
  ghost predicate Punctual(keepalive: int, start: int, events: seq<Event>, s: Stream) {
    && OthersApart(keepalive, start, events, s) && AllHeardOut(keepalive, start, events, s)
    && forall j, k | 0 <= j < k < |s.guids| && k == j + 1 :: Handover(keepalive, events, s.guids[j], s.guids[k])
  }

  /** While the clock does not go back, a run meets the conditions of the accounting if and only if its log does. */
  lemma AccountableIff(keepalive: int, start: int, events: seq<Event>, s: Stream)
    requires keepalive >= 0 && Forward(start, events)
    ensures Accountable(keepalive, events, s)
            <==> s.guids != [] && Carries(events, s) && SmallGaps(events, s) && FirstArrivalsInOrder(events, s)
                 && Punctual(keepalive, start, events, s)
  {
    if SmallGaps(events, s) {
      ApartIff(keepalive, start, events, s);
      HeardOutIff(keepalive, start, events, s);
      if AllHeardOut(keepalive, start, events, s) { SettledIff(keepalive, start, events, s); }
    }
  }

  /** What the log must show for every loss between intervals to be traced, counted or not. */
  ghost predicate OnRecord(keepalive: int, start: int, events: seq<Event>, s: Stream) {
    && OthersApart(keepalive, start, events, s) && AllHeardOut(keepalive, start, events, s)
    && forall j, k | 0 <= j < k < |s.guids| && k == j + 1 ::
         TimesOf(events, s.guids[j]) != [] && LeastFirst(keepalive, events, s.guids[j], s.guids[k])
  }

  lemma TraceableIff(keepalive: int, start: int, events: seq<Event>, s: Stream)
    requires keepalive >= 0 && Forward(start, events)
    ensures Traceable(keepalive, events, s) && AllReported(keepalive, events, s)
            <==> Carries(events, s) && Spaced(events, s) && FirstArrivalsInOrder(events, s)
                 && OnRecord(keepalive, start, events, s)
  {
    if Spaced(events, s) {
      ApartIff(keepalive, start, events, s);
      HeardOutIff(keepalive, start, events, s);
      if AllHeardOut(keepalive, start, events, s) { LeastsIff(keepalive, start, events, s); }
    }
  }

  /** Whether the gap after interval `k` is counted: the next interval takes over, and the gap is at most
      9; or there is none. */
  ghost predicate GapPasses(keepalive: int, events: seq<Event>, guids: seq<Guid>, ranges: seq<Range>, k: nat)
    requires k + 1 < |guids| == |ranges|
  {
    var gap := Gap(ranges, k);
    gap == 0 || (gap <= 9 && TimesOf(events, guids[k]) != [] && TimesOf(events, guids[k + 1]) != []
                 && Passes(keepalive, events, guids[k], guids[k + 1]))
  }

  /** Which gaps are counted. */
  ghost function CountedGaps(keepalive: int, events: seq<Event>, guids: seq<Guid>, ranges: seq<Range>)
    : (counted: seq<bool>)
    requires 0 < |guids| == |ranges|
    ensures |counted| == |guids| - 1
    ensures forall k | 0 <= k < |counted| :: counted[k] <==> GapPasses(keepalive, events, guids, ranges, k)
  {
    seq(|guids| - 1, k requires 0 <= k < |guids| - 1 => GapPasses(keepalive, events, guids, ranges, k))
  }

  /** The gaps after the first `n` ranges that are not counted. */
  function Uncounted(ranges: seq<Range>, counted: seq<bool>, n: nat): int
    requires n <= |counted| < |ranges|
  {
    if n == 0 then 0
    else Uncounted(ranges, counted, n - 1) + if counted[n - 1] then 0 else Gap(ranges, n - 1)
  }

  /** Each record counts the gap after its range, or there is none, exactly if `counted` says so. */
  ghost predicate CountAs(rs: seq<Emission>, ranges: seq<Range>, counted: seq<bool>)
    requires |rs| == |ranges| == |counted| + 1
  {
    forall k | 0 <= k < |counted| :: counted[k] <==> Bridges(rs[k], ranges, k) || Gap(ranges, k) == 0
  }

  lemma {:induction false} UncountedAreOverlooked(rs: seq<Emission>, ranges: seq<Range>, counted: seq<bool>, n: nat)
    requires |rs| == |ranges| == |counted| + 1 && CountAs(rs, ranges, counted) && n <= |counted|
    ensures Overlooked(rs, ranges, n) == Uncounted(ranges, counted, n)
    decreases n
  {
    if n > 0 { UncountedAreOverlooked(rs, ranges, counted, n - 1); }
  }

  lemma OverlookedTotal(rs: seq<Emission>, ranges: seq<Range>, counted: seq<bool>)
    requires |rs| == |ranges| == |counted| + 1 && CountAs(rs, ranges, counted) && Ascending(ranges)
    ensures Overlooked(rs, ranges, |rs|) == Uncounted(ranges, counted, |counted|)
    ensures Uncounted(ranges, counted, |counted|) == 0 <==> forall k | 0 <= k < |counted| :: counted[k]
  {
    UncountedAreOverlooked(rs, ranges, counted, |counted|);
    OverlookedIff(rs, ranges, |counted|);
  }

  lemma RecordPassesIff(keepalive: int, start: int, events: seq<Event>, s: Stream, k: nat)
    requires keepalive >= 0 && Forward(start, events) && AllHeardOut(keepalive, start, events, s)
    requires Traceable(keepalive, events, s) && AllReported(keepalive, events, s) && k + 1 < |s.guids|
    requires OneEach(Run(keepalive, events).emitted, s.guids)
    ensures var rs, ranges := RecordsOf(Run(keepalive, events).emitted, s.guids), ArrivedRanges(events, s);
            GapPasses(keepalive, events, s.guids, ranges, k) <==> Bridges(rs[k], ranges, k) || Gap(ranges, k) == 0
  {
    AllRecorded(keepalive, events, s, k);
    assert HeardOut(keepalive, start, events, s.guids[k]) && HeardOut(keepalive, start, events, s.guids[k + 1]);
    var r := RecordsOf(Run(keepalive, events).emitted, s.guids)[k];
    var n :| 0 <= n < |events| && EmittedAt(r, keepalive, events, s, k, n);
    MeetsIff(keepalive, start, events, n, s.guids[k], s.guids[k + 1]);
  }

  lemma RecordsCount(keepalive: int, start: int, events: seq<Event>, s: Stream)
    requires keepalive >= 0 && Forward(start, events) && AllHeardOut(keepalive, start, events, s)
    requires Traceable(keepalive, events, s) && AllReported(keepalive, events, s) && s.guids != []
    requires OneEach(Run(keepalive, events).emitted, s.guids)
    ensures var rs, ranges := RecordsOf(Run(keepalive, events).emitted, s.guids), ArrivedRanges(events, s);
            CountAs(rs, ranges, CountedGaps(keepalive, events, s.guids, ranges))
  {
    forall k | 0 <= k < |s.guids| - 1
      ensures var rs, ranges := RecordsOf(Run(keepalive, events).emitted, s.guids), ArrivedRanges(events, s);
              CountedGaps(keepalive, events, s.guids, ranges)[k] <==> Bridges(rs[k], ranges, k) || Gap(ranges, k) == 0
    {
      RecordPassesIff(keepalive, start, events, s, k);
    }
  }

  lemma OverlookedAreUncounted(es: seq<Emission>, events: seq<Event>, s: Stream, counted: seq<bool>)
    requires Spaced(events, s) && OneEach(es, s.guids) && |s.guids| == |counted| + 1
    requires CountAs(RecordsOf(es, s.guids), ArrivedRanges(events, s), counted)
    ensures OverlookedIn(es, events, s) == Uncounted(ArrivedRanges(events, s), counted, |counted|)
    ensures OverlookedIn(es, events, s) == 0 <==> forall k | 0 <= k < |counted| :: counted[k]
  {
    SpacedAscend(events, s);
    OverlookedTotal(RecordsOf(es, s.guids), ArrivedRanges(events, s), counted);
  }

  /** End-to-end loss accounting from the log alone.  The reported loss is the true loss less the gaps
      between intervals that are wider than 9 or where the next interval does not take over; it is right
      if and only if there are none. */
  lemma LossOnRecord(keepalive: int, start: int, events: seq<Event>, s: Stream)
    requires keepalive >= 0 && Forward(start, events) && s.guids != []
    requires Carries(events, s) && Spaced(events, s) && FirstArrivalsInOrder(events, s)
    requires OnRecord(keepalive, start, events, s) && Distinct(Delivered(events, s.guids))
    ensures var reports, delivered := Reports(Run(keepalive, events).emitted, s.guids), Delivered(events, s.guids);
            var loss, ranges := TotalTarget(reports) - EmittedCount(reports), ArrivedRanges(events, s);
            var counted := CountedGaps(keepalive, events, s.guids, ranges);
            && |reports| == |s.guids| && delivered != []
            && loss == |Missing(delivered)| - Uncounted(ranges, counted, |counted|)
            && (loss == |Missing(delivered)| <==> forall k | 0 <= k < |counted| :: counted[k])
  {
    TraceableIff(keepalive, start, events, s);
    ReportedLoss(keepalive, events, s);
    RecordsCount(keepalive, start, events, s);
    OverlookedAreUncounted(Run(keepalive, events).emitted, events, s,
                           CountedGaps(keepalive, events, s.guids, ArrivedRanges(events, s)));
  }

  /** When besides every interval is handed over and every gap is at most 9, the reported loss is the true loss. */
  lemma PunctualLossIsTrueLoss(keepalive: int, start: int, events: seq<Event>, s: Stream)
    requires keepalive >= 0 && Forward(start, events) && s.guids != []
    requires Carries(events, s) && SmallGaps(events, s) && FirstArrivalsInOrder(events, s)
    requires Punctual(keepalive, start, events, s) && Distinct(Delivered(events, s.guids))
    ensures Accountable(keepalive, events, s)
    ensures var reports := Reports(Run(keepalive, events).emitted, s.guids);
            && |reports| == |s.guids|
            && Delivered(events, s.guids) != []
            && TotalTarget(reports) - EmittedCount(reports) == |Missing(Delivered(events, s.guids))|
  {
    AccountableIff(keepalive, start, events, s);
    ReportedLossIsTrueLoss(keepalive, events, s);
  }
}
