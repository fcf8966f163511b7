/**
 Logs that meet every condition of the loss accounting: two runs of a client on one port, the second
 after a restart, with any number of measurement intervals each, one packet of each interval arriving,
 up to 9 packets lost between any two, and intervals as long as `keepalive`.  Every GUID sorts before
 the one it follows, so no record owes its successor to the order of the map.
 */
module LossExample {
  import opened SeqWindow
  import opened GuidOrder
  import opened ServerModel
  import opened ServerRuns
  import opened ClientStreams
  import opened RunTraces
  import opened LossAccounting
  import opened PunctualLogs
  import opened EndToEnd
  import Aggregators

  const SOURCE: Source := Source("client", 7000)

  /** The GUID `left` intervals before the end. */
  function Name(left: nat): (g: Guid)
    ensures |g| == left + 1
  {
    if left == 0 then "a" else "b" + Name(left - 1)
  }

  function Total(gaps: seq<nat>): nat {
    if gaps == [] then 0 else Total(gaps[..|gaps| - 1]) + gaps[|gaps| - 1]
  }

  /** A run: where its first interval stands among all, and how many packets it loses between each
      interval and the next. */
  datatype Part = Part(from: nat, startTime: int, gaps: seq<nat>) {
    predicate Valid() {
      forall k | 0 <= k < |gaps| :: gaps[k] <= 9
    }

    /** The number of the packet of the `k`-th interval of the run. */
    function Number(k: nat): nat
      requires k <= |gaps|
    {
      k + Total(gaps[..k])
    }
  }

  datatype Plan = Plan(keepalive: int, gaps: seq<nat>, later: seq<nat>) {
    predicate Valid() {
      keepalive >= 1 && First().Valid() && Second().Valid()
    }

    function First(): Part {
      Part(0, 1, gaps)
    }

    function Second(): Part {
      Part(|gaps| + 1, 2, later)
    }

    function Intervals(): nat {
      |gaps| + |later| + 2
    }

    function PartOf(k: nat): Part {
      if k <= |gaps| then First() else Second()
    }

    function Guid(k: nat): Guid
      requires k < Intervals()
    {
      Name(Intervals() - 1 - k)
    }

    function ArrivalAt(k: nat): Arrival
      requires k < Intervals()
    {
      var part := PartOf(k);
      var number := part.Number(k - part.from);
      Arrival(Packet(Guid(k), part.startTime, Wrap(number), 0, 0, number), 0, 0)
    }

    function Time(k: nat): int {
      if k == 0 then 0 else Time(k - 1) + keepalive
    }

    /** In each interval a packet, then an alarm; at last only alarms. */
    function EventAt(i: nat): Event {
      var k, now := i / 2, Time(i / 2);
      if i % 2 == 0 && k < Intervals() then Ping(SOURCE, ArrivalAt(k), now, now) else Alarm(now)
    }

    function Log(): (es: seq<Event>)
      ensures |es| == 2 * Intervals() + 4 && forall i | 0 <= i < |es| :: es[i] == EventAt(i)
    {
      seq(2 * Intervals() + 4, i requires 0 <= i < 2 * Intervals() + 4 => EventAt(i))
    }

    function StreamOf(part: Part): (s: Stream)
      requires part == First() || part == Second()
      ensures |s.guids| == |part.gaps| + 1
      ensures forall k | 0 <= k < |s.guids| :: s.guids[k] == Guid(part.from + k)
    {
      Stream(SOURCE, part.startTime,
             seq(|part.gaps| + 1, k requires 0 <= k < |part.gaps| + 1 => Guid(part.from + k)))
    }
  }

  // ---------- The clock ----------

  lemma {:induction false} ForwardTo(p: Plan, i: nat)
    requires p.Valid() && i <= |p.Log()|
    ensures Forward(0, p.Log()[..i]) && Clock(0, p.Log()[..i]) <= p.Time(i / 2)
    decreases i
  {
    if i > 0 {
      ForwardTo(p, i - 1);
      ForwardNext(p, i - 1);
    }
  }

  lemma ForwardNext(p: Plan, i: nat)
    requires p.Valid() && i < |p.Log()| && Forward(0, p.Log()[..i]) && Clock(0, p.Log()[..i]) <= p.Time(i / 2)
    ensures Forward(0, p.Log()[..i + 1]) && Clock(0, p.Log()[..i + 1]) <= p.Time((i + 1) / 2)
  {
    EventClock(p, i);
    ForwardStep(0, p.Log(), i);
  }

  lemma ForwardStep(start: int, events: seq<Event>, i: nat)
    requires i < |events| && Forward(start, events[..i])
    requires match events[i]
             case Ping(_, _, arrivedAt, sweptAt) => Clock(start, events[..i]) <= arrivedAt <= sweptAt
             case Alarm(now) => Clock(start, events[..i]) <= now
    ensures Forward(start, events[..i + 1]) && Clock(start, events[..i + 1]) == SweepTime(events[i])
  {
    assert events[..i + 1][..i] == events[..i];
  }

  lemma EventClock(p: Plan, i: nat)
    requires p.Valid() && i < |p.Log()|
    ensures match p.Log()[i]
            case Ping(_, _, arrivedAt, sweptAt) => arrivedAt == sweptAt == p.Time(i / 2)
            case Alarm(now) => now == p.Time(i / 2)
    ensures p.Time(i / 2) <= p.Time((i + 1) / 2)
  {
    assert p.Log()[i] == p.EventAt(i);
    assert (i + 1) / 2 == i / 2 + i % 2;
  }

  /** The two events of an interval. */
  lemma EventPair(p: Plan, k: nat)
    requires k < p.Intervals() + 2
    ensures p.Log()[2 * k] == if k < p.Intervals() then Ping(SOURCE, p.ArrivalAt(k), p.Time(k), p.Time(k))
                              else Alarm(p.Time(k))
    ensures p.Log()[2 * k + 1] == Alarm(p.Time(k))
  {
    assert 2 * k / 2 == k && (2 * k + 1) / 2 == k && 2 * k % 2 == 0 && (2 * k + 1) % 2 == 1;
    assert p.Log()[2 * k] == p.EventAt(2 * k) && p.Log()[2 * k + 1] == p.EventAt(2 * k + 1);
  }

  lemma LogForward(p: Plan)
    requires p.Valid()
    ensures Forward(0, p.Log())
  {
    assert p.Log()[..|p.Log()|] == p.Log();
    ForwardTo(p, |p.Log()|);
  }

  // ---------- What arrives ----------

  /** Of the events only number `n` is a packet with GUID `g`. */
  ghost predicate Only(events: seq<Event>, n: nat, g: Guid) {
    n < |events| && forall i | 0 <= i < |events| :: IsPing(events[i], g) <==> i == n
  }

  lemma {:induction false} OnlyArrival(events: seq<Event>, n: nat, g: Guid, i: nat)
    requires Only(events, n, g) && i <= |events|
    ensures ArrivalsOf(events[..i], g) == if i <= n then [] else [events[n].arrival]
    ensures TimesOf(events[..i], g) == if i <= n then [] else [events[n].arrivedAt]
    decreases i
  {
    if i > 0 {
      OnlyArrival(events, n, g, i - 1);
      ArrivalsStep(events, i - 1, g);
      TimesStep(events, i - 1, g);
    }
  }

  /** Only event 2k is a packet of interval `k`. */
  lemma OnlyPacket(p: Plan, k: nat)
    requires k < p.Intervals()
    ensures Only(p.Log(), 2 * k, p.Guid(k))
    ensures p.Log()[2 * k] == Ping(SOURCE, p.ArrivalAt(k), p.Time(k), p.Time(k))
  {
    var es := p.Log();
    forall i | 0 <= i < |es| ensures IsPing(es[i], p.Guid(k)) <==> i == 2 * k {
      assert es[i] == p.EventAt(i);
      if i / 2 < p.Intervals() { GuidsDiffer(p, i / 2, k); }
    }
    assert es[2 * k] == p.EventAt(2 * k);
  }

  lemma GuidsDiffer(p: Plan, j: nat, k: nat)
    requires j < p.Intervals() && k < p.Intervals()
    ensures p.Guid(j) == p.Guid(k) <==> j == k
  {
    assert |p.Guid(j)| == p.Intervals() - j && |p.Guid(k)| == p.Intervals() - k;
  }

  lemma ArrivedInAll(p: Plan, k: nat)
    requires k < p.Intervals()
    ensures ArrivalsOf(p.Log(), p.Guid(k)) == [p.ArrivalAt(k)]
    ensures TimesOf(p.Log(), p.Guid(k)) == [p.Time(k)]
  {
    OnlyPacket(p, k);
    OnlyArrival(p.Log(), 2 * k, p.Guid(k), |p.Log()|);
    assert p.Log()[..|p.Log()|] == p.Log();
  }

  // ---------- The conditions ----------

  ghost predicate IsPart(p: Plan, part: Part) {
    part == p.First() || part == p.Second()
  }

  lemma NumberStep(part: Part, k: nat)
    requires k < |part.gaps|
    ensures part.Number(k + 1) == part.Number(k) + 1 + part.gaps[k]
  {
    assert part.gaps[..k + 1][..k] == part.gaps[..k];
  }

  ghost predicate ArrivesAsPlanned(p: Plan, part: Part, k: nat)
    requires IsPart(p, part) && k <= |part.gaps|
  {
    var g := p.StreamOf(part).guids[k];
    && ArrivalsOf(p.Log(), g) != [] && IndicesOf(p.Log(), g) == [part.Number(k)]
    && Arrived(p.Log(), g) == Range(part.Number(k), part.Number(k))
  }

  lemma AsPlanned(p: Plan, part: Part, k: nat)
    requires IsPart(p, part) && k <= |part.gaps|
    ensures ArrivesAsPlanned(p, part, k)
  {
    var g := p.StreamOf(part).guids[k];
    assert g == p.Guid(part.from + k);
    ArrivedInAll(p, part.from + k);
    OneArrival(p.Log(), g, p.ArrivalAt(part.from + k));
  }

  lemma OneArrival(events: seq<Event>, g: Guid, a: Arrival)
    requires ArrivalsOf(events, g) == [a]
    ensures IndicesOf(events, g) == [a.packet.index] && Arrived(events, g) == Range(a.packet.index, a.packet.index)
  {
  }

  lemma GapsSmall(p: Plan, part: Part)
    requires IsPart(p, part) && part.Valid()
    ensures SmallGaps(p.Log(), p.StreamOf(part))
  {
    var s := p.StreamOf(part);
    forall k | 0 <= k < |s.guids|
      ensures ArrivalsOf(p.Log(), s.guids[k]) != [] && Tolerant(IndicesOf(p.Log(), s.guids[k]))
      ensures Arrived(p.Log(), s.guids[k]).Span() <= MAX_SPAN
    {
      AsPlanned(p, part, k);
    }
    forall j, k | 0 <= j < k < |s.guids| && k == j + 1
      ensures var r, n := Arrived(p.Log(), s.guids[j]), Arrived(p.Log(), s.guids[k]).lo;
              r.hi < n <= r.hi + 10 && n - 1 - r.lo <= MAX_SPAN
    {
      AsPlanned(p, part, j);
      AsPlanned(p, part, k);
      NumberStep(part, j);
    }
  }

  /** Interval `k` has begun after `i` events exactly if its packet is one of them. */
  lemma BegunIff(p: Plan, k: nat, i: nat)
    requires k < p.Intervals() && i <= |p.Log()|
    ensures ArrivalsOf(p.Log()[..i], p.Guid(k)) != [] <==> 2 * k < i
  {
    OnlyPacket(p, k);
    OnlyArrival(p.Log(), 2 * k, p.Guid(k), i);
  }

  lemma InOrder(p: Plan, part: Part)
    requires IsPart(p, part)
    ensures FirstArrivalsInOrder(p.Log(), p.StreamOf(part))
  {
    var s := p.StreamOf(part);
    forall i | 0 <= i <= |p.Log()| ensures Ordered(p.Log()[..i], s) {
      forall k | 0 <= k < |s.guids| ensures ArrivalsOf(p.Log()[..i], s.guids[k]) != [] <==> 2 * (part.from + k) < i {
        BegunIff(p, part.from + k, i);
      }
    }
  }

  lemma CarriesRun(p: Plan, part: Part)
    requires IsPart(p, part)
    ensures Carries(p.Log(), p.StreamOf(part))
  {
    var s := p.StreamOf(part);
    forall j, k | 0 <= j < k < |s.guids| ensures s.guids[j] != s.guids[k] {
      GuidsDiffer(p, part.from + j, part.from + k);
    }
    forall i | 0 <= i < |p.Log()| ensures CarriedBy(p.Log()[i], s) {
      PacketOf(p, part, i);
    }
  }

  /** A packet is of the run whose interval it falls in. */
  lemma PacketOf(p: Plan, part: Part, i: nat)
    requires IsPart(p, part) && i < |p.Log()|
    ensures CarriedBy(p.Log()[i], p.StreamOf(part))
    ensures p.Log()[i].Ping? ==> i == 2 * (i / 2) && i / 2 < p.Intervals() && p.Log()[i].arrival == p.ArrivalAt(i / 2)
    ensures p.Log()[i].Ping? ==>
              (p.Log()[i].arrival.packet.guid in p.StreamOf(part).guids <==> p.PartOf(i / 2) == part)
  {
    var s, k, e := p.StreamOf(part), i / 2, p.Log()[i];
    assert e == p.EventAt(i);
    if e.Ping? {
      assert |p.Guid(k)| >= 1;
      if p.PartOf(k) == part {
        assert s.guids[k - part.from] == p.Guid(k);
      }
      if j :| 0 <= j < |s.guids| && s.guids[j] == p.Guid(k) {
        GuidsDiffer(p, part.from + j, k);
      }
    }
  }

  lemma RunsDoNotMix(p: Plan, part: Part)
    requires IsPart(p, part)
    ensures OthersApart(p.keepalive, 0, p.Log(), p.StreamOf(part))
  {
    var s, es := p.StreamOf(part), p.Log();
    forall i | 0 <= i < |es| && OtherRun(es[i], s) ensures NoneOrAllBegun(es[..i], s) {
      PacketOf(p, part, i);
      forall k | 0 <= k < |s.guids| ensures ArrivalsOf(es[..i], s.guids[k]) != [] <==> 2 * (part.from + k) < i {
        BegunIff(p, part.from + k, i);
      }
    }
  }

  lemma {:induction false} TimesApart(p: Plan, j: nat, k: nat)
    requires p.Valid() && j <= k
    ensures p.Time(j) <= p.Time(k) && (j < k ==> p.Time(j) + p.keepalive <= p.Time(k))
    decreases k
  {
    if j < k { TimesApart(p, j, k - 1); }
  }

  lemma HeardOutAt(p: Plan, k: nat)
    requires p.Valid() && k < p.Intervals()
    ensures HeardOut(p.keepalive, 0, p.Log(), p.Guid(k))
  {
    var es, last := p.Log(), p.Intervals() + 1;
    ArrivedInAll(p, k);
    OnlyPacket(p, k);
    EventPair(p, last);
    TimesApart(p, k, last - 1);
    TimesApart(p, last - 1, last);
    OnlyIsUnbroken(p.keepalive, es, 2 * k, p.Guid(k));
  }

  lemma OnlyIsUnbroken(keepalive: int, events: seq<Event>, at: nat, g: Guid)
    requires Only(events, at, g)
    ensures Unbroken(keepalive, events, g)
  {
    forall m, n | 0 <= m < n < |events| ensures StillInTime(keepalive, events, g, m, n) {
      if n == at { OnlyArrival(events, at, g, m + 1); }
    }
  }

  /** Two events after the packet of interval `k` there is a sweep, one keepalive interval later. */
  lemma SweepAt(p: Plan, k: nat)
    requires k <= p.Intervals()
    ensures Sweeps(p.Log(), 2 * k) && SweepTime(p.Log()[2 * k]) == p.Time(k)
  {
    EventPair(p, k);
    if k > 0 { EventPair(p, k - 1); }
  }

  lemma HandsOver(p: Plan, k: nat)
    requires p.Valid() && k + 1 < p.Intervals()
    ensures Handover(p.keepalive, p.Log(), p.Guid(k), p.Guid(k + 1))
  {
    var es, g, h := p.Log(), p.Guid(k), p.Guid(k + 1);
    ArrivedInAll(p, k);
    ArrivedInAll(p, k + 1);
    SweepAt(p, k + 2);
    TimesApart(p, k + 1, k + 2);
    assert SweepIn(es, p.Time(k) + p.keepalive, p.Time(k + 1) + p.keepalive);
    LeastComes(p, k);
  }

  lemma LeastComes(p: Plan, k: nat)
    requires p.Valid() && k + 1 < p.Intervals() && TimesOf(p.Log(), p.Guid(k)) == [p.Time(k)]
    ensures LeastInTime(p.keepalive, p.Log(), p.Guid(k), p.Guid(k + 1))
  {
    IsLeast(p, k + 1);
    ComesInTime(p, k);
  }

  lemma IsLeast(p: Plan, k: nat)
    requires k < p.Intervals()
    ensures LeastOf(p.Log(), 2 * k, p.Guid(k))
  {
    ArrivedInAll(p, k);
    OnlyPacket(p, k);
    OneArrival(p.Log(), p.Guid(k), p.ArrivalAt(k));
  }

  lemma ComesInTime(p: Plan, k: nat)
    requires p.Valid() && k + 1 < p.Intervals() && TimesOf(p.Log(), p.Guid(k)) == [p.Time(k)]
    ensures InTime(p.keepalive, p.Log(), p.Guid(k), 2 * (k + 1))
  {
    var es, n := p.Log(), 2 * (k + 1);
    forall m | 0 <= m < n && m < |es| && Sweeps(es, m) ensures SweepTime(es[m]) <= p.Time(k) + p.keepalive {
      EventClock(p, m);
      TimesApart(p, m / 2, k + 1);
    }
  }

  lemma AllHandOver(p: Plan, part: Part)
    requires p.Valid() && IsPart(p, part)
    ensures forall j, k | 0 <= j < k < |p.StreamOf(part).guids| && k == j + 1 ::
              Handover(p.keepalive, p.Log(), p.StreamOf(part).guids[j], p.StreamOf(part).guids[k])
  {
    var guids := p.StreamOf(part).guids;
    forall j, k | 0 <= j < k < |guids| && k == j + 1 ensures Handover(p.keepalive, p.Log(), guids[j], guids[k]) {
      HandsOverIn(p, part, j, guids[j], guids[k]);
    }
  }

  lemma HandsOverIn(p: Plan, part: Part, j: nat, g: Guid, h: Guid)
    requires p.Valid() && IsPart(p, part) && j + 1 < |p.StreamOf(part).guids|
    requires g == p.StreamOf(part).guids[j] && h == p.StreamOf(part).guids[j + 1]
    ensures Handover(p.keepalive, p.Log(), g, h)
  {
    var k := part.from + j;
    assert g == p.Guid(k) && h == p.Guid(k + 1);
    HandsOver(p, k);
  }

  lemma RunPunctual(p: Plan, part: Part)
    requires p.Valid() && IsPart(p, part)
    ensures Punctual(p.keepalive, 0, p.Log(), p.StreamOf(part))
  {
    var s := p.StreamOf(part);
    RunsDoNotMix(p, part);
    assert AllHeardOut(p.keepalive, 0, p.Log(), s) by {
      forall k | 0 <= k < |s.guids| ensures HeardOut(p.keepalive, 0, p.Log(), s.guids[k]) {
        HeardOutAt(p, part.from + k);
      }
    }
    AllHandOver(p, part);
  }

  /** No handover is owed to the order of the GUIDs. */
  lemma {:induction false} NeverBelow(m: nat, n: nat)
    requires n < m
    ensures !Below(Name(m), Name(n))
    decreases n
  {
    if n > 0 {
      NeverBelow(m - 1, n - 1);
      assert Name(m)[1..] == Name(m - 1) && Name(n)[1..] == Name(n - 1);
    }
  }

  // ---------- The losses ----------

  /** The numbers of the first `n` packets of a run. */
  function Numbers(part: Part, n: nat): (ts: seq<int>)
    requires n <= |part.gaps| + 1
    ensures |ts| == n && forall k | 0 <= k < n :: ts[k] == part.Number(k)
  {
    seq(n, k requires 0 <= k < n => part.Number(k))
  }

  lemma {:induction false} NumbersAscend(part: Part, j: nat, k: nat)
    requires j <= k <= |part.gaps|
    ensures part.Number(j) <= part.Number(k) && (j < k ==> part.Number(j) < part.Number(k))
    decreases k
  {
    if j < k {
      NumbersAscend(part, j, k - 1);
      NumberStep(part, k - 1);
    }
  }

  /** How many packets of a run are among the first `i` events. */
  function Came(part: Part, i: nat): nat {
    var k := (i + 1) / 2;
    if k <= part.from then 0 else if k - part.from <= |part.gaps| then k - part.from else |part.gaps| + 1
  }

  ghost predicate DeliveredSoFar(p: Plan, part: Part, i: nat)
    requires IsPart(p, part) && i <= |p.Log()|
  {
    Delivered(p.Log()[..i], p.StreamOf(part).guids) == Numbers(part, Came(part, i))
  }

  lemma DeliveredNext(p: Plan, part: Part, i: nat)
    requires IsPart(p, part) && i < |p.Log()| && DeliveredSoFar(p, part, i)
    ensures DeliveredSoFar(p, part, i + 1)
  {
    var e := p.Log()[i];
    DeliveredStep(p.Log(), i, p.StreamOf(part).guids);
    Delivers(p, part, i, e);
    NumbersUpTo(part, Came(part, i), Came(part, i + 1),
                if Came(part, i) < Came(part, i + 1) then e.arrival.packet.index else 0);
  }

  /** One number more, or none. */
  lemma NumbersUpTo(part: Part, n: nat, n': nat, x: int)
    requires n <= n' <= n + 1 && n' <= |part.gaps| + 1 && (n < n' ==> x == part.Number(n))
    ensures Numbers(part, n') == Numbers(part, n) + if n < n' then [x] else []
  {
  }

  lemma Delivers(p: Plan, part: Part, i: nat, e: Event)
    requires IsPart(p, part) && i < |p.Log()| && e == p.Log()[i]
    ensures Came(part, i + 1)
            == Came(part, i) + if e.Ping? && e.arrival.packet.guid in p.StreamOf(part).guids then 1 else 0
    ensures Came(part, i + 1) > Came(part, i) ==>
              e.Ping? && Came(part, i) <= |part.gaps| && e.arrival.packet.index == part.Number(Came(part, i))
  {
    PacketOf(p, part, i);
    assert e == p.EventAt(i);
    assert (i + 1) / 2 == i / 2 + i % 2;
  }

  lemma {:induction false} DeliveredFrom(p: Plan, part: Part, i: nat, n: nat)
    requires IsPart(p, part) && i <= n <= |p.Log()| && DeliveredSoFar(p, part, i)
    ensures DeliveredSoFar(p, part, n)
    decreases n - i
  {
    if i < n {
      DeliveredNext(p, part, i);
      DeliveredFrom(p, part, i + 1, n);
    }
  }

  lemma DeliveredAll(p: Plan, part: Part)
    requires IsPart(p, part)
    ensures Delivered(p.Log(), p.StreamOf(part).guids) == Numbers(part, |part.gaps| + 1)
  {
    assert p.Log()[..0] == [] && p.Log()[..|p.Log()|] == p.Log();
    DeliveredFrom(p, part, 0, |p.Log()|);
  }

  lemma MissingTotal(part: Part)
    ensures var ts := Numbers(part, |part.gaps| + 1); Distinct(ts) && |Missing(ts)| == Total(part.gaps)
  {
    var n, ts := |part.gaps|, Numbers(part, |part.gaps| + 1);
    forall j, k | 0 <= j <= k <= n ensures ts[j] <= ts[k] && (j < k ==> ts[j] < ts[k]) {
      NumbersAscend(part, j, k);
    }
    assert ts[0] == 0 && part.gaps[..n] == part.gaps && ts[n] == n + Total(part.gaps);
    RangeOfIs(ts, Range(ts[0], ts[n]));
    MissingCount(ts);
  }

  /** Each run of such a log meets every condition, and has lost what was planned. */
  lemma ConditionsMet(p: Plan, part: Part)
    requires p.Valid() && IsPart(p, part)
    ensures Accountable(p.keepalive, p.Log(), p.StreamOf(part))
    ensures Distinct(Delivered(p.Log(), p.StreamOf(part).guids))
    ensures LostOf(p.Log(), p.StreamOf(part).guids) == Total(part.gaps)
  {
    var s := p.StreamOf(part);
    LogForward(p);
    CarriesRun(p, part);
    GapsSmall(p, part);
    InOrder(p, part);
    RunPunctual(p, part);
    AccountableIff(p.keepalive, 0, p.Log(), s);
    DeliveredAll(p, part);
    MissingTotal(part);
  }

  // ---------- The dashboard ----------

  function Streams(p: Plan): seq<Stream> {
    [p.StreamOf(p.First()), p.StreamOf(p.Second())]
  }

  lemma StreamsDisjoint(p: Plan)
    ensures DisjointRuns(Streams(p))
  {
    var a, b := p.StreamOf(p.First()), p.StreamOf(p.Second());
    forall j, k | 0 <= j < |a.guids| && 0 <= k < |b.guids| ensures a.guids[j] != b.guids[k] {
      GuidsDiffer(p, j, |p.gaps| + 1 + k);
    }
  }

  lemma StreamsKeyed(p: Plan, toHost: string)
    ensures Keyed(p.Log(), Streams(p), toHost, KeyOfPeer(SOURCE.peer, toHost))
  {
    forall i | 0 <= i < |p.Log()| && p.Log()[i].Ping?
      ensures p.Log()[i].source == SOURCE && Covers(Streams(p), p.Log()[i].arrival.packet.guid)
    {
      assert p.Log()[i] == p.EventAt(i);
      PacketOf(p, p.First(), i);
      PacketOf(p, p.Second(), i);
      var n := if p.PartOf(i / 2) == p.First() then 0 else 1;
      assert p.Log()[i].arrival.packet.guid in Streams(p)[n].guids;
    }
  }

  lemma {:induction false} FewArrivals(events: seq<Event>, g: Guid)
    requires forall i, j | 0 <= i < j < |events| :: !(IsPing(events[i], g) && IsPing(events[j], g))
    ensures |ArrivalsOf(events, g)| <= 1
    ensures (forall i | 0 <= i < |events| :: !IsPing(events[i], g)) ==> ArrivalsOf(events, g) == []
  {
    if events != [] { FewArrivals(events[..|events| - 1], g); }
  }

  lemma LogModerate(p: Plan)
    ensures Moderate(p.Log())
  {
    var es := p.Log();
    forall g: Guid ensures |ArrivalsOf(es, g)| <= 1 {
      forall i, j | 0 <= i < j < |es| ensures !(IsPing(es[i], g) && IsPing(es[j], g)) {
        PacketOf(p, p.First(), i);
        PacketOf(p, p.First(), j);
        if es[i].Ping? && es[j].Ping? { GuidsDiffer(p, i / 2, j / 2); }
      }
      FewArrivals(es, g);
    }
  }

  /** And the dashboard shows the losses of both runs. */
  lemma BothRunsShown(p: Plan, agg: seq<Aggregators.Event>, toHost: string)
    requires p.Valid() && LinesRead(agg) == LinesOf(Run(p.keepalive, p.Log()).emitted, toHost)
    ensures var m, key := Aggregators.Run(agg), KeyOfPeer(SOURCE.peer, toHost);
            (if key in m then m[key].dropCount else 0) == Total(p.gaps) + Total(p.later)
  {
    StreamsDisjoint(p);
    StreamsKeyed(p, toHost);
    LogModerate(p);
    var streams := Streams(p);
    forall k | 0 <= k < |streams|
      ensures Accountable(p.keepalive, p.Log(), streams[k]) && Distinct(Delivered(p.Log(), streams[k].guids))
    {
      ConditionsMet(p, if k == 0 then p.First() else p.Second());
    }
    DashboardShowsTrueLoss(p.keepalive, p.Log(), streams, agg, toHost, KeyOfPeer(SOURCE.peer, toHost));
    LostInBoth(p);
  }

  lemma LostInBoth(p: Plan)
    requires p.Valid()
    ensures TrulyLost(p.Log(), Streams(p)) == Total(p.gaps) + Total(p.later)
  {
    ConditionsMet(p, p.First());
    ConditionsMet(p, p.Second());
    LostInTwo(p.Log(), p.StreamOf(p.First()), p.StreamOf(p.Second()));
  }

  lemma LostInTwo(events: seq<Event>, a: Stream, b: Stream)
    ensures TrulyLost(events, [a, b]) == LostOf(events, a.guids) + LostOf(events, b.guids)
  {
    var both := [a, b];
    var one := both[..1];
    assert one == [a] && one[..0] == [];
    assert TrulyLost(events, one) == LostOf(events, a.guids);
  }
}
