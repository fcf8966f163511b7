/**
 The ring buffer of otel/ping_otelsender.go and otel/ping_reader.go.

 1024 slots stand in for an unbounded history of which ping sequence numbers were missed and which
 were answered.  A line is taken after its text has been searched: its decimal sequence number, and
 whether it reports a miss, a reply, or neither.
 */
module PingRings {
  import Statistics

  const SLOTS := 1024

  datatype Status = Miss | Reply(rtt: real) | Unknown

  datatype Line = Unnumbered | Numbered(number: nat, status: Status)

  /** The counters and the ring, as values. */
  datatype Ring = Ring(buf: seq<int>, cur: nat, target: int, drop: int, rttCount: int, rttSum: real) {
    ghost predicate Valid() {
      |buf| == SLOTS && cur < SLOTS
    }
  }

  function Start(): (r: Ring)
    ensures r.Valid() && forall i | 0 <= i < SLOTS :: r.buf[i] == 0
  {
    Ring(seq(SLOTS, _ => 0), 0, 0, 0, 0, 0.0)
  }

  /** The greatest number that fits 16 signed bits. */
  const MAX_PARSED: nat := 32767

  /** A decimal number parsed into 16 signed bits: larger numbers are clamped. */
  function Parse16(number: nat): nat {
    if number > MAX_PARSED then MAX_PARSED else number
  }

  predicate LooksNew(slot: nat, cur: nat) {
    slot > cur || cur - slot > 1000
  }

  function Enter(r: Ring, slot: nat): (r': Ring)
    requires r.Valid() && slot < SLOTS
    ensures r'.Valid()
  {
    if LooksNew(slot, r.cur) then r.(buf := r.buf[slot := 0], cur := slot) else r
  }

  function Count(r: Ring, slot: nat, status: Status): (r': Ring)
    requires r.Valid() && slot < SLOTS
    ensures r'.Valid()
  {
    match status
    case Miss =>
      if r.buf[slot] == 0 then r.(target := r.target + 1, drop := r.drop + 1, buf := r.buf[slot := 1]) else r
    case Reply(rtt) =>
      var r1 := r.(rttCount := r.rttCount + 1, rttSum := r.rttSum + rtt);
      if r.buf[slot] == 0 then r1.(target := r.target + 1) else r1.(drop := r.drop - 1)
    case Unknown => r
  }

  function Process(r: Ring, line: Line): (r': Ring)
    requires r.Valid()
    ensures r'.Valid()
  {
    match line
    case Unnumbered => r
    case Numbered(number, status) =>
      var slot := Parse16(number) % SLOTS;
      Count(Enter(r, slot), slot, status)
  }

  function Run(lines: seq<Line>): (r: Ring)
    ensures r.Valid()
  {
    if lines == [] then Start() else Process(Run(lines[..|lines| - 1]), lines[|lines| - 1])
  }

  /** The mean latency a report shows. */
  function Latency(r: Ring): real {
    if r.rttCount > 0 then r.rttSum / r.rttCount as real else 0.0
  }

  /** A report of ping_otelsender: the counters go on, the latency window restarts. */
  function Reported(r: Ring): Ring {
    r.(rttCount := 0, rttSum := 0.0)
  }

  /** A dump of ping_reader: every counter restarts, the ring does not. */
  function Dumped(r: Ring): Ring {
    r.(target := 0, drop := 0, rttCount := 0, rttSum := 0.0)
  }

  // ---------- The programs ----------

  class PingScanner {
    const ringBuf: array<int>
    var curSeq: nat
    var targetCount: int
    var dropCount: int
    var rttCount: int
    var rttSum: real

    ghost predicate Valid()
      reads this
    {
      ringBuf.Length == SLOTS && curSeq < SLOTS
    }

    ghost function State(): Ring
      reads this, ringBuf
    {
      Ring(ringBuf[..], curSeq, targetCount, dropCount, rttCount, rttSum)
    }

    constructor ()
      ensures Valid() && State() == Start() && fresh(ringBuf)
    {
      ringBuf := new int[SLOTS](_ => 0);
      curSeq, targetCount, dropCount, rttCount, rttSum := 0, 0, 0, 0, 0.0;
    }

    /** The body of the scan loop. */
    method ProcessLine(line: Line)
      requires Valid()
      modifies this, ringBuf
      ensures Valid() && State() == Process(old(State()), line)
    {
      match line {
        case Unnumbered =>
        case Numbered(number, status) =>
          var icmpSeq := Parse16(number);
          icmpSeq := icmpSeq % 1024;
          if icmpSeq > curSeq || curSeq - icmpSeq > 1000 {
            ringBuf[icmpSeq] := 0;
            curSeq := icmpSeq;
          }
          match status {
            case Miss =>
              if ringBuf[icmpSeq] == 0 {
                targetCount := targetCount + 1;
                dropCount := dropCount + 1;
                ringBuf[icmpSeq] := 1;
              }
            case Reply(rtt) =>
              rttCount := rttCount + 1;
              rttSum := rttSum + rtt;
              if ringBuf[icmpSeq] == 0 {
                targetCount := targetCount + 1;
              } else {
                dropCount := dropCount - 1;
              }
            case Unknown =>
          }
      }
    }

    /** The reporting callback of ping_otelsender: the counters go on, the latency window restarts. */
    method Observe() returns (target: int, drop: int, rtt: real)
      requires Valid()
      modifies this
      ensures Valid() && State() == Reported(old(State()))
      ensures target == targetCount && drop == dropCount && rtt == Latency(old(State()))
    {
      rtt := 0.0;
      if rttCount > 0 {
        rtt := rttSum / rttCount as real;
      }
      target, drop := targetCount, dropCount;
      rttSum, rttCount := 0.0, 0;
    }

    /** The dump of ping_reader: every counter restarts, the ring does not. */
    method Dump() returns (target: int, drop: int, rtt: real)
      requires Valid()
      modifies this
      ensures Valid() && State() == Dumped(old(State()))
      ensures target == old(targetCount) && drop == old(dropCount) && rtt == Latency(old(State()))
    {
      rtt := 0.0;
      if rttCount > 0 {
        rtt := rttSum / rttCount as real;
      }
      target, drop := targetCount, dropCount;
      rttSum, rttCount := 0.0, 0;
      dropCount, targetCount := 0, 0;
    }
  }

  lemma Quotient(x: real, n: real)
    requires n != 0.0
    ensures x / n * n == x
  {
  }

  method Scan(lines: seq<Line>) returns (s: PingScanner)
    ensures fresh(s) && s.Valid() && s.State() == Run(lines)
  {
    s := new PingScanner();
    var i := 0;
    while i < |lines|
      invariant 0 <= i <= |lines| && fresh(s) && fresh(s.ringBuf)
      invariant s.Valid() && s.State() == Run(lines[..i])
    {
      s.ProcessLine(lines[i]);
      assert lines[..i + 1][..i] == lines[..i];
      i := i + 1;
    }
    assert lines[..i] == lines;
  }

  // ---------- Any stream at all ----------

  function Replies(lines: seq<Line>): nat {
    if lines == [] then 0
    else Replies(lines[..|lines| - 1])
         + if lines[|lines| - 1].Numbered? && lines[|lines| - 1].status.Reply? then 1 else 0
  }

  /** Whatever the lines, targetCount - dropCount is the number of replies. */
  lemma {:induction false} RepliesConserved(lines: seq<Line>)
    ensures Run(lines).target - Run(lines).drop == Replies(lines)
  {
    if lines != [] { RepliesConserved(lines[..|lines| - 1]); }
  }

  /** A line, or a report: the callback of ping_otelsender or the dump of ping_reader. */
  datatype Event = Read(line: Line) | Report

  datatype Windowed = Windowed(ring: Ring, target: int, drop: int)

  /** `ping_reader` over lines and dumps; `target` and `drop` total what it has printed. */
  function ReadAll(events: seq<Event>): (w: Windowed)
    ensures w.ring.Valid()
  {
    if events == [] then Windowed(Start(), 0, 0)
    else
      var w := ReadAll(events[..|events| - 1]);
      match events[|events| - 1]
      case Read(line) => w.(ring := Process(w.ring, line))
      case Report => Windowed(Dumped(w.ring), w.target + w.ring.target, w.drop + w.ring.drop)
  }

  function LinesOf(events: seq<Event>): seq<Line> {
    if events == [] then []
    else
      var e := events[|events| - 1];
      LinesOf(events[..|events| - 1]) + if e.Read? then [e.line] else []
  }

  /** On the same lines, the printed windows and the current one add up to the cumulative counters. */
  lemma {:induction false} WindowsAddUp(events: seq<Event>)
    ensures var w, r := ReadAll(events), Run(LinesOf(events));
            && w.target + w.ring.target == r.target && w.drop + w.ring.drop == r.drop
            && w.ring.buf == r.buf && w.ring.cur == r.cur
  {
    if events != [] {
      var front, e := events[..|events| - 1], events[|events| - 1];
      WindowsAddUp(front);
      if e.Read? {
        RunSnoc(LinesOf(front), e.line);
        SameCounting(ReadAll(front).ring, Run(LinesOf(front)), e.line);
      } else {
        assert LinesOf(events) == LinesOf(front);
      }
    }
  }

  lemma RunSnoc(lines: seq<Line>, line: Line)
    ensures Run(lines + [line]) == Process(Run(lines), line)
  {
    assert (lines + [line])[..|lines|] == lines;
  }

  /** `ping_otelsender` over lines and reports. */
  function SendAll(events: seq<Event>): (r: Ring)
    ensures r.Valid()
  {
    if events == [] then Start()
    else
      var r := SendAll(events[..|events| - 1]);
      match events[|events| - 1]
      case Read(line) => Process(r, line)
      case Report => Reported(r)
  }

  /** Its counters and its ring are those of the lines, whenever it reports. */
  lemma {:induction false} CountersGoOn(events: seq<Event>)
    ensures var r, all := SendAll(events), Run(LinesOf(events));
            r.target == all.target && r.drop == all.drop && r.buf == all.buf && r.cur == all.cur
  {
    if events != [] {
      var front, e := events[..|events| - 1], events[|events| - 1];
      CountersGoOn(front);
      if e.Read? {
        RunSnoc(LinesOf(front), e.line);
        SameCounting(SendAll(front), Run(LinesOf(front)), e.line);
      } else {
        assert LinesOf(events) == LinesOf(front);
      }
    }
  }

  function TimeOf(line: Line): seq<real> {
    if line.Numbered? && line.status.Reply? then [line.status.rtt] else []
  }

  /** The round-trip times of the replies since the last report. */
  function TimesSince(events: seq<Event>): seq<real> {
    if events == [] || events[|events| - 1].Report? then []
    else TimesSince(events[..|events| - 1]) + TimeOf(events[|events| - 1].line)
  }

  ghost predicate Totals(r: Ring, ts: seq<real>) {
    r.rttCount == |ts| && r.rttSum == Statistics.Sum(ts)
  }

  lemma TotalsStep(r: Ring, ts: seq<real>, line: Line)
    requires r.Valid() && Totals(r, ts)
    ensures Totals(Process(r, line), ts + TimeOf(line))
  {
    if TimeOf(line) == [] {
      assert ts + TimeOf(line) == ts;
    } else {
      assert (ts + TimeOf(line))[..|ts|] == ts;
    }
  }

  lemma {:induction false} LatencyWindow(events: seq<Event>)
    ensures Totals(SendAll(events), TimesSince(events)) && Totals(ReadAll(events).ring, TimesSince(events))
  {
    if events != [] {
      var front, e := events[..|events| - 1], events[|events| - 1];
      LatencyWindow(front);
      if e.Read? {
        TotalsStep(SendAll(front), TimesSince(front), e.line);
        TotalsStep(ReadAll(front).ring, TimesSince(front), e.line);
      }
    }
  }

  /** `x` is the mean of `ts`, or 0 if there are none. */
  ghost predicate IsMean(x: real, ts: seq<real>) {
    if ts == [] then x == 0.0 else x * |ts| as real == Statistics.Sum(ts)
  }

  lemma MeanOf(r: Ring, ts: seq<real>)
    requires Totals(r, ts)
    ensures IsMean(Latency(r), ts)
  {
    if ts != [] { Quotient(r.rttSum, r.rttCount as real); }
  }

  /** What either program shows is the mean round-trip time of the replies since the report before, or 0. */
  lemma LatencyIsMean(events: seq<Event>)
    ensures IsMean(Latency(SendAll(events)), TimesSince(events))
    ensures IsMean(Latency(ReadAll(events).ring), TimesSince(events))
  {
    LatencyWindow(events);
    MeanOf(SendAll(events), TimesSince(events));
    MeanOf(ReadAll(events).ring, TimesSince(events));
  }

  /** How the counters move depends on the ring alone. */
  lemma SameCounting(r: Ring, r': Ring, line: Line)
    requires r.Valid() && r'.Valid() && r.buf == r'.buf && r.cur == r'.cur
    ensures var a, b := Process(r, line), Process(r', line);
            && a.buf == b.buf && a.cur == b.cur
            && a.target - r.target == b.target - r'.target && a.drop - r.drop == b.drop - r'.drop
  {
  }

  // ---------- When the ring stands for the whole history ----------

  /** The unbounded history: which numbers appeared, were missed, were answered, and the greatest. */
  datatype History = History(visited: set<nat>, missed: set<nat>, answered: set<nat>, hi: nat) {
    function Add(number: nat, status: Status): History {
      History(visited + {number},
              if status.Miss? then missed + {number} else missed,
              if status.Reply? then answered + {number} else answered,
              if number > hi then number else hi)
    }

    ghost predicate Valid() {
      && missed <= visited && answered <= visited
      && (forall x | x in visited :: x <= hi)
      && (hi in visited || (hi == 0 && visited == {}))
    }
  }

  function HistoryOf(lines: seq<Line>): (h: History)
    ensures h.Valid()
  {
    if lines == [] then History({}, {}, {}, 0)
    else
      var h := HistoryOf(lines[..|lines| - 1]);
      match lines[|lines| - 1]
      case Unnumbered => h
      case Numbered(number, status) => h.Add(number, status)
  }

  /** The counters say how many numbers were seen and how many were missed and never answered. */
  ghost predicate Exact(r: Ring, h: History) {
    r.target == |h.missed + h.answered| && r.drop == |h.missed - h.answered|
  }

  function Block(n: nat): nat {
    n / SLOTS
  }

  /** A number greater than all before looks new to the ring if and only if it is in the same block of
      1024 or at most 23 ahead. */
  lemma NewLooksNewIff(hi: nat, n: nat)
    requires hi < n < hi + SLOTS
    ensures LooksNew(n % SLOTS, hi % SLOTS) <==> Block(n) == Block(hi) || n - hi <= 23
  {
    SameBlock(hi, n);
  }

  /** A number behind the greatest looks old if and only if it is in the same block and at most 1000 behind. */
  lemma LateLooksOldIff(hi: nat, n: nat)
    requires n <= hi < n + SLOTS
    ensures !LooksNew(n % SLOTS, hi % SLOTS) <==> Block(n) == Block(hi) && hi - n <= 1000
  {
    SameBlock(n, hi);
  }

  lemma SameBlock(m: nat, n: nat)
    requires m <= n < m + SLOTS
    ensures Block(n) == Block(m) || Block(n) == Block(m) + 1
    ensures n % SLOTS - m % SLOTS == n - m - SLOTS * (Block(n) - Block(m))
  {
  }

  /** The line fits the parser, and is either the first of its number, beyond the greatest and looking
      new, or a late one, in the current block and at most 1000 behind. */
  predicate Orderly(h: History, line: Line) {
    line.Numbered? ==>
      && line.number <= MAX_PARSED
      && if line.number in h.visited then Block(line.number) == Block(h.hi) && h.hi - line.number <= 1000
         else h.visited == {} || (h.hi < line.number && LooksNew(line.number % SLOTS, h.hi % SLOTS))
  }

  /** Not a second reply, and not a miss after a reply that no miss preceded. */
  predicate Clean(h: History, line: Line) {
    line.Numbered? ==>
      match line.status
      case Miss => line.number in h.answered ==> line.number in h.missed
      case Reply(_) => line.number !in h.answered
      case Unknown => true
  }

  /** The slots of the current block record its misses. */
  ghost predicate Represents(r: Ring, h: History) {
    && r.Valid() && h.Valid() && r.cur == h.hi % SLOTS
    && (h.visited == {} ==> r.buf[0] == 0)
    && (forall x | x in h.visited && Block(x) == Block(h.hi) ::
          r.buf[x % SLOTS] == if x in h.missed then 1 else 0)
  }

  lemma DistinctSlots(x: nat, y: nat)
    requires Block(x) == Block(y) && x != y
    ensures x % SLOTS != y % SLOTS
  {
  }

  /** After `Enter` the slot of an orderly line holds 1 exactly if its number was missed before. */
  lemma EnterRepresents(r: Ring, h: History, n: nat)
    requires Represents(r, h) && Orderly(h, Numbered(n, Unknown))
    ensures var r1 := Enter(r, n % SLOTS);
            && Represents(r1, h.Add(n, Unknown))
            && r1 == r.(buf := r1.buf, cur := r1.cur)
            && r1.buf[n % SLOTS] == if n in h.missed then 1 else 0
  {
    var r1, h1 := Enter(r, n % SLOTS), h.Add(n, Unknown);
    if n in h.visited {
      LateLooksOldIff(h.hi, n);
    } else if h.visited != {} {
      forall x | x in h1.visited && Block(x) == Block(h1.hi)
        ensures r1.buf[x % SLOTS] == if x in h1.missed then 1 else 0
      {
        if x != n {
          DistinctSlots(x, n);
          BlockMonotone(x, h.hi);
          BlockMonotone(h.hi, n);
        }
      }
    }
  }

  lemma BlockMonotone(x: nat, y: nat)
    requires x <= y
    ensures Block(x) <= Block(y)
  {
  }

  lemma CountRepresents(r: Ring, h: History, n: nat, status: Status)
    requires Represents(r, h) && n in h.visited && Block(n) == Block(h.hi)
    ensures Represents(Count(r, n % SLOTS, status), h.Add(n, status))
  {
    var r1, h1 := Count(r, n % SLOTS, status), h.Add(n, status);
    forall x | x in h1.visited && Block(x) == Block(h1.hi)
      ensures r1.buf[x % SLOTS] == if x in h1.missed then 1 else 0
    {
      if x != n { DistinctSlots(x, n); }
    }
  }

  lemma CountExactIff(r: Ring, h: History, n: nat, status: Status)
    requires r.Valid() && Exact(r, h)
    requires r.buf[n % SLOTS] == if n in h.missed then 1 else 0
    ensures Exact(Count(r, n % SLOTS, status), h.Add(n, status)) <==> Clean(h, Numbered(n, status))
  {
    match status
    case Miss => MissSizes(h.missed, h.answered, n);
    case Reply(_) => ReplySizes(h.missed, h.answered, n);
    case Unknown =>
  }

  lemma MissSizes(missed: set<nat>, answered: set<nat>, n: nat)
    ensures |missed + {n} + answered| == |missed + answered| + if n in missed || n in answered then 0 else 1
    ensures |missed + {n} - answered| == |missed - answered| + if n in missed || n in answered then 0 else 1
  {
    AddElement(missed + answered, missed + {n} + answered, n);
    if n in answered {
      assert missed + {n} - answered == missed - answered;
    } else {
      AddElement(missed - answered, missed + {n} - answered, n);
    }
  }

  lemma ReplySizes(missed: set<nat>, answered: set<nat>, n: nat)
    ensures |missed + (answered + {n})| == |missed + answered| + if n in missed || n in answered then 0 else 1
    ensures |missed - (answered + {n})| == |missed - answered| - if n in missed && n !in answered then 1 else 0
  {
    AddElement(missed + answered, missed + (answered + {n}), n);
    if n in missed && n !in answered {
      AddElement(missed - (answered + {n}), missed - answered, n);
    } else {
      assert missed - (answered + {n}) == missed - answered;
    }
  }

  lemma AddElement(s: set<nat>, t: set<nat>, n: nat)
    requires t == s + {n}
    ensures |t| == |s| + if n in s then 0 else 1
  {
    if n in s { assert t == s; }
  }

  /** Processing an orderly line keeps the ring true to the history, and keeps the counters exact if
      and only if the line is clean. */
  lemma ProcessExactIff(r: Ring, h: History, line: Line)
    requires Represents(r, h) && Exact(r, h) && Orderly(h, line) && line.Numbered?
    ensures Represents(Process(r, line), h.Add(line.number, line.status))
    ensures Exact(Process(r, line), h.Add(line.number, line.status)) <==> Clean(h, line)
  {
    var n, h1 := line.number, h.Add(line.number, Unknown);
    EnterRepresents(r, h, n);
    var r1 := Enter(r, n % SLOTS);
    CountRepresents(r1, h1, n, line.status);
    assert h1.Add(n, line.status) == h.Add(n, line.status);
    CountExactIff(r1, h, n, line.status);
  }

  ghost predicate AllOrderly(lines: seq<Line>) {
    forall k | 0 <= k < |lines| :: Orderly(HistoryOf(lines[..k]), lines[k])
  }

  lemma Extend(lines: seq<Line>, k: nat)
    requires k < |lines|
    ensures Run(lines[..k + 1]) == Process(Run(lines[..k]), lines[k])
    ensures HistoryOf(lines[..k + 1])
            == match lines[k] case Unnumbered => HistoryOf(lines[..k])
               case Numbered(number, status) => HistoryOf(lines[..k]).Add(number, status)
  {
    assert lines[..k + 1][..k] == lines[..k];
  }

  lemma {:induction false} CleanPrefixExact(lines: seq<Line>, k: nat)
    requires AllOrderly(lines) && k <= |lines|
    requires forall j | 0 <= j < k :: Clean(HistoryOf(lines[..j]), lines[j])
    ensures Represents(Run(lines[..k]), HistoryOf(lines[..k])) && Exact(Run(lines[..k]), HistoryOf(lines[..k]))
    decreases k
  {
    if k > 0 {
      CleanPrefixExact(lines, k - 1);
      Extend(lines, k - 1);
      assert Orderly(HistoryOf(lines[..k - 1]), lines[k - 1]);
      if lines[k - 1].Numbered? {
        ProcessExactIff(Run(lines[..k - 1]), HistoryOf(lines[..k - 1]), lines[k - 1]);
      }
    }
  }

  /** Refinement of the unbounded history: on an orderly stream the counters are exact after every line
      if and only if every line is clean. */
  lemma RingExactIff(lines: seq<Line>)
    requires AllOrderly(lines)
    ensures (forall k | 0 <= k <= |lines| :: Exact(Run(lines[..k]), HistoryOf(lines[..k])))
            <==> (forall k | 0 <= k < |lines| :: Clean(HistoryOf(lines[..k]), lines[k]))
  {
    if forall k | 0 <= k < |lines| :: Clean(HistoryOf(lines[..k]), lines[k]) {
      forall k | 0 <= k <= |lines| ensures Exact(Run(lines[..k]), HistoryOf(lines[..k])) {
        CleanPrefixExact(lines, k);
      }
    }
    if forall k | 0 <= k <= |lines| :: Exact(Run(lines[..k]), HistoryOf(lines[..k])) {
      forall k | 0 <= k < |lines| ensures Clean(HistoryOf(lines[..k]), lines[k]) {
        ExactMakesClean(lines, k);
      }
    }
  }

  lemma {:induction false} ExactMakesClean(lines: seq<Line>, k: nat)
    requires AllOrderly(lines) && k < |lines|
    requires forall j | 0 <= j <= |lines| :: Exact(Run(lines[..j]), HistoryOf(lines[..j]))
    ensures forall j | 0 <= j <= k :: Clean(HistoryOf(lines[..j]), lines[j])
    decreases k
  {
    if k > 0 { ExactMakesClean(lines, k - 1); }
    CleanPrefixExact(lines, k);
    Extend(lines, k);
    assert Exact(Run(lines[..k]), HistoryOf(lines[..k])) && Exact(Run(lines[..k + 1]), HistoryOf(lines[..k + 1]));
    assert Orderly(HistoryOf(lines[..k]), lines[k]);
    if lines[k].Numbered? {
      ProcessExactIff(Run(lines[..k]), HistoryOf(lines[..k]), lines[k]);
    }
  }

  /** A late reply from before a 1024 wrap is taken for a new number: a miss it should settle stays
      counted as dropped, and its number is counted again. */
  lemma LateReplyAcrossWrap(r: Ring, h: History, n: nat, rtt: real)
    requires Represents(r, h) && Exact(r, h)
    requires n in h.missed && n !in h.answered && n <= MAX_PARSED && n < h.hi < n + SLOTS && Block(n) != Block(h.hi)
    ensures var r1, h1 := Process(r, Numbered(n, Reply(rtt))), h.Add(n, Reply(rtt));
            r1.target == |h1.missed + h1.answered| + 1 && r1.drop == |h1.missed - h1.answered| + 1
  {
    LateLooksOldIff(h.hi, n);
    var h1 := h.Add(n, Reply(rtt));
    AddElement(h.missed + h.answered, h1.missed + h1.answered, n);
    AddElement(h1.missed - h1.answered, h.missed - h.answered, n);
  }

  // ---------- Numbers that do not fit the parser ----------

  function RunFrom(r: Ring, lines: seq<Line>): (r': Ring)
    requires r.Valid()
    ensures r'.Valid()
  {
    if lines == [] then r else Process(RunFrom(r, lines[..|lines| - 1]), lines[|lines| - 1])
  }

  function AddAll(h: History, lines: seq<Line>): (h': History)
    requires h.Valid()
    ensures h'.Valid()
  {
    if lines == [] then h
    else match lines[|lines| - 1]
      case Unnumbered => AddAll(h, lines[..|lines| - 1])
      case Numbered(number, status) => AddAll(h, lines[..|lines| - 1]).Add(number, status)
  }

  /** A miss or a reply whose number is clamped. */
  predicate IsClamped(line: Line) {
    line.Numbered? && line.number > MAX_PARSED && !line.status.Unknown?
  }

  predicate IsMiss(line: Line) {
    line.Numbered? && line.status.Miss?
  }

  function MissesIn(lines: seq<Line>): nat {
    if lines == [] then 0 else MissesIn(lines[..|lines| - 1]) + if IsMiss(lines[|lines| - 1]) then 1 else 0
  }

  /** How many of the lines come after the first miss. */
  function AfterMiss(lines: seq<Line>): nat {
    if lines == [] then 0
    else
      var front := lines[..|lines| - 1];
      if MissesIn(front) == 0 then 0 else AfterMiss(front) + 1
  }

  function RepliesAfterMiss(lines: seq<Line>): nat {
    if lines == [] then 0
    else
      var front, line := lines[..|lines| - 1], lines[|lines| - 1];
      if MissesIn(front) == 0 then 0
      else RepliesAfterMiss(front) + if line.Numbered? && line.status.Reply? then 1 else 0
  }

  /** Clamped lines all share the last slot, which is emptied at most once: up to the first miss each
      is counted, and after it no line is, while every reply takes one off the drop count. */
  lemma {:induction false} ClampedCounters(r: Ring, lines: seq<Line>)
    requires r.Valid() && r.cur < SLOTS - 1 && forall k | 0 <= k < |lines| :: IsClamped(lines[k])
    ensures var r' := RunFrom(r, lines);
            && r'.target == r.target + |lines| - AfterMiss(lines)
            && r'.drop == r.drop + (if MissesIn(lines) > 0 then 1 else 0) - RepliesAfterMiss(lines)
            && (lines != [] ==> r'.cur == SLOTS - 1 && r'.buf[SLOTS - 1] == if MissesIn(lines) > 0 then 1 else 0)
  {
    if lines != [] {
      ClampedCounters(r, lines[..|lines| - 1]);
      assert IsClamped(lines[|lines| - 1]);
    }
  }

  ghost predicate AllNew(h: History, lines: seq<Line>) {
    && (forall k | 0 <= k < |lines| :: lines[k].Numbered? && lines[k].number !in h.visited)
    && (forall j, k | 0 <= j < k < |lines| :: lines[j].number != lines[k].number)
  }

  /** What the history gains by clamped lines with new numbers. */
  lemma {:induction false} NewCounts(h: History, lines: seq<Line>)
    requires h.Valid() && AllNew(h, lines) && forall k | 0 <= k < |lines| :: IsClamped(lines[k])
    ensures var h' := AddAll(h, lines);
            && |h'.missed + h'.answered| == |h.missed + h.answered| + |lines|
            && |h'.missed - h'.answered| == |h.missed - h.answered| + MissesIn(lines)
            && forall x | x in h'.visited :: x in h.visited || exists k :: 0 <= k < |lines| && lines[k].number == x
  {
    if lines != [] {
      var front, line := lines[..|lines| - 1], lines[|lines| - 1];
      NewCounts(h, front);
      var h0 := AddAll(h, front);
      assert line.number !in h0.visited;
      if line.status.Miss? {
        MissSizes(h0.missed, h0.answered, line.number);
      } else {
        ReplySizes(h0.missed, h0.answered, line.number);
      }
    }
  }

  lemma {:induction false} NoneAfterMissIff(lines: seq<Line>)
    requires forall k | 0 <= k < |lines| :: IsClamped(lines[k])
    ensures MissesIn(lines) == 0 <==> forall k | 0 <= k < |lines| :: !IsMiss(lines[k])
    ensures AfterMiss(lines) == 0 <==> forall k | 0 <= k < |lines| - 1 :: !IsMiss(lines[k])
    ensures AfterMiss(lines) == 0 ==> RepliesAfterMiss(lines) == 0 && MissesIn(lines) <= 1
  {
    if lines != [] {
      NoneAfterMissIff(lines[..|lines| - 1]);
      assert IsClamped(lines[|lines| - 1]);
    }
  }

  /** For numbers above 32767, each new, the counters stay exact if and only if no line follows a miss. */
  lemma ClampedExactIff(r: Ring, h: History, lines: seq<Line>)
    requires r.Valid() && h.Valid() && Exact(r, h) && r.cur < SLOTS - 1
    requires AllNew(h, lines) && forall k | 0 <= k < |lines| :: IsClamped(lines[k])
    ensures Exact(RunFrom(r, lines), AddAll(h, lines)) <==> forall k | 0 <= k < |lines| - 1 :: !IsMiss(lines[k])
  {
    ClampedCounters(r, lines);
    NewCounts(h, lines);
    NoneAfterMissIff(lines);
  }

  /** For instance a miss of 32768 and replies to 32769 and 32770 leave one number counted and a negative
      drop count, though there were three and one was lost. */
  lemma ClampedExample(x: real, y: real)
    ensures var lines := ExampleLines(x, y);
            && Run(lines).target == 1 && Run(lines).drop == -1
            && |HistoryOf(lines).missed + HistoryOf(lines).answered| == 3
            && |HistoryOf(lines).missed - HistoryOf(lines).answered| == 1
  {
    var lines := ExampleLines(x, y);
    ExampleTally(x, y);
    RunIsRunFrom(lines);
    ClampedCounters(Start(), lines);
    HistoryIsAddAll(lines);
    NewCounts(HistoryOf([]), lines);
  }

  function ExampleLines(x: real, y: real): seq<Line> {
    [Numbered(32768, Miss), Numbered(32769, Reply(x)), Numbered(32770, Reply(y))]
  }

  lemma ExampleTally(x: real, y: real)
    ensures var lines := ExampleLines(x, y);
            MissesIn(lines) == 1 && AfterMiss(lines) == RepliesAfterMiss(lines) == 2
  {
    var lines := ExampleLines(x, y);
    assert lines == lines[..2] + [lines[2]] && lines[..2] == lines[..1] + [lines[1]] && lines[..1] == [] + [lines[0]];
    TallySnoc([], lines[0]);
    TallySnoc(lines[..1], lines[1]);
    TallySnoc(lines[..2], lines[2]);
  }

  lemma {:induction false} HistoryIsAddAll(lines: seq<Line>)
    ensures HistoryOf(lines) == AddAll(HistoryOf([]), lines)
  {
    if lines != [] { HistoryIsAddAll(lines[..|lines| - 1]); }
  }

  lemma TallySnoc(front: seq<Line>, line: Line)
    ensures MissesIn(front + [line]) == MissesIn(front) + if IsMiss(line) then 1 else 0
    ensures AfterMiss(front + [line]) == if MissesIn(front) == 0 then 0 else AfterMiss(front) + 1
    ensures RepliesAfterMiss(front + [line])
            == if MissesIn(front) == 0 then 0
               else RepliesAfterMiss(front) + if line.Numbered? && line.status.Reply? then 1 else 0
  {
    assert (front + [line])[..|front|] == front;
  }

  lemma {:induction false} RunIsRunFrom(lines: seq<Line>)
    ensures Run(lines) == RunFrom(Start(), lines)
  {
    if lines != [] { RunIsRunFrom(lines[..|lines| - 1]); }
  }
}
