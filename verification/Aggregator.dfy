/**
 The accumulation of emitted records by pair of hosts, in otel/udping_otelsender.go.
 */
module Aggregators {

  /** A line of the server's output, or one whose numbers do not convert. */
  datatype Line = Skipped | Record(fromHost: string, toHost: string, count: int, targetCount: int, sum: real)

  datatype Datapoint = Datapoint(
    fromHost: string, toHost: string, targetCount: int, dropCount: int, rttCount: int, rttSum: real)

  function KeyOf(fromHost: string, toHost: string): string {
    fromHost + "-" + toHost
  }

  function Accumulate(m: map<string, Datapoint>, line: Line): map<string, Datapoint> {
    match line
    case Skipped => m
    case Record(fromHost, toHost, count, targetCount, sum) =>
      var key := KeyOf(fromHost, toHost);
      var d := if key in m then m[key] else Datapoint(fromHost, toHost, 0, 0, 0, 0.0);
      m[key := d.(targetCount := d.targetCount + targetCount, dropCount := d.dropCount + (targetCount - count),
                  rttCount := d.rttCount + count, rttSum := d.rttSum + sum)]
  }

  /** The reporting callback observes every datapoint and restarts its latency window. */
  function Reported(m: map<string, Datapoint>): map<string, Datapoint> {
    map k | k in m :: m[k].(rttSum := 0.0, rttCount := 0)
  }

  datatype Observation = Observation(fromHost: string, toHost: string, rtt: real, dropCount: int, targetCount: int)

  /** What the callback observes for each key. */
  function Observed(m: map<string, Datapoint>): map<string, Observation> {
    map k | k in m :: Observe(m[k])
  }

  function Observe(d: Datapoint): Observation {
    Observation(d.fromHost, d.toHost, if d.rttCount > 0 then d.rttSum / d.rttCount as real else 0.0,
                d.dropCount, d.targetCount)
  }

  datatype Event = Read(line: Line) | Report

  function Run(events: seq<Event>): map<string, Datapoint> {
    if events == [] then map[]
    else
      var m := Run(events[..|events| - 1]);
      match events[|events| - 1]
      case Read(line) => Accumulate(m, line)
      case Report => Reported(m)
  }

  class Aggregator {
    var datapointSummary: map<string, Datapoint>

    constructor ()
      ensures datapointSummary == map[]
    {
      datapointSummary := map[];
    }

    method Read(line: Line)
      modifies this
      ensures datapointSummary == Accumulate(old(datapointSummary), line)
    {
      match line {
        case Skipped =>
        case Record(fromHost, toHost, count, targetCount, sum) =>
          var key := KeyOf(fromHost, toHost);
          if key !in datapointSummary {
            datapointSummary := datapointSummary[key := Datapoint(fromHost, toHost, 0, 0, 0, 0.0)];
          }
          var d := datapointSummary[key];
          d := d.(targetCount := d.targetCount + targetCount);
          d := d.(dropCount := d.dropCount + (targetCount - count));
          d := d.(rttCount := d.rttCount + count);
          d := d.(rttSum := d.rttSum + sum);
          datapointSummary := datapointSummary[key := d];
      }
    }

    method Report() returns (observed: map<string, Observation>)
      modifies this
      ensures datapointSummary == Reported(old(datapointSummary))
      ensures observed == Observed(old(datapointSummary))
    {
      observed := map[];
      var keys := datapointSummary.Keys;
      while keys != {}
        invariant keys <= datapointSummary.Keys == old(datapointSummary).Keys
        invariant observed.Keys == datapointSummary.Keys - keys
        invariant forall k | k in observed :: observed[k] == Observe(old(datapointSummary)[k])
        invariant forall k | k in datapointSummary ::
                    datapointSummary[k] == if k in keys then old(datapointSummary)[k]
                                           else old(datapointSummary)[k].(rttSum := 0.0, rttCount := 0)
        decreases keys
      {
        var k :| k in keys;
        keys := keys - {k};
        var v := datapointSummary[k];
        var rtt := 0.0;
        if v.rttCount > 0 {
          rtt := v.rttSum / v.rttCount as real;
        }
        observed := observed[k := Observation(v.fromHost, v.toHost, rtt, v.dropCount, v.targetCount)];
        datapointSummary := datapointSummary[k := datapointSummary[k].(rttSum := 0.0, rttCount := 0)];
      }
    }
  }

  // ---------- What a datapoint totals ----------

  predicate IsFor(e: Event, key: string) {
    e.Read? && e.line.Record? && KeyOf(e.line.fromHost, e.line.toHost) == key
  }

  function CountsFor(events: seq<Event>, key: string): int {
    if events == [] then 0
    else
      var e := events[|events| - 1];
      CountsFor(events[..|events| - 1], key) + if IsFor(e, key) then e.line.count else 0
  }

  function TargetsFor(events: seq<Event>, key: string): int {
    if events == [] then 0
    else
      var e := events[|events| - 1];
      TargetsFor(events[..|events| - 1], key) + if IsFor(e, key) then e.line.targetCount else 0
  }

  /** However lines and reports interleave, each key's counters are the totals of its lines. */
  lemma {:induction false} CountersAreTotals(events: seq<Event>, key: string)
    ensures var m := Run(events);
            if key in m
            then m[key].targetCount == TargetsFor(events, key)
                 && m[key].targetCount - m[key].dropCount == CountsFor(events, key)
            else TargetsFor(events, key) == 0 && CountsFor(events, key) == 0
  {
    if events != [] {
      CountersAreTotals(events[..|events| - 1], key);
    }
  }

  /** Line `i` is the first of its key. */
  ghost predicate IsFirst(events: seq<Event>, i: int, key: string) {
    0 <= i < |events| && IsFor(events[i], key) && forall j | 0 <= j < i :: !IsFor(events[j], key)
  }

  /** A key's datapoint carries the hosts of its first line. */
  lemma {:induction false} HostsOfFirst(events: seq<Event>, key: string)
    ensures key in Run(events) <==> exists i :: IsFirst(events, i, key)
    ensures forall i | IsFirst(events, i, key) ::
              Run(events)[key].fromHost == events[i].line.fromHost && Run(events)[key].toHost == events[i].line.toHost
  {
    if events != [] {
      var front, n := events[..|events| - 1], |events| - 1;
      HostsOfFirst(front, key);
      forall i | 0 <= i < n ensures IsFirst(events, i, key) <==> IsFirst(front, i, key) {
        assert events[i] == front[i];
      }
      if IsFor(events[n], key) && key !in Run(front) {
        FirstExists(events, n, key);
      } else if key in Run(front) {
        var i :| IsFirst(front, i, key);
        assert IsFirst(events, i, key);
      }
    }
  }

  lemma FirstExists(events: seq<Event>, n: nat, key: string)
    requires n < |events| && IsFor(events[n], key)
    requires forall i | 0 <= i < n :: !IsFirst(events, i, key)
    ensures IsFirst(events, n, key)
  {
    var j := 0;
    while j < n
      invariant 0 <= j <= n && forall i | 0 <= i < j :: !IsFor(events[i], key)
    {
      assert !IsFirst(events, j, key);
      j := j + 1;
    }
  }

  /** A key tells the two hosts while no sending host has a dash in its name. */
  lemma KeyTells(fromHost: string, toHost: string, fromHost': string, toHost': string)
    requires '-' !in fromHost && '-' !in fromHost' && KeyOf(fromHost, toHost) == KeyOf(fromHost', toHost')
    ensures fromHost == fromHost' && toHost == toHost'
  {
    var key := KeyOf(fromHost, toHost);
    assert key[|fromHost|] == '-' && key[|fromHost'|] == '-';
    assert fromHost == key[..|fromHost|] && fromHost' == key[..|fromHost'|];
    assert toHost == key[|fromHost| + 1..] && toHost' == key[|fromHost'| + 1..];
  }

  /** So the figures of a pair of hosts are those of its own lines, and are reported under its own names. */
  lemma FiguresOfPair(events: seq<Event>, fromHost: string, toHost: string)
    requires '-' !in fromHost
    requires forall i | 0 <= i < |events| && events[i].Read? && events[i].line.Record? ::
               '-' !in events[i].line.fromHost
    ensures var m, key := Run(events), KeyOf(fromHost, toHost);
            && (key in m ==> m[key].fromHost == fromHost && m[key].toHost == toHost)
            && forall i | 0 <= i < |events| && events[i].Read? && events[i].line.Record? ::
                 IsFor(events[i], key) <==> events[i].line.fromHost == fromHost && events[i].line.toHost == toHost
  {
    var key := KeyOf(fromHost, toHost);
    forall i | 0 <= i < |events| && IsFor(events[i], key)
      ensures events[i].line.fromHost == fromHost && events[i].line.toHost == toHost
    {
      KeyTells(fromHost, toHost, events[i].line.fromHost, events[i].line.toHost);
    }
    HostsOfFirst(events, key);
  }

  /** With a dash in them two pairs can share a key, and then their figures are added up. */
  lemma KeysClash()
    ensures KeyOf("a-b", "c") == KeyOf("a", "b-c") == "a-b-c"
  {
  }

  function SumsFor(events: seq<Event>, key: string): real {
    if events == [] then 0.0
    else
      var e := events[|events| - 1];
      SumsFor(events[..|events| - 1], key) + if IsFor(e, key) then e.line.sum else 0.0
  }

  /** What came after the last report. */
  function SinceReport(events: seq<Event>): seq<Event> {
    if events == [] || events[|events| - 1].Report? then []
    else SinceReport(events[..|events| - 1]) + [events[|events| - 1]]
  }

  /** At every moment, so at every report, a key's latency window totals the lines since the report before. */
  lemma {:induction false} WindowsAreTotals(events: seq<Event>, key: string)
    ensures var m, since := Run(events), SinceReport(events);
            if key in m
            then m[key].rttCount == CountsFor(since, key) && m[key].rttSum == SumsFor(since, key)
            else CountsFor(since, key) == 0 && SumsFor(since, key) == 0.0
  {
    if events != [] {
      var front, e := events[..|events| - 1], events[|events| - 1];
      WindowsAreTotals(front, key);
      TotalsSnoc(SinceReport(front), e, key);
    }
  }

  lemma TotalsSnoc(events: seq<Event>, e: Event, key: string)
    ensures CountsFor(events + [e], key) == CountsFor(events, key) + if IsFor(e, key) then e.line.count else 0
    ensures SumsFor(events + [e], key) == SumsFor(events, key) + if IsFor(e, key) then e.line.sum else 0.0
  {
    assert (events + [e])[..|events|] == events;
  }

  /** Every report observes the totals of all lines, and the mean latency of those since the report before. */
  lemma ObservedFigures(events: seq<Event>, key: string)
    requires key in Run(events)
    ensures var o, since := Observed(Run(events))[key], SinceReport(events);
            && o.fromHost == Run(events)[key].fromHost && o.toHost == Run(events)[key].toHost
            && o.targetCount == TargetsFor(events, key)
            && o.dropCount == TargetsFor(events, key) - CountsFor(events, key)
            && o.rtt == if CountsFor(since, key) > 0 then SumsFor(since, key) / CountsFor(since, key) as real else 0.0
  {
    CountersAreTotals(events, key);
    WindowsAreTotals(events, key);
  }

  function AllCounts(events: seq<Event>): int {
    if events == [] then 0
    else
      var e := events[|events| - 1];
      AllCounts(events[..|events| - 1]) + if e.Read? && e.line.Record? then e.line.count else 0
  }

  /** targetCount - dropCount, summed over the keys. */
  ghost function Received(m: map<string, Datapoint>): int {
    if m == map[] then 0
    else
      var k :| k in m;
      m[k].targetCount - m[k].dropCount + Received(m - {k})
  }

  lemma {:induction false} ReceivedRemove(m: map<string, Datapoint>, k: string)
    requires k in m
    ensures Received(m) == m[k].targetCount - m[k].dropCount + Received(m - {k})
  {
    var h :| h in m && Received(m) == m[h].targetCount - m[h].dropCount + Received(m - {h});
    if h != k {
      ReceivedRemove(m - {h}, k);
      ReceivedRemove(m - {k}, h);
      assert m - {h} - {k} == m - {k} - {h};
    }
  }

  lemma {:induction false} ReceivedSame(m: map<string, Datapoint>, m': map<string, Datapoint>)
    requires m.Keys == m'.Keys
    requires forall k | k in m :: m[k].targetCount - m[k].dropCount == m'[k].targetCount - m'[k].dropCount
    ensures Received(m) == Received(m')
  {
    if m != map[] {
      var k :| k in m;
      ReceivedRemove(m, k);
      ReceivedRemove(m', k);
      ReceivedSame(m - {k}, m' - {k});
    }
  }

  /** Summed over the keys, targetCount - dropCount is the sum of the counts read. */
  lemma {:induction false} ReceivedConserved(events: seq<Event>)
    ensures Received(Run(events)) == AllCounts(events)
  {
    if events != [] {
      var front, e := events[..|events| - 1], events[|events| - 1];
      ReceivedConserved(front);
      var m := Run(front);
      if e.Report? {
        ReceivedSame(m, Reported(m));
      } else if e.line.Record? {
        var key := KeyOf(e.line.fromHost, e.line.toHost);
        var m' := Accumulate(m, e.line);
        ReceivedRemove(m', key);
        if key in m { ReceivedRemove(m, key); }
        assert m' - {key} == m - {key};
        assert key !in m ==> m - {key} == m;
      }
    }
  }
}
