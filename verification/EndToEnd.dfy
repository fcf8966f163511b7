/**
 From the client's send loop to the counters on the dashboard.
 */
module EndToEnd {
  import opened SeqWindow
  import opened ServerModel
  import opened ServerRuns
  import opened ClientStreams
  import opened RunTraces
  import opened LossAccounting
  import opened PunctualLogs
  import Clients
  import SendLoops
  import Aggregators
  import Statistics

  // ---------- The sends of one port ----------

  /** Numbered consecutively, modulo 2^32 on the wire, with GUIDs from `table` in ascending epochs, a
      different one in each. */
  ghost predicate PortRun(sends: seq<Clients.Sent>, table: seq<Guid>) {
    && Distinct(table)
    && (forall k | 0 <= k < |sends| ::
          sends[k].index == k && sends[k].seqNum == Wrap(k) && SendLoops.FromTable(sends[k], table))
    && (forall j, k | 0 <= j <= k < |sends| :: sends[j].epoch <= sends[k].epoch)
  }

  /** Whether `sends` are the sends of port `slot` of `p` in the log of the send loop. */
  ghost predicate SendsOfPort(sends: seq<Clients.Sent>, log: seq<Clients.Sent>, p: nat, slot: nat) {
    forall k | 0 <= k < |sends| ::
      SendLoops.SendNumber(p, slot, k) < |log| && sends[k] == log[SendLoops.SendNumber(p, slot, k)]
  }

  /** What `SendLoop` promises of its log makes the sends of each port such a run, while no GUID is
      generated twice. */
  lemma PortRunOfLog(sends: seq<Clients.Sent>, log: seq<Clients.Sent>, slot: nat, inp: SendLoops.Inputs)
    requires inp.Valid() && inp.AllDistinct() && slot < |inp.ports|
    requires SendLoops.Entries(log, inp) && |log| <= |inp.drawn| && SendsOfPort(sends, log, |inp.ports|, slot)
    ensures PortRun(sends, inp.Guids(slot, |sends|))
  {
    PortTableDistinct(sends, log, slot, inp);
    forall k | 0 <= k < |sends|
      ensures sends[k].index == k && sends[k].seqNum == Wrap(k)
              && SendLoops.FromTable(sends[k], inp.Guids(slot, |sends|))
    {
      PortSend(sends, log, slot, inp, k);
    }
    forall j, k | 0 <= j <= k < |sends| ensures sends[j].epoch <= sends[k].epoch {
      PortSendsAscend(sends, log, slot, inp, j, k);
    }
  }

  lemma PortTableDistinct(sends: seq<Clients.Sent>, log: seq<Clients.Sent>, slot: nat, inp: SendLoops.Inputs)
    requires inp.Valid() && inp.AllDistinct() && slot < |inp.ports|
    requires |log| <= |inp.drawn| && SendsOfPort(sends, log, |inp.ports|, slot)
    ensures Distinct(inp.Guids(slot, |sends|))
  {
    if sends != [] { assert SendLoops.SendNumber(|inp.ports|, slot, |sends| - 1) < |log|; }
    SendLoops.PortGuidsDistinct(inp, slot, |sends|);
  }

  lemma PortSendsAscend(sends: seq<Clients.Sent>, log: seq<Clients.Sent>, slot: nat, inp: SendLoops.Inputs,
                        j: nat, k: nat)
    requires inp.Valid() && slot < |inp.ports| && j <= k < |sends|
    requires SendLoops.Entries(log, inp) && SendsOfPort(sends, log, |inp.ports|, slot)
    ensures sends[j].epoch <= sends[k].epoch
  {
    PortSend(sends, log, slot, inp, j);
    PortSend(sends, log, slot, inp, k);
    SendLoops.PortEpochsAscend(inp, slot, j + 1, k + 1);
  }

  lemma PortSend(sends: seq<Clients.Sent>, log: seq<Clients.Sent>, slot: nat, inp: SendLoops.Inputs, k: nat)
    requires inp.Valid() && slot < |inp.ports| && k < |sends|
    requires SendLoops.Entries(log, inp) && SendsOfPort(sends, log, |inp.ports|, slot)
    ensures sends[k].index == k && sends[k].seqNum == Wrap(k) && sends[k].epoch == inp.Epoch(slot, k + 1)
    ensures SendLoops.FromTable(sends[k], inp.Guids(slot, |sends|))
  {
    var p := |inp.ports|;
    var i := SendLoops.SendNumber(p, slot, k);
    SendLoops.SendNumberIs(p, slot, k);
    Clients.DivModUnique(i, p, k, slot);
    assert sends[k] == log[i];
    SendLoops.EntryAt(log, inp, i);
    SendLoops.GuidStays(inp, slot, k + 1, |sends|, sends[k].epoch);
  }

  // ---------- What arrives of them ----------

  /** The pings of the stream are packets of `sends`, unaltered; the stream's GUIDs are those of the
      ascending `epochs`.  Other packets from the port are of runs started at another time. */
  ghost predicate DeliveredFrom(events: seq<Event>, s: Stream, sends: seq<Clients.Sent>, table: seq<Guid>,
                                epochs: seq<nat>)
  {
    && |epochs| == |s.guids|
    && (forall j | 0 <= j < |epochs| :: epochs[j] < |table| && s.guids[j] == table[epochs[j]])
    && (forall j, k | 0 <= j < k < |epochs| :: epochs[j] < epochs[k])
    && (forall i | 0 <= i < |events| && events[i].Ping? ::
          var p := events[i].arrival.packet;
          && p.guid != ""
          && (p.guid in s.guids ==> events[i].source == s.source && IsSend(p, s, sends))
          && (events[i].source == s.source && p.guid !in s.guids ==> p.startTime != s.startTime))
  }

  ghost predicate IsSend(p: Packet, s: Stream, sends: seq<Clients.Sent>) {
    && 0 <= p.index < |sends| && p.startTime == s.startTime
    && p.guid == sends[p.index].guid && p.seqNum == sends[p.index].seqNum
  }

  lemma ClientCarries(events: seq<Event>, s: Stream, sends: seq<Clients.Sent>, table: seq<Guid>, epochs: seq<nat>)
    requires PortRun(sends, table) && DeliveredFrom(events, s, sends, table, epochs)
    ensures Carries(events, s)
  {
    forall i, j | 0 <= i < j < |s.guids| ensures s.guids[i] != s.guids[j] {
      assert epochs[i] < epochs[j];
    }
  }

  lemma {:induction false} ArrivalsAreSends(events: seq<Event>, s: Stream, sends: seq<Clients.Sent>, g: Guid)
    requires g in s.guids
    requires forall i | 0 <= i < |events| && events[i].Ping? && events[i].arrival.packet.guid in s.guids ::
               IsSend(events[i].arrival.packet, s, sends)
    ensures forall i | 0 <= i < |ArrivalsOf(events, g)| ::
              ArrivalsOf(events, g)[i].packet.guid == g && IsSend(ArrivalsOf(events, g)[i].packet, s, sends)
  {
    if events != [] {
      ArrivalsAreSends(events[..|events| - 1], s, sends, g);
    }
  }

  /** What arrives with the GUID of one interval was numbered before what arrives with a later one's. */
  lemma IntervalsAscend(events: seq<Event>, s: Stream, sends: seq<Clients.Sent>, table: seq<Guid>, epochs: seq<nat>,
                        j: nat, k: nat)
    requires PortRun(sends, table) && DeliveredFrom(events, s, sends, table, epochs) && j < k < |s.guids|
    requires ArrivalsOf(events, s.guids[j]) != [] && ArrivalsOf(events, s.guids[k]) != []
    ensures Arrived(events, s.guids[j]).hi < Arrived(events, s.guids[k]).lo
  {
    var x, y := Arrived(events, s.guids[j]).hi, Arrived(events, s.guids[k]).lo;
    RangeOfBounds(IndicesOf(events, s.guids[j]));
    RangeOfBounds(IndicesOf(events, s.guids[k]));
    EpochOfArrival(events, s, sends, table, epochs, j, x);
    EpochOfArrival(events, s, sends, table, epochs, k, y);
    assert epochs[j] < epochs[k];
  }

  lemma EpochOfArrival(events: seq<Event>, s: Stream, sends: seq<Clients.Sent>, table: seq<Guid>, epochs: seq<nat>,
                       j: nat, x: int)
    requires PortRun(sends, table) && DeliveredFrom(events, s, sends, table, epochs) && j < |s.guids|
    requires x in IndicesOf(events, s.guids[j])
    ensures 0 <= x < |sends| && sends[x].epoch == epochs[j]
  {
    var g := s.guids[j];
    ArrivalsAreSends(events, s, sends, g);
    var i :| 0 <= i < |ArrivalsOf(events, g)| && IndicesOf(events, g)[i] == x;
    assert IsSend(ArrivalsOf(events, g)[i].packet, s, sends);
    assert SendLoops.FromTable(sends[x], table);
    assert table[sends[x].epoch] == table[epochs[j]];
  }

  /** Everything within tolerance and window size. */
  ghost predicate Tolerated(events: seq<Event>, s: Stream) {
    && (forall k | 0 <= k < |s.guids| ::
          && ArrivalsOf(events, s.guids[k]) != []
          && Tolerant(IndicesOf(events, s.guids[k]))
          && Arrived(events, s.guids[k]).Span() <= MAX_SPAN)
    && (forall j, k | 0 <= j < k < |s.guids| && k == j + 1 ::
          Arrived(events, s.guids[k]).lo - 1 - Arrived(events, s.guids[j]).lo <= MAX_SPAN)
  }

  /** And at most 9 packets lost between intervals. */
  ghost predicate NearGaps(events: seq<Event>, s: Stream) {
    && Tolerated(events, s)
    && forall j, k | 0 <= j < k < |s.guids| && k == j + 1 ::
         Arrived(events, s.guids[k]).lo <= Arrived(events, s.guids[j]).hi + 10
  }

  /** For the packets a client run really sends from a port, the sum of targetCount - count over its
      records is the number of packets it sent, between the first and the last that arrived, that
      never arrived. */
  lemma ClientLossReported(keepalive: int, events: seq<Event>, s: Stream, sends: seq<Clients.Sent>,
                           table: seq<Guid>, epochs: seq<nat>)
    requires s.guids != [] && PortRun(sends, table) && DeliveredFrom(events, s, sends, table, epochs)
    requires NearGaps(events, s) && FirstArrivalsInOrder(events, s) && RunsApart(keepalive, events, s)
    requires NoneAfterReport(keepalive, events, s) && SuccessorsSettled(keepalive, events, s)
    requires AllReported(keepalive, events, s) && Distinct(Delivered(events, s.guids))
    ensures Accountable(keepalive, events, s)
    ensures var reports, delivered := Reports(Run(keepalive, events).emitted, s.guids), Delivered(events, s.guids);
            && delivered != []
            && TotalTarget(reports) - EmittedCount(reports) == |Missing(delivered)|
            && forall x | x in Missing(delivered) :: 0 <= x < |sends|
  {
    ClientCarries(events, s, sends, table, epochs);
    SendsAreSpaced(events, s, sends, table, epochs);
    ReportedLossIsTrueLoss(keepalive, events, s);
    DeliveredAreSends(events, s, sends, table, epochs);
  }

  lemma SendsAreSpaced(events: seq<Event>, s: Stream, sends: seq<Clients.Sent>, table: seq<Guid>, epochs: seq<nat>)
    requires PortRun(sends, table) && DeliveredFrom(events, s, sends, table, epochs) && Tolerated(events, s)
    ensures Spaced(events, s)
  {
    forall j, k | 0 <= j < k < |s.guids| && k == j + 1
      ensures Arrived(events, s.guids[j]).hi < Arrived(events, s.guids[k]).lo
    {
      IntervalsAscend(events, s, sends, table, epochs, j, k);
    }
  }

  /** The same, with conditions on the log of events alone. */
  lemma PunctualClientLoss(keepalive: int, start: int, events: seq<Event>, s: Stream, sends: seq<Clients.Sent>,
                           table: seq<Guid>, epochs: seq<nat>)
    requires keepalive >= 0 && Forward(start, events)
    requires s.guids != [] && PortRun(sends, table) && DeliveredFrom(events, s, sends, table, epochs)
    requires NearGaps(events, s) && FirstArrivalsInOrder(events, s) && Punctual(keepalive, start, events, s)
    requires Distinct(Delivered(events, s.guids))
    ensures Accountable(keepalive, events, s)
    ensures var reports, delivered := Reports(Run(keepalive, events).emitted, s.guids), Delivered(events, s.guids);
            && delivered != []
            && TotalTarget(reports) - EmittedCount(reports) == |Missing(delivered)|
            && forall x | x in Missing(delivered) :: 0 <= x < |sends|
  {
    ClientCarries(events, s, sends, table, epochs);
    SendsAreSpaced(events, s, sends, table, epochs);
    PunctualLossIsTrueLoss(keepalive, start, events, s);
    DeliveredAreSends(events, s, sends, table, epochs);
  }

  /** And whatever is lost between intervals: the reported loss is the number of packets sent, between the
      first and the last that arrived, that never arrived, less the gaps that the log shows uncounted. */
  lemma ClientLossOnRecord(keepalive: int, start: int, events: seq<Event>, s: Stream, sends: seq<Clients.Sent>,
                           table: seq<Guid>, epochs: seq<nat>)
    requires keepalive >= 0 && Forward(start, events)
    requires s.guids != [] && PortRun(sends, table) && DeliveredFrom(events, s, sends, table, epochs)
    requires Tolerated(events, s) && FirstArrivalsInOrder(events, s) && OnRecord(keepalive, start, events, s)
    requires Distinct(Delivered(events, s.guids))
    ensures Spaced(events, s) && Delivered(events, s.guids) != []
    ensures var reports, delivered := Reports(Run(keepalive, events).emitted, s.guids), Delivered(events, s.guids);
            var loss, ranges := TotalTarget(reports) - EmittedCount(reports), ArrivedRanges(events, s);
            var counted := CountedGaps(keepalive, events, s.guids, ranges);
            && loss == |Missing(delivered)| - Uncounted(ranges, counted, |counted|)
            && (loss == |Missing(delivered)| <==> forall k | 0 <= k < |counted| :: counted[k])
            && forall x | x in Missing(delivered) :: 0 <= x < |sends|
  {
    ClientCarries(events, s, sends, table, epochs);
    SendsAreSpaced(events, s, sends, table, epochs);
    LossOnRecord(keepalive, start, events, s);
    DeliveredAreSends(events, s, sends, table, epochs);
  }

  lemma DeliveredAreSends(events: seq<Event>, s: Stream, sends: seq<Clients.Sent>, table: seq<Guid>, epochs: seq<nat>)
    requires PortRun(sends, table) && DeliveredFrom(events, s, sends, table, epochs)
    requires Delivered(events, s.guids) != []
    ensures forall x | x in Missing(Delivered(events, s.guids)) :: 0 <= x < |sends|
  {
    ClientCarries(events, s, sends, table, epochs);
    DeliveredByGuid(events, s);
    var d := Delivered(events, s.guids);
    RangeOfBounds(d);
    forall x | x in d ensures 0 <= x < |sends| {
      var k :| 0 <= k < |s.guids| && x in IndicesOf(events, s.guids[k]);
      EpochOfArrival(events, s, sends, table, epochs, k, x);
    }
  }

  // ---------- The dashboard ----------

  /** The dots of a host name are printed as underscores. */
  function Underscored(s: string): (r: string)
    ensures |r| == |s| && '.' !in r
    ensures forall i | 0 <= i < |s| :: if s[i] == '.' then r[i] == '_' else r[i] == s[i]
  {
    if s == "" then "" else [if s[0] == '.' then '_' else s[0]] + Underscored(s[1..])
  }

  /** `%d` of an unsigned 32-bit number. */
  function Signed32(n: SeqNum): (r: int)
    ensures -0x8000_0000 <= r < 0x8000_0000 && Wrap(r) == n
  {
    if n < 0x8000_0000 then n else n - MODULUS
  }

  /** The console line of an emission, as the aggregator reads it. */
  function LineOf(e: Emission, toHost: string): Aggregators.Line {
    var r := e.ToRecord();
    Aggregators.Record(Underscored(r.source.peer), toHost, r.summary.count, Signed32(r.targetCount), r.summary.sum)
  }

  function LinesOf(es: seq<Emission>, toHost: string): (lines: seq<Aggregators.Line>)
    ensures |lines| == |es|
  {
    if es == [] then [] else LinesOf(es[..|es| - 1], toHost) + [LineOf(es[|es| - 1], toHost)]
  }

  function LinesRead(agg: seq<Aggregators.Event>): seq<Aggregators.Line> {
    if agg == [] then []
    else
      var e := agg[|agg| - 1];
      LinesRead(agg[..|agg| - 1]) + if e.Read? then [e.line] else []
  }

  function KeyOfPeer(peer: string, toHost: string): string {
    Aggregators.KeyOf(Underscored(peer), toHost)
  }

  predicate HasKey(e: Emission, toHost: string, key: string) {
    KeyOfPeer(e.session.source.peer, toHost) == key
  }

  function DropsFor(es: seq<Emission>, toHost: string, key: string): int {
    if es == [] then 0
    else
      var e := es[|es| - 1];
      DropsFor(es[..|es| - 1], toHost, key) + if HasKey(e, toHost, key) then e.Target() - e.Count() else 0
  }

  ghost predicate Plausible(es: seq<Emission>) {
    forall i | 0 <= i < |es| :: es[i].Target() < 0x8000_0000
  }

  lemma {:induction false} AggregatedDrops(agg: seq<Aggregators.Event>, es: seq<Emission>, toHost: string, key: string)
    requires LinesRead(agg) == LinesOf(es, toHost) && Plausible(es)
    ensures Aggregators.TargetsFor(agg, key) - Aggregators.CountsFor(agg, key) == DropsFor(es, toHost, key)
    decreases |agg|
  {
    if agg == [] {
      assert |es| == 0;
    } else {
      var front, e := agg[..|agg| - 1], agg[|agg| - 1];
      if e.Read? {
        assert |es| == |LinesRead(front) + [e.line]|;
        LastLines(LinesRead(front), e.line, LinesOf(es[..|es| - 1], toHost), LineOf(es[|es| - 1], toHost));
        AggregatedDrops(front, es[..|es| - 1], toHost, key);
        LineFigures(es[|es| - 1], toHost);
      } else {
        assert LinesRead(agg) == LinesRead(front);
        AggregatedDrops(front, es, toHost, key);
      }
    }
  }

  /** The latencies of the packets in the records with this key. */
  function LatenciesFor(es: seq<Emission>, toHost: string, key: string): seq<real> {
    if es == [] then []
    else
      var e := es[|es| - 1];
      LatenciesFor(es[..|es| - 1], toHost, key)
      + if HasKey(e, toHost, key) then Latencies(e.session.arrivals) else []
  }

  lemma LatencyStep(es: seq<Emission>, toHost: string, key: string)
    requires es != []
    ensures var front, e := es[..|es| - 1], es[|es| - 1];
            var before, line := LatenciesFor(front, toHost, key), LineOf(e, toHost);
            && |LatenciesFor(es, toHost, key)| == |before| + (if HasKey(e, toHost, key) then line.count else 0)
            && Statistics.Sum(LatenciesFor(es, toHost, key))
               == Statistics.Sum(before) + if HasKey(e, toHost, key) then line.sum else 0.0
  {
    var front, e := es[..|es| - 1], es[|es| - 1];
    LineFigures(e, toHost);
    Statistics.SumsAdd(LatenciesFor(front, toHost, key), Latencies(e.session.arrivals));
    assert LatenciesFor(front, toHost, key) + [] == LatenciesFor(front, toHost, key);
  }

  /** The aggregated count and sum of a pair of hosts are those of the latencies of its packets. */
  lemma {:induction false} AggregatedLatency(agg: seq<Aggregators.Event>, es: seq<Emission>, toHost: string,
                                             key: string)
    requires LinesRead(agg) == LinesOf(es, toHost)
    ensures Aggregators.CountsFor(agg, key) == |LatenciesFor(es, toHost, key)|
    ensures Aggregators.SumsFor(agg, key) == Statistics.Sum(LatenciesFor(es, toHost, key))
    decreases |agg|
  {
    if agg == [] {
      assert |es| == 0;
    } else {
      var front, e := agg[..|agg| - 1], agg[|agg| - 1];
      if e.Read? {
        assert |es| == |LinesRead(front) + [e.line]|;
        var es', last := es[..|es| - 1], es[|es| - 1];
        LastLines(LinesRead(front), e.line, LinesOf(es', toHost), LineOf(last, toHost));
        AggregatedLatency(front, es', toHost, key);
        LatencyStep(es, toHost, key);
      } else {
        assert LinesRead(agg) == LinesRead(front);
        AggregatedLatency(front, es, toHost, key);
      }
    }
  }

  lemma LastLines<T>(s: seq<T>, x: T, t: seq<T>, y: T)
    requires s + [x] == t + [y]
    ensures s == t && x == y
  {
    assert |s + [x]| == |t + [y]|;
    assert (s + [x])[..|s|] == s && (t + [y])[..|t|] == t;
    assert (s + [x])[|s|] == x && (t + [y])[|t|] == y;
  }

  lemma LineFigures(e: Emission, toHost: string)
    ensures LineOf(e, toHost).Record? && LineOf(e, toHost).count == e.Count()
    ensures LineOf(e, toHost).targetCount == Signed32(e.Target())
    ensures LineOf(e, toHost).sum == Statistics.Sum(Latencies(e.session.arrivals))
  {
    SummaryMeaning(e.session.arrivals);
  }

  // ---------- Losses by client run ----------

  function LossOf(es: seq<Emission>, guids: seq<Guid>): int {
    TotalTarget(Reports(es, guids)) - EmittedCount(Reports(es, guids))
  }

  function LossOfAll(es: seq<Emission>, streams: seq<Stream>): int {
    if streams == [] then 0
    else LossOfAll(es, streams[..|streams| - 1]) + LossOf(es, streams[|streams| - 1].guids)
  }

  /** No two of the runs, of one source or of several, share a GUID. */
  ghost predicate DisjointRuns(streams: seq<Stream>) {
    forall i, j, g | 0 <= i < j < |streams| && g in streams[i].guids :: g !in streams[j].guids
  }

  ghost predicate Covers(streams: seq<Stream>, g: Guid) {
    exists k :: 0 <= k < |streams| && g in streams[k].guids
  }

  lemma LossStep(front: seq<Emission>, e: Emission, guids: seq<Guid>)
    ensures LossOf(front + [e], guids)
            == LossOf(front, guids) + if e.guid in guids then e.Target() - e.Count() else 0
  {
    assert (front + [e])[..|front|] == front;
    var rs := Reports(front, guids);
    assert (rs + [e])[..|rs|] == rs;
    assert rs + [] == rs;
  }

  lemma {:induction false} LossOfAllStep(front: seq<Emission>, e: Emission, streams: seq<Stream>)
    requires DisjointRuns(streams)
    ensures LossOfAll(front + [e], streams)
            == LossOfAll(front, streams) + if Covers(streams, e.guid) then e.Target() - e.Count() else 0
  {
    if streams != [] {
      var rest, last := streams[..|streams| - 1], streams[|streams| - 1];
      LossOfAllStep(front, e, rest);
      LossStep(front, e, last.guids);
      assert streams == rest + [last];
      if e.guid in last.guids {
        assert !Covers(rest, e.guid) && e.guid in streams[|rest|].guids;
      } else {
        CoversRest(rest, last, e.guid);
      }
    }
  }

  lemma CoversRest(rest: seq<Stream>, last: Stream, g: Guid)
    requires g !in last.guids
    ensures Covers(rest + [last], g) <==> Covers(rest, g)
  {
    if Covers(rest, g) {
      var k :| 0 <= k < |rest| && g in rest[k].guids;
      assert g in (rest + [last])[k].guids;
    }
  }

  lemma {:induction false} DropsAreLosses(es: seq<Emission>, streams: seq<Stream>, toHost: string, key: string)
    requires DisjointRuns(streams)
    requires forall i | 0 <= i < |es| :: HasKey(es[i], toHost, key) <==> Covers(streams, es[i].guid)
    ensures DropsFor(es, toHost, key) == LossOfAll(es, streams)
  {
    if es == [] {
      NoLoss(streams);
    } else {
      var front, e := es[..|es| - 1], es[|es| - 1];
      assert es == front + [e];
      DropsAreLosses(front, streams, toHost, key);
      LossOfAllStep(front, e, streams);
    }
  }

  lemma {:induction false} NoLoss(streams: seq<Stream>)
    ensures LossOfAll([], streams) == 0
  {
    if streams != [] { NoLoss(streams[..|streams| - 1]); }
  }

  /** The packets of a run between the first and the last that arrived which never did. */
  function LostOf(events: seq<Event>, guids: seq<Guid>): nat {
    var delivered := Delivered(events, guids);
    if delivered == [] then 0 else |Missing(delivered)|
  }

  function TrulyLost(events: seq<Event>, streams: seq<Stream>): nat {
    if streams == [] then 0
    else TrulyLost(events, streams[..|streams| - 1]) + LostOf(events, streams[|streams| - 1].guids)
  }

  ghost predicate ReportsTrueLoss(es: seq<Emission>, events: seq<Event>, guids: seq<Guid>) {
    LossOf(es, guids) == LostOf(events, guids)
  }

  /** Each run's intervals follow one another and have one record each. */
  ghost predicate AllRecords(es: seq<Emission>, events: seq<Event>, streams: seq<Stream>) {
    forall k | 0 <= k < |streams| :: Spaced(events, streams[k]) && OneEach(es, streams[k].guids)
  }

  /** What the records of all the runs overlook. */
  ghost function OverlookedInAll(es: seq<Emission>, events: seq<Event>, streams: seq<Stream>): int
    requires AllRecords(es, events, streams)
  {
    if streams == [] then 0
    else OverlookedInAll(es, events, streams[..|streams| - 1]) + OverlookedIn(es, events, streams[|streams| - 1])
  }

  lemma {:induction false} LossOfAllIs(es: seq<Emission>, events: seq<Event>, streams: seq<Stream>)
    requires AllRecords(es, events, streams)
    requires forall k | 0 <= k < |streams| ::
               LossOf(es, streams[k].guids) == LostOf(events, streams[k].guids) - OverlookedIn(es, events, streams[k])
    ensures LossOfAll(es, streams) == TrulyLost(events, streams) - OverlookedInAll(es, events, streams)
  {
    if streams != [] {
      var front, last := streams[..|streams| - 1], streams[|streams| - 1];
      LossOfAllIs(es, events, front);
      assert last == streams[|front|];
    }
  }

  lemma {:induction false} LossOfAllIsTrue(es: seq<Emission>, events: seq<Event>, streams: seq<Stream>)
    requires forall k | 0 <= k < |streams| :: ReportsTrueLoss(es, events, streams[k].guids)
    ensures LossOfAll(es, streams) == TrulyLost(events, streams)
  {
    if streams != [] {
      LossOfAllIsTrue(es, events, streams[..|streams| - 1]);
      assert ReportsTrueLoss(es, events, streams[|streams| - 1].guids);
    }
  }

  // ---------- Where records come from ----------

  /** A packet with GUID `g` came from `source`. */
  ghost predicate CameFrom(events: seq<Event>, g: Guid, source: Source) {
    exists i :: 0 <= i < |events| && events[i].Ping? && events[i].source == source && events[i].arrival.packet.guid == g
  }

  ghost predicate OriginsKnown(st: Server, events: seq<Event>) {
    && (forall g | g in st.sessions :: CameFrom(events, g, st.sessions[g].source))
    && (forall i | 0 <= i < |st.emitted| :: CameFrom(events, st.emitted[i].guid, st.emitted[i].session.source))
  }

  lemma CameFromSnoc(front: seq<Event>, e: Event, g: Guid, source: Source)
    ensures CameFrom(front, g, source) ==> CameFrom(front + [e], g, source)
    ensures e.Ping? && e.source == source && e.arrival.packet.guid == g ==> CameFrom(front + [e], g, source)
  {
    if CameFrom(front, g, source) {
      var i :| 0 <= i < |front| && front[i].Ping? && front[i].source == source && front[i].arrival.packet.guid == g;
      assert (front + [e])[i] == front[i];
    }
    assert (front + [e])[|front|] == e;
  }

  lemma BeforeOrigins(st: Server, front: seq<Event>, e: Event)
    requires OriginsKnown(st, front)
    ensures OriginsKnown(Before(st, e), front + [e])
  {
    var p := Before(st, e);
    if e.Ping? { ArriveFrame(st, e.source, e.arrival, e.arrivedAt); }
    forall g | g in p.sessions ensures CameFrom(front + [e], g, p.sessions[g].source) {
      CameFromSnoc(front, e, g, p.sessions[g].source);
    }
    forall i | 0 <= i < |p.emitted| ensures CameFrom(front + [e], p.emitted[i].guid, p.emitted[i].session.source) {
      CameFromSnoc(front, e, p.emitted[i].guid, p.emitted[i].session.source);
    }
  }

  lemma SweepOrigins(p: Server, now: int, events: seq<Event>)
    requires OriginsKnown(p, events)
    ensures OriginsKnown(Sweep(p, now), events)
  {
    SweepExact(p, now);
    var r := Sweep(p, now);
    forall i | 0 <= i < |r.emitted| ensures CameFrom(events, r.emitted[i].guid, r.emitted[i].session.source) {
      EmittedFrom(p, r, now, i);
    }
  }

  /** What a sweep has emitted was emitted before, or was a session. */
  lemma EmittedFrom(p: Server, r: Server, now: int, i: nat)
    requires SweepsExactly(p, p.sessions.Keys, r, now) && i < |r.emitted|
    ensures i < |p.emitted| ==> r.emitted[i] == p.emitted[i]
    ensures i >= |p.emitted| ==>
              r.emitted[i].guid in p.sessions && r.emitted[i].session == p.sessions[r.emitted[i].guid]
  {
    var n := |p.emitted|;
    if i < n {
      assert r.emitted[i] == r.emitted[..n][i];
    } else {
      assert r.emitted[i] == r.emitted[n..][i - n];
    }
  }

  lemma {:induction false} RunOrigins(keepalive: int, events: seq<Event>)
    ensures OriginsKnown(Run(keepalive, events), events)
  {
    if events != [] {
      var front, e := events[..|events| - 1], events[|events| - 1];
      RunOrigins(keepalive, front);
      BeforeOrigins(Run(keepalive, front), front, e);
      FrontAndLast(events);
      SweepOrigins(Before(Run(keepalive, front), e), SweepTime(e), events);
    }
  }

  /** A record bears a GUID and a source with which a packet came, and its figures are those of the latencies
      of packets with that GUID. */
  lemma RecordOrigin(keepalive: int, events: seq<Event>, i: nat)
    requires i < |Run(keepalive, events).emitted|
    ensures var e := Run(keepalive, events).emitted[i];
            var r := e.ToRecord();
            && CameFrom(events, r.guid, r.source)
            && (forall k | 0 <= k < |e.session.arrivals| :: e.session.arrivals[k].packet.guid == r.guid)
            && r.summary == Statistics.FiguresOf(Latencies(e.session.arrivals))
  {
    RunOrigins(keepalive, events);
    RunWellFormed(keepalive, events);
    SummaryMeaning(Run(keepalive, events).emitted[i].session.arrivals);
  }

  /** Each GUID's packets are few enough for no target count to reach 2^31. */
  ghost predicate Moderate(events: seq<Event>) {
    forall g: Guid :: 9 * |ArrivalsOf(events, g)| + 1 < 0x8000_0000
  }

  lemma {:induction false} EmittedPart(es: seq<Emission>, i: nat)
    requires i < |es|
    ensures es[i].Count() <= |EmittedArrivals(es, es[i].guid)|
  {
    if i < |es| - 1 { EmittedPart(es[..|es| - 1], i); }
  }

  lemma ModeratePlausible(keepalive: int, events: seq<Event>)
    requires Moderate(events)
    ensures Plausible(Run(keepalive, events).emitted)
  {
    var es := Run(keepalive, events).emitted;
    RunWellFormed(keepalive, events);
    forall i | 0 <= i < |es| ensures es[i].Target() < 0x8000_0000 {
      RunHistory(keepalive, events, es[i].guid);
      EmittedPart(es, i);
      assert 9 * |ArrivalsOf(events, es[i].guid)| + 1 < 0x8000_0000;
      EmittedTargetBound(es[i]);
    }
  }

  /** The packets from hosts with this key are those of the runs. */
  ghost predicate Keyed(events: seq<Event>, streams: seq<Stream>, toHost: string, key: string) {
    forall i | 0 <= i < |events| && events[i].Ping? ::
      KeyOfPeer(events[i].source.peer, toHost) == key <==> Covers(streams, events[i].arrival.packet.guid)
  }

  lemma DropsAreAllLosses(keepalive: int, events: seq<Event>, streams: seq<Stream>,
                          agg: seq<Aggregators.Event>, toHost: string, key: string)
    requires DisjointRuns(streams) && Keyed(events, streams, toHost, key) && Moderate(events)
    requires LinesRead(agg) == LinesOf(Run(keepalive, events).emitted, toHost)
    ensures var m := Aggregators.Run(agg);
            (if key in m then m[key].dropCount else 0) == LossOfAll(Run(keepalive, events).emitted, streams)
  {
    var es := Run(keepalive, events).emitted;
    Aggregators.CountersAreTotals(agg, key);
    ModeratePlausible(keepalive, events);
    AggregatedDrops(agg, es, toHost, key);
    RunOrigins(keepalive, events);
    DropsAreLosses(es, streams, toHost, key);
  }

  /** When the aggregator has read the server's output, however its own reports fall in between, the
      drop count of a pair of hosts is the number of packets truly lost, over all the client runs on
      all the ports between them, less what the records overlook between intervals. */
  lemma DashboardLoss(keepalive: int, events: seq<Event>, streams: seq<Stream>,
                      agg: seq<Aggregators.Event>, toHost: string, key: string)
    requires DisjointRuns(streams) && Keyed(events, streams, toHost, key) && Moderate(events)
    requires forall k | 0 <= k < |streams| ::
               && streams[k].guids != [] && Traceable(keepalive, events, streams[k])
               && AllReported(keepalive, events, streams[k]) && Distinct(Delivered(events, streams[k].guids))
    requires LinesRead(agg) == LinesOf(Run(keepalive, events).emitted, toHost)
    ensures var m, es := Aggregators.Run(agg), Run(keepalive, events).emitted;
            && AllRecords(es, events, streams)
            && (if key in m then m[key].dropCount else 0)
               == TrulyLost(events, streams) - OverlookedInAll(es, events, streams)
  {
    DropsAreAllLosses(keepalive, events, streams, agg, toHost, key);
    var es := Run(keepalive, events).emitted;
    forall k | 0 <= k < |streams|
      ensures Spaced(events, streams[k]) && OneEach(es, streams[k].guids)
      ensures LossOf(es, streams[k].guids) == LostOf(events, streams[k].guids) - OverlookedIn(es, events, streams[k])
    {
      ReportedLoss(keepalive, events, streams[k]);
    }
    LossOfAllIs(es, events, streams);
  }

  /** So it is the number truly lost if every run is accountable. */
  lemma DashboardShowsTrueLoss(keepalive: int, events: seq<Event>, streams: seq<Stream>,
                               agg: seq<Aggregators.Event>, toHost: string, key: string)
    requires DisjointRuns(streams) && Keyed(events, streams, toHost, key) && Moderate(events)
    requires forall k | 0 <= k < |streams| ::
               Accountable(keepalive, events, streams[k]) && Distinct(Delivered(events, streams[k].guids))
    requires LinesRead(agg) == LinesOf(Run(keepalive, events).emitted, toHost)
    ensures var m := Aggregators.Run(agg);
            (if key in m then m[key].dropCount else 0) == TrulyLost(events, streams)
  {
    DropsAreAllLosses(keepalive, events, streams, agg, toHost, key);
    var es := Run(keepalive, events).emitted;
    forall k | 0 <= k < |streams| ensures ReportsTrueLoss(es, events, streams[k].guids) {
      ReportedLossIsTrueLoss(keepalive, events, streams[k]);
    }
    LossOfAllIsTrue(es, events, streams);
  }
}
