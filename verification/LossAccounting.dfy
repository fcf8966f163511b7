/**
 The reported loss and the true loss.

 Summed over the records of a client run, targetCount - count is the number of its packets between the
 first and the last that arrived that never did, less the gaps between intervals that no record counts.
 */
module LossAccounting {
  import opened SeqWindow
  import opened GuidOrder
  import opened ServerModel
  import opened ServerRuns
  import opened ClientStreams
  import opened RunTraces

  // ---------- The target of a record ----------

  /** A report whose successor starts at `next`, at most 9 numbers after its own range, covers exactly
      the numbers from its own first to `next - 1`. */
  lemma LinkedTarget(e: Emission, r: Range, next: int)
    requires r.lo <= r.hi < next <= r.hi + 10 && next - 1 - r.lo <= MAX_SPAN
    requires Represents(e.session.window, r)
    requires e.next.Some? && e.next.value.window.min == Wrap(next)
    ensures e.Target() == next - r.lo
  {
    var t := next - 1;
    WrapPredecessor(next);
    assert e.FinalWindow() == Record(e.session.window, Wrap(t));
    RecordExactIff(e.session.window, r, t);
    TargetOfRange(e.FinalWindow(), r.Extend(t));
  }

  lemma WrapPredecessor(n: int)
    ensures Wrap(Wrap(n) - 1) == Wrap(n - 1)
  {
  }

  // ---------- The accounting ----------

  function ArrivalTotal(events: seq<Event>, guids: seq<Guid>): nat {
    if guids == [] then 0
    else ArrivalTotal(events, guids[..|guids| - 1]) + |ArrivalsOf(events, guids[|guids| - 1])|
  }

  lemma {:induction false} ArrivalTotalStep(pre: seq<Event>, e: Event, guids: seq<Guid>)
    requires Distinct(guids)
    ensures ArrivalTotal(pre + [e], guids)
            == ArrivalTotal(pre, guids) + if e.Ping? && e.arrival.packet.guid in guids then 1 else 0
  {
    if guids != [] {
      var front, last := guids[..|guids| - 1], guids[|guids| - 1];
      ArrivalTotalStep(pre, e, front);
      ArrivalsSnoc(pre, e, last);
      assert guids == front + [last] && last !in front;
    }
  }

  /** What arrived of the stream is what arrived with each of its GUIDs. */
  lemma {:induction false} DeliveredByGuid(events: seq<Event>, s: Stream)
    requires Distinct(s.guids) && forall i | 0 <= i < |events| :: CarriedBy(events[i], s)
    ensures |Delivered(events, s.guids)| == ArrivalTotal(events, s.guids)
    ensures forall x | x in Delivered(events, s.guids) ::
              exists k :: 0 <= k < |s.guids| && x in IndicesOf(events, s.guids[k])
    ensures forall k, x | 0 <= k < |s.guids| && x in IndicesOf(events, s.guids[k]) :: x in Delivered(events, s.guids)
  {
    if events == [] {
      NoArrivals(s.guids);
    } else {
      var front, e := events[..|events| - 1], events[|events| - 1];
      assert events == front + [e];
      DeliveredByGuid(front, s);
      ArrivalTotalStep(front, e, s.guids);
      assert CarriedBy(e, s);
      forall k | 0 <= k < |s.guids|
        ensures IndicesOf(events, s.guids[k])
                == IndicesOf(front, s.guids[k])
                   + if e.Ping? && e.arrival.packet.guid == s.guids[k] then [e.arrival.packet.index] else []
      {
        ArrivalsSnoc(front, e, s.guids[k]);
      }
    }
  }

  lemma {:induction false} NoArrivals(guids: seq<Guid>)
    ensures ArrivalTotal([], guids) == 0
  {
    if guids != [] { NoArrivals(guids[..|guids| - 1]); }
  }

  /** What arrived in each interval. */
  function ArrivedRanges(events: seq<Event>, s: Stream): (rs: seq<Range>)
    requires forall k | 0 <= k < |s.guids| :: ArrivalsOf(events, s.guids[k]) != []
    ensures |rs| == |s.guids| && forall k | 0 <= k < |rs| :: rs[k] == Arrived(events, s.guids[k])
  {
    seq(|s.guids|, k requires 0 <= k < |s.guids| => Arrived(events, s.guids[k]))
  }

  /** Consecutive ranges. */
  ghost predicate Ascending(ranges: seq<Range>) {
    && (forall k | 0 <= k < |ranges| :: 0 <= ranges[k].Span() <= MAX_SPAN)
    && (forall j, k | 0 <= j < k < |ranges| && k == j + 1 ::
          ranges[j].hi < ranges[k].lo && ranges[k].lo - 1 - ranges[j].lo <= MAX_SPAN)
  }

  lemma SpacedAscend(events: seq<Event>, s: Stream)
    requires Spaced(events, s)
    ensures Ascending(ArrivedRanges(events, s))
  {
    forall k | 0 <= k < |s.guids| ensures 0 <= Arrived(events, s.guids[k]).Span() <= MAX_SPAN {
      assert ArrivalsOf(events, s.guids[k]) != [];
    }
  }

  lemma {:induction false} RangesAscend(ranges: seq<Range>, j: nat, k: nat)
    requires Ascending(ranges) && j <= k < |ranges|
    ensures ranges[j].lo <= ranges[k].lo && ranges[j].hi <= ranges[k].hi
    decreases k
  {
    if j < k {
      RangesAscend(ranges, j, k - 1);
      assert 0 <= ranges[k - 1].Span() && 0 <= ranges[k].Span();
      assert ranges[k - 1].hi < ranges[k].lo;
    }
  }

  /** The record `e` of range `k` has an exact window, and if it found a successor that starts the next range. */
  ghost predicate TiedTo(e: Emission, ranges: seq<Range>, k: nat)
    requires k < |ranges|
  {
    && Represents(e.session.window, ranges[k])
    && (e.next.Some? ==> k + 1 < |ranges| && e.next.value.window.min == Wrap(ranges[k + 1].lo))
  }

  /** How many numbers lie between range `k` and the next, and are in neither. */
  function Gap(ranges: seq<Range>, k: nat): int
    requires k + 1 < |ranges|
  {
    ranges[k + 1].lo - ranges[k].hi - 1
  }

  /** Whether the record `e` counts the gap after range `k`: it found its successor, and the gap is at most 9. */
  predicate Bridges(e: Emission, ranges: seq<Range>, k: nat)
    requires k + 1 < |ranges|
  {
    e.next.Some? && Gap(ranges, k) <= 9
  }

  /** The gaps after the first `n` ranges that their records do not count. */
  function Overlooked(rs: seq<Emission>, ranges: seq<Range>, n: nat): int
    requires n <= |rs| == |ranges|
  {
    if n == 0 then 0
    else Overlooked(rs, ranges, n - 1)
         + if n < |ranges| && !Bridges(rs[n - 1], ranges, n - 1) then Gap(ranges, n - 1) else 0
  }

  lemma TiedTarget(e: Emission, ranges: seq<Range>, k: nat)
    requires Ascending(ranges) && k < |ranges| && TiedTo(e, ranges, k)
    ensures e.Target() == (if k + 1 < |ranges| && Bridges(e, ranges, k) then ranges[k + 1].lo else ranges[k].hi + 1)
                          - ranges[k].lo
  {
    var r := ranges[k];
    TargetOfRange(e.session.window, r);
    if e.next.Some? {
      if Bridges(e, ranges, k) {
        LinkedTarget(e, r, ranges[k + 1].lo);
      } else {
        WrapPredecessor(ranges[k + 1].lo);
        StaysIffIgnored(e.session.window, r, ranges[k + 1].lo - 1);
      }
    }
  }

  /** The targets of the records add up to the whole, less the gaps overlooked. */
  lemma {:induction false} TargetsTelescope(rs: seq<Emission>, ranges: seq<Range>, n: nat)
    requires Ascending(ranges) && |rs| == |ranges| && 0 < n <= |rs|
    requires forall k | 0 <= k < |rs| :: TiedTo(rs[k], ranges, k)
    ensures TotalTarget(rs[..n])
            == (if n < |rs| then ranges[n].lo else ranges[n - 1].hi + 1) - ranges[0].lo - Overlooked(rs, ranges, n)
    decreases n
  {
    var front := rs[..n - 1];
    assert rs[..n] == front + [rs[n - 1]];
    if n > 1 {
      TargetsTelescope(rs, ranges, n - 1);
    }
    TiedTarget(rs[n - 1], ranges, n - 1);
  }

  /** Nothing is overlooked exactly if every gap is counted or empty. */
  lemma {:induction false} OverlookedIff(rs: seq<Emission>, ranges: seq<Range>, n: nat)
    requires Ascending(ranges) && n <= |rs| == |ranges|
    ensures Overlooked(rs, ranges, n) >= 0
    ensures Overlooked(rs, ranges, n) == 0
            <==> forall k | 0 <= k < n && k + 1 < |ranges| :: Bridges(rs[k], ranges, k) || Gap(ranges, k) == 0
    decreases n
  {
    if n > 0 {
      OverlookedIff(rs, ranges, n - 1);
      assert n < |ranges| ==> Gap(ranges, n - 1) >= 0;
    }
  }

  lemma {:induction false} CountsTotal(rs: seq<Emission>, events: seq<Event>, guids: seq<Guid>)
    requires |rs| == |guids|
    requires forall k | 0 <= k < |rs| :: rs[k].session.arrivals == ArrivalsOf(events, guids[k])
    ensures EmittedCount(rs) == ArrivalTotal(events, guids)
  {
    if rs != [] { CountsTotal(rs[..|rs| - 1], events, guids[..|guids| - 1]); }
  }

  lemma DeliveredRange(events: seq<Event>, s: Stream)
    requires s.guids != [] && Carries(events, s) && Spaced(events, s)
    ensures Delivered(events, s.guids) != []
    ensures var ranges := ArrivedRanges(events, s);
            RangeOf(Delivered(events, s.guids)) == Range(ranges[0].lo, ranges[|ranges| - 1].hi)
  {
    DeliveredByGuid(events, s);
    SpacedAscend(events, s);
    var d, last := Delivered(events, s.guids), |s.guids| - 1;
    var ranges := ArrivedRanges(events, s);
    RangeOfBounds(IndicesOf(events, s.guids[0]));
    RangeOfBounds(IndicesOf(events, s.guids[last]));
    assert ranges[0].lo in IndicesOf(events, s.guids[0]);
    assert ranges[last].hi in IndicesOf(events, s.guids[last]);
    var r := Range(ranges[0].lo, ranges[last].hi);
    forall x | x in d ensures r.Contains(x) {
      var k :| 0 <= k < |s.guids| && x in IndicesOf(events, s.guids[k]);
      WithinRanges(events, s, k, x);
    }
    RangeOfIs(d, r);
  }

  lemma WithinRanges(events: seq<Event>, s: Stream, k: nat, x: int)
    requires Spaced(events, s) && k < |s.guids| && x in IndicesOf(events, s.guids[k])
    ensures var ranges := ArrivedRanges(events, s); ranges[0].lo <= x <= ranges[|ranges| - 1].hi
  {
    SpacedAscend(events, s);
    RangeOfBounds(IndicesOf(events, s.guids[k]));
    WithinEnds(ArrivedRanges(events, s), k, x);
  }

  lemma WithinEnds(ranges: seq<Range>, k: nat, x: int)
    requires Ascending(ranges) && k < |ranges| && ranges[k].Contains(x)
    ensures ranges[0].lo <= x <= ranges[|ranges| - 1].hi
  {
    RangesAscend(ranges, 0, k);
    RangesAscend(ranges, k, |ranges| - 1);
  }

  ghost predicate OneEach(es: seq<Emission>, guids: seq<Guid>) {
    forall k | 0 <= k < |guids| :: |Reports(es, [guids[k]])| == 1
  }

  /** The records of `guids`, one each, in their order. */
  ghost function RecordsOf(es: seq<Emission>, guids: seq<Guid>): (rs: seq<Emission>)
    requires OneEach(es, guids)
    ensures |rs| == |guids| && forall k | 0 <= k < |rs| :: rs[k] == Reports(es, [guids[k]])[0]
  {
    seq(|guids|, k requires 0 <= k < |guids| => Reports(es, [guids[k]])[0])
  }

  lemma {:induction false} ReportsAdd(es: seq<Emission>, guids: seq<Guid>, g: Guid)
    requires g !in guids
    ensures |Reports(es, guids + [g])| == |Reports(es, guids)| + |Reports(es, [g])|
    ensures TotalTarget(Reports(es, guids + [g])) == TotalTarget(Reports(es, guids)) + TotalTarget(Reports(es, [g]))
    ensures EmittedCount(Reports(es, guids + [g])) == EmittedCount(Reports(es, guids)) + EmittedCount(Reports(es, [g]))
  {
    if es != [] {
      var front, e := es[..|es| - 1], es[|es| - 1];
      ReportsAdd(front, guids, g);
      TotalsSnoc(Reports(front, guids + [g]), e);
      TotalsSnoc(Reports(front, guids), e);
      TotalsSnoc(Reports(front, [g]), e);
    }
  }

  lemma TotalsSnoc(rs: seq<Emission>, e: Emission)
    ensures TotalTarget(rs + [e]) == TotalTarget(rs) + e.Target()
    ensures EmittedCount(rs + [e]) == EmittedCount(rs) + e.Count()
    ensures rs + [] == rs
  {
    assert (rs + [e])[..|rs|] == rs;
  }

  /** The order in which records were emitted does not matter to their totals. */
  lemma {:induction false} ReportsByGuid(es: seq<Emission>, guids: seq<Guid>)
    requires Distinct(guids) && OneEach(es, guids)
    ensures |Reports(es, guids)| == |guids|
    ensures TotalTarget(Reports(es, guids)) == TotalTarget(RecordsOf(es, guids))
    ensures EmittedCount(Reports(es, guids)) == EmittedCount(RecordsOf(es, guids))
  {
    if guids == [] {
      NoneOfNone(es);
    } else {
      var front, g := guids[..|guids| - 1], guids[|guids| - 1];
      assert guids == front + [g];
      ReportsByGuid(es, front);
      ReportsAdd(es, front, g);
      RecordsAdd(es, front, g);
    }
  }

  lemma RecordsAdd(es: seq<Emission>, guids: seq<Guid>, g: Guid)
    requires OneEach(es, guids) && OneEach(es, guids + [g])
    ensures |Reports(es, [g])| == 1
    ensures TotalTarget(RecordsOf(es, guids + [g])) == TotalTarget(RecordsOf(es, guids)) + TotalTarget(Reports(es, [g]))
    ensures EmittedCount(RecordsOf(es, guids + [g]))
            == EmittedCount(RecordsOf(es, guids)) + EmittedCount(Reports(es, [g]))
  {
    assert (guids + [g])[|guids|] == g;
    var one := Reports(es, [g]);
    assert one == [] + [one[0]];
    TotalsSnoc([], one[0]);
    assert RecordsOf(es, guids + [g]) == RecordsOf(es, guids) + [one[0]];
    TotalsSnoc(RecordsOf(es, guids), one[0]);
  }

  lemma {:induction false} NoneOfNone(es: seq<Emission>)
    ensures Reports(es, []) == []
  {
    if es != [] { NoneOfNone(es[..|es| - 1]); }
  }

  /** What the records of a run overlook: the gaps between intervals that no record counts. */
  ghost function OverlookedIn(es: seq<Emission>, events: seq<Event>, s: Stream): int
    requires Spaced(events, s) && OneEach(es, s.guids)
  {
    Overlooked(RecordsOf(es, s.guids), ArrivedRanges(events, s), |s.guids|)
  }

  /** Whether the gap after interval `k` is counted, by the record of that interval, or empty. */
  ghost predicate GapCounted(es: seq<Emission>, events: seq<Event>, s: Stream, k: nat)
    requires Spaced(events, s) && OneEach(es, s.guids) && k + 1 < |s.guids|
  {
    var ranges := ArrivedRanges(events, s);
    Bridges(RecordsOf(es, s.guids)[k], ranges, k) || Gap(ranges, k) == 0
  }

  /** The record of interval `k` is tied to the ranges, and is of all its packets. */
  ghost predicate RecordTied(es: seq<Emission>, events: seq<Event>, s: Stream, k: nat)
    requires Spaced(events, s) && OneEach(es, s.guids) && k < |s.guids|
  {
    var r := RecordsOf(es, s.guids)[k];
    TiedTo(r, ArrivedRanges(events, s), k) && r.session.arrivals == ArrivalsOf(events, s.guids[k])
  }

  /** Tied records report the losses they do not overlook. */
  lemma TiedLoss(es: seq<Emission>, events: seq<Event>, s: Stream)
    requires s.guids != [] && Carries(events, s) && Spaced(events, s) && OneEach(es, s.guids)
    requires forall k | 0 <= k < |s.guids| :: RecordTied(es, events, s, k)
    requires Distinct(Delivered(events, s.guids))
    ensures var reports, delivered := Reports(es, s.guids), Delivered(events, s.guids);
            && |reports| == |s.guids| && delivered != []
            && TotalTarget(reports) - EmittedCount(reports) == |Missing(delivered)| - OverlookedIn(es, events, s)
  {
    ReportsByGuid(es, s.guids);
    RecordedLoss(es, events, s);
    DeliveredLoss(events, s);
  }

  lemma TargetsInAll(rs: seq<Emission>, ranges: seq<Range>)
    requires Ascending(ranges) && |rs| == |ranges| > 0 && forall k | 0 <= k < |rs| :: TiedTo(rs[k], ranges, k)
    ensures TotalTarget(rs) == ranges[|ranges| - 1].hi + 1 - ranges[0].lo - Overlooked(rs, ranges, |rs|)
  {
    TargetsTelescope(rs, ranges, |rs|);
    assert rs[..|rs|] == rs;
  }

  lemma RecordedLoss(es: seq<Emission>, events: seq<Event>, s: Stream)
    requires s.guids != [] && Spaced(events, s) && OneEach(es, s.guids)
    requires forall k | 0 <= k < |s.guids| :: RecordTied(es, events, s, k)
    ensures var rs, ranges := RecordsOf(es, s.guids), ArrivedRanges(events, s);
            TotalTarget(rs) - EmittedCount(rs)
            == ranges[|ranges| - 1].hi + 1 - ranges[0].lo - ArrivalTotal(events, s.guids) - OverlookedIn(es, events, s)
  {
    var rs, ranges := RecordsOf(es, s.guids), ArrivedRanges(events, s);
    forall k | 0 <= k < |rs|
      ensures TiedTo(rs[k], ranges, k) && rs[k].session.arrivals == ArrivalsOf(events, s.guids[k])
    {
      assert RecordTied(es, events, s, k);
    }
    SpacedAscend(events, s);
    TargetsInAll(rs, ranges);
    CountsTotal(rs, events, s.guids);
  }

  lemma DeliveredLoss(events: seq<Event>, s: Stream)
    requires s.guids != [] && Carries(events, s) && Spaced(events, s) && Distinct(Delivered(events, s.guids))
    ensures var ranges := ArrivedRanges(events, s);
            Delivered(events, s.guids) != []
            && |Missing(Delivered(events, s.guids))|
               == ranges[|ranges| - 1].hi + 1 - ranges[0].lo - ArrivalTotal(events, s.guids)
  {
    DeliveredRange(events, s);
    DeliveredByGuid(events, s);
    MissingCount(Delivered(events, s.guids));
  }

  lemma OverlookedInIff(es: seq<Emission>, events: seq<Event>, s: Stream)
    requires Spaced(events, s) && OneEach(es, s.guids)
    ensures OverlookedIn(es, events, s) >= 0
    ensures OverlookedIn(es, events, s) == 0 <==> forall k | 0 <= k < |s.guids| - 1 :: GapCounted(es, events, s, k)
  {
    SpacedAscend(events, s);
    var rs, ranges := RecordsOf(es, s.guids), ArrivedRanges(events, s);
    OverlookedIff(rs, ranges, |rs|);
    forall k | 0 <= k < |s.guids| - 1
      ensures GapCounted(es, events, s, k) <==> Bridges(rs[k], ranges, k) || Gap(ranges, k) == 0
    {
    }
  }

  lemma RecordIsTied(keepalive: int, events: seq<Event>, s: Stream, k: nat)
    requires Carries(events, s) && Spaced(events, s) && OneEach(Run(keepalive, events).emitted, s.guids)
    requires k < |s.guids| && IntervalRecord(keepalive, events, s, k)
    ensures RecordTied(Run(keepalive, events).emitted, events, s, k)
  {
    RunWellFormed(keepalive, events);
    var es := Run(keepalive, events).emitted;
    var r := RecordsOf(es, s.guids)[k];
    assert events[..|events|] == events;
    ReportsAreEmitted(es, [s.guids[k]]);
    assert r in es;
    WindowSoFar(events, s, |events|, k, r.session);
  }

  /** End-to-end loss accounting, whatever is lost between intervals.  Over the records of a client run,
      the sum of targetCount - count is the number of its packets between the first and the last that
      arrived which never did, less the gaps between intervals whose record found no successor or which
      are wider than 9; so it is right if and only if all such gaps are empty. */
  lemma ReportedLoss(keepalive: int, events: seq<Event>, s: Stream)
    requires s.guids != [] && Traceable(keepalive, events, s) && AllReported(keepalive, events, s)
    requires Distinct(Delivered(events, s.guids))
    ensures var es, delivered := Run(keepalive, events).emitted, Delivered(events, s.guids);
            var loss := TotalTarget(Reports(es, s.guids)) - EmittedCount(Reports(es, s.guids));
            && OneEach(es, s.guids) && |Reports(es, s.guids)| == |s.guids| && delivered != []
            && loss == |Missing(delivered)| - OverlookedIn(es, events, s)
            && (loss == |Missing(delivered)| <==> forall k | 0 <= k < |s.guids| - 1 :: GapCounted(es, events, s, k))
  {
    var es := Run(keepalive, events).emitted;
    forall k | 0 <= k < |s.guids| ensures IntervalRecord(keepalive, events, s, k) {
      AllRecorded(keepalive, events, s, k);
    }
    assert OneEach(es, s.guids) by {
      forall k | 0 <= k < |s.guids| ensures |Reports(es, [s.guids[k]])| == 1 {
        assert IntervalRecord(keepalive, events, s, k);
      }
    }
    forall k | 0 <= k < |s.guids| ensures RecordTied(es, events, s, k) {
      RecordIsTied(keepalive, events, s, k);
    }
    TiedLoss(es, events, s);
    OverlookedInIff(es, events, s);
  }

  /** When besides every successor is found and every gap is at most 9, the reported loss is the true loss. */
  lemma ReportedLossIsTrueLoss(keepalive: int, events: seq<Event>, s: Stream)
    requires Accountable(keepalive, events, s)
    requires Distinct(Delivered(events, s.guids))
    ensures var reports := Reports(Run(keepalive, events).emitted, s.guids);
            && |reports| == |s.guids|
            && Delivered(events, s.guids) != []
            && TotalTarget(reports) - EmittedCount(reports) == |Missing(Delivered(events, s.guids))|
  {
    SettledIsTraceable(keepalive, events, s);
    ReportedLoss(keepalive, events, s);
    var es := Run(keepalive, events).emitted;
    forall k | 0 <= k < |s.guids| - 1 ensures GapCounted(es, events, s, k) {
      AllRecorded(keepalive, events, s, k);
      var r := RecordsOf(es, s.guids)[k];
      var n :| 0 <= n < |events| && EmittedAt(r, keepalive, events, s, k, n);
      SuccessorSettledAt(keepalive, events, s, n, k, k + 1);
    }
  }
}
