/**
 The wrap-around sequence window of src/serversession.cc.

 A session keeps two 32-bit sequence numbers, `minSeq` and `maxSeq`, and moves one of them when a
 packet arrives at most 9 beyond it, computing distances in unsigned 32-bit arithmetic.  This module
 relates that window to the unbounded range of the sequence numbers the client really used.
 */
module SeqWindow {

  const MODULUS: int := 0x1_0000_0000

  /** `seqnum_t`, an unsigned 32-bit integer. */
  type SeqNum = x: int | 0 <= x < 0x1_0000_0000

  /** Conversion to `seqnum_t`. */
  function Wrap(x: int): SeqNum {
    x % MODULUS
  }

  datatype Window = Window(min: SeqNum, max: SeqNum)

  /** What `recordSeq` does to the window: a distance of 1 to 9 moves the edge. */
  function Record(w: Window, s: SeqNum): Window {
    Window(if 0 < Wrap(w.min - s) < 10 then s else w.min,
           if 0 < Wrap(s - w.max) < 10 then s else w.max)
  }

  /** `1 + maxSeq - minSeq` in 32-bit arithmetic. */
  function TargetCount(w: Window): SeqNum {
    Wrap(1 + w.max - w.min)
  }

  /** The window of a session that has received `ss`, first packet first. */
  function WindowOf(ss: seq<SeqNum>): Window
    requires ss != []
  {
    if |ss| == 1 then Record(Window(ss[0], ss[0]), ss[0])
    else Record(WindowOf(ss[..|ss| - 1]), ss[|ss| - 1])
  }

  // ---------- The unbounded reference ----------

  datatype Range = Range(lo: int, hi: int) {
    ghost predicate Contains(x: int) {
      lo <= x <= hi
    }

    function Span(): int {
      hi - lo
    }

    function Extend(t: int): Range {
      Range(if t < lo then t else lo, if hi < t then t else hi)
    }

    /** `t` is at most 9 outside the range. */
    predicate Near(t: int) {
      lo - 9 <= t <= hi + 9
    }
  }

  /** Least and greatest of the true sequence numbers `ts`. */
  function RangeOf(ts: seq<int>): (r: Range)
    requires ts != []
    ensures r.lo <= r.hi
  {
    if |ts| == 1 then Range(ts[0], ts[0])
    else RangeOf(ts[..|ts| - 1]).Extend(ts[|ts| - 1])
  }

  lemma {:induction false} RangeOfBounds(ts: seq<int>)
    requires ts != []
    ensures RangeOf(ts).lo in ts && RangeOf(ts).hi in ts
    ensures forall t | t in ts :: RangeOf(ts).Contains(t)
  {
    if |ts| > 1 {
      RangeOfBounds(ts[..|ts| - 1]);
      assert ts == ts[..|ts| - 1] + [ts[|ts| - 1]];
    }
  }

  lemma RangeOfIs(ts: seq<int>, r: Range)
    requires r.lo in ts && r.hi in ts && forall t | t in ts :: r.Contains(t)
    ensures RangeOf(ts) == r
  {
    RangeOfBounds(ts);
    assert r.Contains(RangeOf(ts).lo) && r.Contains(RangeOf(ts).hi);
  }

  function Wires(ts: seq<int>): (ss: seq<SeqNum>)
    ensures |ss| == |ts|
    ensures forall k | 0 <= k < |ts| :: ss[k] == Wrap(ts[k])
  {
    seq(|ts|, k requires 0 <= k < |ts| => Wrap(ts[k]))
  }

  /** Every arrival is at most 9 outside the range of those before it. */
  ghost predicate Tolerant(ts: seq<int>) {
    forall k | 0 < k < |ts| :: RangeOf(ts[..k]).Near(ts[k])
  }

  ghost predicate Represents(w: Window, r: Range) {
    w == Window(Wrap(r.lo), Wrap(r.hi))
  }

  const MAX_SPAN: int := MODULUS - 10

  // ---------- Refinement of the unbounded range ----------

  /** One arrival keeps the window exact if and only if it is within 9 of the range. */
  lemma RecordExactIff(w: Window, r: Range, t: int)
    requires r.lo <= r.hi && Represents(w, r)
    requires r.Extend(t).Span() <= MAX_SPAN
    ensures Represents(Record(w, Wrap(t)), r.Extend(t)) <==> r.Near(t)
  {
    WrapDifference(t, r.hi);
    WrapDifference(r.lo, t);
    if t < r.lo {
      assert Wrap(t) != Wrap(r.lo) by { WrapDifference(r.lo, t); }
    }
    if r.hi < t {
      assert Wrap(t) != Wrap(r.hi) by { WrapDifference(t, r.hi); }
    }
  }

  lemma WrapDifference(a: int, b: int)
    ensures Wrap(Wrap(a) - Wrap(b)) == Wrap(a - b)
    ensures 0 <= a - b < MODULUS ==> Wrap(a - b) == a - b
    ensures -MODULUS <= a - b < 0 ==> Wrap(a - b) == a - b + MODULUS
  {
    var k := a / MODULUS - b / MODULUS;
    assert Wrap(a) - Wrap(b) == (a - b) - k * MODULUS;
  }

  lemma PrefixRange(ts: seq<int>, k: nat)
    requires 0 < k <= |ts|
    ensures RangeOf(ts[..k]).Span() <= RangeOf(ts).Span()
  {
    RangeOfBounds(ts);
    RangeOfBounds(ts[..k]);
    assert forall t | t in ts[..k] :: t in ts;
  }

  lemma TolerantPrefix(ts: seq<int>, n: nat)
    requires 0 < n <= |ts| && Tolerant(ts)
    ensures Tolerant(ts[..n])
  {
    forall k | 0 < k < n ensures ts[..n][..k] == ts[..k] {}
  }

  lemma WindowOfSnoc(ts: seq<int>, k: nat)
    requires 0 < k < |ts|
    ensures WindowOf(Wires(ts[..k + 1])) == Record(WindowOf(Wires(ts[..k])), Wrap(ts[k]))
    ensures RangeOf(ts[..k + 1]) == RangeOf(ts[..k]).Extend(ts[k])
  {
    assert Wires(ts[..k + 1])[..k] == Wires(ts[..k]);
    assert ts[..k + 1][..k] == ts[..k];
  }

  /** The window is exact after every arrival if and only if every arrival was within tolerance. */
  lemma {:induction false} WindowExactIff(ts: seq<int>)
    requires ts != [] && RangeOf(ts).Span() <= MAX_SPAN
    ensures Tolerant(ts) <==>
            forall k | 0 < k <= |ts| :: Represents(WindowOf(Wires(ts[..k])), RangeOf(ts[..k]))
  {
    if Tolerant(ts) {
      forall k | 0 < k <= |ts| ensures Represents(WindowOf(Wires(ts[..k])), RangeOf(ts[..k])) {
        ExactPrefix(ts, k);
      }
    }
    if forall k | 0 < k <= |ts| :: Represents(WindowOf(Wires(ts[..k])), RangeOf(ts[..k])) {
      forall k | 0 < k < |ts| ensures RangeOf(ts[..k]).Near(ts[k]) {
        WindowOfSnoc(ts, k);
        PrefixRange(ts, k + 1);
        assert Represents(WindowOf(Wires(ts[..k + 1])), RangeOf(ts[..k + 1]));
        RecordExactIff(WindowOf(Wires(ts[..k])), RangeOf(ts[..k]), ts[k]);
      }
    }
  }

  lemma {:induction false} ExactPrefix(ts: seq<int>, k: nat)
    requires 0 < k <= |ts| && RangeOf(ts).Span() <= MAX_SPAN && Tolerant(ts)
    ensures Represents(WindowOf(Wires(ts[..k])), RangeOf(ts[..k]))
    decreases k
  {
    if k > 1 {
      ExactPrefix(ts, k - 1);
      WindowOfSnoc(ts, k - 1);
      PrefixRange(ts, k);
      RecordExactIff(WindowOf(Wires(ts[..k - 1])), RangeOf(ts[..k - 1]), ts[k - 1]);
    }
  }

  /** The window of a tolerant arrival sequence is the exact range modulo 2^32. */
  lemma WindowExact(ts: seq<int>)
    requires ts != [] && Tolerant(ts) && RangeOf(ts).Span() <= MAX_SPAN
    ensures Represents(WindowOf(Wires(ts)), RangeOf(ts))
  {
    ExactPrefix(ts, |ts|);
    assert ts[..|ts|] == ts;
  }

  /** Two tolerant orders of the same arrivals leave the same window. */
  lemma WindowOrderIndependent(ts: seq<int>, us: seq<int>)
    requires ts != [] && Tolerant(ts) && Tolerant(us) && RangeOf(ts).Span() <= MAX_SPAN
    requires multiset(ts) == multiset(us)
    ensures us != [] && WindowOf(Wires(ts)) == WindowOf(Wires(us))
  {
    SameRange(ts, us);
    WindowExact(ts);
    WindowExact(us);
  }

  lemma SameRange(ts: seq<int>, us: seq<int>)
    requires ts != [] && multiset(ts) == multiset(us)
    ensures us != [] && RangeOf(ts) == RangeOf(us)
  {
    assert ts[0] in multiset(us);
    RangeOfBounds(ts);
    RangeOfBounds(us);
    assert forall t :: t in multiset(ts) <==> t in ts;
    assert forall t :: t in multiset(us) <==> t in us;
  }

  /** What leaves an exact window where it is: a number inside the range, or 10 or more outside. */
  ghost predicate Ignored(r: Range, u: int) {
    r.Contains(u) || !r.Near(u)
  }

  /** One arrival leaves an exact window where it is if and only if it is ignored. */
  lemma StaysIffIgnored(w: Window, r: Range, u: int)
    requires r.lo <= r.hi && Represents(w, r) && r.Extend(u).Span() <= MAX_SPAN
    ensures Record(w, Wrap(u)) == w <==> Ignored(r, u)
  {
    WrapDifference(u, r.hi);
    WrapDifference(r.lo, u);
  }

  /** After a tolerant start, the arrivals `us` leave the window where it is, one and all, if and only
      if each is inside the range of that start or 10 or more outside it.  So 10 or more consecutive
      losses freeze the window for all that follows them. */
  lemma {:induction false} FrozenIff(ts: seq<int>, us: seq<int>)
    requires ts != [] && Tolerant(ts) && RangeOf(ts + us).Span() <= MAX_SPAN
    ensures (forall k | 0 <= k <= |us| :: WindowOf(Wires(ts + us[..k])) == WindowOf(Wires(ts)))
            <==> forall k | 0 <= k < |us| :: Ignored(RangeOf(ts), us[k])
  {
    var w, r := WindowOf(Wires(ts)), RangeOf(ts);
    StartExact(ts, us);
    if forall k | 0 <= k < |us| :: Ignored(r, us[k]) {
      forall k | 0 <= k <= |us| ensures WindowOf(Wires(ts + us[..k])) == w {
        FrozenPrefix(ts, us, k);
      }
    }
    if forall k | 0 <= k <= |us| :: WindowOf(Wires(ts + us[..k])) == w {
      forall k | 0 <= k < |us| ensures Ignored(r, us[k]) {
        AppendedWindow(ts, us, k);
        ExtendWithin(ts, us, k);
        StaysIffIgnored(w, r, us[k]);
        assert WindowOf(Wires(ts + us[..k + 1])) == w && WindowOf(Wires(ts + us[..k])) == w;
      }
    }
  }

  lemma {:induction false} FrozenPrefix(ts: seq<int>, us: seq<int>, k: nat)
    requires ts != [] && Tolerant(ts) && RangeOf(ts + us).Span() <= MAX_SPAN && k <= |us|
    requires forall j | 0 <= j < |us| :: Ignored(RangeOf(ts), us[j])
    ensures WindowOf(Wires(ts + us[..k])) == WindowOf(Wires(ts))
    decreases k
  {
    if k == 0 {
      assert ts + us[..0] == ts;
    } else {
      FrozenPrefix(ts, us, k - 1);
      StartExact(ts, us);
      AppendedWindow(ts, us, k - 1);
      ExtendWithin(ts, us, k - 1);
      StaysIffIgnored(WindowOf(Wires(ts)), RangeOf(ts), us[k - 1]);
    }
  }

  lemma StartExact(ts: seq<int>, us: seq<int>)
    requires ts != [] && Tolerant(ts) && RangeOf(ts + us).Span() <= MAX_SPAN
    ensures Represents(WindowOf(Wires(ts)), RangeOf(ts))
  {
    PrefixRange(ts + us, |ts|);
    assert (ts + us)[..|ts|] == ts;
    WindowExact(ts);
  }

  lemma AppendedWindow(ts: seq<int>, us: seq<int>, k: nat)
    requires ts != [] && k < |us|
    ensures WindowOf(Wires(ts + us[..k + 1])) == Record(WindowOf(Wires(ts + us[..k])), Wrap(us[k]))
  {
    assert ts + us[..k + 1] == (ts + us[..k]) + [us[k]];
    WindowOfAppend(ts + us[..k], us[k]);
  }

  lemma ExtendWithin(ts: seq<int>, us: seq<int>, k: nat)
    requires ts != [] && k < |us|
    ensures RangeOf(ts).Extend(us[k]).Span() <= RangeOf(ts + us).Span()
  {
    var r, all := RangeOf(ts), RangeOf(ts + us);
    RangeOfBounds(ts);
    RangeOfBounds(ts + us);
    assert r.lo in ts + us && r.hi in ts + us && us[k] in ts + us;
    assert all.Contains(r.lo) && all.Contains(r.hi) && all.Contains(us[k]);
  }

  lemma WindowOfAppend(ts: seq<int>, u: int)
    requires ts != []
    ensures WindowOf(Wires(ts + [u])) == Record(WindowOf(Wires(ts)), Wrap(u))
  {
    assert Wires(ts + [u])[..|ts|] == Wires(ts);
  }

  // ---------- What the target count means ----------

  ghost predicate Distinct<T(!new)>(s: seq<T>) {
    forall i, j | 0 <= i < j < |s| :: s[i] != s[j]
  }

  function Interval(lo: int, hi: int): (s: set<int>)
    ensures |s| == if lo <= hi then hi - lo + 1 else 0
    ensures forall x :: x in s <==> lo <= x <= hi
    decreases hi - lo
  {
    if hi < lo then {} else Interval(lo, hi - 1) + {hi}
  }

  /** The sequence numbers between the least and the greatest of `ts` that are not in `ts`. */
  function Missing(ts: seq<int>): set<int>
    requires ts != []
  {
    Interval(RangeOf(ts).lo, RangeOf(ts).hi) - Elements(ts)
  }

  function Elements<T(!new)>(s: seq<T>): (r: set<T>)
    ensures forall x :: x in r <==> x in s
  {
    set x | x in s
  }

  lemma {:induction false} DistinctCardinality<T(!new)>(s: seq<T>)
    requires Distinct(s)
    ensures |Elements(s)| == |s|
  {
    if s != [] {
      var front, last := s[..|s| - 1], s[|s| - 1];
      DistinctCardinality(front);
      assert s == front + [last];
      assert Elements(s) == Elements(front) + {last};
      assert last !in front;
    }
  }

  /** For duplicate-free arrivals within tolerance, targetCount - count counts the losses exactly. */
  lemma TargetCountsMissing(ts: seq<int>)
    requires ts != [] && Tolerant(ts) && Distinct(ts) && RangeOf(ts).Span() <= MAX_SPAN
    ensures TargetCount(WindowOf(Wires(ts))) - |ts| == |Missing(ts)|
  {
    WindowExact(ts);
    TargetOfRange(WindowOf(Wires(ts)), RangeOf(ts));
    MissingCount(ts);
  }

  /** The loss is reported exactly after every arrival if and only if every arrival is within tolerance. */
  lemma {:induction false} LossExactIff(ts: seq<int>)
    requires ts != [] && Distinct(ts) && RangeOf(ts).Span() <= MAX_SPAN
    ensures Tolerant(ts) <==>
            forall k | 0 < k <= |ts| :: TargetCount(WindowOf(Wires(ts[..k]))) - k == |Missing(ts[..k])|
  {
    if Tolerant(ts) {
      forall k | 0 < k <= |ts| ensures TargetCount(WindowOf(Wires(ts[..k]))) - k == |Missing(ts[..k])| {
        TolerantPrefix(ts, k);
        PrefixRange(ts, k);
        TargetCountsMissing(ts[..k]);
      }
    } else {
      var k := FirstIntolerant(ts);
      PrefixRange(ts, k + 1);
      assert ts[..k] + [ts[k]] == ts[..k + 1];
      MissedAt(ts[..k], ts[k]);
      assert TargetCount(WindowOf(Wires(ts[..k + 1]))) - (k + 1) != |Missing(ts[..k + 1])|;
    }
  }

  lemma FirstIntolerant(ts: seq<int>) returns (k: nat)
    requires !Tolerant(ts)
    ensures 0 < k < |ts| && Tolerant(ts[..k]) && !RangeOf(ts[..k]).Near(ts[k])
  {
    k := 1;
    while k < |ts| && RangeOf(ts[..k]).Near(ts[k])
      invariant 0 < k && forall j | 0 < j < k && j < |ts| :: RangeOf(ts[..j]).Near(ts[j])
      decreases |ts| - k
    {
      k := k + 1;
    }
    forall j | 0 < j < k ensures RangeOf(ts[..k][..j]).Near(ts[..k][j]) {
      assert ts[..k][..j] == ts[..j];
    }
  }

  /** At an intolerant arrival the window stays behind while the range grows. */
  lemma MissedAt(ts: seq<int>, u: int)
    requires ts != [] && Distinct(ts + [u]) && Tolerant(ts) && !RangeOf(ts).Near(u)
    requires RangeOf(ts + [u]).Span() <= MAX_SPAN
    ensures TargetCount(WindowOf(Wires(ts + [u]))) - |ts + [u]| < |Missing(ts + [u])|
  {
    UnderCount(ts, [u]);
    assert !RangeOf(ts).Contains([u][0]);
  }

  /** How much is lost from the report when the window is frozen: the whole growth of the range. */
  lemma UnderCount(ts: seq<int>, us: seq<int>)
    requires ts != [] && Tolerant(ts) && Distinct(ts + us) && RangeOf(ts + us).Span() <= MAX_SPAN
    requires forall k | 0 <= k < |us| :: Ignored(RangeOf(ts), us[k])
    ensures TargetCount(WindowOf(Wires(ts + us))) - |ts + us|
            == |Missing(ts + us)| - (RangeOf(ts + us).Span() - RangeOf(ts).Span())
    ensures (exists k :: 0 <= k < |us| && !RangeOf(ts).Contains(us[k]))
            ==> RangeOf(ts + us).Span() - RangeOf(ts).Span() >= 10
  {
    FrozenTarget(ts, us);
    MissingCount(ts + us);
    if k :| 0 <= k < |us| && !RangeOf(ts).Contains(us[k]) {
      ExtendWithin(ts, us, k);
    }
  }

  lemma FrozenTarget(ts: seq<int>, us: seq<int>)
    requires ts != [] && Tolerant(ts) && RangeOf(ts + us).Span() <= MAX_SPAN
    requires forall k | 0 <= k < |us| :: Ignored(RangeOf(ts), us[k])
    ensures TargetCount(WindowOf(Wires(ts + us))) == 1 + RangeOf(ts).Span()
  {
    FrozenPrefix(ts, us, |us|);
    assert us[..|us|] == us;
    StartExact(ts, us);
    PrefixRange(ts + us, |ts|);
    assert (ts + us)[..|ts|] == ts;
    TargetOfRange(WindowOf(Wires(ts)), RangeOf(ts));
  }

  lemma MissingCount(ts: seq<int>)
    requires ts != [] && Distinct(ts)
    ensures |Missing(ts)| == RangeOf(ts).Span() + 1 - |ts|
  {
    DistinctCardinality(ts);
    RangeOfBounds(ts);
    assert Elements(ts) <= Interval(RangeOf(ts).lo, RangeOf(ts).hi);
  }

  lemma TargetOfRange(w: Window, r: Range)
    requires r.lo <= r.hi && r.Span() < MODULUS - 1 && Represents(w, r)
    ensures TargetCount(w) == 1 + r.Span()
  {
    var k := r.hi / MODULUS - r.lo / MODULUS;
    assert 1 + w.max - w.min == 1 + r.Span() - k * MODULUS;
  }

  /** Recording `n - 1` makes the window end just before `n` if and only if at most 9 are missing
      between them, and `n - 1` is not 1 to 9 before the window's start. */
  lemma WindowTilesIff(w: Window, n: SeqNum)
    ensures TargetCount(Record(w, Wrap(n - 1))) == Wrap(n - w.min)
            <==> Wrap(Wrap(n - 1) - w.max) <= 9 && !(0 < Wrap(w.min - Wrap(n - 1)) < 10)
  {
    var r := Record(w, Wrap(n - 1));
    if 0 < Wrap(w.min - Wrap(n - 1)) < 10 {
      PastStart(w, n);
    } else {
      TargetUpTo(w.min, n, r.max);
      assert Wrap(Wrap(n - 1) - w.max) == 0 <==> w.max == Wrap(n - 1);
    }
  }

  lemma WrapBetween(a: SeqNum, b: SeqNum)
    ensures Wrap(a - b) == if b <= a then a - b else a - b + MODULUS
  {
  }

  lemma TargetBetween(lo: SeqNum, hi: SeqNum)
    ensures TargetCount(Window(lo, hi)) == if Wrap(hi - lo) == MODULUS - 1 then 0 else Wrap(hi - lo) + 1
  {
  }

  /** A successor that starts just before the window itself: the start moves, and the count is not tiled. */
  lemma PastStart(w: Window, n: SeqNum)
    requires 0 < Wrap(w.min - Wrap(n - 1)) < 10
    ensures TargetCount(Record(w, Wrap(n - 1))) != Wrap(n - w.min)
  {
    var s, r := Wrap(n - 1), Record(w, Wrap(n - 1));
    WrapBetween(w.min, s);
    WrapBetween(s, w.max);
    WrapBetween(n, w.min);
    WrapBetween(r.max, s);
    TargetBetween(s, r.max);
  }

  lemma TargetUpTo(lo: SeqNum, n: SeqNum, hi: SeqNum)
    ensures TargetCount(Window(lo, hi)) == Wrap(n - lo) <==> hi == Wrap(n - 1)
  {
    if hi == Wrap(n - 1) {
      assert hi == n - 1 || (n == 0 && hi == MODULUS - 1);
    } else {
      assert -MODULUS < 1 + hi - n < MODULUS && 1 + hi != n;
    }
  }

  // ---------- Arbitrary, even garbage, arrivals ----------

  /** One less than the number of sequence numbers on the arc from `min` up to `max`. */
  function Arc(w: Window): SeqNum {
    Wrap(w.max - w.min)
  }

  /** `s` lies on the arc. */
  ghost predicate OnArc(w: Window, s: SeqNum) {
    Wrap(s - w.min) <= Arc(w)
  }

  /** While the arc is short of 2^32-18, an arrival moves at most one edge, keeps every member and
      adds at most 9. */
  lemma RecordGrowth(w: Window, s: SeqNum)
    requires Arc(w) < MODULUS - 18
    ensures Record(w, s).min == w.min || Record(w, s).max == w.max
    ensures Arc(w) <= Arc(Record(w, s)) <= Arc(w) + 9
    ensures forall x: SeqNum | OnArc(w, x) :: OnArc(Record(w, s), x)
  {
    EdgesDiffer(w, s);
    if 0 < Wrap(w.min - s) < 10 {
      ArcShift(w.max, w.min, s, Wrap(w.min - s));
    } else if 0 < Wrap(s - w.max) < 10 {
      ArcShift(s, w.max, w.min, Arc(w));
    }
    forall x: SeqNum | OnArc(w, x) ensures OnArc(Record(w, s), x) {
      if 0 < Wrap(w.min - s) < 10 {
        ArcShift(x, w.min, s, Wrap(w.min - s));
      }
    }
  }

  lemma EdgesDiffer(w: Window, s: SeqNum)
    requires Arc(w) < MODULUS - 18
    ensures !(0 < Wrap(w.min - s) < 10 && 0 < Wrap(s - w.max) < 10)
  {
    var k := (w.min - s) / MODULUS + (s - w.max) / MODULUS;
    assert Wrap(w.min - s) + Wrap(s - w.max) == w.min - w.max - k * MODULUS;
  }

  /** Going from `c` to `a` by way of `b`, `d` being the distance from `c` to `b`. */
  lemma ArcShift(a: SeqNum, b: SeqNum, c: SeqNum, d: int)
    requires d == Wrap(b - c) && Wrap(a - b) + d < MODULUS
    ensures Wrap(a - c) == Wrap(a - b) + d
  {
    var k := (a - b) / MODULUS + (b - c) / MODULUS;
    assert a - c == Wrap(a - b) + d + k * MODULUS;
  }

  lemma {:induction false} WindowGrowth(ss: seq<SeqNum>)
    requires ss != [] && 9 * |ss| < MODULUS - 18
    ensures Arc(WindowOf(ss)) <= 9 * (|ss| - 1)
    ensures OnArc(WindowOf(ss), ss[0])
  {
    if |ss| > 1 {
      WindowGrowth(ss[..|ss| - 1]);
      RecordGrowth(WindowOf(ss[..|ss| - 1]), ss[|ss| - 1]);
    }
  }

  /** Whatever arrives, a reported target count is between 1 and 1 + 9 * count; `last` is the extra
      number recorded when a session with a live successor is swept. */
  lemma TargetCountBound(ss: seq<SeqNum>, last: SeqNum)
    requires ss != [] && 9 * |ss| < MODULUS - 18
    ensures 1 <= TargetCount(WindowOf(ss)) <= 1 + 9 * |ss|
    ensures 1 <= TargetCount(Record(WindowOf(ss), last)) <= 1 + 9 * |ss|
  {
    var w := WindowOf(ss);
    assert Arc(w) <= 9 * (|ss| - 1) by { WindowGrowth(ss); }
    assert Arc(Record(w, last)) <= Arc(w) + 9 by { RecordGrowth(w, last); }
    TargetOfArc(w);
    TargetOfArc(Record(w, last));
  }

  lemma TargetOfArc(w: Window)
    requires Arc(w) < MODULUS - 1
    ensures TargetCount(w) == Arc(w) + 1
  {
  }
}
