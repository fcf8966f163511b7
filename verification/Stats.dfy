/**
 The per-session latency statistics of src/stats.cc, over real numbers instead of doubles.
 */
module Statistics {
  import opened SeqWindow

  /** The greatest finite IEEE 754 double. */
  const DBL_MAX: real :=
    0xFFFFFFFFFFFFF800000000000000000000000000000000000000000000000000_0000000000000000000000000000000000000000000000000000000000000000_0000000000000000000000000000000000000000000000000000000000000000_0000000000000000000000000000000000000000000000000000000000000000
    as real

  function Sum(points: seq<real>): real {
    if points == [] then 0.0 else Sum(points[..|points| - 1]) + points[|points| - 1]
  }

  function SumOfSquares(points: seq<real>): real {
    if points == [] then 0.0
    else SumOfSquares(points[..|points| - 1]) + points[|points| - 1] * points[|points| - 1]
  }

  /** Both are additive, and a single data point counts as itself and as its square. */
  lemma {:induction false} SumsAdd(a: seq<real>, b: seq<real>)
    ensures Sum(a + b) == Sum(a) + Sum(b) && SumOfSquares(a + b) == SumOfSquares(a) + SumOfSquares(b)
    ensures |a| == 1 ==> Sum(a) == a[0] && SumOfSquares(a) == a[0] * a[0]
    decreases |b|
  {
    if b == [] {
      assert a + b == a;
    } else {
      SumsAdd(a, b[..|b| - 1]);
      assert (a + b)[..|a + b| - 1] == a + b[..|b| - 1];
    }
  }

  /** The greatest data point, or the initial -DBL_MAX. */
  function Max(points: seq<real>): real {
    if points == [] then -DBL_MAX
    else
      var m, last := Max(points[..|points| - 1]), points[|points| - 1];
      if m < last then last else m
  }

  lemma {:induction false} MaxBounds(points: seq<real>)
    ensures Max(points) == -DBL_MAX || Max(points) in points
    ensures -DBL_MAX <= Max(points) && forall x | x in points :: x <= Max(points)
  {
    if points != [] {
      var front := points[..|points| - 1];
      MaxBounds(front);
      assert points == front + [points[|front|]];
    }
  }

  /** The four figures a session accumulates. */
  datatype Summary = Summary(count: int, sum: real, sumOfSquares: real, max: real) {
    function Add(x: real): Summary {
      Summary(count + 1, sum + x, sumOfSquares + x * x, if max < x then x else max)
    }

    ghost predicate IsConsistent() {
      Consistent(count, sum, sumOfSquares, max)
    }
  }

  /** The relations every emitted summary satisfies. */
  ghost predicate Consistent(count: int, sum: real, sumOfSquares: real, max: real) {
    && sum * sum <= count as real * sumOfSquares
    && sum <= count as real * max
  }

  /** The figures of a list of data points, each by its own definition. */
  function FiguresOf(points: seq<real>): Summary {
    Summary(|points|, Sum(points), SumOfSquares(points), Max(points))
  }

  lemma FiguresSnoc(front: seq<real>, x: real)
    ensures FiguresOf(front + [x]) == FiguresOf(front).Add(x)
  {
    assert (front + [x])[..|front|] == front;
  }

  const NO_DATA: Summary := Summary(0, 0.0, 0.0, -DBL_MAX)

  lemma PointsConsistent(points: seq<real>)
    ensures Consistent(|points|, Sum(points), SumOfSquares(points), Max(points))
  {
    SumSquaredAtMost(points);
    SumAtMostCountTimesMax(points);
  }

  lemma {:induction false} SumAtMostCountTimesMax(points: seq<real>)
    ensures Sum(points) <= |points| as real * Max(points)
  {
    if points == [] {
      ZeroTimes(Max(points));
    } else {
      var front := points[..|points| - 1];
      SumAtMostCountTimesMax(front);
      AddBounded(|front| as real, Sum(front), Max(front), points[|front|], Max(points));
    }
  }

  lemma ZeroTimes(x: real)
    ensures 0 as real * x == 0.0
  {
  }

  lemma AddBounded(n: real, s: real, m: real, x: real, m': real)
    requires 0.0 <= n && s <= n * m && m <= m' && x <= m'
    ensures s + x <= (n + 1.0) * m'
  {
    assert n * m <= n * m';
    assert (n + 1.0) * m' == n * m' + m';
  }

  /** The Cauchy-Schwarz inequality: the emitted triple can never imply a negative variance. */
  lemma {:induction false} SumSquaredAtMost(points: seq<real>)
    ensures Sum(points) * Sum(points) <= |points| as real * SumOfSquares(points)
    ensures 0.0 <= SumOfSquares(points)
  {
    if points != [] {
      var front, x := points[..|points| - 1], points[|points| - 1];
      assert |points| as real == |front| as real + 1.0;
      assert Sum(points) == Sum(front) + x && SumOfSquares(points) == SumOfSquares(front) + x * x;
      assert front == [] ==> Sum(front) == 0.0 && SumOfSquares(front) == 0.0;
      SumSquaredAtMost(front);
      NextPoint(|front| as real, Sum(front), SumOfSquares(front), x,
                |points| as real, Sum(points), SumOfSquares(points));
    }
  }

  lemma NextPoint(n: real, s: real, q: real, x: real, n': real, s': real, q': real)
    requires 1.0 <= n || (n == 0.0 && s == 0.0 && q == 0.0)
    requires s * s <= n * q && 0.0 <= q
    requires n' == n + 1.0 && s' == s + x && q' == q + x * x
    ensures s' * s' <= n' * q' && 0.0 <= q'
  {
    AddPoint(n, s, q, x);
  }

  lemma AddPoint(n: real, s: real, q: real, x: real)
    requires 1.0 <= n || (n == 0.0 && s == 0.0 && q == 0.0)
    requires s * s <= n * q && 0.0 <= q
    ensures (s + x) * (s + x) <= (n + 1.0) * (q + x * x)
    ensures 0.0 <= q + x * x
  {
    if 1.0 <= n {
      var d := s - n * x;
      var slack := q + n * (x * x) - 2.0 * (s * x);
      assert d * d == s * s + n * (n * (x * x)) - 2.0 * (n * (s * x));
      assert n * slack == n * q + n * (n * (x * x)) - 2.0 * (n * (s * x));
      assert 0.0 <= d * d <= n * slack;
      assert 0.0 <= slack;
    }
  }

  class Stats {
    var targetCount: SeqNum
    var count: int
    var sum: real
    var sumOfSquares: real
    var max: real
    /** The session these statistics belong to. */
    ghost const owner: nat

    function Figures(): Summary
      reads this
    {
      Summary(count, sum, sumOfSquares, max)
    }

    constructor (ghost owner: nat)
      ensures Figures() == NO_DATA && targetCount == 0 && this.owner == owner
    {
      this.owner := owner;
      targetCount := 0;
      count := 0;
      sum := 0.0;
      sumOfSquares := 0.0;
      max := -DBL_MAX;
    }

    method AddDataPoint(datapoint: real) returns (newCount: int)
      modifies this
      ensures Figures() == old(Figures()).Add(datapoint)
      ensures newCount == Figures().count && targetCount == old(targetCount)
    {
      count := count + 1;
      sum := sum + datapoint;
      sumOfSquares := sumOfSquares + datapoint * datapoint;
      if max < datapoint {
        max := datapoint;
      }
      newCount := count;
    }

    method SetTargetCount(n: SeqNum)
      modifies this`targetCount
      ensures targetCount == n
    {
      targetCount := n;
    }
  }
}
