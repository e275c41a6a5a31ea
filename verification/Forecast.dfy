/**
 The disk-fill forecast: least squares of used bytes over seconds, in exact arithmetic. The sums the
 loop keeps are tied to sums over pairs of samples, from which the forecast's promises follow.
 */
module Forecast {
  import opened Options

  /** Unix seconds, and bytes. */
  datatype Point = Point(at: int, used: nat, total: nat)

  /** 365 days in seconds. */
  const MAX_HORIZON := 365 * 24 * 3600

  // ----- sums -----

  /** Products get a name so that proofs by induction can treat them as plain terms. */
  function Mul(p: real, q: real): real {
    p * q
  }

  function Sum(v: seq<real>): real {
    if v == [] then 0.0 else Sum(v[..|v| - 1]) + v[|v| - 1]
  }

  function Dot(v: seq<real>, w: seq<real>): real
    requires |v| == |w|
  {
    if v == [] then 0.0 else Dot(v[..|v| - 1], w[..|w| - 1]) + Mul(v[|v| - 1], w[|w| - 1])
  }

  /** n·Σxy − Σx·Σy, n² times the covariance. */
  function Cov(x: seq<real>, y: seq<real>): real
    requires |x| == |y|
  {
    Mul(|x| as real, Dot(x, y)) - Mul(Sum(x), Sum(y))
  }

  /** The sum over the samples of (xᵢ − a)(yᵢ − b). */
  function Against(x: seq<real>, y: seq<real>, a: real, b: real): real
    requires |x| == |y|
  {
    if x == [] then 0.0
    else Against(x[..|x| - 1], y[..|y| - 1], a, b) + Mul(x[|x| - 1] - a, y[|y| - 1] - b)
  }

  /** The sum over all pairs i < j of (xᵢ − xⱼ)(yᵢ − yⱼ). */
  function Pairs(x: seq<real>, y: seq<real>): real
    requires |x| == |y|
  {
    if x == [] then 0.0
    else
      var n := |x| - 1;
      Pairs(x[..n], y[..n]) + Against(x[..n], y[..n], x[n], y[n])
  }

  lemma AgainstStep(n: real, d: real, s: real, t: real, a: real, b: real, u: real, v: real)
    ensures d - Mul(b, s) - Mul(a, t) + Mul(n, Mul(a, b)) + Mul(u - a, v - b)
         == d + Mul(u, v) - Mul(b, s + u) - Mul(a, t + v) + Mul(n + 1.0, Mul(a, b))
  {
    assert (u - a) * (v - b) == u * v - u * b - a * v + a * b;
    assert b * (s + u) == b * s + b * u && a * (t + v) == a * t + a * v;
    assert (n + 1.0) * (a * b) == n * (a * b) + a * b;
  }

  lemma {:induction false} AgainstExpands(x: seq<real>, y: seq<real>, a: real, b: real)
    requires |x| == |y|
    ensures Against(x, y, a, b) == Dot(x, y) - Mul(b, Sum(x)) - Mul(a, Sum(y)) + Mul(|x| as real, Mul(a, b))
  {
    if x == [] {
      assert b * 0.0 == 0.0 && a * 0.0 == 0.0 && 0.0 * (a * b) == 0.0;
    } else {
      hide Mul;
      var n := |x| - 1;
      AgainstExpands(x[..n], y[..n], a, b);
      AgainstStep(n as real, Dot(x[..n], y[..n]), Sum(x[..n]), Sum(y[..n]), a, b, x[n], y[n]);
      assert n as real + 1.0 == |x| as real;
    }
  }

  lemma CovStep(n: real, d: real, s: real, t: real, u: real, v: real)
    ensures Mul(n + 1.0, d + Mul(u, v)) - Mul(s + u, t + v)
         == Mul(n, d) - Mul(s, t) + (d - Mul(v, s) - Mul(u, t) + Mul(n, Mul(u, v)))
  {
    assert (n + 1.0) * (d + u * v) == n * d + n * (u * v) + d + u * v;
    assert (s + u) * (t + v) == s * t + s * v + u * t + u * v;
  }

  /** The computed form is the sum over pairs. */
  lemma {:induction false} CovIsPairs(x: seq<real>, y: seq<real>)
    requires |x| == |y|
    ensures Cov(x, y) == Pairs(x, y)
  {
    if x == [] {
      assert 0.0 * 0.0 == 0.0;
    } else {
      hide Mul;
      var n := |x| - 1;
      CovIsPairs(x[..n], y[..n]);
      AgainstExpands(x[..n], y[..n], x[n], y[n]);
      CovStep(n as real, Dot(x[..n], y[..n]), Sum(x[..n]), Sum(y[..n]), x[n], y[n]);
      assert n as real + 1.0 == |x| as real;
    }
  }

  // ----- signs -----

  lemma {:induction false} AgainstSign(x: seq<real>, y: seq<real>, a: real, b: real)
    requires |x| == |y|
    ensures (forall i :: 0 <= i < |x| ==> x[i] <= a && y[i] >= b) ==> Against(x, y, a, b) <= 0.0
    ensures (forall i :: 0 <= i < |x| ==> x[i] <= a && y[i] <= b) ==> Against(x, y, a, b) >= 0.0
  {
    if x != [] {
      var n := |x| - 1;
      hide Mul;
      AgainstSign(x[..n], y[..n], a, b);
      ProductSigns(x[n] - a, y[n] - b);
    }
  }

  lemma ProductSigns(p: real, q: real)
    ensures p <= 0.0 && q >= 0.0 ==> Mul(p, q) <= 0.0
    ensures p <= 0.0 && q <= 0.0 ==> Mul(p, q) >= 0.0
    ensures p < 0.0 && q < 0.0 ==> Mul(p, q) > 0.0
  {
    if p <= 0.0 && q >= 0.0 { assert (-p) * q >= 0.0; }
    if p <= 0.0 && q <= 0.0 { assert (-p) * (-q) >= 0.0; }
    if p < 0.0 && q < 0.0 { assert (-p) * (-q) > 0.0; }
  }

  lemma SquareSign(p: real)
    ensures Mul(p, p) >= 0.0 && (Mul(p, p) == 0.0 <==> p == 0.0)
  {
    if p < 0.0 {
      ProductSigns(p, p);
    } else if p > 0.0 {
      ProductSigns(-p, -p);
      assert (-p) * (-p) == p * p;
    } else {
      assert p * p == 0.0;
    }
  }

  lemma {:induction false} SquaresAgainst(x: seq<real>, a: real)
    ensures Against(x, x, a, a) >= 0.0
    ensures Against(x, x, a, a) == 0.0 <==> forall i :: 0 <= i < |x| ==> x[i] == a
  {
    if x != [] {
      var n := |x| - 1;
      hide Mul;
      SquaresAgainst(x[..n], a);
      SquareSign(x[n] - a);
      assert (forall i :: 0 <= i < |x| ==> x[i] == a) <==> (forall i :: 0 <= i < n ==> x[..n][i] == a) && x[n] == a;
    }
  }

  /** The variance is never negative, and zero exactly when all timestamps coincide. */
  lemma {:induction false} VarianceSign(x: seq<real>)
    ensures Cov(x, x) >= 0.0
    ensures Cov(x, x) == 0.0 <==> forall i, j :: 0 <= i < j < |x| ==> x[i] == x[j]
  {
    CovIsPairs(x, x);
    if x != [] {
      var n := |x| - 1;
      VarianceSign(x[..n]);
      CovIsPairs(x[..n], x[..n]);
      SquaresAgainst(x[..n], x[n]);
      if forall i, j :: 0 <= i < j < n ==> x[..n][i] == x[..n][j] {
        if forall i :: 0 <= i < n ==> x[..n][i] == x[n] {
          assert forall i :: 0 <= i < n ==> x[i] == x[..n][i];
        } else {
          var i :| 0 <= i < n && x[..n][i] != x[n];
          assert x[i] != x[n];
        }
      } else {
        var i, j :| 0 <= i < j < n && x[..n][i] != x[..n][j];
        assert x[i] != x[j];
      }
    }
  }

  ghost predicate Ascending(v: seq<real>) {
    forall i, j :: 0 <= i < j < |v| ==> v[i] <= v[j]
  }

  ghost predicate Descending(v: seq<real>) {
    forall i, j :: 0 <= i < j < |v| ==> v[i] >= v[j]
  }

  /** Over time-ordered samples, usage that never grows has no positive trend, and usage that never
      shrinks no negative one. */
  lemma {:induction false} TrendSign(x: seq<real>, y: seq<real>)
    requires |x| == |y| && Ascending(x)
    ensures Descending(y) ==> Cov(x, y) <= 0.0
    ensures Ascending(y) ==> Cov(x, y) >= 0.0
  {
    CovIsPairs(x, y);
    if x != [] {
      var n := |x| - 1;
      TrendSign(x[..n], y[..n]);
      CovIsPairs(x[..n], y[..n]);
      AgainstSign(x[..n], y[..n], x[n], y[n]);
    }
  }

  /** Usage that never shrinks and at one point has grown since an earlier time has a positive trend. */
  lemma {:induction false} GrowthShows(x: seq<real>, y: seq<real>, i: nat, j: nat)
    requires |x| == |y| && Ascending(x) && Ascending(y)
    requires i < j < |x| && x[i] < x[j] && y[i] < y[j]
    ensures Cov(x, y) > 0.0
    decreases |x|
  {
    hide Cov;
    hide Mul;
    var n := |x| - 1;
    CovIsPairs(x, y);
    CovIsPairs(x[..n], y[..n]);
    TrendSign(x[..n], y[..n]);
    AgainstSign(x[..n], y[..n], x[n], y[n]);
    if j < n {
      GrowthShows(x[..n], y[..n], i, j);
    } else {
      AgainstGrowth(x[..n], y[..n], x[n], y[n], i);
    }
  }

  lemma {:induction false} AgainstGrowth(x: seq<real>, y: seq<real>, a: real, b: real, i: nat)
    requires |x| == |y| && i < |x| && x[i] < a && y[i] < b
    requires forall k :: 0 <= k < |x| ==> x[k] <= a && y[k] <= b
    ensures Against(x, y, a, b) > 0.0
  {
    hide Mul;
    var n := |x| - 1;
    ProductSigns(x[n] - a, y[n] - b);
    if i == n {
      AgainstSign(x[..n], y[..n], a, b);
    } else {
      AgainstGrowth(x[..n], y[..n], a, b, i);
    }
  }

  // ----- invariance and exactness -----

  function Shift(v: seq<real>, origin: real): seq<real> {
    seq(|v|, i requires 0 <= i < |v| => v[i] - origin)
  }

  lemma {:induction false} AgainstShift(x: seq<real>, y: seq<real>, origin: real, a: real, b: real)
    requires |x| == |y|
    ensures Against(Shift(x, origin), y, a - origin, b) == Against(x, y, a, b)
  {
    if x != [] {
      var n := |x| - 1;
      AgainstShift(x[..n], y[..n], origin, a, b);
      assert Shift(x, origin)[..n] == Shift(x[..n], origin);
    }
  }

  /** The choice of the time origin does not matter. */
  lemma {:induction false} OriginIrrelevant(x: seq<real>, y: seq<real>, origin: real)
    requires |x| == |y|
    ensures Cov(Shift(x, origin), y) == Cov(x, y)
  {
    CovIsPairs(x, y);
    CovIsPairs(Shift(x, origin), y);
    PairsShift(x, y, origin);
  }

  lemma {:induction false} PairsShift(x: seq<real>, y: seq<real>, origin: real)
    requires |x| == |y|
    ensures Pairs(Shift(x, origin), y) == Pairs(x, y)
  {
    if x != [] {
      var n := |x| - 1;
      PairsShift(x[..n], y[..n], origin);
      AgainstShift(x[..n], y[..n], origin, x[n], y[n]);
      assert Shift(x, origin)[..n] == Shift(x[..n], origin);
    }
  }

  lemma Distribute(rate: real, p: real, d: real)
    ensures Mul(rate, p) + Mul(d, Mul(rate, d)) == Mul(rate, p + Mul(d, d))
    ensures Mul(rate, 0.0) == 0.0
  {
    assert d * (rate * d) == rate * (d * d);
    assert rate * (p + d * d) == rate * p + rate * (d * d);
    assert rate * 0.0 == 0.0;
  }

  lemma DistributeSum(rate: real, p: real, q: real)
    ensures Mul(rate, p) + Mul(rate, q) == Mul(rate, p + q)
  {
    assert rate * (p + q) == rate * p + rate * q;
  }

  lemma {:induction false} LinearAgainst(x: seq<real>, y: seq<real>, rate: real, a: real, b: real)
    requires |x| == |y| && forall i :: 0 <= i < |x| ==> y[i] - b == Mul(rate, x[i] - a)
    ensures Against(x, y, a, b) == Mul(rate, Against(x, x, a, a))
  {
    hide Mul;
    if x == [] {
      Distribute(rate, 0.0, 0.0);
    } else {
      var n := |x| - 1;
      LinearAgainst(x[..n], y[..n], rate, a, b);
      Distribute(rate, Against(x[..n], x[..n], a, a), x[n] - a);
    }
  }

  /** y grows by `rate` per unit of x, between any two samples. */
  ghost predicate Linear(x: seq<real>, y: seq<real>, rate: real)
    requires |x| == |y|
  {
    forall i, j :: 0 <= i < j < |x| ==> y[i] - y[j] == Mul(rate, x[i] - x[j])
  }

  lemma LinearToLast(x: seq<real>, y: seq<real>, rate: real)
    requires |x| == |y| && x != [] && Linear(x, y, rate)
    ensures var n := |x| - 1;
            && Linear(x[..n], y[..n], rate)
            && forall i :: 0 <= i < n ==> y[..n][i] - y[n] == Mul(rate, x[..n][i] - x[n])
  {
    hide Mul;
  }

  /** Exactly linear growth gives exactly that slope. */
  lemma {:induction false} LinearPairs(x: seq<real>, y: seq<real>, rate: real)
    requires |x| == |y| && Linear(x, y, rate)
    ensures Pairs(x, y) == Mul(rate, Pairs(x, x))
  {
    hide Mul;
    if x == [] {
      Distribute(rate, 0.0, 0.0);
    } else {
      var n := |x| - 1;
      LinearToLast(x, y, rate);
      hide Linear;
      LinearPairs(x[..n], y[..n], rate);
      LinearAgainst(x[..n], y[..n], rate, x[n], y[n]);
      DistributeSum(rate, Pairs(x[..n], x[..n]), Against(x[..n], x[..n], x[n], x[n]));
    }
  }

  // ----- the forecast -----

  function Times(points: seq<Point>): seq<real> {
    seq(|points|, i requires 0 <= i < |points| => points[i].at as real)
  }

  function Usage(points: seq<Point>): seq<real> {
    seq(|points|, i requires 0 <= i < |points| => points[i].used as real)
  }

  function TimeSpread(points: seq<Point>): real {
    Pairs(Times(points), Times(points))
  }

  function Trend(points: seq<Point>): real {
    Pairs(Times(points), Usage(points))
  }

  /** The conditions for a forecast, on the pairwise sums. */
  ghost predicate Fills(points: seq<Point>) {
    && |points| >= 3
    && TimeSpread(points) > 0.0 && Trend(points) > 0.0
    && points[|points| - 1].used < points[|points| - 1].total
  }

  /** The whole second nearest to the remaining bytes over the slope. */
  ghost predicate IsEta(points: seq<Point>, eta: int)
    requires Fills(points)
  {
    var last := points[|points| - 1];
    var exact := (last.total - last.used) as real / (Trend(points) / TimeSpread(points));
    exact - 0.5 < eta as real <= exact + 0.5
  }

  method FillForecast(points: seq<Point>) returns (forecast: Option<int>)
    ensures forecast.Some? ==> Fills(points) && 0 <= forecast.value <= 31_536_000 && IsEta(points, forecast.value)
    ensures forecast.None? && Fills(points) ==> exists eta :: IsEta(points, eta) && eta > 31_536_000
  {
    if |points| < 3 {
      return None;
    }
    var n := |points| as real;
    var sumX, sumY, sumXX, sumXY := Accumulate(points, points[0].at);
    var varX := Mul(n, sumXX) - Mul(sumX, sumX);
    var covXY := Mul(n, sumXY) - Mul(sumX, sumY);
    SumsArePairs(points, points[0].at, varX, covXY);
    if varX <= 0.0 {
      return None;
    }
    var slope := covXY / varX;
    SlopeSign(covXY, varX);
    if slope <= 0.0 {
      return None;
    }
    var latest := points[|points| - 1];
    if latest.used >= latest.total {
      return None;
    }
    var remaining := (latest.total - latest.used) as real;
    var eta := remaining / slope;
    SlopeSign(remaining, slope);
    if eta <= 0.0 {
      return None;
    }
    var etaSeconds := (eta + 0.5).Floor;
    assert IsEta(points, etaSeconds);
    if etaSeconds > MAX_HORIZON {
      return None;
    }
    forecast := Some(etaSeconds);
  }

  /** The four running sums, with times taken from `origin` to keep them small. */
  method Accumulate(points: seq<Point>, origin: int) returns (sumX: real, sumY: real, sumXX: real, sumXY: real)
    ensures var x, y := Shift(Times(points), origin as real), Usage(points);
            sumX == Sum(x) && sumY == Sum(y) && sumXX == Dot(x, x) && sumXY == Dot(x, y)
  {
    hide Mul;
    ghost var x, y := Shift(Times(points), origin as real), Usage(points);
    sumX, sumY, sumXX, sumXY := 0.0, 0.0, 0.0, 0.0;
    for i := 0 to |points|
      invariant sumX == Sum(x[..i]) && sumY == Sum(y[..i])
      invariant sumXX == Dot(x[..i], x[..i]) && sumXY == Dot(x[..i], y[..i])
    {
      var px := (points[i].at - origin) as real;
      var py := points[i].used as real;
      assert x[i] == px && y[i] == py;
      assert x[..i + 1][..i] == x[..i] && y[..i + 1][..i] == y[..i];
      sumX := sumX + px;
      sumY := sumY + py;
      sumXX := sumXX + Mul(px, px);
      sumXY := sumXY + Mul(px, py);
    }
    assert x[..|points|] == x && y[..|points|] == y;
  }

  lemma SumsArePairs(points: seq<Point>, origin: int, v: real, c: real)
    requires var x, y := Shift(Times(points), origin as real), Usage(points);
             v == Cov(x, x) && c == Cov(x, y)
    ensures v == TimeSpread(points) && c == Trend(points)
  {
    var t, y := Times(points), Usage(points);
    OriginIrrelevant(t, y, origin as real);
    CovIsPairs(t, y);
    VarianceShift(t, origin as real);
    CovIsPairs(t, t);
  }

  lemma VarianceShift(x: seq<real>, origin: real)
    ensures Cov(Shift(x, origin), Shift(x, origin)) == Cov(x, x)
  {
    var s := Shift(x, origin);
    OriginIrrelevant(x, s, origin);
    CovSymmetric(x, s);
    OriginIrrelevant(x, x, origin);
  }

  lemma {:induction false} CovSymmetric(x: seq<real>, y: seq<real>)
    requires |x| == |y|
    ensures Cov(x, y) == Cov(y, x)
  {
    DotSymmetric(x, y);
  }

  lemma {:induction false} DotSymmetric(x: seq<real>, y: seq<real>)
    requires |x| == |y|
    ensures Dot(x, y) == Dot(y, x)
  {
    if x != [] {
      DotSymmetric(x[..|x| - 1], y[..|y| - 1]);
    }
  }

  lemma SlopeSign(c: real, v: real)
    requires v > 0.0
    ensures c / v > 0.0 <==> c > 0.0
  {
    var q := c / v;
    assert q * v == c;
    if q <= 0.0 {
      assert (-q) * v >= 0.0;
    } else {
      assert q * v > 0.0;
    }
  }

  ghost predicate InTimeOrder(points: seq<Point>) {
    forall i, j :: 0 <= i < j < |points| ==> points[i].at <= points[j].at
  }

  /** A series that is in time order and never grows is never forecast. */
  lemma NeverGrowingNeverFills(points: seq<Point>)
    requires InTimeOrder(points)
    requires forall i, j :: 0 <= i < j < |points| ==> points[i].used >= points[j].used
    ensures !Fills(points)
  {
    TrendSign(Times(points), Usage(points));
    CovIsPairs(Times(points), Usage(points));
  }

  /** A series that is in time order, never shrinks and has grown always qualifies, unless it is short
      or already full. */
  lemma GrowingFills(points: seq<Point>, i: nat, j: nat)
    requires InTimeOrder(points) && |points| >= 3
    requires forall k, l :: 0 <= k < l < |points| ==> points[k].used <= points[l].used
    requires i < j < |points| && points[i].at < points[j].at && points[i].used < points[j].used
    requires points[|points| - 1].used < points[|points| - 1].total
    ensures Fills(points)
  {
    var x, y := Times(points), Usage(points);
    GrowthShows(x, y, i, j);
    VarianceSign(x);
    CovIsPairs(x, y);
    CovIsPairs(x, x);
    assert x[i] != x[j];
  }

  /** Between any two samples the bytes used grow by `rate` per second. */
  ghost predicate GrowsAt(points: seq<Point>, rate: real) {
    forall i, j :: 0 <= i < j < |points| ==>
                     (points[j].used - points[i].used) as real == rate * (points[j].at - points[i].at) as real
  }

  lemma GrowsLinearly(points: seq<Point>, rate: real)
    requires GrowsAt(points, rate)
    ensures Linear(Times(points), Usage(points), rate)
  {
    var x, y := Times(points), Usage(points);
    assert |x| == |points| && |y| == |points|;
    hide Times;
    hide Usage;
    hide GrowsAt;
    hide Mul;
    forall i, j | 0 <= i < j < |x| ensures y[i] - y[j] == Mul(rate, x[i] - x[j]) {
      LinearAt(points, rate, i, j);
    }
  }

  lemma LinearAt(points: seq<Point>, rate: real, i: nat, j: nat)
    requires GrowsAt(points, rate) && i < j < |points|
    ensures Usage(points)[i] - Usage(points)[j] == Mul(rate, Times(points)[i] - Times(points)[j])
  {
    var p, q := points[i], points[j];
    assert (q.used - p.used) as real == rate * (q.at - p.at) as real;
    hide GrowsAt;
    hide Mul;
    GrowsBetween(p, q, rate);
  }

  lemma GrowsBetween(p: Point, q: Point, rate: real)
    requires (q.used - p.used) as real == rate * (q.at - p.at) as real
    ensures p.used as real - q.used as real == Mul(rate, p.at as real - q.at as real)
  {
    var seconds := (q.at - p.at) as real;
    assert p.at as real - q.at as real == -seconds;
    Negate(rate, seconds);
  }

  lemma Negate(p: real, q: real)
    ensures Mul(p, -q) == -(p * q)
  {}

  /** Exactly linear growth qualifies, unless the series is short, of one moment, or already full. */
  lemma LinearFills(points: seq<Point>, rate: real, i: nat, j: nat)
    requires GrowsAt(points, rate) && rate > 0.0 && |points| >= 3
    requires i < j < |points| && points[i].at != points[j].at
    requires points[|points| - 1].used < points[|points| - 1].total
    ensures Fills(points)
  {
    var x, y := Times(points), Usage(points);
    assert x[i] != x[j];
    GrowsLinearly(points, rate);
    hide *;
    VarianceSign(x);
    CovIsPairs(x, x);
    LinearPairs(x, y, rate);
    PositiveProduct(rate, Pairs(x, x));
    FillsIf(points);
  }

  lemma PositiveProduct(p: real, q: real)
    requires p > 0.0 && q > 0.0
    ensures Mul(p, q) > 0.0
  {
    assert p * q > 0.0;
  }

  lemma FillsIf(points: seq<Point>)
    ensures Fills(points) <==> |points| >= 3 && Pairs(Times(points), Times(points)) > 0.0 &&
                               Pairs(Times(points), Usage(points)) > 0.0 && points[|points| - 1].used < points[|points| - 1].total
  {}

  /** And the estimate is then the remaining bytes over the growth rate, to the nearest second. */
  lemma LinearEta(points: seq<Point>, rate: real, eta: int)
    requires Fills(points) && rate > 0.0 && GrowsAt(points, rate)
    ensures var last := points[|points| - 1];
            var exact := (last.total - last.used) as real / rate;
            IsEta(points, eta) <==> exact - 0.5 < eta as real <= exact + 0.5
  {
    GrowsLinearly(points, rate);
    hide Mul;
    hide Pairs;
    hide GrowsAt;
    LinearPairs(Times(points), Usage(points), rate);
    QuotientOfProduct(rate, TimeSpread(points));
    assert Trend(points) / TimeSpread(points) == rate;
  }

  lemma QuotientOfProduct(p: real, q: real)
    requires q > 0.0
    ensures Mul(p, q) / q == p
  {
    var r := Mul(p, q) / q;
    assert r * q == p * q;
    assert (r - p) * q == 0.0;
  }
}
