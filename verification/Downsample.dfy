/**
 Downsampled metric windows: the window is cut into time buckets and the row with the smallest id of
 each bucket is kept.
 */
module Downsample {

  datatype Row = Row(id: int, node: string, at: int)

  /** Width of a bucket in seconds, never less than 1. */
  function BucketSize(from: int, to: int, maxPoints: int): (b: int)
    ensures b >= 1
  {
    var points := if maxPoints < 1 then 1 else maxPoints;
    var span := to - from;
    if span < 1 then 1
    else if span / points > 1 then span / points
    else 1
  }

  predicate InWindow(r: Row, node: string, from: int, to: int) {
    r.node == node && from <= r.at <= to
  }

  function Bucket(r: Row, from: int, to: int, maxPoints: int): int
    requires from <= r.at
  {
    (r.at - from) / BucketSize(from, to, maxPoints)
  }

  predicate SameBucket(r: Row, s: Row, from: int, to: int, maxPoints: int)
    requires from <= r.at && from <= s.at
  {
    Bucket(r, from, to, maxPoints) == Bucket(s, from, to, maxPoints)
  }

  /** Selected by the query: in the window, and smallest id of its bucket. */
  ghost predicate Kept(rows: set<Row>, node: string, from: int, to: int, maxPoints: int, r: Row) {
    && r in rows && InWindow(r, node, from, to)
    && forall s | s in rows && InWindow(s, node, from, to) && SameBucket(r, s, from, to, maxPoints) :: r.id <= s.id
  }

  predicate Before(r: Row, s: Row) {
    r.at < s.at || (r.at == s.at && r.id < s.id)
  }

  /** The answer to the query: exactly the kept rows, oldest first. */
  ghost predicate IsWindow(rows: set<Row>, node: string, from: int, to: int, maxPoints: int, out: seq<Row>) {
    && (forall r :: r in out <==> Kept(rows, node, from, to, maxPoints, r))
    && (forall i, j :: 0 <= i < j < |out| ==> Before(out[i], out[j]))
  }

  /** Row ids are a primary key. */
  ghost predicate UniqueIds(rows: set<Row>) {
    forall r, s :: r in rows && s in rows && r.id == s.id ==> r == s
  }

  // ----- one row per bucket -----

  lemma MulLe(b: int, x: int, y: int)
    requires b >= 0
    ensures x <= y ==> b * x <= b * y
  {}

  lemma BucketMonotone(d: int, e: int, b: int)
    requires 0 <= d <= e && b >= 1
    ensures d / b <= e / b
    ensures d / b == e / b ==> e - d < b
  {
    assert d == b * (d / b) + d % b && e == b * (e / b) + e % b;
    MulLe(b, e / b + 1, d / b);
  }

  /** Only rows of the node, from within the window. */
  lemma KeptInWindow(rows: set<Row>, node: string, from: int, to: int, maxPoints: int, out: seq<Row>, r: Row)
    requires IsWindow(rows, node, from, to, maxPoints, out) && r in out
    ensures r in rows && r.node == node && from <= r.at <= to
  {}

  /** The rows come from different buckets, in the order of the buckets, strictly later each time. */
  lemma StrictlyLater(rows: set<Row>, node: string, from: int, to: int, maxPoints: int, out: seq<Row>, i: nat, j: nat)
    requires UniqueIds(rows) && IsWindow(rows, node, from, to, maxPoints, out) && i < j < |out|
    ensures from <= out[i].at < out[j].at <= to
    ensures Bucket(out[i], from, to, maxPoints) < Bucket(out[j], from, to, maxPoints)
  {
    var r, s := out[i], out[j];
    assert r in out && s in out && Before(r, s);
    BucketMonotone(r.at - from, s.at - from, BucketSize(from, to, maxPoints));
    assert SameBucket(r, s, from, to, maxPoints) ==> r.id <= s.id && s.id <= r.id;
  }

  lemma {:induction false} SmallestId(rows: set<Row>) returns (r: Row)
    requires rows != {}
    ensures r in rows && forall s :: s in rows ==> r.id <= s.id
    decreases |rows|
  {
    r :| r in rows;
    var rest := rows - {r};
    if rest != {} {
      var m := SmallestId(rest);
      if m.id < r.id {
        r := m;
      }
    }
  }

  /** Every sample of the node in the window is less than one bucket width from a kept one. */
  lemma Covered(rows: set<Row>, node: string, from: int, to: int, maxPoints: int, out: seq<Row>, s: Row)
    requires IsWindow(rows, node, from, to, maxPoints, out)
    requires s in rows && s.node == node && from <= s.at <= to
    ensures exists r | r in out && from <= r.at ::
              && SameBucket(r, s, from, to, maxPoints)
              && -BucketSize(from, to, maxPoints) < r.at - s.at < BucketSize(from, to, maxPoints)
  {
    var same := set x | x in rows && InWindow(x, node, from, to) && SameBucket(x, s, from, to, maxPoints);
    assert s in same;
    var r := SmallestId(same);
    assert Kept(rows, node, from, to, maxPoints, r);
    if r.at <= s.at {
      BucketMonotone(r.at - from, s.at - from, BucketSize(from, to, maxPoints));
    } else {
      BucketMonotone(s.at - from, r.at - from, BucketSize(from, to, maxPoints));
    }
  }

  /** When ids follow time, the kept row is the earliest of its bucket. */
  lemma KeptIsEarliest(rows: set<Row>, node: string, from: int, to: int, maxPoints: int, r: Row, s: Row)
    requires Kept(rows, node, from, to, maxPoints, r) && s in rows && s.node == node && from <= s.at <= to
    requires SameBucket(r, s, from, to, maxPoints)
    requires forall x, y :: x in rows && y in rows && x.at < y.at ==> x.id < y.id
    ensures r.at <= s.at
  {
    assert s.at < r.at ==> s.id < r.id;
  }

  // ----- how many rows -----

  /** The number of buckets of a window, and the most rows a query can return. */
  function Buckets(from: int, to: int, maxPoints: int): int {
    if to < from then 0 else (to - from) / BucketSize(from, to, maxPoints) + 1
  }

  lemma {:induction false} BucketsGrow(rows: set<Row>, node: string, from: int, to: int, maxPoints: int, out: seq<Row>, n: nat)
    requires UniqueIds(rows) && IsWindow(rows, node, from, to, maxPoints, out) && n < |out|
    ensures from <= out[n].at && Bucket(out[n], from, to, maxPoints) >= n
  {
    assert out[n] in out;
    if n > 0 {
      BucketsGrow(rows, node, from, to, maxPoints, out, n - 1);
      StrictlyLater(rows, node, from, to, maxPoints, out, n - 1, n);
    }
  }

  lemma AtMostOnePerBucket(rows: set<Row>, node: string, from: int, to: int, maxPoints: int, out: seq<Row>)
    requires UniqueIds(rows) && IsWindow(rows, node, from, to, maxPoints, out)
    ensures |out| <= Buckets(from, to, maxPoints)
  {
    if out != [] {
      var n := |out| - 1;
      assert out[n] in out;
      BucketsGrow(rows, node, from, to, maxPoints, out, n);
      BucketMonotone(out[n].at - from, to - from, BucketSize(from, to, maxPoints));
    }
  }

  /** span / (span / points), by the remainder of span. */
  lemma QuotientOfQuotient(span: int, points: int)
    requires points >= 1 && span / points >= 1
    ensures span / (span / points) == points + (span % points) / (span / points)
  {
    var q, r := span / points, span % points;
    assert span == q * points + r;
    QuotientUnique(span, q, points + r / q, r % q);
  }

  lemma QuotientUnique(n: int, d: int, q: int, r: int)
    requires d >= 1 && 0 <= r < d && n == d * q + r
    ensures n / d == q
  {
    assert n == d * (n / d) + n % d;
    MulLe(d, n / d + 1, q);
    MulLe(d, q + 1, n / d);
  }

  lemma QuotientHalves(r: int, q: int)
    requires 0 <= r && q >= 2
    ensures 2 * (r / q) <= r
  {
    assert r == q * (r / q) + r % q;
    assert q * (r / q) >= 2 * (r / q);
  }

  /** The windowed query never returns more than twice the requested number of points; asking for less than
      one counts as asking for one. */
  lemma RowBound(rows: set<Row>, node: string, from: int, to: int, maxPoints: int, out: seq<Row>)
    requires UniqueIds(rows) && IsWindow(rows, node, from, to, maxPoints, out)
    ensures |out| <= 2 * if maxPoints >= 1 then maxPoints else 1
  {
    AtMostOnePerBucket(rows, node, from, to, maxPoints, out);
    if maxPoints >= 1 {
      BucketsBound(from, to, maxPoints);
    } else {
      assert BucketSize(from, to, maxPoints) == BucketSize(from, to, 1);
      assert Buckets(from, to, maxPoints) == Buckets(from, to, 1);
      hide Buckets;
      BucketsBound(from, to, 1);
    }
  }

  lemma BucketsBound(from: int, to: int, maxPoints: int)
    requires maxPoints >= 1
    ensures Buckets(from, to, maxPoints) <= 2 * maxPoints
  {
    var span := to - from;
    if span >= 1 {
      var q, r := span / maxPoints, span % maxPoints;
      assert span == q * maxPoints + r;
      if q > 1 {
        QuotientOfQuotient(span, maxPoints);
        QuotientHalves(r, q);
      } else {
        assert q * maxPoints <= maxPoints;
      }
    }
  }

  // ----- the bound is tight, and when the documented one holds -----

  /** One row at the start of each bucket. */
  function FullTable(node: string, from: int, b: int, n: nat): (out: seq<Row>)
    ensures |out| == n && forall i :: 0 <= i < n ==> out[i] == Row(i, node, from + b * i)
  {
    seq(n, i => Row(i, node, from + b * i))
  }

  lemma FullRow(node: string, from: int, to: int, maxPoints: int, i: nat, r: Row)
    requires i < Buckets(from, to, maxPoints) && r == Row(i, node, from + BucketSize(from, to, maxPoints) * i)
    ensures InWindow(r, node, from, to) && Bucket(r, from, to, maxPoints) == i
  {
    hide BucketSize;
    var b := BucketSize(from, to, maxPoints);
    var last := (to - from) / b;
    assert to - from == b * last + (to - from) % b;
    MulLe(b, 0, i);
    MulLe(b, i, last);
    QuotientUnique(b * i, b, i, 0);
  }

  lemma StartsAscend(b: int, i: nat, j: nat)
    requires b >= 1 && i < j
    ensures b * i < b * j
  {}

  lemma FullTableWindow(node: string, from: int, to: int, maxPoints: int)
    ensures exists rows, out :: UniqueIds(rows) && IsWindow(rows, node, from, to, maxPoints, out) && |out| == Buckets(from, to, maxPoints)
  {
    var b := BucketSize(from, to, maxPoints);
    var n: nat := if to < from then 0 else (to - from) / b + 1;
    assert n == Buckets(from, to, maxPoints);
    var out := FullTable(node, from, b, n);
    var rows := set r | r in out;
    forall i | 0 <= i < n ensures InWindow(out[i], node, from, to) && Bucket(out[i], from, to, maxPoints) == i {
      FullRow(node, from, to, maxPoints, i, out[i]);
    }
    hide Bucket;
    hide InWindow;
    hide BucketSize;
    hide Buckets;
    forall i, j | 0 <= i < j < n ensures Before(out[i], out[j]) {
      StartsAscend(b, i, j);
    }
    assert IsWindow(rows, node, from, to, maxPoints, out);
    assert UniqueIds(rows);
  }

  /** Twice the requested number does occur, for every maxPoints. */
  lemma RowBoundTight(node: string, maxPoints: int)
    requires maxPoints >= 1
    ensures exists rows, out :: UniqueIds(rows) && IsWindow(rows, node, 0, 2 * maxPoints - 1, maxPoints, out) && |out| == 2 * maxPoints
  {
    assert (2 * maxPoints - 1) / maxPoints == 1 by {
      QuotientUnique(2 * maxPoints - 1, maxPoints, 1, maxPoints - 1);
    }
    FullTableWindow(node, 0, 2 * maxPoints - 1, maxPoints);
  }

  /** At most maxPoints + 1 rows, as the comment on the query says, whatever the table holds. */
  ghost predicate DocumentedBound(node: string, from: int, to: int, maxPoints: int) {
    forall rows, out :: UniqueIds(rows) && IsWindow(rows, node, from, to, maxPoints, out) ==> |out| <= maxPoints + 1
  }

  /** That holds exactly for windows shorter than maxPoints seconds or whose length leaves a remainder
      smaller than its quotient by maxPoints. */
  lemma DocumentedBoundExactly(node: string, from: int, to: int, maxPoints: int)
    requires maxPoints >= 1 && from <= to
    ensures DocumentedBound(node, from, to, maxPoints) <==>
            to - from < maxPoints || (to - from) % maxPoints < (to - from) / maxPoints
  {
    var span := to - from;
    var q, r := span / maxPoints, span % maxPoints;
    assert span == q * maxPoints + r;
    BucketsExactly(from, to, maxPoints);
    FullTableWindow(node, from, to, maxPoints);
    if Buckets(from, to, maxPoints) <= maxPoints + 1 {
      forall rows, out | UniqueIds(rows) && IsWindow(rows, node, from, to, maxPoints, out) ensures |out| <= maxPoints + 1 {
        AtMostOnePerBucket(rows, node, from, to, maxPoints, out);
      }
    }
  }

  lemma QuotientZero(r: int, q: int)
    requires 0 <= r && q >= 1
    ensures r / q <= 0 <==> r < q
  {
    assert r == q * (r / q) + r % q;
    MulLe(q, 1, r / q);
    MulLe(q, r / q, 0);
  }

  /** The number of buckets of a window of at least a second. */
  lemma BucketCount(from: int, to: int, maxPoints: int)
    requires maxPoints >= 1 && to - from >= 1
    ensures var span, q := to - from, (to - from) / maxPoints;
            Buckets(from, to, maxPoints) == if q > 1 then maxPoints + span % maxPoints / q + 1 else span + 1
  {
    var span, q := to - from, (to - from) / maxPoints;
    if q > 1 {
      QuotientOfQuotient(span, maxPoints);
    }
  }

  lemma BucketsExactly(from: int, to: int, maxPoints: int)
    requires maxPoints >= 1 && from <= to
    ensures Buckets(from, to, maxPoints) <= maxPoints + 1 <==>
            to - from < maxPoints || (to - from) % maxPoints < (to - from) / maxPoints
  {
    var span := to - from;
    var q, r := span / maxPoints, span % maxPoints;
    assert span == q * maxPoints + r;
    if span >= 1 {
      BucketCount(from, to, maxPoints);
    }
    hide Buckets;
    hide BucketSize;
    if q > 1 {
      QuotientZero(r, q);
      MulLe(maxPoints, 1, q);
    } else if q == 1 {
      assert span == maxPoints + r;
    } else {
      MulLe(maxPoints, q, 0);
      assert span <= r;
    }
  }
}
