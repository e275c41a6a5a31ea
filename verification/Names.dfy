/** Go's order on strings, and the election's "smaller non-empty name". */
module Names {

  /** Go's `a < b` on strings. */
  predicate Less(a: string, b: string) {
    b != "" && (a == "" || a[0] < b[0] || (a[0] == b[0] && Less(a[1..], b[1..])))
  }

  /** Dictionary order, by the place where the two part: one has ended, or has the smaller character. */
  ghost predicate Precedes(a: string, b: string) {
    exists k: nat :: PartAt(a, b, k)
  }

  predicate PartAt(a: string, b: string, k: nat) {
    k <= |a| && k < |b| && a[..k] == b[..k] && (k == |a| || a[k] < b[k])
  }

  lemma SameFirst(a: string, b: string, k: nat)
    requires PartAt(a, b, k)
    ensures k > 0 ==> a != "" && a[0] == b[0]
  {
    if k > 0 {
      assert a[..k][0] == a[0] && b[..k][0] == b[0];
    }
  }

  lemma {:induction false} LessExactly(a: string, b: string)
    ensures Less(a, b) <==> Precedes(a, b)
  {
    if b != "" && a != "" && a[0] == b[0] {
      LessExactly(a[1..], b[1..]);
      if k: nat :| PartAt(a[1..], b[1..], k) {
        assert a[..k + 1] == [a[0]] + a[1..][..k] && b[..k + 1] == [b[0]] + b[1..][..k];
        assert PartAt(a, b, k + 1);
      }
      if k: nat :| PartAt(a, b, k) {
        assert k > 0;
        assert a[1..][..k - 1] == a[..k][1..] && b[1..][..k - 1] == b[..k][1..];
        assert PartAt(a[1..], b[1..], k - 1);
      }
    } else if Less(a, b) {
      assert PartAt(a, b, 0);
    } else if k: nat :| PartAt(a, b, k) {
      SameFirst(a, b, k);
    }
  }

  predicate AtMost(a: string, b: string) {
    a == b || Less(a, b)
  }

  /** The smaller of two names, where "" stands for "nobody yet". */
  function MinName(a: string, b: string): string {
    if a == "" then b
    else if b == "" then a
    else if Less(a, b) then a
    else b
  }

  lemma {:induction false} LessTransitive(a: string, b: string, c: string)
    requires Less(a, b) && Less(b, c)
    ensures Less(a, c)
  {
    if a != "" && a[0] == b[0] == c[0] {
      LessTransitive(a[1..], b[1..], c[1..]);
    }
  }

  lemma {:induction false} LessTrichotomy(a: string, b: string)
    ensures a == b || Less(a, b) || Less(b, a)
    ensures !(Less(a, b) && Less(b, a))
    ensures !Less(a, a)
  {
    if a != "" && b != "" && a[0] == b[0] {
      LessTrichotomy(a[1..], b[1..]);
      assert a == [a[0]] + a[1..] && b == [b[0]] + b[1..];
    }
    if a != "" {
      LessTrichotomy(a[1..], a[1..]);
    }
  }

  /** The smallest of two names is one of them, at most both, and never "" when either is named. */
  lemma MinNameIsLeast(a: string, b: string)
    ensures MinName(a, b) == a || MinName(a, b) == b
    ensures MinName(a, b) == "" <==> a == "" && b == ""
    ensures a != "" ==> AtMost(MinName(a, b), a)
    ensures b != "" ==> AtMost(MinName(a, b), b)
    ensures MinName(a, b) == MinName(b, a)
    ensures a != "" && b != "" && Precedes(a, b) ==> MinName(a, b) == a
    ensures a != "" && b != "" && Precedes(b, a) ==> MinName(a, b) == b
  {
    LessTrichotomy(a, b);
    LessExactly(a, b);
    LessExactly(b, a);
  }

  /** Letter by letter, not by length or number. */
  lemma TenPrecedesTwo()
    ensures MinName("node-2", "node-10") == "node-10"
  {
    var a, b := "node-10", "node-2";
    assert a[..5] == b[..5] && PartAt(a, b, 5);
    MinNameIsLeast(a, b);
  }

  lemma AtMostTransitive(a: string, b: string, c: string)
    requires AtMost(a, b) && AtMost(b, c)
    ensures AtMost(a, c)
  {
    if a != b && b != c {
      LessTransitive(a, b, c);
    }
  }

  /** Merging in any order gives the same smallest name. */
  lemma MinNameAssociative(a: string, b: string, c: string)
    ensures MinName(MinName(a, b), c) == MinName(a, MinName(b, c))
  {
    LessTrichotomy(a, b);
    LessTrichotomy(b, c);
    LessTrichotomy(a, c);
    if Less(a, b) && Less(b, c) { LessTransitive(a, b, c); }
    if Less(b, a) && Less(a, c) { LessTransitive(b, a, c); }
    if Less(c, b) && Less(b, a) { LessTransitive(c, b, a); }
    if Less(c, a) && Less(a, b) { LessTransitive(c, a, b); }
    if Less(a, c) && Less(c, b) { LessTransitive(a, c, b); }
    if Less(b, c) && Less(c, a) { LessTransitive(b, c, a); }
  }
}
