/** Decimal numbers and separator-joined strings, as strconv and strings provide them. */
module Text {
  import opened Options

  // ----- decimals -----

  const DIGITS := "0123456789"

  predicate IsDigit(c: char) {
    '0' <= c <= '9'
  }

  function Digits(n: nat): (s: string)
    ensures s != "" && forall c :: c in s ==> IsDigit(c)
  {
    if n < 10 then [DIGITS[n]] else Digits(n / 10) + [DIGITS[n % 10]]
  }

  function Itoa(n: int): (s: string)
    ensures s != "" && forall c :: c in s ==> IsDigit(c) || c == '-'
  {
    if n < 0 then "-" + Digits(-n) else Digits(n)
  }

  /** The number written by a non-empty string of digits. */
  function ParseDigits(s: string): Option<nat> {
    if s == "" || !IsDigit(s[|s| - 1]) then None
    else
      var last := (s[|s| - 1] - '0') as nat;
      if |s| == 1 then Some(last)
      else match ParseDigits(s[..|s| - 1])
           case None => None
           case Some(front) => Some(10 * front + last)
  }

  predicate InInt64(n: int) {
    -0x8000_0000_0000_0000 <= n <= 0x7fff_ffff_ffff_ffff
  }

  /** Base ten with an optional sign; anything else, and anything out of range, is an error. */
  function Atoi(s: string): Option<int> {
    var signed := s != "" && (s[0] == '-' || s[0] == '+');
    match ParseDigits(if signed then s[1..] else s)
    case None => None
    case Some(n) =>
      var magnitude: int := n;
      var value := if signed && s[0] == '-' then -magnitude else magnitude;
      if InInt64(value) then Some(value) else None
  }

  lemma {:induction false} ParseInvertsDigits(n: nat)
    ensures ParseDigits(Digits(n)) == Some(n)
  {
    if n >= 10 {
      ParseInvertsDigits(n / 10);
      DigitParses(n % 10);
      ParseAppends(Digits(n / 10), DIGITS[n % 10]);
    }
  }

  lemma DigitParses(d: nat)
    requires d < 10
    ensures IsDigit(DIGITS[d]) && (DIGITS[d] - '0') as nat == d
  {}

  lemma ParseAppends(front: string, c: char)
    requires ParseDigits(front).Some? && IsDigit(c)
    ensures ParseDigits(front + [c]) == Some(10 * ParseDigits(front).value + (c - '0') as nat)
  {
    var s := front + [c];
    assert s[..|s| - 1] == front;
  }

  /** Exactly the 64-bit numbers parse back. */
  lemma AtoiOfItoa(n: int)
    ensures Atoi(Itoa(n)) == if -9223372036854775808 <= n <= 9223372036854775807 then Some(n) else None
  {
    if n < 0 {
      ParseInvertsDigits(-n);
      MinusItoa(-n);
    } else {
      ParseInvertsDigits(n);
      PlainItoa(n);
    }
    hide *;
  }

  lemma MinusItoa(m: int)
    requires m > 0 && ParseDigits(Digits(m)) == Some(m)
    ensures Atoi(Itoa(-m)) == if m <= 9223372036854775808 then Some(-m) else None
  {
    assert Itoa(-m) == "-" + Digits(m);
    hide *;
    MinusSign(Digits(m));
  }

  lemma PlainItoa(n: nat)
    requires ParseDigits(Digits(n)) == Some(n)
    ensures Atoi(Itoa(n)) == if n <= 9223372036854775807 then Some(n) else None
  {
    assert Itoa(n)[0] in Digits(n);
    hide ParseDigits;
    hide Digits;
  }

  lemma AtoiInvertsItoa(n: int)
    requires InInt64(n)
    ensures Atoi(Itoa(n)) == Some(n)
  {
    AtoiOfItoa(n);
  }

  /** Numbers are printed without leading zeros. */
  lemma {:induction false} NoLeadingZero(n: nat)
    ensures n > 0 ==> Digits(n)[0] != '0'
    ensures Digits(0) == "0"
  {
    if n >= 10 {
      NoLeadingZero(n / 10);
    }
  }

  predicate AllDigits(s: string) {
    forall i :: 0 <= i < |s| ==> '0' <= s[i] <= '9'
  }

  lemma {:induction false} ParsesExactly(s: string)
    ensures ParseDigits(s).Some? <==> s != "" && AllDigits(s)
  {
    if |s| > 1 {
      ParsesExactly(s[..|s| - 1]);
    }
  }

  /** A plus sign before digits changes nothing, and two signs are no number. */
  lemma PlusSign(ds: string)
    ensures Atoi("+" + ds) == if ds != "" && ds[0] in "+-" then None else Atoi(ds)
  {
    assert ("+" + ds)[1..] == ds;
    if ds != "" && ds[0] in "+-" {
      NotDigits(ds);
    }
    hide ParseDigits;
  }

  /** A minus sign before digits changes the sign, and there is one more negative number than positive. */
  lemma MinusSign(ds: string)
    requires ParseDigits(ds).Some?
    ensures var n: int := ParseDigits(ds).value; Atoi("-" + ds) == if n <= 9223372036854775808 then Some(-n) else None
  {
    assert ("-" + ds)[1..] == ds;
    hide ParseDigits;
  }

  lemma NotDigits(s: string)
    requires s != "" && s[0] in "+-"
    ensures ParseDigits(s).None?
  {
    ParsesExactly(s);
  }

  /** Nothing but digits, with at most one sign before them, is a number. */
  lemma AtoiIsDigits(s: string)
    ensures Atoi(s).Some? ==> s != "" && (AllDigits(s) || (s[0] in "+-" && |s| > 1 && AllDigits(s[1..])))
  {
    ParsesExactly(s);
    if s != "" { ParsesExactly(s[1..]); }
    hide ParseDigits;
  }

  lemma ItoaInjective(m: int, n: int)
    requires Itoa(m) == Itoa(n)
    ensures m == n
  {
    ParseInvertsDigits(if m < 0 then -m else m);
    ParseInvertsDigits(if n < 0 then -n else n);
    if m < 0 { assert Itoa(m)[1..] == Digits(-m); } else { assert Itoa(m)[0] in Digits(m); }
    if n < 0 { assert Itoa(n)[1..] == Digits(-n); } else { assert Itoa(n)[0] in Digits(n); }
  }

  // ----- letter case (ASCII) -----

  function LowerChar(c: char): char {
    if 'A' <= c <= 'Z' then c - 'A' + 'a' else c
  }

  function Lower(s: string): string {
    seq(|s|, i requires 0 <= i < |s| => LowerChar(s[i]))
  }

  // ----- separators -----

  /** Position of the first c, or the length. */
  function Index(s: string, c: char): (i: nat)
    ensures i <= |s| && c !in s[..i]
    ensures i < |s| ==> s[i] == c
    ensures i == |s| <==> c !in s
  {
    if s == "" || s[0] == c then 0
    else
      assert s == [s[0]] + s[1..];
      var i := 1 + Index(s[1..], c);
      assert s[..i] == [s[0]] + s[1..][..i - 1];
      i
  }

  /** At most n pieces; a negative n means all of them. */
  function SplitN(s: string, c: char, n: int): (parts: seq<string>)
    requires n != 0
    ensures parts != []
    decreases |s|
  {
    if n == 1 || c !in s then [s]
    else
      var i := Index(s, c);
      [s[..i]] + SplitN(s[i + 1..], c, n - 1)
  }

  function Join(parts: seq<string>, c: char): string {
    if parts == [] then ""
    else if |parts| == 1 then parts[0]
    else parts[0] + [c] + Join(parts[1..], c)
  }

  lemma IndexOfSeparator(a: string, c: char, rest: string)
    requires c !in a
    ensures Index(a + [c] + rest, c) == |a|
  {
    var s := a + [c] + rest;
    assert s[|a|] == c;
  }

  /** A string splits in one way at its first separator. */
  lemma FirstSeparator(a: string, c: char, rest: string, a': string, rest': string)
    requires c !in a && c !in a' && a + [c] + rest == a' + [c] + rest'
    ensures a == a' && rest == rest'
  {
    IndexOfSeparator(a, c, rest);
    IndexOfSeparator(a', c, rest');
    var s := a + [c] + rest;
    assert a == s[..|a|] && rest == s[|a| + 1..];
    assert a' == s[..|a'|] && rest' == s[|a'| + 1..];
  }

  lemma SplitHead(a: string, c: char, rest: string, n: int)
    requires c !in a && n != 0 && n != 1
    ensures SplitN(a + [c] + rest, c, n) == [a] + SplitN(rest, c, n - 1)
  {
    var s := a + [c] + rest;
    IndexOfSeparator(a, c, rest);
    assert s[|a|] == c;
    assert s[..|a|] == a && s[|a| + 1..] == rest;
  }

  lemma {:induction false} SplitInvertsJoin(parts: seq<string>, c: char, n: int)
    requires parts != [] && n < 0 && forall p :: p in parts ==> c !in p
    ensures SplitN(Join(parts, c), c, n) == parts
  {
    if |parts| > 1 {
      SplitHead(parts[0], c, Join(parts[1..], c), n);
      SplitInvertsJoin(parts[1..], c, n - 1);
    }
  }
}
