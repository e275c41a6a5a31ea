/**
 Accepted HTTP status codes: the comma-joined form they are stored in, its tolerant parser, and the
 canonical ascending list.
 */
module StatusCodes {
  import opened Options
  import opened Text

  predicate IsSpace(c: char) {
    c in " \t\n\r\U{000B}\U{000C}\U{0085}\U{00A0}\U{1680}\U{2028}\U{2029}\U{202F}\U{205F}\U{3000}" ||
    '\U{2000}' <= c <= '\U{200A}'
  }

  /** s without surrounding white space. */
  function Trim(s: string): string {
    if s == "" then ""
    else if IsSpace(s[0]) then Trim(s[1..])
    else if IsSpace(s[|s| - 1]) then Trim(s[..|s| - 1])
    else s
  }

  /** The code a piece holds; blank and unparseable pieces hold none. */
  function Code(part: string): Option<int> {
    if Trim(part) == "" then None else Atoi(Trim(part))
  }

  function Codes(parts: seq<string>): (codes: seq<int>)
    ensures forall c :: c in codes ==> InInt64(c)
  {
    if parts == [] then []
    else
      var front := Codes(parts[..|parts| - 1]);
      match Code(parts[|parts| - 1])
      case None => front
      case Some(c) => front + [c]
  }

  function Parse(s: string): seq<int> {
    if Trim(s) == "" then [] else Codes(SplitN(s, ',', -1))
  }

  function Itoas(codes: seq<int>): seq<string> {
    if codes == [] then [] else Itoas(codes[..|codes| - 1]) + [Itoa(codes[|codes| - 1])]
  }

  function Format(codes: seq<int>): string {
    Join(Itoas(codes), ',')
  }

  method ParseStatusCodes(s: string) returns (codes: seq<int>)
    ensures codes == Parse(s)
  {
    codes := [];
    if Trim(s) == "" {
      return;
    }
    var parts := SplitN(s, ',', -1);
    for i := 0 to |parts|
      invariant codes == Codes(parts[..i])
    {
      assert parts[..i + 1][..i] == parts[..i];
      var part := Trim(parts[i]);
      if part == "" {
        continue;
      }
      match Atoi(part)
      case None =>
      case Some(n) => codes := codes + [n];
    }
    assert parts[..|parts|] == parts;
  }

  method FormatStatusCodes(codes: seq<int>) returns (s: string)
    ensures s == Format(codes)
  {
    if |codes| == 0 {
      return "";
    }
    var parts := [];
    for i := 0 to |codes|
      invariant parts == Itoas(codes[..i])
    {
      assert codes[..i + 1][..i] == codes[..i];
      parts := parts + [Itoa(codes[i])];
    }
    assert codes[..|codes|] == codes;
    s := Join(parts, ',');
  }

  // ----- what parsing means -----

  /** Trimming takes white space off both ends and stops at the first other character. */
  lemma {:induction false} TrimExactly(s: string) returns (i: nat, j: nat)
    ensures i <= j <= |s| && Trim(s) == s[i..j]
    ensures forall k :: 0 <= k < i || j <= k < |s| ==> IsSpace(s[k])
    ensures i < j ==> !IsSpace(s[i]) && !IsSpace(s[j - 1])
    decreases |s|
  {
    hide IsSpace;
    i, j := 0, |s|;
    if s != "" && IsSpace(s[0]) {
      i, j := TrimExactly(s[1..]);
      i, j := i + 1, j + 1;
      assert s[1..][i - 1..j - 1] == s[i..j];
      assert forall k :: 0 < k < |s| ==> s[k] == s[1..][k - 1];
    } else if s != "" && IsSpace(s[|s| - 1]) {
      i, j := TrimExactly(s[..|s| - 1]);
    }
  }

  lemma {:induction false} SplitAll(s: string, c: char, m: int, n: int)
    requires m < 0 && n < 0
    ensures SplitN(s, c, m) == SplitN(s, c, n)
    decreases |s|
  {
    if c in s {
      SplitAll(s[Index(s, c) + 1..], c, m - 1, n - 1);
    }
  }

  lemma SplitFirst(a: string, c: char, rest: string)
    requires c !in a
    ensures SplitN(a + [c] + rest, c, -1) == [a] + SplitN(rest, c, -1)
  {
    SplitHead(a, c, rest, -1);
    SplitAll(rest, c, -2, -1);
  }

  lemma {:induction false} SplitConcat(a: string, b: string, c: char)
    ensures SplitN(a + [c] + b, c, -1) == SplitN(a, c, -1) + SplitN(b, c, -1)
    decreases |a|
  {
    if c in a {
      var i := Index(a, c);
      var head, rest := a[..i], a[i + 1..];
      hide SplitN;
      assert a == head + [c] + rest;
      assert a + [c] + b == head + [c] + (rest + [c] + b);
      SplitFirst(head, c, rest + [c] + b);
      SplitConcat(rest, b, c);
      SplitFirst(head, c, rest);
      Associate([head], SplitN(rest, c, -1), SplitN(b, c, -1));
    } else {
      SplitFirst(a, c, b);
    }
  }

  lemma Associate(x: seq<string>, y: seq<string>, z: seq<string>)
    ensures x + (y + z) == x + y + z
  {}

  lemma {:induction false} CodesConcat(a: seq<string>, b: seq<string>)
    ensures Codes(a + b) == Codes(a) + Codes(b)
  {
    if b == [] {
      assert a + b == a;
    } else {
      CodesConcat(a, b[..|b| - 1]);
      assert (a + b)[..|a + b| - 1] == a + b[..|b| - 1];
    }
  }

  lemma CommaIsNoSpace()
    ensures !IsSpace(',')
  {}

  lemma ParseIsCodes(s: string)
    ensures Parse(s) == Codes(SplitN(s, ',', -1))
  {
    if Trim(s) == "" {
      var i, j := TrimExactly(s);
      assert ',' !in s by {
        if k :| 0 <= k < |s| && s[k] == ',' {
          CommaIsNoSpace();
        }
      }
      assert [s][..0] == [];
    }
  }

  /** A list is parsed piece by piece; a bad piece costs only itself. */
  lemma ParsePieces(a: string, b: string)
    ensures Parse(a + "," + b) == Parse(a) + Parse(b)
  {
    ParseIsCodes(a);
    ParseIsCodes(b);
    ParseIsCodes(a + "," + b);
    SplitConcat(a, b, ',');
    CodesConcat(SplitN(a, ',', -1), SplitN(b, ',', -1));
  }

  /** A single piece is a code exactly if it is a number but for white space around it. */
  lemma ParsePiece(p: string)
    requires ',' !in p
    ensures Parse(p) == if Atoi(Trim(p)).Some? then [Atoi(Trim(p)).value] else []
  {
    ParseIsCodes(p);
    assert [p][..0] == [];
  }

  // ----- round trips -----

  lemma ItoaIsBare(n: int)
    ensures ',' !in Itoa(n) && !IsSpace(Itoa(n)[0]) && Trim(Itoa(n)) == Itoa(n)
  {
    hide Itoa;
    var s := Itoa(n);
    assert s[0] in s && s[|s| - 1] in s;
  }

  lemma {:induction false} CodesOfItoas(codes: seq<int>)
    requires forall c :: c in codes ==> InInt64(c)
    ensures |Itoas(codes)| == |codes| && Codes(Itoas(codes)) == codes
    ensures forall p :: p in Itoas(codes) ==> ',' !in p
    ensures codes != [] ==> Itoas(codes)[0] == Itoa(codes[0])
  {
    if codes != [] {
      var front, last := codes[..|codes| - 1], codes[|codes| - 1];
      CodesOfItoas(front);
      assert codes == front + [last];
      assert Itoas(codes)[..|front|] == Itoas(front);
      ItoaIsBare(last);
      AtoiInvertsItoa(last);
    }
  }

  lemma {:induction false} NotBlank(s: string)
    requires s != "" && !IsSpace(s[0])
    ensures Trim(s) != ""
    decreases |s|
  {
    if |s| > 1 && IsSpace(s[|s| - 1]) {
      NotBlank(s[..|s| - 1]);
    }
  }

  /** Parsing the stored form gives the list back, for every sequence of 64-bit integers. */
  lemma ParseInvertsFormat(codes: seq<int>)
    requires forall c :: c in codes ==> InInt64(c)
    ensures Parse(Format(codes)) == codes
  {
    hide Itoa;
    hide IsSpace;
    CodesOfItoas(codes);
    if codes != [] {
      ItoaIsBare(codes[0]);
      assert Format(codes)[0] == Itoa(codes[0])[0];
      NotBlank(Format(codes));
      SplitInvertsJoin(Itoas(codes), ',', -1);
    }
  }

  lemma {:induction false} JoinNext(parts: seq<string>, p: string, c: char)
    requires parts != []
    ensures Join(parts + [p], c) == Join(parts, c) + [c] + p
  {
    if |parts| > 1 {
      JoinNext(parts[1..], p, c);
      assert (parts + [p])[1..] == parts[1..] + [p];
    } else {
      assert (parts + [p])[1..] == [p];
    }
  }

  /** The stored text: the numbers, with a single comma between one and the next. */
  lemma FormatExactly(codes: seq<int>, c: int)
    ensures Format([]) == "" && Format([c]) == Itoa(c)
    ensures codes != [] ==> Format(codes + [c]) == Format(codes) + "," + Itoa(c)
  {
    hide Itoa;
    assert [c][..0] == [];
    if codes != [] {
      assert (codes + [c])[..|codes|] == codes;
      assert |Itoas(codes)| > 0;
      JoinNext(Itoas(codes), Itoa(c), ',');
    }
  }

  /** One format pass repairs any stored string without changing what it means. */
  lemma ParseFormatParse(s: string)
    ensures Parse(Format(Parse(s))) == Parse(s)
  {
    ParseInvertsFormat(Parse(s));
  }

  // ----- the canonical list -----

  ghost predicate Ascending(codes: seq<int>) {
    forall i, j :: 0 <= i < j < |codes| ==> codes[i] < codes[j]
  }

  /** The codes without repetitions, in ascending order. */
  ghost predicate IsCanonical(codes: seq<int>, out: seq<int>) {
    Ascending(out) && forall c :: c in out <==> c in codes
  }

  function Insert(codes: seq<int>, c: int): (out: seq<int>)
    ensures forall d :: d in out <==> d == c || d in codes
  {
    if codes == [] || c < codes[0] then [c] + codes
    else
      assert codes == [codes[0]] + codes[1..];
      [codes[0]] + Insert(codes[1..], c)
  }

  /** sort.Ints */
  function Sort(codes: seq<int>): (out: seq<int>)
    ensures forall d :: d in out <==> d in codes
  {
    if codes == [] then []
    else
      assert codes == codes[..|codes| - 1] + [codes[|codes| - 1]];
      Insert(Sort(codes[..|codes| - 1]), codes[|codes| - 1])
  }

  lemma {:induction false} InsertAscending(codes: seq<int>, c: int)
    requires Ascending(codes) && c !in codes
    ensures Ascending(Insert(codes, c))
  {
    if codes != [] && c >= codes[0] {
      assert c !in codes[1..];
      InsertAscending(codes[1..], c);
      var rest := Insert(codes[1..], c);
      forall j | 0 <= j < |rest|
        ensures codes[0] < rest[j]
      {
        assert rest[j] in rest;
      }
    }
  }

  lemma {:induction false} SortAscending(codes: seq<int>)
    requires forall i, j :: 0 <= i < j < |codes| ==> codes[i] != codes[j]
    ensures Ascending(Sort(codes))
  {
    if codes != [] {
      SortAscending(codes[..|codes| - 1]);
      InsertAscending(Sort(codes[..|codes| - 1]), codes[|codes| - 1]);
    }
  }

  function Distinct(codes: seq<int>): (out: seq<int>)
    ensures forall d :: d in out <==> d in codes
    ensures forall i, j :: 0 <= i < j < |out| ==> out[i] != out[j]
  {
    if codes == [] then []
    else
      assert codes == codes[..|codes| - 1] + [codes[|codes| - 1]];
      var front, last := Distinct(codes[..|codes| - 1]), codes[|codes| - 1];
      if last in front then front else front + [last]
  }

  function Canonical(codes: seq<int>): seq<int> {
    Sort(Distinct(codes))
  }

  method DedupeSortStatusCodes(codes: seq<int>) returns (out: seq<int>)
    ensures out == Canonical(codes)
  {
    var seen := {};
    out := [];
    for i := 0 to |codes|
      invariant out == Distinct(codes[..i])
      invariant forall c :: c in seen <==> c in out
    {
      assert codes[..i + 1][..i] == codes[..i];
      var c := codes[i];
      if c in seen {
        continue;
      }
      seen, out := seen + {c}, out + [c];
    }
    assert codes[..|codes|] == codes;
    out := Sort(out);
  }

  /** The same set of codes, strictly ascending. */
  lemma CanonicalHolds(codes: seq<int>)
    ensures IsCanonical(codes, Canonical(codes))
  {
    SortAscending(Distinct(codes));
  }

  /** There is only one canonical list: the order and the repetitions of the input do not matter. */
  lemma CanonicalUnique(codes: seq<int>, out: seq<int>, out': seq<int>)
    requires IsCanonical(codes, out) && IsCanonical(codes, out')
    ensures out == out'
  {
    AscendingUnique(out, out');
  }

  lemma {:induction false} AscendingUnique(a: seq<int>, b: seq<int>)
    requires Ascending(a) && Ascending(b) && forall c :: c in a <==> c in b
    ensures a == b
  {
    assert a == [] ==> b == [] by {
      if b != [] { assert b[0] in b; }
    }
    if a != [] {
      assert a[0] in a && a[0] in b;
      assert b[0] in b && b[0] in a;
      assert a[0] == b[0];
      assert a == [a[0]] + a[1..] && b == [b[0]] + b[1..];
      assert forall c :: c in a[1..] <==> c in a && c != a[0];
      assert forall c :: c in b[1..] <==> c in b && c != b[0];
      AscendingUnique(a[1..], b[1..]);
    }
  }

  /** An ascending list is left as it is, so a second pass changes nothing. */
  lemma CanonicalIsFixed(codes: seq<int>)
    requires Ascending(codes)
    ensures Canonical(codes) == codes
  {
    CanonicalHolds(codes);
    CanonicalUnique(codes, Canonical(codes), codes);
  }
}
