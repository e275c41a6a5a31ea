/** The peer table, addresses, and the secret a table's rows share. */
module PeerTable {
  import opened Options
  import opened Names
  import opened Text

  // ----- addresses -----

  /** A URL as written, with the scheme, host and port a parser finds in it (host "" if none). */
  datatype Url = Url(raw: string, scheme: string, host: string, port: string)

  function EffectivePort(u: Url): string {
    if u.port != "" then u.port else if u.scheme == "https" then "443" else "80"
  }

  /** "host:port" in lower case with the default port filled in, or None without a usable host. */
  function NormalizeAddr(u: Url): Option<string> {
    if u.host == "" then None else Some(Lower(u.host) + ":" + EffectivePort(u))
  }

  /** The same characters, but for the case of the letters A to Z. */
  predicate SameLetters(a: string, b: string) {
    |a| == |b| && forall i :: 0 <= i < |a| ==>
                                a[i] == b[i] || ('A' <= a[i] <= 'Z' && b[i] as int == a[i] as int + 32) || ('A' <= b[i] <= 'Z' && a[i] as int == b[i] as int + 32)
  }

  lemma LowerExactly(a: string, b: string)
    ensures Lower(a) == Lower(b) <==> SameLetters(a, b)
  {
    forall c: char, d: char
      ensures LowerChar(c) == LowerChar(d) <==>
              c == d || ('A' <= c <= 'Z' && d as int == c as int + 32) || ('A' <= d <= 'Z' && c as int == d as int + 32)
    {}
    if |a| == |b| {
      assert forall i :: 0 <= i < |a| ==> Lower(a)[i] == LowerChar(a[i]) && Lower(b)[i] == LowerChar(b[i]);
    } else {
      assert |Lower(a)| == |a| && |Lower(b)| == |b|;
    }
  }

  /** p is the port u leads to: the one written, or by default 443 for https and 80 otherwise. */
  predicate LeadsToPort(u: Url, p: string) {
    if u.port != "" then p == u.port else (u.scheme == "https" && p == "443") || (u.scheme != "https" && p == "80")
  }

  ghost predicate SamePort(u: Url, v: Url) {
    exists p :: LeadsToPort(u, p) && LeadsToPort(v, p)
  }

  lemma PortExactly(u: Url, p: string)
    ensures EffectivePort(u) == p <==> LeadsToPort(u, p)
  {}

  /** Two URLs compare equal exactly when hosts agree up to case and they lead to the same port; a URL has
      an address exactly if it has a host. */
  lemma SameAddr(u: Url, v: Url)
    requires ':' !in u.port && ':' !in v.port
    ensures NormalizeAddr(u).Some? <==> u.host != ""
    ensures u.host != "" && v.host != "" ==>
              (NormalizeAddr(u) == NormalizeAddr(v) <==> SameLetters(u.host, v.host) && SamePort(u, v))
  {
    var h, p, h', p' := Lower(u.host), EffectivePort(u), Lower(v.host), EffectivePort(v);
    LowerExactly(u.host, v.host);
    PortExactly(u, p);
    PortExactly(v, p');
    assert SamePort(u, v) <==> p == p' by {
      if q :| LeadsToPort(u, q) && LeadsToPort(v, q) {
        PortExactly(u, q);
        PortExactly(v, q);
      }
    }
    SamePieces(h, p, h', p');
  }

  lemma SamePieces(h: string, p: string, h': string, p': string)
    requires ':' !in p && ':' !in p'
    ensures h + ":" + p == h' + ":" + p' <==> h == h' && p == p'
  {
    var s, s' := h + ":" + p, h' + ":" + p';
    if s == s' {
      assert s[|h|] == ':' && s'[|h'|] == ':';
      assert forall i :: |h| < i < |s| ==> s[i] == p[i - |h| - 1];
      assert forall i :: |h'| < i < |s'| ==> s'[i] == p'[i - |h'| - 1];
      assert |h| == |h'|;
      assert h == s[..|h|] && h' == s'[..|h'|];
      assert p == s[|h| + 1..] && p' == s'[|h'| + 1..];
    }
  }

  /** A port left out is 80 for http and 443 for https; one that is written stands. */
  lemma DefaultPorts(host: string, other: string, raw: string, raw': string, port: string)
    requires SameLetters(host, other) && host != "" && port != "" && ':' !in port
    ensures NormalizeAddr(Url(raw, "http", host, "")) == NormalizeAddr(Url(raw', "http", other, "80"))
    ensures NormalizeAddr(Url(raw, "https", host, "")) == NormalizeAddr(Url(raw', "https", other, "443"))
    ensures NormalizeAddr(Url(raw, "http", host, "")) != NormalizeAddr(Url(raw', "https", other, ""))
    ensures NormalizeAddr(Url(raw, "http", host, port)) == NormalizeAddr(Url(raw', "https", other, port))
    ensures NormalizeAddr(Url(raw, "http", host, "")) == NormalizeAddr(Url(raw', "http", other, port)) <==> port == "80"
    ensures NormalizeAddr(Url(raw, "https", host, "")) == NormalizeAddr(Url(raw', "https", other, port)) <==> port == "443"
  {
    LowerExactly(host, other);
    hide Lower;
    SamePieces(Lower(host), "80", Lower(host), port);
    SamePieces(Lower(host), "443", Lower(host), port);
    SamePieces(Lower(host), "80", Lower(host), "443");
  }

  // ----- rows -----

  /** last_seen 0 means never. A muted peer is not enabled. */
  datatype Peer = Peer(url: Url, secret: string, status: string, lastSeen: int, lastError: string, enabled: bool)

  type Table = map<string, Peer>

  function NewPeer(url: Url, secret: string): Peer {
    Peer(url, secret, "unknown", 0, "", true)
  }

  /** Insert, or update the URL and (only if one is given) the secret of the row with this name. */
  function Upsert(t: Table, name: string, url: Url, secret: string): Table {
    t[name := if name !in t then NewPeer(url, secret)
    else t[name].(url := url, secret := if secret != "" then secret else t[name].secret)]
  }

  function SetPeerStatus(t: Table, name: string, status: string, lastSeen: int, lastErr: string): Table {
    if name !in t then t
    else if lastSeen == 0 then t[name := t[name].(status := status, lastError := lastErr)]
    else t[name := t[name].(status := status, lastSeen := lastSeen, lastError := lastErr)]
  }

  function SetPeerEnabled(t: Table, name: string, enabled: bool): Table {
    if name !in t then t else t[name := t[name].(enabled := enabled)]
  }

  /** A new name gets a fresh row; a known one keeps everything but the URL, and its secret unless one is
      given. No other row is touched. */
  lemma UpsertExactly(t: Table, name: string, url: Url, secret: string)
    ensures var t' := Upsert(t, name, url, secret);
            && t'.Keys == t.Keys + {name} && (forall r :: r in t && r != name ==> t'[r] == t[r])
            && (name !in t ==> t'[name] == Peer(url, secret, "unknown", 0, "", true))
            && (name in t && secret == "" ==>
                  t'[name] == Peer(url, t[name].secret, t[name].status, t[name].lastSeen, t[name].lastError, t[name].enabled))
            && (name in t && secret != "" ==>
                  t'[name] == Peer(url, secret, t[name].status, t[name].lastSeen, t[name].lastError, t[name].enabled))
  {}

  /** A poll changes the status and the last error of one known row, and when it was last seen only if it
      was; muting changes one flag. */
  lemma UpdatesExactly(t: Table, name: string, status: string, lastSeen: int, lastErr: string, enabled: bool)
    ensures name !in t ==> SetPeerStatus(t, name, status, lastSeen, lastErr) == t && SetPeerEnabled(t, name, enabled) == t
    ensures name in t ==> var p := t[name];
                          && SetPeerStatus(t, name, status, lastSeen, lastErr) ==
                             t[name := Peer(p.url, p.secret, status, if lastSeen == 0 then p.lastSeen else lastSeen, lastErr, p.enabled)]
                          && SetPeerEnabled(t, name, enabled) ==
                             t[name := Peer(p.url, p.secret, p.status, p.lastSeen, p.lastError, enabled)]
  {}

  // ----- the secret the table shares -----

  /** The non-empty secrets of a list of peers, with multiplicity. */
  function Secrets(peers: seq<Peer>): multiset<string> {
    if peers == [] then multiset{}
    else Secrets(peers[..|peers| - 1]) + OwnSecret(peers[|peers| - 1])
  }

  function OwnSecret(p: Peer): multiset<string> {
    if p.secret != "" then multiset{p.secret} else multiset{}
  }

  /** "" if there is no secret at all, otherwise the smallest of the most frequent ones. */
  ghost predicate IsCommonSecret(secrets: multiset<string>, best: string) {
    if secrets == multiset{} then best == ""
    else
      && best in secrets
      && forall s :: s in secrets && s != best ==>
                       secrets[s] < secrets[best] || (secrets[s] == secrets[best] && Precedes(best, s))
  }

  ghost predicate Counts(counts: map<string, int>, secrets: multiset<string>) {
    forall s :: (s in counts <==> s in secrets) && (s in counts ==> counts[s] == secrets[s])
  }

  lemma CountsNext(counts: map<string, int>, secrets: multiset<string>, s: string)
    requires Counts(counts, secrets)
    ensures Counts(counts[s := (if s in counts then counts[s] else 0) + 1], secrets + multiset{s})
  {}

  method CountSecrets(peers: seq<Peer>) returns (counts: map<string, int>)
    ensures Counts(counts, Secrets(peers))
  {
    counts := map[];
    for i := 0 to |peers|
      invariant Counts(counts, Secrets(peers[..i]))
    {
      assert peers[..i + 1][..i] == peers[..i];
      assert Secrets(peers[..i + 1]) == Secrets(peers[..i]) + OwnSecret(peers[i]);
      hide Secrets;
      var s := peers[i].secret;
      if s != "" {
        CountsNext(counts, Secrets(peers[..i]), s);
        hide Counts;
        counts := counts[s := (if s in counts then counts[s] else 0) + 1];
      }
    }
    assert peers[..|peers|] == peers;
  }

  /** best is the winner among `seen`, with count bestN. */
  ghost predicate BestOf(counts: map<string, int>, seen: set<string>, best: string, bestN: int) {
    if seen == {} then best == "" && bestN == 0
    else
      && best in seen && best in counts && bestN == counts[best]
      && forall s :: s in seen && s in counts ==> counts[s] < bestN || (counts[s] == bestN && AtMost(best, s))
  }

  lemma BestOfExtends(counts: map<string, int>, seen: set<string>, best: string, bestN: int, s: string)
    requires BestOf(counts, seen, best, bestN) && s in counts && s !in seen && counts[s] > 0
    ensures if counts[s] > bestN || (counts[s] == bestN && Less(s, best)) then BestOf(counts, seen + {s}, s, counts[s])
            else BestOf(counts, seen + {s}, best, bestN)
  {
    hide Less;
    LessTrichotomy(s, best);
    forall r | r in seen && r in counts && Less(s, best) && AtMost(best, r) ensures AtMost(s, r) {
      AtMostTransitive(s, best, r);
    }
  }

  /** Count, then take the best of the counts in whatever order the map yields them. */
  method CommonSecret(peers: seq<Peer>) returns (best: string)
    ensures IsCommonSecret(Secrets(peers), best)
  {
    hide Less;
    hide Secrets;
    var counts := CountSecrets(peers);
    best := "";
    var bestN := 0;
    var todo := counts.Keys;
    while todo != {}
      invariant todo <= counts.Keys
      invariant BestOf(counts, counts.Keys - todo, best, bestN)
      decreases todo
    {
      var s :| s in todo;
      ghost var seen := counts.Keys - todo;
      BestOfExtends(counts, seen, best, bestN, s);
      todo := todo - {s};
      assert counts.Keys - todo == seen + {s};
      var n := counts[s];
      if n > bestN || (n == bestN && Less(s, best)) {
        best, bestN := s, n;
      }
    }
    assert counts.Keys - todo == counts.Keys;
    if best == "" && counts.Keys == {} {
      assert forall s :: s !in Secrets(peers);
    } else {
      assert best in Secrets(peers);
      forall s | AtMost(best, s) && s != best ensures Precedes(best, s) {
        LessExactly(best, s);
      }
    }
  }

  /** So the result does not depend on the order of the map. */
  lemma CommonSecretUnique(secrets: multiset<string>, a: string, b: string)
    requires IsCommonSecret(secrets, a) && IsCommonSecret(secrets, b)
    ensures a == b
  {
    if a != b {
      LessTrichotomy(a, b);
      LessExactly(a, b);
      LessExactly(b, a);
    }
  }

  lemma {:induction false} SecretsWithout(peers: seq<Peer>, i: nat)
    requires i < |peers|
    ensures Secrets(peers) == Secrets(peers[..i] + peers[i + 1..]) + OwnSecret(peers[i])
  {
    hide OwnSecret;
    var n := |peers| - 1;
    if i < n {
      var front := peers[..n];
      SecretsWithout(front, i);
      var rest := peers[..i] + peers[i + 1..];
      assert rest[..|rest| - 1] == front[..i] + front[i + 1..];
      assert rest[|rest| - 1] == peers[n];
    } else {
      assert peers[..i] + peers[i + 1..] == peers[..n];
    }
  }

  lemma MultisetWithout(q: seq<Peer>, i: nat, x: Peer)
    requires i < |q| && q[i] == x
    ensures multiset(q[..i] + q[i + 1..]) == multiset(q) - multiset{x}
  {
    assert q == q[..i] + [q[i]] + q[i + 1..];
  }

  /** A permutation of a list that ends in x has x somewhere, and the rest is a permutation too. */
  lemma TakeFromPermutation(p: seq<Peer>, q: seq<Peer>) returns (i: nat)
    requires p != [] && multiset(p) == multiset(q)
    ensures i < |q| && q[i] == p[|p| - 1]
    ensures multiset(p[..|p| - 1]) == multiset(q[..i] + q[i + 1..])
  {
    var n := |p| - 1;
    assert p[n] in multiset(q);
    i :| i < |q| && q[i] == p[n];
    MultisetWithout(p, n, p[n]);
    MultisetWithout(q, i, p[n]);
    assert p[..n] + p[n + 1..] == p[..n];
  }

  /** Nor on the order of the peer list. */
  lemma {:induction false} SecretsOfPermutation(p: seq<Peer>, q: seq<Peer>)
    requires multiset(p) == multiset(q)
    ensures Secrets(p) == Secrets(q)
  {
    hide OwnSecret;
    if p == [] {
      assert |multiset(q)| == 0;
    } else {
      var i := TakeFromPermutation(p, q);
      SecretsOfPermutation(p[..|p| - 1], q[..i] + q[i + 1..]);
      SecretsWithout(q, i);
    }
  }

  lemma CommonSecretOfPermutation(p: seq<Peer>, q: seq<Peer>, a: string, b: string)
    requires multiset(p) == multiset(q)
    requires IsCommonSecret(Secrets(p), a) && IsCommonSecret(Secrets(q), b)
    ensures a == b
  {
    SecretsOfPermutation(p, q);
    CommonSecretUnique(Secrets(p), a, b);
  }

  lemma {:induction false} NoEmptySecret(peers: seq<Peer>)
    ensures "" !in Secrets(peers)
  {
    if peers != [] {
      NoEmptySecret(peers[..|peers| - 1]);
    }
  }

  lemma SecretsAreStored(peers: seq<Peer>, s: string)
    ensures s in Secrets(peers) <==> s != "" && exists i :: 0 <= i < |peers| && peers[i].secret == s
  {
    hide Secrets;
    NoEmptySecret(peers);
    if s != "" {
      SecretCount(peers, s);
      if i :| 0 <= i < |peers| && peers[i].secret == s {
        assert i in Carriers(peers, s);
      }
      if i :| i in Carriers(peers, s) {
        assert peers[i].secret == s;
      }
    }
  }

  /** A secret counts once for every row that carries it. */
  lemma {:induction false} SecretCount(peers: seq<Peer>, s: string)
    requires s != ""
    ensures Secrets(peers)[s] == |Carriers(peers, s)|
  {
    if peers != [] {
      var n := |peers| - 1;
      SecretCount(peers[..n], s);
      CarriersStep(peers, s);
      assert OwnSecret(peers[n])[s] == if peers[n].secret == s then 1 else 0;
      hide Carriers;
      hide OwnSecret;
    }
  }

  lemma CarriersStep(peers: seq<Peer>, s: string)
    requires peers != []
    ensures var n := |peers| - 1;
            |Carriers(peers, s)| == |Carriers(peers[..n], s)| + if peers[n].secret == s then 1 else 0
  {
    var n := |peers| - 1;
    var front := Carriers(peers[..n], s);
    assert n !in front;
    assert Carriers(peers, s) == front + if peers[n].secret == s then {n} else {};
  }

  function Carriers(peers: seq<Peer>, s: string): set<int> {
    set i | 0 <= i < |peers| && peers[i].secret == s
  }
}
