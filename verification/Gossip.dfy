/**
 One node's membership code: its gossip pass over the peer table, and the handler for announces.
 A pass is atomic here: nothing else writes the table meanwhile, and the network's answers to this
 node are fixed during it.
 */
module Gossip {
  import opened Options
  import opened PeerTable

  datatype Member = Member(name: string, url: Url)

  /** What the network answers this node: who lives at a URL, and whom a peer lists; None when a
      call fails or is refused. */
  datatype Network = Network(whoami: Url -> Option<string>, members: Peer -> Option<seq<Member>>)

  datatype Row = Row(name: string, peer: Peer)

  /** rows enumerates the table. */
  ghost predicate Lists(t: Table, rows: seq<Row>) {
    && (forall i :: 0 <= i < |rows| ==> rows[i].name in t && t[rows[i].name] == rows[i].peer)
    && (forall n :: n in t ==> exists i :: 0 <= i < |rows| && rows[i].name == n)
    && (forall i, j :: 0 <= i < j < |rows| ==> rows[i].name != rows[j].name)
  }

  lemma ListsAppend(t: Table, rows: seq<Row>, n: string, p: Peer)
    requires Lists(t, rows) && n !in t
    ensures Lists(t[n := p], rows + [Row(n, p)])
  {
    var more := rows + [Row(n, p)];
    assert more[|rows|].name == n;
    assert forall i :: 0 <= i < |rows| ==> more[i] == rows[i];
  }

  /** The identity probe; an empty name counts as no answer. */
  function Probe(net: Network, url: Url): Option<string> {
    match net.whoami(url)
    case Some(name) => if name == "" then None else Some(name)
    case None => None
  }

  /** A probe gives the name the URL answers with, if it answers with one. */
  lemma ProbeExactly(net: Network, url: Url, name: string)
    ensures Probe(net, url) == Some(name) <==> net.whoami(url) == Some(name) && name != ""
    ensures Probe(net, url).None? <==> net.whoami(url).None? || net.whoami(url) == Some("")
  {}

  // ----- self-heal -----

  /** A row that carries a secret, or whose URL does not turn out to be this node. */
  predicate Survives(net: Network, self: string, p: Peer) {
    !(p.secret == "" && p.url.raw != "" && Probe(net, p.url) == Some(self))
  }

  /** Healing removes exactly the rows without a secret whose URL answers with this node's own name, and
      changes no other. */
  lemma HealsExactly(net: Network, self: string, t: Table, n: string)
    requires n in t && self != ""
    ensures n !in Healed(net, self, t) <==> t[n].secret == "" && t[n].url.raw != "" && net.whoami(t[n].url) == Some(self)
    ensures n in Healed(net, self, t) ==> Healed(net, self, t)[n] == t[n]
  {}

  function Healed(net: Network, self: string, t: Table): Table {
    map n | n in t && Survives(net, self, t[n]) :: t[n]
  }

  /** seen is the part of the table that the first i rows list. */
  ghost predicate Prefix(t: Table, rows: seq<Row>, i: nat, seen: Table)
    requires i <= |rows|
  {
    && Lists(t, rows)
    && (forall n :: n in seen <==> exists j :: 0 <= j < i && rows[j].name == n)
    && (forall n :: n in seen ==> n in t && seen[n] == t[n])
  }

  lemma StartOfList(net: Network, self: string, t: Table, rows: seq<Row>)
    requires Lists(t, rows)
    ensures Prefix(t, rows, 0, map[]) && Healed(net, self, map[]) == map[] && Lists(map[], [])
  {}

  lemma NextOfList(t: Table, rows: seq<Row>, i: nat, seen: Table)
    requires i < |rows| && Prefix(t, rows, i, seen)
    ensures rows[i].name in t && rows[i].name !in seen
    ensures Prefix(t, rows, i + 1, seen[rows[i].name := rows[i].peer])
  {}

  lemma HealNext(net: Network, self: string, seen: Table, k: Row)
    requires k.name !in seen
    ensures var healed := Healed(net, self, seen);
            && k.name !in healed && healed.Keys <= seen.Keys
            && Healed(net, self, seen[k.name := k.peer]) == if Survives(net, self, k.peer) then healed[k.name := k.peer] else healed
  {
    hide Survives;
  }

  lemma EndOfList(net: Network, self: string, t: Table, rows: seq<Row>, seen: Table)
    requires Prefix(t, rows, |rows|, seen)
    ensures seen == t
    ensures t - (t.Keys - Healed(net, self, t).Keys) == Healed(net, self, t)
  {}

  // ----- one member -----

  ghost predicate AtSameAddr(t: Table, url: Url) {
    NormalizeAddr(url).Some? && exists n :: n in t && NormalizeAddr(t[n].url) == NormalizeAddr(url)
  }

  /** A new row is secretless, named as its URL names itself, not this node, and new by name and address. */
  ghost predicate Discovered(net: Network, self: string, t: Table, url: Url, row: Row) {
    && row.peer == NewPeer(url, "")
    && Probe(net, url) == Some(row.name) && row.name != self
    && row.name !in t && NormalizeAddr(url).Some? && !AtSameAddr(t, url)
  }

  /** m needs no row: it is unusable, this node, known by name or by address, or does not answer as
      anybody new. */
  ghost predicate Accounted(net: Network, self: string, advertise: Url, t: Table, m: Member) {
    || m.name == "" || NormalizeAddr(m.url).None?
    || m.name == self || NormalizeAddr(m.url) == NormalizeAddr(advertise)
    || m.name in t || AtSameAddr(t, m.url)
    || Probe(net, m.url).None? || Probe(net, m.url) == Some(self) || Probe(net, m.url).value in t
  }

  /** A member or an announce whose URL only spells a known address in another way is taken for known. */
  lemma OtherSpelling(t: Table, known: string, url: Url)
    requires known in t && t[known].url.host != "" && ':' !in url.port && ':' !in t[known].url.port
    requires SameLetters(t[known].url.host, url.host) && SamePort(t[known].url, url)
    ensures AtSameAddr(t, url)
    ensures forall name :: name !in t ==> Announced(t, name, url) == t
    ensures forall net, self, advertise, name :: Accounted(net, self, advertise, t, Member(name, url))
  {
    SameAddr(t[known].url, url);
  }

  /** So a pass adds no second row for an address however it is spelled. */
  lemma PassAddsNoTwin(net: Network, self: string, advertise: Url, t: Table, t': Table, known: string, r: string)
    requires Gossiped(net, self, advertise, t, t') && known in t && Survives(net, self, t[known])
    requires r in t' && r !in t && t[known].url.host != ""
    requires ':' !in t[known].url.port && ':' !in t'[r].url.port
    ensures !(SameLetters(t[known].url.host, t'[r].url.host) && SamePort(t[known].url, t'[r].url))
  {
    var base := Healed(net, self, t);
    assert known in base && base[known] == t[known] && r !in base;
    SameAddr(t[known].url, t'[r].url);
  }

  // ----- a whole pass -----

  /** A URL that some usable peer lists. */
  ghost predicate ListedBy(net: Network, t: Table, q: string, m: Member) {
    q in t && t[q].enabled && net.members(t[q]).Some? && m in net.members(t[q]).value
  }

  /** `now` is `base` plus rows discovered at URLs that peers in `from` list. */
  ghost predicate Grown(net: Network, self: string, from: Table, base: Table, now: Table) {
    && (forall n :: n in base ==> n in now && now[n] == base[n])
    && (forall n :: n in now && n !in base ==>
                      && now[n] == NewPeer(now[n].url, "") && Probe(net, now[n].url) == Some(n) && n != self
                      && NormalizeAddr(now[n].url).Some?
                      && exists q, m :: ListedBy(net, from, q, m) && m.url == now[n].url)
    && (forall n, r :: n in now && n !in base && r in now && r != n ==>
                         NormalizeAddr(now[n].url) != NormalizeAddr(now[r].url))
  }

  /** The table after a gossip pass. */
  ghost predicate Gossiped(net: Network, self: string, advertise: Url, t: Table, t': Table) {
    && Grown(net, self, Healed(net, self, t), Healed(net, self, t), t')
    && forall q, m :: ListedBy(net, Healed(net, self, t), q, m) ==> Accounted(net, self, advertise, t', m)
  }

  lemma GrownByDiscovery(net: Network, self: string, from: Table, base: Table, now: Table, q: string, m: Member, row: Row)
    requires Grown(net, self, from, base, now) && ListedBy(net, from, q, m)
    requires Discovered(net, self, now, m.url, row)
    ensures Grown(net, self, from, base, now[row.name := row.peer])
  {
    var next := now[row.name := row.peer];
    hide ListedBy;
    hide Probe;
    hide NormalizeAddr;
    forall n | n in next && n !in base
      ensures exists q, m :: ListedBy(net, from, q, m) && m.url == next[n].url
    {
      if n != row.name {
        assert n in now;
      }
    }
  }

  /** What needs no row still needs none when rows are added; a row just added settles its member. */
  lemma AccountedGrows(net: Network, self: string, advertise: Url, t: Table, t': Table, m: Member)
    requires forall n :: n in t ==> n in t' && t'[n] == t[n]
    requires Accounted(net, self, advertise, t, m) ||
             (Probe(net, m.url).Some? && Probe(net, m.url).value in t')
    ensures Accounted(net, self, advertise, t', m)
  {}

  // ----- announces -----

  /** Refresh a known name; create an unknown one unless its address is already represented. */
  ghost function Announced(t: Table, name: string, url: Url): Table {
    if name == "" || url.raw == "" then t
    else if name !in t && AtSameAddr(t, url) then t
    else Upsert(t, name, url, "")
  }

  /** An announce changes the URL of a known name, adds a fresh row for an unknown one whose address is not
      represented, and touches nothing else. */
  lemma AnnouncedExactly(t: Table, name: string, url: Url)
    ensures var t' := Announced(t, name, url);
            && (forall r :: r in t && r != name ==> r in t' && t'[r] == t[r])
            && (name in t && name != "" && url.raw != "" ==>
                  t' == t[name := Peer(url, t[name].secret, t[name].status, t[name].lastSeen, t[name].lastError, t[name].enabled)])
            && (name !in t && name != "" && url.raw != "" && !AtSameAddr(t, url) ==>
                  t' == t[name := Peer(url, "", "unknown", 0, "", true)])
            && (name == "" || url.raw == "" || (name !in t && AtSameAddr(t, url)) ==> t' == t)
  {}

  class Node {
    const selfName: string
    const advertise: Url
    const clusterSecret: string
    var peers: Table
    var fallback: string

    constructor (selfName: string, advertise: Url, clusterSecret: string)
      ensures this.selfName == selfName && this.advertise == advertise && this.clusterSecret == clusterSecret
      ensures peers == map[] && fallback == ""
    {
      this.selfName, this.advertise, this.clusterSecret := selfName, advertise, clusterSecret;
      peers, fallback := map[], "";
    }

    method ListPeers() returns (rows: seq<Row>)
      ensures Lists(peers, rows)
    {
      rows := [];
      var todo := peers.Keys;
      ghost var done: Table := map[];
      while todo != {}
        invariant todo <= peers.Keys
        invariant done == map n | n in peers && n !in todo :: peers[n]
        invariant Lists(done, rows)
        decreases todo
      {
        var n :| n in todo;
        ListsAppend(done, rows, n, peers[n]);
        todo := todo - {n};
        rows := rows + [Row(n, peers[n])];
        done := done[n := peers[n]];
      }
      assert peers == done;
    }

    /** Drop the secretless rows whose URL answers as this node. */
    method SelfHeal(net: Network, known: seq<Row>) returns (kept: seq<Row>)
      requires Lists(peers, known)
      modifies this`peers
      ensures peers == Healed(net, selfName, old(peers)) && Lists(peers, kept)
      ensures selfName != "" ==> forall n, p: Peer :: n in old(peers) && old(peers)[n] == p ==>
                                                        (n !in peers <==> p.secret == "" && p.url.raw != "" && net.whoami(p.url) == Some(selfName))
    {
      hide Healed;
      hide Lists;
      kept := [];
      ghost var seen: Table, gone: set<string> := map[], {};
      StartOfList(net, selfName, peers, known);
      for i := 0 to |known|
        invariant Prefix(old(peers), known, i, seen)
        invariant Lists(Healed(net, selfName, seen), kept)
        invariant gone == seen.Keys - Healed(net, selfName, seen).Keys
        invariant peers == old(peers) - gone
      {
        var k := known[i];
        NextOfList(old(peers), known, i, seen);
        HealNext(net, selfName, seen, k);
        ghost var healed := Healed(net, selfName, seen);
        seen := seen[k.name := k.peer];
        if IsSelf(net, k.peer) {
          peers := peers - {k.name};
          gone := gone + {k.name};
        } else {
          ListsAppend(healed, kept, k.name, k.peer);
          kept := kept + [k];
        }
      }
      EndOfList(net, selfName, old(peers), known, seen);
      if selfName != "" {
        forall n, p: Peer | n in old(peers) && old(peers)[n] == p
          ensures n !in peers <==> p.secret == "" && p.url.raw != "" && net.whoami(p.url) == Some(selfName)
        {
          HealsExactly(net, selfName, old(peers), n);
        }
      }
    }

    predicate IsSelf(net: Network, p: Peer)
      ensures IsSelf(net, p) <==> !Survives(net, selfName, p)
    {
      p.secret == "" && p.url.raw != "" && Probe(net, p.url) == Some(selfName)
    }

    /** Add m if it is genuinely new, reachable and not this node. */
    method ConsiderMember(net: Network, m: Member, known: seq<Row>) returns (added: Option<Row>)
      requires Lists(peers, known)
      modifies this`peers
      ensures added.None? ==> peers == old(peers) && Accounted(net, selfName, advertise, peers, m)
      ensures added.Some? ==>
                && Discovered(net, selfName, old(peers), m.url, added.value)
                && peers == old(peers)[added.value.name := added.value.peer]
    {
      var memAddr := NormalizeAddr(m.url);
      if m.name == "" || memAddr.None? || m.name == selfName || memAddr == NormalizeAddr(advertise) {
        return None;
      }
      for i := 0 to |known|
        invariant forall j :: 0 <= j < i ==> known[j].name != m.name && NormalizeAddr(known[j].peer.url) != memAddr
      {
        if known[i].name == m.name || NormalizeAddr(known[i].peer.url) == memAddr {
          return None;
        }
      }
      var canonical := Probe(net, m.url);
      if canonical.None? || canonical.value == selfName {
        return None;
      }
      for i := 0 to |known|
        invariant forall j :: 0 <= j < i ==> known[j].name != canonical.value
      {
        if known[i].name == canonical.value {
          return None;
        }
      }
      assert canonical.value !in peers;
      peers := Upsert(peers, canonical.value, m.url, "");
      added := Some(Row(canonical.value, NewPeer(m.url, "")));
    }

    /** One gossip pass: self-heal, then consider every member every usable peer lists. */
    method GossipPass(net: Network)
      modifies this`peers
      ensures Gossiped(net, selfName, advertise, old(peers), peers)
    {
      hide Lists;
      hide Accounted;
      hide Grown;
      var known := ListPeers();
      known := SelfHeal(net, known);
      ghost var base := peers;
      var walk := known;
      NothingGrown(net, selfName, base);
      for i := 0 to |walk|
        invariant Lists(peers, known) && Lists(base, walk)
        invariant Extends(base, peers) && Grown(net, selfName, base, base, peers)
        invariant forall q, m :: ListedBy(net, base, q, m) && AmongFirst(walk, i, q) ==>
                                   Accounted(net, selfName, advertise, peers, m)
      {
        RowOf(base, walk, i);
        var before := peers;
        if walk[i].peer.enabled && net.members(walk[i].peer).Some? {
          known := ConsiderAll(net, walk[i].name, net.members(walk[i].peer).value, known, base);
        }
        forall q, m | ListedBy(net, base, q, m) && AmongFirst(walk, i + 1, q)
          ensures Accounted(net, selfName, advertise, peers, m)
        {
          if AmongFirst(walk, i, q) {
            AccountedGrows(net, selfName, advertise, before, peers, m);
          } else {
            assert q == walk[i].name;
          }
        }
      }
      forall q, m | ListedBy(net, base, q, m) ensures Accounted(net, selfName, advertise, peers, m) {
        AllAmong(base, walk, q);
      }
    }

    /** Every member one peer lists. */
    method ConsiderAll(net: Network, q: string, members: seq<Member>, known0: seq<Row>, ghost base: Table)
      returns (known: seq<Row>)
      requires Lists(peers, known0) && Extends(base, peers) && Grown(net, selfName, base, base, peers)
      requires forall m :: m in members ==> ListedBy(net, base, q, m)
      modifies this`peers
      ensures Lists(peers, known) && Extends(base, peers) && Extends(old(peers), peers)
      ensures Grown(net, selfName, base, base, peers)
      ensures forall m :: m in members ==> Accounted(net, selfName, advertise, peers, m)
    {
      hide Lists;
      hide Grown;
      hide Accounted;
      known := known0;
      for k := 0 to |members|
        invariant Lists(peers, known) && Extends(base, peers) && Extends(old(peers), peers)
        invariant Grown(net, selfName, base, base, peers)
        invariant forall j :: 0 <= j < k ==> Accounted(net, selfName, advertise, peers, members[j])
      {
        var m := members[k];
        assert m in members;
        ghost var before := peers;
        var added := ConsiderMember(net, m, known);
        if added.Some? {
          GrownByDiscovery(net, selfName, base, base, before, q, m, added.value);
          ListsAppend(before, known, added.value.name, added.value.peer);
          known := known + [added.value];
          AccountedGrows(net, selfName, advertise, before, peers, m);
          forall j | 0 <= j < k ensures Accounted(net, selfName, advertise, peers, members[j]) {
            AccountedGrows(net, selfName, advertise, before, peers, members[j]);
          }
        }
      }
    }

    /** A peer announces itself. */
    method HandleAnnounce(name: string, url: Url)
      modifies this`peers
      ensures peers == Announced(old(peers), name, url)
    {
      if name == "" || url.raw == "" {
        return;
      }
      if name !in peers {
        var rows := ListPeers();
        var dup := PeerAtSameAddr(url, rows);
        if dup.Some? {
          return;
        }
      }
      peers := Upsert(peers, name, url, "");
    }

    method PeerAtSameAddr(url: Url, rows: seq<Row>) returns (dup: Option<string>)
      requires Lists(peers, rows)
      ensures dup.Some? <==> AtSameAddr(peers, url)
      ensures dup.Some? ==> dup.value in peers && NormalizeAddr(peers[dup.value].url) == NormalizeAddr(url)
    {
      if NormalizeAddr(url).None? {
        return None;
      }
      for i := 0 to |rows|
        invariant forall j :: 0 <= j < i ==> NormalizeAddr(rows[j].peer.url) != NormalizeAddr(url)
      {
        if NormalizeAddr(rows[i].peer.url) == NormalizeAddr(url) {
          return Some(rows[i].name);
        }
      }
      dup := None;
    }

    /** The secret presented to rows that carry none, resolved once per cycle. */
    method RefreshFallback()
      modifies this`fallback
      ensures IsFallback(clusterSecret, peers, fallback)
      ensures clusterSecret != "" ==> fallback == clusterSecret
      ensures clusterSecret == "" && (forall n :: n in peers ==> peers[n].secret == "") ==> fallback == ""
      ensures clusterSecret == "" && fallback != "" ==> exists n :: n in peers && peers[n].secret == fallback
    {
      if clusterSecret != "" {
        fallback := clusterSecret;
        return;
      }
      var rows := ListPeers();
      fallback := CommonSecret(Column(rows));
      assert IsFallback(clusterSecret, peers, fallback);
      SecretsAreStored(Column(rows), fallback);
    }

    /** Whether a presented secret is one this node trusts. */
    method ValidSecret(presented: string) returns (ok: bool)
      ensures ok <==> Trusts(clusterSecret, peers, presented)
      ensures ok <==> presented != "" && (presented == clusterSecret || exists n :: n in peers && peers[n].secret == presented)
    {
      ok := false;
      var rows := ListPeers();
      for i := 0 to |rows|
        invariant ok <==> exists j :: 0 <= j < i && rows[j].peer.secret != "" && rows[j].peer.secret == presented
      {
        if rows[i].peer.secret != "" && presented == rows[i].peer.secret {
          ok := true;
        }
      }
      if clusterSecret != "" && presented == clusterSecret {
        ok := true;
      }
    }
  }

  function Column(rows: seq<Row>): seq<Peer> {
    seq(|rows|, i requires 0 <= i < |rows| => rows[i].peer)
  }

  /** The configured secret, or the one the table shares. */
  ghost predicate IsFallback(clusterSecret: string, t: Table, secret: string) {
    if clusterSecret != "" then secret == clusterSecret
    else exists rows :: Lists(t, rows) && IsCommonSecret(Secrets(Column(rows)), secret)
  }

  ghost predicate Trusts(clusterSecret: string, t: Table, presented: string) {
    presented != "" && (presented == clusterSecret || exists n :: n in t && t[n].secret == presented)
  }

  ghost predicate Extends(t: Table, t': Table) {
    forall n :: n in t ==> n in t' && t'[n] == t[n]
  }

  lemma NothingGrown(net: Network, self: string, t: Table)
    ensures Grown(net, self, t, t, t)
  {}

  ghost predicate AmongFirst(rows: seq<Row>, i: nat, n: string)
    requires i <= |rows|
  {
    exists j :: 0 <= j < i && rows[j].name == n
  }

  lemma RowOf(t: Table, rows: seq<Row>, i: nat)
    requires i < |rows| && Lists(t, rows)
    ensures rows[i].name in t && t[rows[i].name] == rows[i].peer
  {}

  lemma AllAmong(t: Table, rows: seq<Row>, n: string)
    requires Lists(t, rows) && n in t
    ensures AmongFirst(rows, |rows|, n)
  {}
}
