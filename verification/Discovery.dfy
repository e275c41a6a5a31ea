/**
 Whole cycles of real tables compute exactly the who-knows-whom cycles of Convergence, when labels
 are the nodes' own names, addresses are unique and right, everybody is enabled and reachable, and
 one secret is shared.
 */
module Discovery {
  import opened Options
  import opened PeerTable
  import opened Gossip
  import opened Cluster
  import Convergence

  /** The node that lives at this URL. */
  ghost predicate LivesAt(s: Nodes, url: Url, q: string) {
    q in s && NormalizeAddr(url).Some? && NormalizeAddr(s[q].advertise) == NormalizeAddr(url)
  }

  /** Unique, usable addresses. */
  ghost predicate Addressed(s: Nodes) {
    && (forall n :: n in s ==> n != "" && s[n].advertise.raw != "" && NormalizeAddr(s[n].advertise).Some?)
    && (forall n, m :: n in s && m in s && n != m ==> NormalizeAddr(s[n].advertise) != NormalizeAddr(s[m].advertise))
  }

  /** A row named as the node at its address. */
  ghost predicate GoodRow(s: Nodes, n: string, r: string, p: Peer) {
    r != n && p.enabled && p.url.raw != "" && LivesAt(s, p.url, r)
  }

  ghost predicate Canonical(s: Nodes) {
    Addressed(s) && forall n, r :: n in s && r in s[n].peers ==> GoodRow(s, n, r, s[n].peers[r])
  }

  /** s' differs from s in tables and fallback secrets only. */
  ghost predicate SameNodes(s: Nodes, s': Nodes) {
    s.Keys == s'.Keys && forall n :: n in s ==> s'[n].advertise == s[n].advertise
  }

  lemma SameNodesSameAddresses(s: Nodes, s': Nodes)
    requires SameNodes(s, s') && Addressed(s)
    ensures Addressed(s')
    ensures forall url, q :: LivesAt(s, url, q) <==> LivesAt(s', url, q)
  {}

  /** The conditions hold of s' if its rows and secrets are right by the addresses of s. */
  lemma Assemble(s: Nodes, s': Nodes, secret: string)
    requires Addressed(s) && SameNodes(s, s') && secret != ""
    requires forall m :: m in s' ==> MeshNode(s'[m], secret)
    requires forall m, r :: m in s' && r in s'[m].peers ==> GoodRow(s, m, r, s'[m].peers[r])
    ensures Canonical(s') && Mesh(s', secret)
  {
    hide MeshNode;
    SameNodesSameAddresses(s, s');
    hide Addressed;
    forall m, r | m in s' && r in s'[m].peers ensures GoodRow(s', m, r, s'[m].peers[r]) {
      assert GoodRow(s, m, r, s'[m].peers[r]);
    }
  }

  lemma OneNodePerAddress(s: Nodes, url: Url, q: string, r: string)
    requires Addressed(s) && LivesAt(s, url, q) && LivesAt(s, url, r)
    ensures q == r
  {}

  /** What a node's members endpoint lists: itself and its enabled peers with a URL. */
  ghost predicate IsMember(s: Nodes, q: string, m: Member)
    requires q in s
  {
    || (s[q].advertise.raw != "" && m == Member(q, s[q].advertise))
    || (m.name in s[q].peers && s[q].peers[m.name].enabled && m.url.raw != "" && m.url == s[q].peers[m.name].url)
  }

  /** The network as n finds it: calls reach whoever lives at the URL and are answered if the secret
      is accepted. */
  ghost predicate Reachable(s: Nodes, n: string, net: Network)
    requires n in s
  {
    && (forall url, q :: LivesAt(s, url, q) && Accepts(s[q], s[n].fallback) ==> net.whoami(url) == Some(q))
    && (forall p: Peer, q :: LivesAt(s, p.url, q) && Accepts(s[q], Effective(s[n], p)) ==>
                               net.members(p).Some? && forall m :: m in net.members(p).value <==> IsMember(s, q, m))
  }

  ghost function MemberList(members: set<Member>): (list: seq<Member>)
    ensures forall m :: m in list <==> m in members
  {
    if members == {} then []
    else
      var m :| m in members;
      [m] + MemberList(members - {m})
  }

  /** What q's members endpoint answers. */
  ghost function Listing(s: Nodes, q: string): (list: seq<Member>)
    requires q in s
    ensures forall m :: m in list <==> IsMember(s, q, m)
  {
    var t := s[q].peers;
    MemberList((set r | r in t && t[r].enabled && t[r].url.raw != "" :: Member(r, t[r].url)) +
               (if s[q].advertise.raw != "" then {Member(q, s[q].advertise)} else {}))
  }

  ghost function Inhabitant(s: Nodes, url: Url): Option<string> {
    if q :| LivesAt(s, url, q) then Some(q) else None
  }

  ghost function Answered(s: Nodes, p: Peer): Option<seq<Member>> {
    match Inhabitant(s, p.url)
    case None => None
    case Some(q) => if q in s then Some(Listing(s, q)) else None
  }

  /** Such a network exists around every node: the condition constrains answers, not clusters. */
  lemma ReachableExists(s: Nodes, n: string)
    requires Addressed(s) && n in s
    ensures exists net :: Reachable(s, n, net)
  {
    var net := Network(url => Inhabitant(s, url), (p: Peer) => Answered(s, p));
    forall url, q | LivesAt(s, url, q)
      ensures Inhabitant(s, url) == Some(q)
    {
      OneNodePerAddress(s, url, q, Inhabitant(s, url).value);
    }
    assert Reachable(s, n, net);
  }

  /** n announces itself over all its enabled rows. */
  ghost function Announces(s: Nodes, n: string): Nodes
    requires n in s
  {
    map q | q in s :: if ToldBy(s, n, q) then s[q].(peers := Announced(s[q].peers, n, s[n].advertise)) else s[q]
  }

  ghost predicate ToldBy(s: Nodes, n: string, q: string)
    requires n in s && q in s
  {
    exists r :: r in s[n].peers && s[n].peers[r].enabled && LivesAt(s, s[n].peers[r].url, q) &&
                Accepts(s[q], Effective(s[n], s[n].peers[r]))
  }

  /** Announcing twice is announcing once, so the order of the rows does not matter. */
  lemma AnnounceTwice(t: Table, name: string, url: Url)
    ensures Announced(Announced(t, name, url), name, url) == Announced(t, name, url)
  {}

  /** One cycle of n: resolve the fallback secret, announce, gossip. Polling leaves membership alone. */
  ghost predicate IsCycle(s: Nodes, n: string, s': Nodes) {
    && n in s
    && exists secret, net, table ::
         && IsFallback(s[n].peerSecret, s[n].peers, secret)
         && CycleVia(s, n, secret, net, table, s')
  }

  ghost predicate CycleVia(s: Nodes, n: string, secret: string, net: Network, table: Table, s': Nodes)
    requires n in s
  {
    var refreshed := s[n := s[n].(fallback := secret, started := true)];
    var told := Announces(refreshed, n);
    && Reachable(told, n, net)
    && Gossiped(net, n, told[n].advertise, told[n].peers, table)
    && s' == told[n := told[n].(peers := table)]
  }

  ghost function KnowsOf(s: Nodes): Convergence.Knows {
    map n | n in s :: s[n].peers.Keys
  }

  lemma KnowsWellFormed(s: Nodes)
    requires Canonical(s)
    ensures Convergence.WellFormed(KnowsOf(s))
  {
    forall n, r | n in s && r in s[n].peers ensures r != n && r in s {
      assert GoodRow(s, n, r, s[n].peers[r]);
    }
  }

  // ----- the announces -----

  /** q's table after n announced itself there. */
  lemma AnnouncedTable(s: Nodes, n: string, q: string)
    requires Canonical(s) && n in s && q in s && n != q
    ensures var t' := Announced(s[q].peers, n, s[n].advertise);
            && t'.Keys == s[q].peers.Keys + {n}
            && forall r :: r in t' ==> GoodRow(s, q, r, t'[r])
  {
    var t := s[q].peers;
    assert LivesAt(s, s[n].advertise, n);
    forall r | r in t && NormalizeAddr(t[r].url) == NormalizeAddr(s[n].advertise) ensures r == n {
      assert GoodRow(s, q, r, t[r]);
    }
    var t' := Announced(t, n, s[n].advertise);
    forall r | r in t' ensures GoodRow(s, q, r, t'[r]) {
      if r in t { assert GoodRow(s, q, r, t[r]); }
    }
  }

  lemma ToldAreKnown(s: Nodes, secret: string, n: string, q: string)
    requires Canonical(s) && Mesh(s, secret) && n in s && s[n].started && q in s
    ensures ToldBy(s, n, q) <==> q in s[n].peers
  {
    if q in s[n].peers {
      CallsAuthenticate(s, secret, n, q, q);
      assert GoodRow(s, n, q, s[n].peers[q]);
    }
    if r :| r in s[n].peers && LivesAt(s, s[n].peers[r].url, q) {
      assert GoodRow(s, n, r, s[n].peers[r]);
      OneNodePerAddress(s, s[n].peers[r].url, r, q);
    }
  }

  /** One node after n's announces. */
  lemma ToldNode(s: Nodes, secret: string, n: string, q: string)
    requires Canonical(s) && Mesh(s, secret) && n in s && s[n].started && q in s
    ensures var node := Announces(s, n)[q];
            && node.advertise == s[q].advertise && MeshNode(node, secret)
            && (q == n ==> node == s[n])
            && node.peers.Keys == s[q].peers.Keys + (if q in s[n].peers then {n} else {})
            && forall r :: r in node.peers ==> GoodRow(s, q, r, node.peers[r])
  {
    ToldAreKnown(s, secret, n, q);
    assert MeshNode(s[q], secret);
    if q in s[n].peers {
      assert GoodRow(s, n, q, s[n].peers[q]);
      AnnounceKeepsMesh(s[q], n, s[n].advertise, secret);
      AnnouncedTable(s, n, q);
    }
  }

  lemma AnnouncesMatch(s: Nodes, secret: string, n: string)
    requires Canonical(s) && Mesh(s, secret) && n in s && s[n].started
    ensures var told := Announces(s, n);
            && Canonical(told) && Mesh(told, secret) && n in told && told[n].started
            && KnowsOf(told) == Convergence.Announce(KnowsOf(s), n)
  {
    hide Announced;
    hide MeshNode;
    hide ToldBy;
    hide GoodRow;
    hide LivesAt;
    var told := Announces(s, n);
    forall q | q in s
      ensures told[q].advertise == s[q].advertise && MeshNode(told[q], secret)
      ensures q == n ==> told[q] == s[n]
      ensures told[q].peers.Keys == s[q].peers.Keys + (if q in s[n].peers then {n} else {})
      ensures forall r :: r in told[q].peers ==> GoodRow(s, q, r, told[q].peers[r])
    {
      ToldNode(s, secret, n, q);
    }
    Assemble(s, told, secret);
    KnowsWellFormed(s);
    AnnounceKnows(s, told, n);
  }

  lemma AnnounceKnows(s: Nodes, told: Nodes, n: string)
    requires n in s && told.Keys == s.Keys && Convergence.WellFormed(KnowsOf(s))
    requires forall q :: q in s ==> told[q].peers.Keys == s[q].peers.Keys + (if q in s[n].peers then {n} else {})
    ensures KnowsOf(told) == Convergence.Announce(KnowsOf(s), n)
  {
    assert n !in KnowsOf(s)[n];
    forall q | q in s ensures KnowsOf(told)[q] == Convergence.Announce(KnowsOf(s), n)[q] {}
  }

  // ----- the gossip pass -----

  /** Under these conditions nothing is healed away. */
  lemma NothingHealed(s: Nodes, secret: string, n: string, net: Network)
    requires Canonical(s) && Mesh(s, secret) && n in s && s[n].started && Reachable(s, n, net)
    ensures Healed(net, n, s[n].peers) == s[n].peers
  {
    forall r | r in s[n].peers ensures Survives(net, n, s[n].peers[r]) {
      CallsAuthenticate(s, secret, n, r, r);
      assert GoodRow(s, n, r, s[n].peers[r]);
    }
  }

  /** A member any node lists names a node of the cluster and its address. */
  lemma MembersAreCanonical(s: Nodes, q: string, m: Member)
    requires Canonical(s) && q in s && IsMember(s, q, m)
    ensures m.name in s && m.url.raw != "" && LivesAt(s, m.url, m.name)
    ensures m.name == q || m.name in s[q].peers
  {
    if m.name in s[q].peers && m.url == s[q].peers[m.name].url {
      assert GoodRow(s, q, m.name, s[q].peers[m.name]);
    }
  }

  /** The network answers n truthfully, whoever it asks. */
  lemma Answers(s: Nodes, secret: string, n: string, net: Network, q: string)
    requires Canonical(s) && Mesh(s, secret) && n in s && s[n].started && Reachable(s, n, net)
    requires q in s
    ensures forall url :: LivesAt(s, url, q) ==> net.whoami(url) == Some(q) && Probe(net, url) == Some(q)
    ensures q in s[n].peers ==>
              && net.members(s[n].peers[q]).Some?
              && forall m :: m in net.members(s[n].peers[q]).value <==> IsMember(s, q, m)
  {
    assert MeshNode(s[n], secret) && MeshNode(s[q], secret);
    assert Accepts(s[q], s[n].fallback);
    if q in s[n].peers {
      CallsAuthenticate(s, secret, n, q, q);
      assert GoodRow(s, n, q, s[n].peers[q]);
    }
  }

  /** n learns nothing but its peers' peers ... */
  lemma PassLearnsOnly(s: Nodes, secret: string, n: string, net: Network, t: Table, w: string)
    requires Canonical(s) && Mesh(s, secret) && n in s && s[n].started && Reachable(s, n, net)
    requires Grown(net, n, s[n].peers, s[n].peers, t) && w in t && w !in s[n].peers
    ensures GoodRow(s, n, w, t[w])
    ensures exists q :: q in s[n].peers && q in s && w in s[q].peers
  {
    hide Reachable;
    hide Mesh;
    var q, m :| ListedBy(net, s[n].peers, q, m) && m.url == t[w].url;
    assert GoodRow(s, n, q, s[n].peers[q]);
    Answers(s, secret, n, net, q);
    MembersAreCanonical(s, q, m);
    Answers(s, secret, n, net, m.name);
    assert m.name == w;
  }

  /** ... and all of them. */
  lemma PassLearnsAll(s: Nodes, secret: string, n: string, net: Network, t: Table, q: string, w: string)
    requires Canonical(s) && Mesh(s, secret) && n in s && s[n].started && Reachable(s, n, net)
    requires Grown(net, n, s[n].peers, s[n].peers, t)
    requires forall q, m :: ListedBy(net, s[n].peers, q, m) ==> Accounted(net, n, s[n].advertise, t, m)
    requires q in s[n].peers && q in s && w in s[q].peers && w != n
    ensures w in t
  {
    hide Reachable;
    hide Mesh;
    var m := Member(w, s[q].peers[w].url);
    assert GoodRow(s, n, q, s[n].peers[q]) && GoodRow(s, q, w, s[q].peers[w]);
    assert IsMember(s, q, m);
    Answers(s, secret, n, net, q);
    assert ListedBy(net, s[n].peers, q, m);
    Answers(s, secret, n, net, w);
    if w !in t && AtSameAddr(t, m.url) {
      var r :| r in t && NormalizeAddr(t[r].url) == NormalizeAddr(m.url);
      assert LivesAt(s, t[r].url, w);
      if r in s[n].peers {
        assert GoodRow(s, n, r, s[n].peers[r]);
        OneNodePerAddress(s, t[r].url, r, w);
      }
    }
  }

  lemma PassTable(s: Nodes, secret: string, n: string, net: Network, t: Table)
    requires Canonical(s) && Mesh(s, secret) && n in s && s[n].started && Reachable(s, n, net)
    requires Gossiped(net, n, s[n].advertise, s[n].peers, t)
    ensures forall r :: r in t ==> GoodRow(s, n, r, t[r])
    ensures t.Keys == Convergence.Gossip(KnowsOf(s), n)[n]
  {
    hide Reachable;
    hide Mesh;
    hide Accounted;
    hide ListedBy;
    hide Grown;
    NothingHealed(s, secret, n, net);
    GrownKeeps(net, n, s[n].peers, t);
    var k := KnowsOf(s);
    forall w ensures w in t <==> w in Convergence.Gossip(k, n)[n] {
      if w in t && w !in s[n].peers {
        PassLearnsOnly(s, secret, n, net, t, w);
        var q :| q in s[n].peers && q in s && w in s[q].peers;
        assert q in k[n] && w in Convergence.Of(k, q);
      }
      if w !in s[n].peers && w in Convergence.Gossip(k, n)[n] {
        var q :| q in k[n] && w in Convergence.Of(k, q);
        PassLearnsAll(s, secret, n, net, t, q, w);
      }
    }
    forall r | r in t ensures GoodRow(s, n, r, t[r]) {
      if r in s[n].peers {
        assert GoodRow(s, n, r, s[n].peers[r]);
      } else {
        PassLearnsOnly(s, secret, n, net, t, r);
      }
    }
  }

  lemma GrownKeeps(net: Network, n: string, base: Table, t: Table)
    requires Grown(net, n, base, base, t)
    ensures forall r :: r in base ==> r in t && t[r] == base[r]
  {}

  lemma WithTable(s: Nodes, secret: string, n: string, t: Table)
    requires Canonical(s) && Mesh(s, secret) && n in s && MeshNode(s[n].(peers := t), secret)
    requires forall r :: r in t ==> GoodRow(s, n, r, t[r])
    ensures Canonical(s[n := s[n].(peers := t)]) && Mesh(s[n := s[n].(peers := t)], secret)
    ensures KnowsOf(s[n := s[n].(peers := t)]) == KnowsOf(s)[n := t.Keys]
  {
    hide GoodRow;
    hide MeshNode;
    Assemble(s, s[n := s[n].(peers := t)], secret);
  }

  lemma PassMatches(s: Nodes, secret: string, n: string, net: Network, t: Table)
    requires Canonical(s) && Mesh(s, secret) && n in s && s[n].started && Reachable(s, n, net)
    requires Gossiped(net, n, s[n].advertise, s[n].peers, t)
    ensures var s' := s[n := s[n].(peers := t)];
            && Canonical(s') && Mesh(s', secret)
            && KnowsOf(s') == Convergence.Gossip(KnowsOf(s), n)
  {
    hide Reachable;
    hide Gossiped;
    hide Canonical;
    hide MeshNode;
    PassKeepsMesh(s[n], n, net, t, secret);
    PassTable(s, secret, n, net, t);
    WithTable(s, secret, n, t);
    assert KnowsOf(s)[n := t.Keys] == Convergence.Gossip(KnowsOf(s), n);
  }

  // ----- cycles and rounds -----

  lemma CycleMatches(s: Nodes, secret: string, n: string, s': Nodes)
    requires Canonical(s) && Mesh(s, secret) && IsCycle(s, n, s')
    ensures Canonical(s') && Mesh(s', secret)
    ensures KnowsOf(s') == Convergence.Cycle(KnowsOf(s), n)
  {
    hide Gossiped;
    hide Reachable;
    hide Announces;
    var f, net, table :| IsFallback(s[n].peerSecret, s[n].peers, f) && CycleVia(s, n, f, net, table, s');
    var refreshed := s[n := s[n].(fallback := f, started := true)];
    RefreshMatches(s, secret, n, f);
    AnnouncesMatch(refreshed, secret, n);
    PassMatches(Announces(refreshed, n), secret, n, net, table);
  }

  lemma RefreshMatches(s: Nodes, secret: string, n: string, f: string)
    requires Canonical(s) && Mesh(s, secret) && n in s && IsFallback(s[n].peerSecret, s[n].peers, f)
    ensures var refreshed := s[n := s[n].(fallback := f, started := true)];
            && Canonical(refreshed) && Mesh(refreshed, secret) && KnowsOf(refreshed) == KnowsOf(s)
  {
    hide GoodRow;
    hide IsFallback;
    hide LivesAt;
    var refreshed := s[n := s[n].(fallback := f, started := true)];
    assert MeshNode(s[n], secret);
    FallbackIsShared(s[n], secret, f);
    RefreshKeepsNode(s[n], secret);
    hide MeshNode;
    Assemble(s, refreshed, secret);
  }

  lemma RefreshKeepsNode(node: NodeState, secret: string)
    requires MeshNode(node, secret)
    ensures MeshNode(node.(fallback := secret, started := true), secret)
  {}

  /** The nodes' cycles in the order of `turns`. */
  ghost predicate AreCycles(states: seq<Nodes>, turns: seq<string>) {
    && |states| == |turns| + 1
    && forall i :: 0 <= i < |turns| ==> IsCycle(states[i], turns[i], states[i + 1])
  }

  lemma {:induction false} CyclesMatch(states: seq<Nodes>, turns: seq<string>, secret: string)
    requires AreCycles(states, turns) && Canonical(states[0]) && Mesh(states[0], secret)
    ensures Canonical(states[|turns|]) && Mesh(states[|turns|], secret)
    ensures KnowsOf(states[|turns|]) == Convergence.Round(KnowsOf(states[0]), turns)
  {
    hide Canonical;
    hide Mesh;
    hide IsCycle;
    hide Convergence.Cycle;
    if turns != [] {
      var n := |turns| - 1;
      CyclesMatch(states[..n + 1], turns[..n], secret);
      CycleMatches(states[n], secret, turns[n], states[n + 1]);
    }
  }

  function Flatten(orders: seq<seq<string>>): seq<string> {
    if orders == [] then [] else Flatten(orders[..|orders| - 1]) + orders[|orders| - 1]
  }

  lemma {:induction false} RoundConcat(k: Convergence.Knows, a: seq<string>, b: seq<string>)
    ensures Convergence.Round(k, a + b) == Convergence.Round(Convergence.Round(k, a), b)
  {
    hide Convergence.Cycle;
    if b == [] {
      assert a + b == a;
    } else {
      RoundConcat(k, a, b[..|b| - 1]);
      assert (a + b)[..|a + b| - 1] == a + b[..|b| - 1];
    }
  }

  lemma {:induction false} RoundsFlatten(k: Convergence.Knows, orders: seq<seq<string>>)
    ensures Convergence.Rounds(k, orders) == Convergence.Round(k, Flatten(orders))
  {
    if orders != [] {
      RoundsFlatten(k, orders[..|orders| - 1]);
      RoundConcat(k, Flatten(orders[..|orders| - 1]), orders[|orders| - 1]);
    }
  }

  /** j + 1 full rounds of the real code put any two nodes at undirected distance up to 2^j into each
      other's tables, whatever the order of the turns. */
  lemma ClusterDiscovers(states: seq<Nodes>, orders: seq<seq<string>>, secret: string, j: nat, u: string, v: string, d: nat)
    requires AreCycles(states, Flatten(orders)) && Canonical(states[0]) && Mesh(states[0], secret)
    requires Convergence.AllFull(orders, KnowsOf(states[0])) && |orders| > j
    requires Convergence.Near(KnowsOf(states[0]), u, v, d) && d <= Convergence.Pow2(j) && u != v
    ensures var last := states[|states| - 1];
            u in last && v in last && v in last[u].peers && u in last[v].peers
  {
    var k := KnowsOf(states[0]);
    KnowsWellFormed(states[0]);
    Convergence.MembersMeet(k, orders, j, u, v, d);
    RoundsFlatten(k, orders);
    CyclesMatch(states, Flatten(orders), secret);
  }

  /** No node ever lists itself, nor any node its component had no link to at the start. */
  lemma ClusterStaysApart(states: seq<Nodes>, turns: seq<string>, secret: string, component: set<string>, n: string)
    requires AreCycles(states, turns) && Canonical(states[0]) && Mesh(states[0], secret)
    requires Convergence.Apart(KnowsOf(states[0]), component) && n in component && n in states[|turns|]
    ensures states[|turns|][n].peers.Keys <= component - {n}
  {
    CyclesMatch(states, turns, secret);
    Convergence.RoundStaysApart(KnowsOf(states[0]), turns, component);
    assert n in KnowsOf(states[|turns|]);
  }

  // ----- a cycle is a run of the cluster -----

  /** The cluster's own steps lead from s to t. */
  ghost predicate Reaches(s: Nodes, t: Nodes) {
    exists states, events :: Leads(s, states, events, t)
  }

  ghost predicate Leads(s: Nodes, states: seq<Nodes>, events: seq<Event>, t: Nodes) {
    IsRun(states, events) && states[0] == s && states[|states| - 1] == t
  }

  lemma ReachesSelf(s: Nodes)
    ensures Reaches(s, s)
  {
    assert Leads(s, [s], [], s);
  }

  lemma ReachesOn(s: Nodes, t: Nodes, e: Event)
    requires Reaches(s, t) && Enabled(t, e)
    ensures Reaches(s, Apply(t, e))
  {
    var states, events :| Leads(s, states, events, t);
    LeadsOn(s, states, events, t, e);
  }

  lemma LeadsOn(s: Nodes, states: seq<Nodes>, events: seq<Event>, t: Nodes, e: Event)
    requires Leads(s, states, events, t) && Enabled(t, e)
    ensures Leads(s, states + [Apply(t, e)], events + [e], Apply(t, e))
  {
    var states', events' := states + [Apply(t, e)], events + [e];
    hide Enabled;
    hide Apply;
    forall i | 0 <= i < |events'|
      ensures Enabled(states'[i], events'[i]) && states'[i + 1] == Apply(states'[i], events'[i])
    {
      if i < |events| {
        assert states'[i] == states[i] && states'[i + 1] == states[i + 1];
      }
    }
  }

  /** n's announces have reached these nodes. */
  ghost function ToldSet(s: Nodes, n: string, qs: set<string>): Nodes
    requires n in s
  {
    map q | q in s :: if q in qs then s[q].(peers := Announced(s[q].peers, n, s[n].advertise)) else s[q]
  }

  lemma {:induction false} TellRun(s0: Nodes, s: Nodes, n: string, qs: set<string>)
    requires Reaches(s0, s) && n in s && s[n].started && n !in qs && forall q :: q in qs ==> q in s && ToldBy(s, n, q)
    ensures Reaches(s0, ToldSet(s, n, qs))
    decreases |qs|
  {
    hide Reaches;
    hide ToldBy;
    if qs == {} {
      assert ToldSet(s, n, qs) == s;
    } else {
      var q :| q in qs;
      TellRun(s0, s, n, qs - {q});
      TellOne(s0, s, ToldSet(s, n, qs - {q}), n, q);
      TellMore(s, n, qs, q);
    }
  }

  lemma TellMore(s: Nodes, n: string, qs: set<string>, q: string)
    requires n in s && q in qs && q in s
    ensures ToldSet(s, n, qs - {q})[q := s[q].(peers := Announced(s[q].peers, n, s[n].advertise))] == ToldSet(s, n, qs)
  {
    hide Announced;
  }

  /** The announce to q goes through as long as nobody has touched n and q. */
  lemma TellOne(s0: Nodes, s: Nodes, before: Nodes, n: string, q: string)
    requires Reaches(s0, before) && n in s && s[n].started && q in s && ToldBy(s, n, q) && before.Keys == s.Keys
    requires before[n] == s[n] && before[q] == s[q]
    ensures Reaches(s0, before[q := s[q].(peers := Announced(s[q].peers, n, s[n].advertise))])
  {
    var r :| r in s[n].peers && s[n].peers[r].enabled && LivesAt(s, s[n].peers[r].url, q) &&
             Accepts(s[q], Effective(s[n], s[n].peers[r]));
    hide Reaches;
    hide Announced;
    ReachesOn(s0, before, Announce(n, r, q));
  }

  /** Announcing over all rows at once is announcing row by row, to itself last. */
  lemma AnnouncesRun(s0: Nodes, s: Nodes, n: string)
    requires Reaches(s0, s) && n in s && s[n].started
    ensures Reaches(s0, Announces(s, n))
  {
    hide ToldBy;
    hide Reaches;
    hide Announced;
    var qs := set q | q in s && q != n && ToldBy(s, n, q);
    TellRun(s0, s, n, qs);
    if ToldBy(s, n, n) {
      TellOne(s0, s, ToldSet(s, n, qs), n, n);
      assert ToldSet(s, n, qs)[n := s[n].(peers := Announced(s[n].peers, n, s[n].advertise))] == Announces(s, n);
    } else {
      assert ToldSet(s, n, qs) == Announces(s, n);
    }
  }

  /** A cycle is a run of the cluster's own steps: the secret, the announces one by one, and the pass. */
  lemma CycleIsRun(s: Nodes, n: string, s': Nodes)
    requires IsCycle(s, n, s')
    ensures Reaches(s, s')
  {
    hide Announces;
    hide Gossiped;
    hide Reachable;
    hide Reaches;
    hide IsFallback;
    var secret, net, table :| IsFallback(s[n].peerSecret, s[n].peers, secret) && CycleVia(s, n, secret, net, table, s');
    var refreshed := s[n := s[n].(fallback := secret, started := true)];
    ReachesSelf(s);
    ReachesOn(s, s, Refresh(n, secret));
    AnnouncesRun(s, refreshed, n);
    StaysStarted(refreshed, n);
    ReachesOn(s, Announces(refreshed, n), Pass(n, net, table));
  }

  lemma StaysStarted(s: Nodes, n: string)
    requires n in s && s[n].started
    ensures n in Announces(s, n) && Announces(s, n)[n].started && Announces(s, n).Keys == s.Keys
  {}

  // ----- cycles that interleave -----

  /** A step of the nodes themselves on a network that answers truthfully. */
  ghost predicate Honest(s: Nodes, e: Event) {
    && Enabled(s, e)
    && match e
       case Announce(n, row, to) => LivesAt(s, s[n].peers[row].url, to)
       case Pass(n, net, _) => Reachable(s, n, net)
       case Refresh(_, _) => true
       case Poll(_, _, _, _, _) => true
       case _ => false
  }

  function MoveOf(e: Event): Convergence.Move {
    match e
    case Announce(n, _, to) => Convergence.Tell(n, to)
    case Pass(n, _, _) => Convergence.Learn(n)
    case _ => Convergence.Rest
  }

  function MovesOf(events: seq<Event>): seq<Convergence.Move> {
    seq(|events|, i requires 0 <= i < |events| => MoveOf(events[i]))
  }

  lemma TellMatches(s: Nodes, secret: string, n: string, row: string, to: string)
    requires Canonical(s) && Mesh(s, secret) && Honest(s, Announce(n, row, to))
    ensures var s' := Apply(s, Announce(n, row, to));
            && Canonical(s') && Mesh(s', secret) && row == to
            && KnowsOf(s') == Convergence.Do(KnowsOf(s), Convergence.Tell(n, to))
  {
    assert GoodRow(s, n, row, s[n].peers[row]);
    OneNodePerAddress(s, s[n].peers[row].url, row, to);
    AnnouncedTable(s, n, to);
    assert MeshNode(s[to], secret);
    hide *;
    AnnounceKeepsMesh(s[to], n, s[n].advertise, secret);
    TellKnows(s, secret, n, to);
  }

  lemma TellKnows(s: Nodes, secret: string, n: string, to: string)
    requires Canonical(s) && Mesh(s, secret) && n in s && to in s && n != to && to in s[n].peers
    requires MeshNode(s[to].(peers := Announced(s[to].peers, n, s[n].advertise)), secret)
    requires Announced(s[to].peers, n, s[n].advertise).Keys == s[to].peers.Keys + {n}
    requires forall r :: r in Announced(s[to].peers, n, s[n].advertise) ==> GoodRow(s, to, r, Announced(s[to].peers, n, s[n].advertise)[r])
    ensures var s' := s[to := s[to].(peers := Announced(s[to].peers, n, s[n].advertise))];
            && Canonical(s') && Mesh(s', secret) && KnowsOf(s') == Convergence.Do(KnowsOf(s), Convergence.Tell(n, to))
  {
    hide Announced;
    hide Canonical;
    hide Mesh;
    hide MeshNode;
    hide GoodRow;
    WithTable(s, secret, to, Announced(s[to].peers, n, s[n].advertise));
  }

  lemma PolledTable(s: Nodes, n: string, t: Table, row: string, status: string, lastSeen: int, err: string)
    requires Canonical(s) && n in s && row in s[n].peers && t == SetPeerStatus(s[n].peers, row, status, lastSeen, err)
    ensures t.Keys == s[n].peers.Keys && forall r :: r in t ==> GoodRow(s, n, r, t[r])
    ensures forall r :: r in t ==> t[r].secret == s[n].peers[r].secret
  {
    hide LivesAt;
    forall r | r in t ensures GoodRow(s, n, r, t[r]) {
      assert GoodRow(s, n, r, s[n].peers[r]);
    }
  }

  lemma PollMatches(s: Nodes, secret: string, n: string, t: Table)
    requires Canonical(s) && Mesh(s, secret) && n in s && t.Keys == s[n].peers.Keys
    requires forall r :: r in t ==> GoodRow(s, n, r, t[r]) && t[r].secret == s[n].peers[r].secret
    ensures var s' := s[n := s[n].(peers := t)];
            Canonical(s') && Mesh(s', secret) && KnowsOf(s') == KnowsOf(s)
  {
    hide Canonical;
    hide GoodRow;
    assert MeshNode(s[n], secret);
    SecretsSurvive(s[n], t, secret);
    hide MeshNode;
    WithTable(s, secret, n, t);
    assert KnowsOf(s)[n := t.Keys] == KnowsOf(s);
  }

  /** One step, however the steps of the nodes interleave. */
  lemma EventMatches(s: Nodes, secret: string, e: Event)
    requires Canonical(s) && Mesh(s, secret) && Honest(s, e)
    ensures var s' := Apply(s, e);
            && Canonical(s') && Mesh(s', secret) && s'.Keys == s.Keys
            && KnowsOf(s') == Convergence.Do(KnowsOf(s), MoveOf(e))
  {
    hide Canonical;
    hide Mesh;
    hide Gossiped;
    hide Reachable;
    match e {
      case Refresh(n, f) => RefreshMatches(s, secret, n, f);
      case Announce(n, row, to) => TellMatches(s, secret, n, row, to);
      case Pass(n, net, table) => PassMatches(s, secret, n, net, table);
      case Poll(n, row, status, lastSeen, err) =>
        var t := SetPeerStatus(s[n].peers, row, status, lastSeen, err);
        PolledTable(s, n, t, row, status, lastSeen, err);
        PollMatches(s, secret, n, t);
    }
  }

  ghost predicate HonestRun(states: seq<Nodes>, events: seq<Event>) {
    IsRun(states, events) && forall i :: 0 <= i < |events| ==> Honest(states[i], events[i])
  }

  lemma HonestStep(states: seq<Nodes>, events: seq<Event>, i: nat)
    requires HonestRun(states, events) && i < |events|
    ensures |states| == |events| + 1 && Honest(states[i], events[i]) && states[i + 1] == Apply(states[i], events[i])
  {
    hide Enabled;
    hide Apply;
  }

  lemma OneMore(events: seq<Event>, from: nat, to: nat, k: Convergence.Knows)
    requires from < to <= |events|
    ensures Convergence.DoAll(k, MovesOf(events[from..to])) ==
            Convergence.Do(Convergence.DoAll(k, MovesOf(events[from..to - 1])), MoveOf(events[to - 1]))
  {
    hide MoveOf;
    hide Convergence.Do;
    var moves := MovesOf(events[from..to]);
    assert moves[..|moves| - 1] == MovesOf(events[from..to - 1]);
  }

  lemma {:induction false} RunMatches(states: seq<Nodes>, events: seq<Event>, secret: string, from: nat, to: nat)
    requires HonestRun(states, events) && from <= to < |states| && Canonical(states[from]) && Mesh(states[from], secret)
    requires |states| == |events| + 1
    ensures Canonical(states[to]) && Mesh(states[to], secret) && states[to].Keys == states[from].Keys
    ensures KnowsOf(states[to]) == Convergence.DoAll(KnowsOf(states[from]), MovesOf(events[from..to]))
  {
    hide Canonical;
    hide Mesh;
    hide Honest;
    hide HonestRun;
    hide Apply;
    hide KnowsOf;
    hide MovesOf;
    if from < to {
      RunMatches(states, events, secret, from, to - 1);
      HonestStep(states, events, to - 1);
      EventMatches(states[to - 1], secret, events[to - 1]);
      OneMore(events, from, to, KnowsOf(states[from]));
    } else {
      assert MovesOf(events[from..to]) == [] by { NoMoves(events, from); }
    }
  }

  lemma NoMoves(events: seq<Event>, i: nat)
    requires i <= |events|
    ensures MovesOf(events[i..i]) == []
  {}

  /** Between these two moments every node announces itself over each row it had at the first, and gossips
      at least once; in which order, and what else happens meanwhile, is open. */
  ghost predicate Window(states: seq<Nodes>, events: seq<Event>, from: nat, to: nat)
    requires from <= to <= |events| < |states|
  {
    forall n, q | n in states[from] && q in states[from][n].peers ::
      Convergence.Tell(n, q) in MovesOf(events[from..to]) && Convergence.Learn(n) in MovesOf(events[from..to])
  }

  /** The run is cut into windows at these moments. */
  ghost predicate Cuts(states: seq<Nodes>, events: seq<Event>, cuts: seq<nat>)
    requires |events| < |states|
  {
    && cuts != [] && cuts[0] == 0
    && (forall i :: 0 <= i < |cuts| ==> cuts[i] <= |events|)
    && (forall i :: 0 < i < |cuts| ==> cuts[i - 1] <= cuts[i] && Window(states, events, cuts[i - 1], cuts[i]))
  }

  lemma WindowMatches(states: seq<Nodes>, events: seq<Event>, secret: string, from: nat, to: nat)
    requires HonestRun(states, events) && from <= to <= |events| && Canonical(states[from]) && Mesh(states[from], secret)
    requires Window(states, events, from, to)
    ensures Convergence.Advances(KnowsOf(states[from]), KnowsOf(states[to]))
  {
    HonestShape(states, events);
    RunMatches(states, events, secret, from, to);
    KnowsWellFormed(states[from]);
    hide *;
    WindowCompletes(states, events, from, to);
    Convergence.WindowAdvances(KnowsOf(states[from]), MovesOf(events[from..to]));
  }

  lemma WindowCompletes(states: seq<Nodes>, events: seq<Event>, from: nat, to: nat)
    requires from <= to <= |events| < |states| && Window(states, events, from, to)
    ensures Convergence.Complete(KnowsOf(states[from]), MovesOf(events[from..to]))
  {
    var s := states[from];
    forall n, q | n in KnowsOf(s) && q in KnowsOf(s)[n]
      ensures Convergence.Tell(n, q) in MovesOf(events[from..to]) && Convergence.Learn(n) in MovesOf(events[from..to])
    {
      assert q in s[n].peers;
    }
  }

  /** However the announces, passes and polls of all nodes interleave: after j + 1 windows any two nodes at
      undirected distance up to 2^j are in each other's tables. */
  lemma InterleavedDiscovers(states: seq<Nodes>, events: seq<Event>, cuts: seq<nat>, secret: string,
                             j: nat, u: string, v: string, d: nat)
    requires HonestRun(states, events) && Canonical(states[0]) && Mesh(states[0], secret)
    requires Cuts(states, events, cuts) && |cuts| > j + 1
    requires Convergence.Near(KnowsOf(states[0]), u, v, d) && d <= Convergence.Pow2(j) && u != v
    ensures var last := states[cuts[|cuts| - 1]];
            u in last && v in last && v in last[u].peers && u in last[v].peers
  {
    hide Canonical;
    hide Mesh;
    hide Window;
    hide HonestRun;
    assert |states| == |events| + 1 by { HonestShape(states, events); }
    var ks := seq(|cuts|, i requires 0 <= i < |cuts| => KnowsOf(states[cuts[i]]));
    forall i | 0 < i < |cuts| ensures Convergence.Advances(ks[i - 1], ks[i]) {
      RunMatches(states, events, secret, 0, cuts[i - 1]);
      WindowMatches(states, events, secret, cuts[i - 1], cuts[i]);
    }
    assert Convergence.Chain(ks);
    Convergence.ChainMeets(ks, j, u, v, d);
    var k := ks[|cuts| - 1];
    assert Convergence.Link(k, u, v) && Convergence.Link(k, v, u) && k == KnowsOf(states[cuts[|cuts| - 1]]);
  }

  lemma HonestShape(states: seq<Nodes>, events: seq<Event>)
    requires HonestRun(states, events)
    ensures |states| == |events| + 1
  {}

  /** And at no time does a node list itself, or a node its component had no link to. */
  lemma InterleavedStaysApart(states: seq<Nodes>, events: seq<Event>, secret: string, component: set<string>, n: string, i: nat)
    requires HonestRun(states, events) && Canonical(states[0]) && Mesh(states[0], secret) && i < |states|
    requires Convergence.Apart(KnowsOf(states[0]), component) && n in component && n in states[i]
    ensures states[i][n].peers.Keys <= component - {n}
  {
    HonestShape(states, events);
    RunMatches(states, events, secret, 0, i);
    Convergence.MovesStayApart(KnowsOf(states[0]), MovesOf(events[0..i]), component);
    KnowsWellFormed(states[i]);
    assert n in KnowsOf(states[i]);
  }
}
