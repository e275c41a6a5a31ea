/**
 The cluster as a whole: every node's table, configured secret and per-cycle fallback secret, and
 the steps that change them.
 */
module Cluster {
  import opened PeerTable
  import opened Gossip

  /** `started` once the node has resolved its fallback secret, which opens each of its cycles. */
  datatype NodeState = NodeState(advertise: Url, peerSecret: string, fallback: string, started: bool, peers: Table)

  type Nodes = map<string, NodeState>

  datatype Event =
    | Refresh(n: string, secret: string)            // resolve the fallback secret
    | Announce(n: string, row: string, to: string)  // n's announce over a row reaches node `to`
    | Pass(n: string, net: Network, table: Table)   // a gossip pass, with the table it leaves
    | Poll(n: string, row: string, status: string, lastSeen: int, err: string)
      // By hand, in the dashboard:
    | Add(n: string, name: string, url: Url, secret: string, muted: bool)
    | Edit(n: string, row: string, url: Url, secret: string, muted: bool) // "" keeps the secret
    | Remove(n: string, row: string)

  function Effective(node: NodeState, p: Peer): string {
    if p.secret != "" then p.secret else node.fallback
  }

  ghost predicate Accepts(node: NodeState, presented: string) {
    Trusts(node.peerSecret, node.peers, presented)
  }

  /** What the dashboard takes for a peer's URL. */
  predicate Usable(url: Url) {
    (url.scheme == "http" || url.scheme == "https") && (url.host != "" || url.port != "")
  }

  ghost predicate Enabled(s: Nodes, e: Event) {
    && e.n in s
    && match e
       case Refresh(n, secret) => IsFallback(s[n].peerSecret, s[n].peers, secret)
       case Announce(n, row, to) =>
         && s[n].started && row in s[n].peers && s[n].peers[row].enabled
         && to in s && Accepts(s[to], Effective(s[n], s[n].peers[row]))
       case Pass(n, net, table) => s[n].started && Gossiped(net, n, s[n].advertise, s[n].peers, table)
       case Poll(n, row, _, _, _) => s[n].started && row in s[n].peers
       case Add(n, name, url, secret, muted) =>
         name != "" && name != n && Usable(url) && secret != "" && name !in s[n].peers
       case Edit(n, row, url, secret, muted) =>
         row != n && row in s[n].peers && Usable(url) && (secret != "" || s[n].peers[row].secret != "")
       case Remove(n, row) => row != n && row in s[n].peers
  }

  ghost function Apply(s: Nodes, e: Event): Nodes
    requires Enabled(s, e)
  {
    match e
    case Refresh(n, secret) => s[n := s[n].(fallback := secret, started := true)]
    case Announce(n, _, to) => s[to := s[to].(peers := Announced(s[to].peers, n, s[n].advertise))]
    case Pass(n, _, table) => s[n := s[n].(peers := table)]
    case Poll(n, row, status, lastSeen, err) =>
      s[n := s[n].(peers := SetPeerStatus(s[n].peers, row, status, lastSeen, err))]
    case Add(n, name, url, secret, muted) =>
      s[n := s[n].(peers := SetPeerEnabled(Upsert(s[n].peers, name, url, secret), name, !muted))]
    case Edit(n, row, url, secret, muted) =>
      s[n := s[n].(peers := SetPeerEnabled(Upsert(s[n].peers, row, url, secret), row, !muted))]
    case Remove(n, row) => s[n := s[n].(peers := s[n].peers - {row})]
  }

  ghost predicate IsRun(states: seq<Nodes>, events: seq<Event>) {
    && |states| == |events| + 1
    && forall i :: 0 <= i < |events| ==> Enabled(states[i], events[i]) && states[i + 1] == Apply(states[i], events[i])
  }

  /** What is done by hand, row by row: a new peer starts unknown, an edited one keeps what polling found. */
  lemma HandsExactly(s: Nodes, e: Event)
    requires Enabled(s, e)
    ensures var t, t' := s[e.n].peers, Apply(s, e)[e.n].peers;
            match e
            case Add(_, name, url, secret, muted) => t' == t[name := Peer(url, secret, "unknown", 0, "", !muted)]
            case Edit(_, row, url, secret, muted) =>
              t' == t[row := Peer(url, if secret == "" then t[row].secret else secret,
                                  t[row].status, t[row].lastSeen, t[row].lastError, !muted)]
            case Remove(_, row) => row !in t' && t'.Keys == t.Keys - {row} && forall r :: r in t' ==> t'[r] == t[r]
            case _ => true
  {}

  /** A row's own secret is what its peer is shown, whatever other secrets are about: two nodes that share a
      secret on their link understand each other without any mesh. */
  lemma LinkAuthenticates(s: Nodes, caller: string, row: string, callee: string)
    requires caller in s && row in s[caller].peers && callee in s && s[caller].peers[row].secret != ""
    requires var secret := s[caller].peers[row].secret;
             s[callee].peerSecret == secret || exists r :: r in s[callee].peers && s[callee].peers[r].secret == secret
    ensures Effective(s[caller], s[caller].peers[row]) == s[caller].peers[row].secret
    ensures Accepts(s[callee], Effective(s[caller], s[caller].peers[row]))
  {}

  // ----- one shared secret -----

  /** Every stored secret is s, and every node holds it as its own configuration or in a row. */
  ghost predicate Mesh(s: Nodes, secret: string) {
    && secret != ""
    && forall n :: n in s ==> MeshNode(s[n], secret)
  }

  ghost predicate MeshNode(node: NodeState, secret: string) {
    && (node.peerSecret == "" || node.peerSecret == secret)
    && (forall r :: r in node.peers ==> node.peers[r].secret == "" || node.peers[r].secret == secret)
    && (node.peerSecret == secret || exists r :: r in node.peers && node.peers[r].secret == secret)
    && (node.started ==> node.fallback == secret)
  }

  /** Whichever way the fallback is derived, it is the shared secret. */
  lemma FallbackIsShared(node: NodeState, secret: string, f: string)
    requires MeshNode(node, secret) && secret != "" && IsFallback(node.peerSecret, node.peers, f)
    ensures f == secret
  {
    if node.peerSecret == "" {
      var rows: seq<Row> :| Lists(node.peers, rows) && IsCommonSecret(Secrets(Column(rows)), f);
      var r :| r in node.peers && node.peers[r].secret == secret;
      var i :| 0 <= i < |rows| && rows[i].name == r;
      SecretsAreStored(Column(rows), secret);
      assert Column(rows)[i].secret == secret;
      SecretsAreStored(Column(rows), f);
      hide Secrets;
      hide IsCommonSecret;
      CommonAmong(Secrets(Column(rows)), f, secret);
      var j :| 0 <= j < |rows| && Column(rows)[j].secret == f;
      assert rows[j].name in node.peers;
    }
  }

  lemma CommonAmong(secrets: multiset<string>, best: string, some: string)
    requires IsCommonSecret(secrets, best) && some in secrets
    ensures best in secrets
  {}

  /** Every outbound call presents the shared secret, and whoever receives it accepts it. */
  lemma CallsAuthenticate(s: Nodes, secret: string, caller: string, row: string, callee: string)
    requires Mesh(s, secret) && caller in s && s[caller].started && row in s[caller].peers && callee in s
    ensures Effective(s[caller], s[caller].peers[row]) == secret
    ensures s[caller].fallback == secret
    ensures Accepts(s[callee], Effective(s[caller], s[caller].peers[row])) && Accepts(s[callee], s[caller].fallback)
    ensures forall f :: IsFallback(s[caller].peerSecret, s[caller].peers, f) ==> Accepts(s[callee], f)
  {
    assert MeshNode(s[caller], secret) && MeshNode(s[callee], secret);
    forall f | IsFallback(s[caller].peerSecret, s[caller].peers, f) ensures f == secret {
      FallbackIsShared(s[caller], secret, f);
    }
  }

  /** What is done by hand respects the mesh: secrets given are the shared one, and a node is left with it. */
  ghost predicate Handed(s: Nodes, e: Event, secret: string)
    requires e.n in s
  {
    match e
    case Add(_, _, _, given, _) => given == secret
    case Edit(_, _, _, given, _) => given == "" || given == secret
    case Remove(n, row) =>
      s[n].peerSecret == secret || exists r :: r != row && r in s[n].peers && s[n].peers[r].secret == secret
    case _ => true
  }

  /** The program's own steps always keep the mesh, and what is done by hand exactly if it respects it. */
  lemma MeshStep(s: Nodes, e: Event, secret: string)
    requires Mesh(s, secret) && Enabled(s, e)
    ensures Mesh(Apply(s, e), secret) <==> Handed(s, e, secret)
  {
    hide IsFallback;
    hide Trusts;
    assert MeshNode(s[e.n], secret);
    match e {
      case Refresh(n, f) => FallbackIsShared(s[n], secret, f);
      case Announce(n, row, to) =>
        assert MeshNode(s[to], secret);
        AnnounceKeepsMesh(s[to], n, s[n].advertise, secret);
        hide Announced;
      case Pass(n, net, table) =>
        PassKeepsMesh(s[n], n, net, table, secret);
        hide Gossiped;
      case Poll(n, row, status, lastSeen, err) =>
        SecretsSurvive(s[n], SetPeerStatus(s[n].peers, row, status, lastSeen, err), secret);
      case _ => HandStep(s, e, secret);
    }
  }

  /** A step by hand changes one node's table; the mesh depends on that node alone. */
  lemma HandStep(s: Nodes, e: Event, secret: string)
    requires Mesh(s, secret) && Enabled(s, e) && (e.Add? || e.Edit? || e.Remove?)
    ensures Mesh(Apply(s, e), secret) <==> Handed(s, e, secret)
  {
    assert MeshNode(s[e.n], secret);
    match e {
      case Add(n, name, url, given, muted) =>
        GivenSecret(s[n], name, url, given, muted, secret);
      case Edit(n, row, url, given, muted) =>
        GivenSecret(s[n], row, url, given, muted, secret);
      case Remove(n, row) =>
        RemovedRow(s[n], row, secret);
    }
    hide MeshNode;
    var s' := Apply(s, e);
    assert s'.Keys == s.Keys && forall m :: m in s && m != e.n ==> s'[m] == s[m];
  }

  lemma GivenSecret(node: NodeState, row: string, url: Url, given: string, muted: bool, secret: string)
    requires MeshNode(node, secret) && secret != ""
    requires given != "" || (row in node.peers && node.peers[row].secret != "")
    ensures MeshNode(node.(peers := SetPeerEnabled(Upsert(node.peers, row, url, given), row, !muted)), secret) <==>
            given == "" || given == secret
  {
    var t := SetPeerEnabled(Upsert(node.peers, row, url, given), row, !muted);
    assert t[row].secret == if given != "" then given else node.peers[row].secret;
    if given == "" || given == secret {
      SecretsSurvive(node, t, secret);
    }
  }

  lemma RemovedRow(node: NodeState, row: string, secret: string)
    requires MeshNode(node, secret) && row in node.peers
    ensures MeshNode(node.(peers := node.peers - {row}), secret) <==>
            node.peerSecret == secret || exists r :: r != row && r in node.peers && node.peers[r].secret == secret
  {
    var t := node.peers - {row};
    forall r ensures r in t <==> r in node.peers && r != row {}
  }

  lemma SecretsSurvive(node: NodeState, t: Table, secret: string)
    requires MeshNode(node, secret) && secret != ""
    requires forall r :: r in node.peers && node.peers[r].secret != "" ==> r in t && t[r].secret == node.peers[r].secret
    requires forall r :: r in t ==> t[r].secret == "" || t[r].secret == secret
    ensures MeshNode(node.(peers := t), secret)
  {
    if node.peerSecret != secret {
      var r :| r in node.peers && node.peers[r].secret == secret;
      assert r in t && t[r].secret == secret;
    }
  }

  lemma AnnounceKeepsMesh(node: NodeState, name: string, url: Url, secret: string)
    requires MeshNode(node, secret) && secret != ""
    ensures MeshNode(node.(peers := Announced(node.peers, name, url)), secret)
  {
    SecretsSurvive(node, Announced(node.peers, name, url), secret);
  }

  lemma PassKeepsMesh(node: NodeState, self: string, net: Network, t: Table, secret: string)
    requires MeshNode(node, secret) && secret != "" && Gossiped(net, self, node.advertise, node.peers, t)
    ensures MeshNode(node.(peers := t), secret)
  {
    forall r | r in node.peers && node.peers[r].secret != "" ensures r in t && t[r].secret == node.peers[r].secret {
      assert r in Healed(net, self, node.peers);
    }
    forall r | r in t ensures t[r].secret == "" || t[r].secret == secret {
      if r in Healed(net, self, node.peers) {
        assert t[r] == node.peers[r];
      }
    }
    SecretsSurvive(node, t, secret);
  }

  /** In every state reachable while the dashboard is used that way, the secret stays the only one. */
  lemma {:induction false} MeshAlways(states: seq<Nodes>, events: seq<Event>, secret: string, i: nat)
    requires IsRun(states, events) && Mesh(states[0], secret) && i < |states|
    requires forall k :: 0 <= k < i ==> Enabled(states[k], events[k]) && Handed(states[k], events[k], secret)
    ensures Mesh(states[i], secret)
  {
    if i > 0 {
      MeshAlways(states, events, secret, i - 1);
      MeshStep(states[i - 1], events[i - 1], secret);
    }
  }

  // ----- what no step touches -----

  /** The row is not removed by hand, and no gossip pass of n takes it for n itself. */
  ghost predicate Spares(s: Nodes, e: Event, n: string, r: string) {
    && (e.Pass? && e.n == n && n in s && r in s[n].peers ==> Survives(e.net, n, s[n].peers[r]))
    && e != Remove(n, r)
  }

  predicate Edits(e: Event, n: string, r: string) {
    e.Edit? && e.n == n && e.row == r
  }

  predicate Polls(e: Event, n: string, r: string) {
    e.Poll? && e.n == n && e.row == r
  }

  /** A step removes a row only by hand or if a pass takes it for the node itself. Its secret and mute flag
      change only by hand, its status only by polling, its URL only by hand or its own announce; no step
      takes a secret away. */
  lemma StepKeepsRows(s: Nodes, e: Event, n: string, r: string)
    requires Enabled(s, e) && n in s && r in s[n].peers && Spares(s, e, n, r)
    ensures n in Apply(s, e) && r in Apply(s, e)[n].peers
    ensures var p, p' := s[n].peers[r], Apply(s, e)[n].peers[r];
            && (p.secret != "" ==> p'.secret != "")
            && (p'.secret != p.secret ==> Edits(e, n, r))
            && (p'.enabled != p.enabled ==> Edits(e, n, r))
            && (p'.status != p.status ==> Polls(e, n, r))
            && (p'.url != p.url ==> Edits(e, n, r) || (e.Announce? && e.to == n && e.n == r))
  {
    if e.Pass? && e.n == n {
      assert r in Healed(e.net, n, s[n].peers);
    }
  }

  /** Row r of n after i events: still there, and changed only as allowed. */
  ghost predicate Kept(states: seq<Nodes>, events: seq<Event>, n: string, r: string, i: nat)
    requires i < |states| == |events| + 1 && n in states[0] && r in states[0][n].peers
  {
    && n in states[i] && r in states[i][n].peers
    && var p, p' := states[0][n].peers[r], states[i][n].peers[r];
    && (p.secret != "" ==> p'.secret != "")
    && ((forall k :: 0 <= k < i ==> !Edits(events[k], n, r)) ==> p'.secret == p.secret && p'.enabled == p.enabled)
    && ((forall k :: 0 <= k < i ==> !Polls(events[k], n, r)) ==> p'.status == p.status)
  }

  /** Over any run a row that is neither removed by hand nor taken for the node itself stays, with its secret
      and mute flag until it is edited by hand, and with its status until it is polled. */
  lemma {:induction false} RowsStay(states: seq<Nodes>, events: seq<Event>, n: string, r: string, i: nat)
    requires IsRun(states, events) && n in states[0] && r in states[0][n].peers && i < |states|
    requires forall k :: 0 <= k < i ==> Spares(states[k], events[k], n, r)
    ensures Kept(states, events, n, r, i)
  {
    hide Enabled;
    hide Apply;
    hide Spares;
    if i > 0 {
      RowsStay(states, events, n, r, i - 1);
      assert Enabled(states[i - 1], events[i - 1]) && states[i] == Apply(states[i - 1], events[i - 1]);
      assert Spares(states[i - 1], events[i - 1], n, r);
      StepKeepsRows(states[i - 1], events[i - 1], n, r);
    }
  }

  /** A row that carries a secret stays whatever the nodes do; only somebody's hand removes it. */
  lemma SecretRowsStay(states: seq<Nodes>, events: seq<Event>, n: string, r: string, i: nat)
    requires IsRun(states, events) && n in states[0] && r in states[0][n].peers
    requires states[0][n].peers[r].secret != "" && i < |states|
    requires forall k :: 0 <= k < i ==> events[k] != Remove(n, r)
    ensures Kept(states, events, n, r, i)
  {
    SecretsSpare(states, events, n, r, i);
    RowsStay(states, events, n, r, i);
  }

  lemma {:induction false} SecretsSpare(states: seq<Nodes>, events: seq<Event>, n: string, r: string, i: nat)
    requires IsRun(states, events) && n in states[0] && r in states[0][n].peers
    requires states[0][n].peers[r].secret != "" && i < |states|
    requires forall k :: 0 <= k < i ==> events[k] != Remove(n, r)
    ensures forall k :: 0 <= k < i ==> Spares(states[k], events[k], n, r)
  {
    if i > 0 {
      SecretsSpare(states, events, n, r, i - 1);
      RowsStay(states, events, n, r, i - 1);
    }
  }

  /** Gossip is add-only up to self-heal: a surviving row is untouched in every field. */
  lemma PassOnlyAdds(s: Nodes, e: Event, r: string)
    requires Enabled(s, e) && e.Pass?
    ensures var t, t' := s[e.n].peers, Apply(s, e)[e.n].peers;
            && (r in t && Survives(e.net, e.n, t[r]) ==> r in t' && t'[r] == t[r])
            && (r in t' && (r !in t || !Survives(e.net, e.n, t[r])) ==>
                  t'[r].secret == "" && t'[r].enabled && t'[r].status == "unknown" && r != e.n)
  {
    if r in s[e.n].peers && Survives(e.net, e.n, s[e.n].peers[r]) {
      assert r in Healed(e.net, e.n, s[e.n].peers);
    }
  }

  // ----- one row per address -----

  ghost predicate DistinctAddrs(t: Table) {
    forall a, b :: a in t && b in t && a != b && NormalizeAddr(t[a].url).Some? ==>
                     NormalizeAddr(t[a].url) != NormalizeAddr(t[b].url)
  }

  lemma PassKeepsAddrsDistinct(net: Network, self: string, advertise: Url, t: Table, t': Table)
    requires DistinctAddrs(t) && Gossiped(net, self, advertise, t, t')
    ensures DistinctAddrs(t')
  {
    var base := Healed(net, self, t);
    forall a, b | a in t' && b in t' && a != b && NormalizeAddr(t'[a].url).Some?
      ensures NormalizeAddr(t'[a].url) != NormalizeAddr(t'[b].url)
    {
      if a in base && b in base {
        assert t'[a] == t[a] && t'[b] == t[b];
      }
    }
  }

  /** An announce keeps addresses distinct exactly when it does not move a known name onto an
      address that another row has. */
  lemma AnnounceKeepsAddrsDistinct(t: Table, name: string, url: Url)
    requires DistinctAddrs(t) && name != "" && url.raw != ""
    ensures DistinctAddrs(Announced(t, name, url)) <==>
            !(name in t && exists r :: r in t && r != name && NormalizeAddr(url).Some? && NormalizeAddr(t[r].url) == NormalizeAddr(url))
  {
    var t' := Announced(t, name, url);
    if r :| name in t && r in t && r != name && NormalizeAddr(url).Some? && NormalizeAddr(t[r].url) == NormalizeAddr(url) {
      assert t'[name].url == url && t'[r] == t[r];
    }
  }

  /** It does happen: "b" takes over the address under which "a" is known. */
  lemma AnnounceCollides()
    ensures exists t: Table, name, url :: DistinctAddrs(t) && name in t && !DistinctAddrs(Announced(t, name, url))
  {
    var u, v := Url("http://u", "http", "u", ""), Url("http://v", "http", "v", "");
    var t: Table := map["a" := NewPeer(u, ""), "b" := NewPeer(v, "")];
    assert NormalizeAddr(u).value[0] == 'u' && NormalizeAddr(v).value[0] == 'v';
    assert DistinctAddrs(t);
    assert "a" in t && t["a"].url == u;
    AnnounceKeepsAddrsDistinct(t, "b", u);
    assert !DistinctAddrs(Announced(t, "b", u));
  }
}
