/**
 Membership at the level of who knows whom: a node tells its peers that it exists, and gossips, adding
 everything its peers know. Any two nodes at undirected distance up to 2^j know each other after j + 1
 rounds, whether the nodes run their cycles one after the other, in whatever order, or the single
 messages of all cycles interleave.
 */
module Convergence {

  /** For each node of the cluster, the nodes in its peer table. */
  type Knows = map<string, set<string>>

  function Of(k: Knows, n: string): set<string> {
    if n in k then k[n] else {}
  }

  /** Tables list only nodes of the cluster, and never the node itself. */
  ghost predicate WellFormed(k: Knows) {
    forall n :: n in k ==> k[n] <= k.Keys - {n}
  }

  /** n tells each of its peers that it exists. */
  function Announce(k: Knows, n: string): Knows {
    map q | q in k :: if q in Of(k, n) && q != n then k[q] + {n} else k[q]
  }

  /** n adds the members its peers list. */
  function Gossip(k: Knows, n: string): Knows {
    if n in k then k[n := k[n] + (set q, m | q in k[n] && m in Of(k, q) && m != n :: m)] else k
  }

  function Cycle(k: Knows, n: string): Knows {
    Gossip(Announce(k, n), n)
  }

  /** The parts of a cycle that may interleave with those of other nodes. */
  datatype Move = Tell(n: string, q: string) | Learn(n: string) | Rest

  function Do(k: Knows, m: Move): Knows {
    match m
    case Tell(n, q) => if q in k && q in Of(k, n) && q != n then k[q := k[q] + {n}] else k
    case Learn(n) => Gossip(k, n)
    case Rest => k
  }

  function DoAll(k: Knows, moves: seq<Move>): Knows {
    if moves == [] then k else Do(DoAll(k, moves[..|moves| - 1]), moves[|moves| - 1])
  }

  /** Every node tells everyone it knew at the start, and learns at least once, in any order. */
  ghost predicate Complete(k: Knows, moves: seq<Move>) {
    forall n, q :: n in k && q in k[n] ==> Tell(n, q) in moves && Learn(n) in moves
  }

  /** The nodes run their cycles one after the other in this order. */
  function Round(k: Knows, order: seq<string>): Knows {
    if order == [] then k else Cycle(Round(k, order[..|order| - 1]), order[|order| - 1])
  }

  function Rounds(k: Knows, orders: seq<seq<string>>): Knows {
    if orders == [] then k else Round(Rounds(k, orders[..|orders| - 1]), orders[|orders| - 1])
  }

  /** A full round: every node gets its turn, some perhaps more than once. */
  ghost predicate Full(order: seq<string>, k: Knows) {
    forall n :: n in k ==> n in order
  }

  ghost predicate AllFull(orders: seq<seq<string>>, k: Knows) {
    forall order :: order in orders ==> Full(order, k)
  }

  // ----- what a cycle and a round keep -----

  /** Knowledge only grows. */
  ghost predicate Grows(k: Knows, k': Knows) {
    k.Keys == k'.Keys && forall n :: n in k ==> k[n] <= k'[n]
  }

  lemma CycleKeeps(k: Knows, n: string)
    requires WellFormed(k)
    ensures Grows(k, Cycle(k, n)) && WellFormed(Cycle(k, n))
  {}

  lemma {:induction false} RoundKeeps(k: Knows, order: seq<string>)
    requires WellFormed(k)
    ensures Grows(k, Round(k, order)) && WellFormed(Round(k, order))
  {
    if order != [] {
      RoundKeeps(k, order[..|order| - 1]);
      CycleKeeps(Round(k, order[..|order| - 1]), order[|order| - 1]);
    }
  }

  lemma {:induction false} RoundsKeep(k: Knows, orders: seq<seq<string>>)
    requires WellFormed(k)
    ensures Grows(k, Rounds(k, orders)) && WellFormed(Rounds(k, orders))
  {
    if orders != [] {
      RoundsKeep(k, orders[..|orders| - 1]);
      RoundKeeps(Rounds(k, orders[..|orders| - 1]), orders[|orders| - 1]);
    }
  }

  /** No edge leads into or out of c. */
  ghost predicate Apart(k: Knows, c: set<string>) {
    forall n :: n in k ==> if n in c then k[n] <= c else k[n] !! c
  }

  /** Nothing outside a component is ever learned inside it, nor the reverse. */
  lemma CycleStaysApart(k: Knows, n: string, c: set<string>)
    requires Apart(k, c)
    ensures Apart(Cycle(k, n), c)
  {
    var a := Announce(k, n);
    assert Apart(a, c);
    forall q | q in Gossip(a, n) ensures if q in c then Gossip(a, n)[q] <= c else Gossip(a, n)[q] !! c {}
  }

  lemma {:induction false} RoundStaysApart(k: Knows, order: seq<string>, c: set<string>)
    requires Apart(k, c)
    ensures Apart(Round(k, order), c)
  {
    if order != [] {
      RoundStaysApart(k, order[..|order| - 1], c);
      CycleStaysApart(Round(k, order[..|order| - 1]), order[|order| - 1], c);
    }
  }

  lemma {:induction false} ComponentsStayApart(k: Knows, orders: seq<seq<string>>, c: set<string>)
    requires Apart(k, c)
    ensures Apart(Rounds(k, orders), c)
  {
    if orders != [] {
      ComponentsStayApart(k, orders[..|orders| - 1], c);
      RoundStaysApart(Rounds(k, orders[..|orders| - 1]), orders[|orders| - 1], c);
    }
  }

  // ----- what a round achieves -----

  /** u is v or has it in its table. */
  ghost predicate Link(k: Knows, u: string, v: string) {
    u in k && v in k && (u == v || v in k[u])
  }

  lemma CycleLearns(k: Knows, n: string, v: string, w: string)
    requires WellFormed(k) && Link(k, n, v) && Link(k, v, w)
    ensures Link(Cycle(k, n), n, w) && Link(Cycle(k, n), v, n)
  {
    var a, k' := Announce(k, n), Cycle(k, n);
    CycleKeeps(k, n);
    if v != n {
      assert v in a[n] && n in a[v] && n in k'[v];
      assert w != v ==> w in Of(a, v);
    }
  }

  lemma GrowsLinks(k: Knows, k': Knows, u: string, v: string)
    requires Grows(k, k') && Link(k, u, v)
    ensures Link(k', u, v)
  {}

  /** After a full round everyone knows whom its peers knew, and is known by its peers. */
  lemma {:induction false} RoundLearns(k: Knows, order: seq<string>, u: string, v: string, w: string)
    requires WellFormed(k) && u in order && Link(k, u, v) && Link(k, v, w)
    ensures Link(Round(k, order), u, w) && Link(Round(k, order), v, u)
  {
    var front, n := order[..|order| - 1], order[|order| - 1];
    var before := Round(k, front);
    RoundKeeps(k, front);
    CycleKeeps(before, n);
    if u in front {
      RoundLearns(k, front, u, v, w);
      GrowsLinks(before, Cycle(before, n), u, w);
      GrowsLinks(before, Cycle(before, n), v, u);
    } else {
      assert n == u;
      GrowsLinks(k, before, u, v);
      GrowsLinks(k, before, v, w);
      CycleLearns(before, n, v, w);
    }
  }

  // ----- the same for interleaved moves -----

  lemma DoKeeps(k: Knows, m: Move)
    requires WellFormed(k)
    ensures Grows(k, Do(k, m)) && WellFormed(Do(k, m))
  {}

  lemma {:induction false} DoAllKeeps(k: Knows, moves: seq<Move>)
    requires WellFormed(k)
    ensures Grows(k, DoAll(k, moves)) && WellFormed(DoAll(k, moves))
  {
    if moves != [] {
      DoAllKeeps(k, moves[..|moves| - 1]);
      DoKeeps(DoAll(k, moves[..|moves| - 1]), moves[|moves| - 1]);
    }
  }

  lemma GossipLearns(k: Knows, u: string, v: string, w: string)
    requires WellFormed(k) && Link(k, u, v) && Link(k, v, w)
    ensures Link(Gossip(k, u), u, w)
  {
    if u != v && u != w && v != w {
      assert v in k[u] && w in Of(k, v);
    }
  }

  /** Whoever is told something knows it, and whoever learns knows what its peers knew, whatever else
      happens in between. */
  lemma {:induction false} MovesLearn(k: Knows, moves: seq<Move>, u: string, v: string, w: string)
    requires WellFormed(k) && Link(k, u, v) && Link(k, v, w)
    ensures Tell(u, v) in moves ==> Link(DoAll(k, moves), v, u)
    ensures Learn(u) in moves ==> Link(DoAll(k, moves), u, w)
  {
    if moves != [] {
      var front, m := moves[..|moves| - 1], moves[|moves| - 1];
      assert moves == front + [m];
      var before := DoAll(k, front);
      MovesLearn(k, front, u, v, w);
      DoAllKeeps(k, front);
      DoKeeps(before, m);
      assert Link(before, u, v) && Link(before, v, w);
      GossipLearns(before, u, v, w);
    }
  }

  lemma WindowAdvances(k: Knows, moves: seq<Move>)
    requires WellFormed(k) && Complete(k, moves)
    ensures Advances(k, DoAll(k, moves))
  {
    DoAllKeeps(k, moves);
    var k' := DoAll(k, moves);
    forall u, v, w | Link(k, u, v) && Link(k, v, w) ensures Link(k', u, w) && Link(k', v, u) {
      MovesLearn(k, moves, u, v, w);
    }
  }

  lemma RoundAdvances(k: Knows, order: seq<string>)
    requires WellFormed(k) && Full(order, k)
    ensures Advances(k, Round(k, order))
  {
    RoundKeeps(k, order);
    var k' := Round(k, order);
    forall u, v, w | Link(k, u, v) && Link(k, v, w) ensures Link(k', u, w) && Link(k', v, u) {
      RoundLearns(k, order, u, v, w);
    }
  }

  lemma {:induction false} MovesStayApart(k: Knows, moves: seq<Move>, c: set<string>)
    requires Apart(k, c)
    ensures Apart(DoAll(k, moves), c)
  {
    if moves != [] {
      MovesStayApart(k, moves[..|moves| - 1], c);
      DoStaysApart(DoAll(k, moves[..|moves| - 1]), moves[|moves| - 1], c);
    }
  }

  lemma DoStaysApart(k: Knows, m: Move, c: set<string>)
    requires Apart(k, c)
    ensures Apart(Do(k, m), c)
  {
    forall q | q in Do(k, m) ensures if q in c then Do(k, m)[q] <= c else Do(k, m)[q] !! c {}
  }

  // ----- distances -----

  /** Everyone knows whom its peers knew, and is known by its peers. */
  ghost predicate Advances(k: Knows, k': Knows) {
    && Grows(k, k') && WellFormed(k')
    && forall u, v, w :: Link(k, u, v) && Link(k, v, w) ==> Link(k', u, w) && Link(k', v, u)
  }

  /** A chain of at most d links leads from u to v. */
  ghost predicate Within(k: Knows, u: string, v: string, d: nat)
    decreases d
  {
    if d == 0 then u == v && u in k
    else exists w :: Link(k, u, w) && Within(k, w, v, d - 1)
  }

  /** The same, ignoring the direction of the links. */
  ghost predicate Near(k: Knows, u: string, v: string, d: nat)
    decreases d
  {
    if d == 0 then u == v && u in k
    else exists w :: (Link(k, u, w) || Link(k, w, u)) && Near(k, w, v, d - 1)
  }

  /** One round makes every link mutual. */
  lemma {:induction false} AdvanceMakesMutual(k: Knows, k': Knows, u: string, v: string, d: nat)
    requires Advances(k, k') && Near(k, u, v, d)
    ensures Within(k', u, v, d)
    decreases d
  {
    if d > 0 {
      var w :| (Link(k, u, w) || Link(k, w, u)) && Near(k, w, v, d - 1);
      AdvanceMakesMutual(k, k', w, v, d - 1);
      if Link(k, u, w) {
        GrowsLinks(k, k', u, w);
      } else {
        assert Link(k, u, u);
      }
    }
  }

  /** Every further round halves the distances. */
  lemma {:induction false} AdvanceHalves(k: Knows, k': Knows, u: string, v: string, d: nat)
    requires Advances(k, k') && Within(k, u, v, d)
    ensures Within(k', u, v, (d + 1) / 2)
    decreases d
  {
    if d == 1 {
      var w :| Link(k, u, w) && Within(k, w, v, 0);
      GrowsLinks(k, k', u, v);
      assert Within(k', v, v, 0);
    } else if d > 1 {
      var w :| Link(k, u, w) && Within(k, w, v, d - 1);
      var x :| Link(k, w, x) && Within(k, x, v, d - 2);
      assert Link(k', u, x);
      AdvanceHalves(k, k', x, v, d - 2);
      assert (d + 1) / 2 - 1 == (d - 2 + 1) / 2;
    }
  }

  lemma RoundHalves(k: Knows, order: seq<string>, u: string, v: string, d: nat)
    requires WellFormed(k) && Full(order, k) && Within(k, u, v, d)
    ensures Within(Round(k, order), u, v, (d + 1) / 2)
  {
    RoundAdvances(k, order);
    AdvanceHalves(k, Round(k, order), u, v, d);
  }

  function Pow2(j: nat): nat {
    if j == 0 then 1 else 2 * Pow2(j - 1)
  }

  /** Each state follows from the one before by a round of some kind. */
  ghost predicate Chain(ks: seq<Knows>) {
    ks != [] && forall i :: 0 < i < |ks| ==> Advances(ks[i - 1], ks[i])
  }

  lemma {:induction false} ChainHalves(ks: seq<Knows>, u: string, v: string, d: nat)
    requires Chain(ks) && Within(ks[0], u, v, d) && d <= Pow2(|ks| - 1)
    ensures Link(ks[|ks| - 1], u, v)
    decreases |ks|
  {
    if |ks| == 1 {
      if d == 1 {
        var w :| Link(ks[0], u, w) && Within(ks[0], w, v, 0);
      }
    } else {
      assert Advances(ks[0], ks[1]);
      AdvanceHalves(ks[0], ks[1], u, v, d);
      hide Advances;
      assert forall i :: 0 < i < |ks| - 1 ==> ks[1..][i - 1] == ks[i] && ks[1..][i] == ks[i + 1];
      ChainHalves(ks[1..], u, v, (d + 1) / 2);
    }
  }

  /** j + 1 rounds of whatever kind bring together any two nodes whose undirected distance was at most 2^j. */
  lemma ChainMeets(ks: seq<Knows>, j: nat, u: string, v: string, d: nat)
    requires Chain(ks) && |ks| > j + 1 && Near(ks[0], u, v, d) && d <= Pow2(j)
    ensures Link(ks[|ks| - 1], u, v) && Link(ks[|ks| - 1], v, u)
  {
    hide Near;
    hide Within;
    PowersGrow(j, |ks| - 2);
    NearSymmetric(ks[0], u, v, d);
    assert Advances(ks[0], ks[1]);
    AdvanceMakesMutual(ks[0], ks[1], u, v, d);
    AdvanceMakesMutual(ks[0], ks[1], v, u, d);
    hide Advances;
    assert forall i :: 0 < i < |ks| - 1 ==> ks[1..][i - 1] == ks[i] && ks[1..][i] == ks[i + 1];
    ChainHalves(ks[1..], u, v, d);
    ChainHalves(ks[1..], v, u, d);
  }

  lemma RoundsChain(k: Knows, orders: seq<seq<string>>, i: nat)
    requires WellFormed(k) && AllFull(orders, k) && i < |orders|
    ensures Advances(Rounds(k, orders[..i]), Rounds(k, orders[..i + 1]))
  {
    RoundsKeep(k, orders[..i]);
    assert orders[..i + 1][..i] == orders[..i] && orders[i] in orders;
    RoundAdvances(Rounds(k, orders[..i]), orders[i]);
  }

  /** Discovery is logarithmic: j + 1 full rounds, in any order, bring together any two nodes whose
      undirected distance was at most 2^j. */
  lemma MembersMeet(k: Knows, orders: seq<seq<string>>, j: nat, u: string, v: string, d: nat)
    requires WellFormed(k) && AllFull(orders, k) && |orders| > j
    requires Near(k, u, v, d) && d <= Pow2(j)
    ensures Link(Rounds(k, orders), u, v) && Link(Rounds(k, orders), v, u)
  {
    var ks := seq(|orders| + 1, i requires 0 <= i <= |orders| => Rounds(k, orders[..i]));
    forall i | 0 < i < |ks| ensures Advances(ks[i - 1], ks[i]) {
      RoundsChain(k, orders, i - 1);
    }
    assert orders[..0] == [] && orders[..|orders|] == orders;
    hide *;
    ChainMeets(ks, j, u, v, d);
  }

  lemma {:induction false} PowersGrow(i: nat, j: nat)
    requires i <= j
    ensures Pow2(i) <= Pow2(j) && i < Pow2(i)
    decreases j
  {
    if i < j { PowersGrow(i, j - 1); }
    if i > 0 { PowersGrow(i - 1, i - 1); }
  }

  lemma {:induction false} NearExtends(k: Knows, u: string, v: string, w: string, d: nat)
    requires Near(k, u, v, d) && (Link(k, v, w) || Link(k, w, v))
    ensures Near(k, u, w, d + 1)
    decreases d
  {
    if d == 0 {
      assert Near(k, w, w, 0);
    } else {
      var x :| (Link(k, u, x) || Link(k, x, u)) && Near(k, x, v, d - 1);
      NearExtends(k, x, v, w, d - 1);
    }
  }

  lemma {:induction false} NearSymmetric(k: Knows, u: string, v: string, d: nat)
    requires Near(k, u, v, d)
    ensures Near(k, v, u, d)
    decreases d
  {
    if d > 0 {
      var w :| (Link(k, u, w) || Link(k, w, u)) && Near(k, w, v, d - 1);
      NearSymmetric(k, w, v, d - 1);
      NearExtends(k, v, w, u, d - 1);
    }
  }

  /** From any start, nodes that are connected at all end up in each other's tables. */
  lemma ComponentsComplete(k: Knows, orders: seq<seq<string>>, u: string, v: string, d: nat)
    requires WellFormed(k) && AllFull(orders, k) && Near(k, u, v, d) && |orders| > d
    ensures Link(Rounds(k, orders), u, v) && Link(Rounds(k, orders), v, u)
  {
    PowersGrow(d, d);
    MembersMeet(k, orders, d, u, v, d);
  }

  /** "A node added on ONE machine propagates to the others within a cycle or two": a complete
      cluster, one newcomer and one link between it and a member, in either direction. */
  lemma NewcomerJoins(k: Knows, member: string, newcomer: string, first: seq<string>, second: seq<string>)
    requires WellFormed(k) && member in k && newcomer in k && member != newcomer && Full(first, k) && Full(second, k)
    requires forall u, v :: u in k && v in k && u != newcomer && v != newcomer ==> Link(k, u, v)
    requires Link(k, member, newcomer) || Link(k, newcomer, member)
    ensures forall u, v :: u in k && v in k ==> Link(Rounds(k, [first, second]), u, v)
  {
    forall u, v | u in k && v in k ensures Link(Rounds(k, [first, second]), u, v) {
      assert Near(k, v, v, 0);
      if u == newcomer || v == newcomer {
        assert Link(k, member, v) || Link(k, v, member);
        assert Near(k, member, v, 1);
        assert Link(k, u, member) || Link(k, member, u);
        assert Near(k, u, v, 2);
      } else {
        assert Link(k, u, u) && Near(k, u, v, 1) && Near(k, u, v, 2);
      }
      assert Pow2(1) == 2;
      MembersMeet(k, [first, second], 1, u, v, 2);
    }
  }
}
