/**
 The coordinator's ledger as it is kept in memory, one entry per incident key, expiring ten minutes
 after it was last refreshed, and the parts of ShouldSend. Each critical section is proved to be one
 step of the election on the entry it touches, preceded by a Reset exactly when that entry has expired.
 */
module Coordination {
  import opened Names
  import opened Options
  import opened Times
  import opened Election

  datatype ClaimEntry = ClaimEntry(owner: string, sent: bool, at: int)

  /** A peer's answer to a claim. */
  datatype Reply = Reply(owner: string, sent: bool)

  /** Ten minutes. */
  const TTL := 10 * 60 * SECOND

  /** Node n performs `a` on a state in which its entry may first have to expire. */
  ghost function Access(cl: Cluster, s: State, n: string, live: bool, a: Action): State {
    Apply(cl, if live then s else Apply(cl, s, Reset(n)), a)
  }

  /** In every protocol state where n's entry is `before`, doing `a` leaves it as `after`. */
  ghost predicate IsStep(n: string, before: Entry, live: bool, a: Action, after: Entry) {
    forall cl: Cluster, s: State | s.EntryAt(n) == before && Ready(s, a) ::
      Access(cl, s, n, live, a).EntryAt(n) == after
  }

  /** A claim is answered while its caller waits for it. */
  ghost predicate Ready(s: State, a: Action) {
    a.Answered? ==> s.PhaseAt(a.c).Claiming?
  }

  /** In every such state, registering leaves n's call stopped, or open with this owner. */
  ghost predicate Opens(n: string, before: Entry, live: bool, owner: string, stop: bool) {
    forall cl: Cluster, s: State | s.EntryAt(n) == before ::
      Access(cl, s, n, live, Election.Register(n)).PhaseAt(n) ==
      if stop then Done(false) else Claiming(cl.PeersOf(n), owner, false)
  }

  /** In every such state in which n's call has gathered `owner` and `sentElsewhere` from all its
      peers, deciding leaves this entry and this verdict, and notifies the peers exactly on a delivery. */
  ghost predicate Decides(n: string, before: Entry, live: bool, owner: string, sentElsewhere: bool, after: Entry, deliver: bool) {
    forall cl: Cluster, s: State | s.EntryAt(n) == before && s.PhaseAt(n) == Claiming({}, owner, sentElsewhere) ::
      var t := Access(cl, s, n, live, Election.Decide(n));
      && t.EntryAt(n) == after && t.PhaseAt(n) == Done(deliver)
      && t.mail == s.mail + if deliver then set p | p in cl.PeersOf(n) :: (n, p) else {}
  }

  /** What a call knows after these answers, merged one by one; None is no answer. */
  function Gather(own: string, replies: seq<Option<Reply>>): (string, bool) {
    if replies == [] then (own, false)
    else
      var (owner, sentElsewhere) := Gather(own, replies[..|replies| - 1]);
      match replies[|replies| - 1]
      case None => (owner, sentElsewhere)
      case Some(r) => (MinName(owner, r.owner), sentElsewhere || r.sent)
  }

  class Coordinator {
    const selfName: string
    var ledger: map<string, ClaimEntry>

    constructor (selfName: string)
      ensures this.selfName == selfName && ledger == map[]
    {
      this.selfName := selfName;
      ledger := map[];
    }

    /** The stored entry, expired or not. */
    ghost function Stored(key: string): Entry
      reads this
    {
      if key in ledger then Entry(ledger[key].owner, ledger[key].sent) else NO_ENTRY
    }

    ghost predicate Live(key: string, now: int)
      reads this
    {
      key in ledger && now - ledger[key].at <= TTL
    }

    /** What an access at `now` finds. */
    ghost function Seen(key: string, now: int): Entry
      reads this
    {
      if Live(key, now) then Stored(key) else NO_ENTRY
    }

    /** The entry for key, created or reset if it is absent or past its time to live. */
    method EntryLocked(key: string, now: int) returns (e: ClaimEntry)
      modifies this
      ensures ledger == old(ledger)[key := e]
      ensures e == if key in old(ledger) && now - old(ledger)[key].at <= 600_000_000_000 then old(ledger)[key]
                   else ClaimEntry("", false, now)
      ensures Stored(key) == old(Seen(key, now))
      ensures e.at == if old(Live(key, now)) then old(ledger)[key].at else now
    {
      if key !in ledger || now - ledger[key].at > TTL {
        ledger := ledger[key := ClaimEntry("", false, now)];
      }
      e := ledger[key];
    }

    /** A peer asks: record it as a candidate, tell it the smallest candidate and whether it was sent. */
    method HandleClaim(node: string, key: string, now: int) returns (owner: string, sent: bool)
      modifies this
      ensures ledger == old(ledger)[key := ClaimEntry(owner, sent, now)]
      ensures owner == MinName(old(Seen(key, now)).owner, node) && sent == old(Seen(key, now)).sent
      ensures key in old(ledger) && now - old(ledger)[key].at <= 600_000_000_000 ==>
                owner == MinName(old(ledger)[key].owner, node) && sent == old(ledger)[key].sent
      ensures key !in old(ledger) || now - old(ledger)[key].at > 600_000_000_000 ==> owner == node && !sent
      ensures IsStep(selfName, old(Stored(key)), old(Live(key, now)), Stray(node, selfName), Stored(key))
      ensures IsStep(selfName, old(Stored(key)), old(Live(key, now)), Answered(node, selfName), Stored(key))
    {
      assert MinName("", node) == node;
      hide MinName;
      var e := EntryLocked(key, now);
      ledger := ledger[key := e.(owner := MinName(e.owner, node))];
      ledger := ledger[key := ledger[key].(at := now)];
      return ledger[key].owner, ledger[key].sent;
    }

    /** A peer delivered: suppress our own copy. */
    method HandleSent(node: string, key: string, now: int)
      modifies this
      ensures ledger == old(ledger)[key := ClaimEntry(MinName(old(Seen(key, now)).owner, node), true, now)]
      ensures key !in old(ledger) || now - old(ledger)[key].at > 600_000_000_000 ==> ledger[key].owner == node
      ensures IsStep(selfName, old(Stored(key)), old(Live(key, now)), SentArrives(node, selfName), Stored(key))
    {
      var e := EntryLocked(key, now);
      ledger := ledger[key := e.(sent := true, owner := MinName(e.owner, node), at := now)];
    }

    /** First critical section of ShouldSend: our own candidacy. `stop` when it was already sent. */
    method Register(key: string, now: int) returns (owner: string, stop: bool)
      modifies this
      ensures key in ledger && ledger == old(ledger)[key := ledger[key]] && ledger[key].owner == owner
      ensures Stored(key) == AfterClaim(old(Seen(key, now)), selfName)
      ensures ledger[key].at == if old(Live(key, now)) then old(ledger)[key].at else now
      ensures IsStep(selfName, old(Stored(key)), old(Live(key, now)), Election.Register(selfName), Stored(key))
      ensures Opens(selfName, old(Stored(key)), old(Live(key, now)), owner, stop)
    {
      hide MinName;
      var e := EntryLocked(key, now);
      ledger := ledger[key := e.(owner := MinName(e.owner, selfName))];
      owner, stop := ledger[key].owner, ledger[key].sent;
    }

    /** The peers to ask and later to notify: usable rows other than this node and the subject. */
    method Targets(rows: seq<Listed>, subject: string) returns (asked: set<string>)
      ensures forall listed: map<string, set<string>> :: selfName in listed && listed[selfName] == Usable(rows) ==>
                                                           asked == Cluster(listed, subject).PeersOf(selfName)
      ensures forall n :: n in asked <==>
                          n != selfName && n != subject && exists p :: p in rows && p.name == n && p.enabled && p.url != ""
    {
      asked := {};
      for i := 0 to |rows|
        invariant asked == Usable(rows[..i]) - {selfName, subject}
      {
        var p := rows[i];
        assert rows[..i + 1] == rows[..i] + [p];
        UsableAppend(rows[..i], p);
        if !p.enabled || p.url == "" || p.name == selfName || p.name == subject {
          continue;
        }
        asked := asked + {p.name};
      }
      assert rows[..|rows|] == rows;
    }

    /** The answers of the queried peers, merged in the order they arrive. */
    method Aggregate(own: string, replies: seq<Option<Reply>>) returns (owner: string, sentElsewhere: bool)
      ensures (owner, sentElsewhere) == Gather(own, replies)
    {
      owner, sentElsewhere := own, false;
      for k := 0 to |replies|
        invariant (owner, sentElsewhere) == Gather(own, replies[..k])
      {
        assert replies[..k + 1][..k] == replies[..k];
        if replies[k].Some? {
          owner := MinName(owner, replies[k].value.owner);
          if replies[k].value.sent {
            sentElsewhere := true;
          }
        }
      }
      assert replies[..|replies|] == replies;
    }

    /** The end of ShouldSend: stand down, or commit in the last critical section. */
    method Decide(key: string, now: int, owner: string, sentElsewhere: bool) returns (deliver: bool)
      modifies this
      ensures sentElsewhere || owner != selfName ==> !deliver && ledger == old(ledger)
      ensures !sentElsewhere && owner == selfName ==>
                && key in ledger && ledger == old(ledger)[key := ledger[key]] && Stored(key) == Entry(selfName, true)
                && ledger[key].at == if old(Live(key, now)) then old(ledger)[key].at else now
      ensures Decides(selfName, old(Stored(key)), old(Live(key, now)) || sentElsewhere || owner != selfName,
                      owner, sentElsewhere, Stored(key), deliver)
    {
      if sentElsewhere || owner != selfName {
        return false;
      }
      var e := EntryLocked(key, now);
      var racedOut := e.sent && e.owner != selfName;
      ledger := ledger[key := e.(sent := true, owner := selfName)];
      return !racedOut;
    }
  }

  datatype Listed = Listed(name: string, enabled: bool, url: string)

  function Usable(rows: seq<Listed>): set<string> {
    set p | p in rows && p.enabled && p.url != "" :: p.name
  }

  lemma UsableAppend(rows: seq<Listed>, p: Listed)
    ensures Usable(rows + [p]) == Usable(rows) + if p.enabled && p.url != "" then {p.name} else {}
  {
    assert forall q :: q in rows + [p] <==> q in rows || q == p;
  }

  // ----- gathering answers -----

  /** Merging one more answer, or none, is what the protocol's steps do to an open call. */
  lemma AnswersGather(cl: Cluster, s: State, c: string, p: string, own: string, replies: seq<Option<Reply>>)
    requires s.PhaseAt(c).Claiming? && (s.PhaseAt(c).owner, s.PhaseAt(c).sentElsewhere) == Gather(own, replies)
    ensures var e := AfterClaim(s.EntryAt(p), c);
            var (owner, sentElsewhere) := Gather(own, replies + [Some(Reply(e.owner, e.sent))]);
            Apply(cl, s, Answered(c, p)).PhaseAt(c) == Claiming(s.PhaseAt(c).pending - {p}, owner, sentElsewhere)
    ensures var (owner, sentElsewhere) := Gather(own, replies + [None]);
            Apply(cl, s, Lost(c, p)).PhaseAt(c) == Claiming(s.PhaseAt(c).pending - {p}, owner, sentElsewhere)
  {
    var e := AfterClaim(s.EntryAt(p), c);
    assert (replies + [Some(Reply(e.owner, e.sent))])[..|replies|] == replies;
    assert (replies + [None])[..|replies|] == replies;
  }

  ghost predicate Heard(replies: seq<Option<Reply>>, owner: string) {
    exists r :: r in replies && r.Some? && r.value.owner == owner
  }

  /** The gathered owner is the smallest name among one's own and those in the answers. */
  lemma {:induction false} GatherIsLeast(own: string, replies: seq<Option<Reply>>)
    requires own != ""
    ensures var (owner, sentElsewhere) := Gather(own, replies);
            && owner != "" && (owner == own || Heard(replies, owner)) && AtMost(owner, own)
            && (forall r :: r in replies && r.Some? && r.value.owner != "" ==> AtMost(owner, r.value.owner))
            && (sentElsewhere <==> exists r :: r in replies && r.Some? && r.value.sent)
  {
    if replies != [] {
      var n := |replies| - 1;
      GatherIsLeast(own, replies[..n]);
      assert replies == replies[..n] + [replies[n]];
      var before := Gather(own, replies[..n]).0;
      if replies[n].Some? {
        var owner := MinName(before, replies[n].value.owner);
        MinNameIsLeast(before, replies[n].value.owner);
        AtMostTransitive(owner, before, own);
        forall r | r in replies[..n] && r.Some? && r.value.owner != "" ensures AtMost(owner, r.value.owner) {
          AtMostTransitive(owner, before, r.value.owner);
        }
        if owner != before { assert replies[n] in replies; }
      }
      if Heard(replies[..n], before) {
        var r :| r in replies[..n] && r.Some? && r.value.owner == before;
        assert r in replies;
      }
    }
  }

  /** The peers answer concurrently: whatever the order, the verdict is the same. */
  lemma GatherOfPermutation(own: string, a: seq<Option<Reply>>, b: seq<Option<Reply>>)
    requires own != "" && multiset(a) == multiset(b)
    ensures Gather(own, a) == Gather(own, b)
  {
    forall r ensures r in a <==> r in b {
      assert r in a <==> r in multiset(a);
      assert r in b <==> r in multiset(b);
    }
    GatherIsLeast(own, a);
    GatherIsLeast(own, b);
    var x, y := Gather(own, a).0, Gather(own, b).0;
    LessTrichotomy(x, y);
    assert AtMost(x, y) && AtMost(y, x);
  }
}
