/**
 The double delivery is real and its schedule is exact: in a cluster of any size two callers both
 deliver if and only if their calls cross that way and no third node passes the news between them.
 */
module ElectionExact {
  import opened Names
  import opened Election
  import opened ElectionSilence
  import opened ElectionSafety
  import opened ElectionKnowledge

  /** Only a and b run ShouldSend; others may answer them. */
  ghost predicate TwoCallers(r: Run, a: string, b: string) {
    forall c :: Register(c) in r.actions ==> c == a || c == b
  }

  /** No third node passes the news: whoever answers b has not heard of a, and whoever answers a has not
      been told that b sent. */
  ghost predicate NoNews(r: Run, a: string, b: string)
    requires |r.actions| < |r.states|
  {
    forall k: nat, p | k < |r.actions| && p != a && p != b ::
      && (r.actions[k] == Answered(b, p) ==> !HeardOf(r, k, a, p))
      && (r.actions[k] == Answered(a, p) ==> !ToldSent(r, k, b, p))
  }

  lemma {:induction false} AnsweredGone(cl: Cluster, r: Run, k: nat, i: nat, c: string, p: string)
    requires Follows(cl, r) && k < i < |r.states| && r.actions[k] == Answered(c, p)
    ensures !(r.states[i].PhaseAt(c).Claiming? && p in r.states[i].PhaseAt(c).pending)
    ensures r.states[i].PhaseAt(c) != Idle
  {
    if k + 1 < i {
      AnsweredGone(cl, r, k, i - 1, c, p);
    }
  }

  lemma AnsweredOnce(cl: Cluster, r: Run, k: nat, m: nat, c: string, p: string)
    requires Follows(cl, r) && k < |r.actions| && m < |r.actions|
    requires r.actions[k] == r.actions[m] == Answered(c, p)
    ensures k == m
  {
    if k < m { AnsweredGone(cl, r, k, m, c, p); }
    if m < k { AnsweredGone(cl, r, m, k, c, p); }
  }

  /** A "sent" mark came from a message or from the node's own commit. */
  lemma {:induction false} SentHasCause(cl: Cluster, r: Run, i: nat, n: string) returns (k: nat)
    requires IsRun(cl, r) && i < |r.states| && r.states[i].EntryAt(n).sent
    ensures k < i && (r.actions[k] == Decide(n) || (r.actions[k].SentArrives? && r.actions[k].p == n))
  {
    hide MinName;
    if r.states[i - 1].EntryAt(n).sent {
      k := SentHasCause(cl, r, i - 1, n);
    } else {
      k := i - 1;
    }
  }

  /** Nobody has delivered before the first of the two commits. */
  lemma NothingDeliveredYet(cl: Cluster, r: Run, a: string, b: string, t: Schedule, i: nat)
    requires IsRun(cl, r) && TwoCallers(r, a, b) && Crossed(r, a, b, t)
    requires i <= t.commitA && i <= t.commitB
    ensures forall n :: !r.states[i].Delivered(n) && !r.states[i].EntryAt(n).sent
  {
    forall n ensures !r.states[i].Delivered(n) {
      if r.states[i].Delivered(n) {
        var k := DeliveryDecided(cl, r, i, n);
        var reg := Registered(cl, r, k, n);
        assert r.actions[reg] in r.actions;
        DecidesOnce(cl, r, k, if n == a then t.commitA else t.commitB, n);
      }
    }
    GroundedAt(cl, r, i);
    forall n ensures !r.states[i].EntryAt(n).sent {
      assert EntryGrounded(map[], r.states[i], n, r.states[i].EntryAt(n));
    }
  }

  /** Every owner recorded anywhere is "", a or b, and a only once a has registered. */
  lemma OwnersOfTwo(cl: Cluster, r: Run, a: string, b: string, i: nat, n: string)
    requires IsRun(cl, r) && TwoCallers(r, a, b) && i < |r.states|
    ensures var o := r.states[i].EntryAt(n).owner;
            o == "" || (o == a && r.states[i].PhaseAt(a) != Idle) || (o == b && r.states[i].PhaseAt(b) != Idle)
  {
    var o := r.states[i].EntryAt(n).owner;
    if o != "" {
      OwnersAreCallers(cl, r, i, n);
      var reg := Registered(cl, r, i, o);
      assert r.actions[reg] in r.actions;
    }
  }

  lemma NotRegisteredYet(cl: Cluster, r: Run, i: nat, reg: nat, c: string)
    requires IsRun(cl, r) && i <= reg < |r.actions| && r.actions[reg] == Register(c)
    ensures r.states[i].PhaseAt(c) == Idle
  {
    if r.states[i].PhaseAt(c) != Idle {
      PhasesAdvance(cl, r, i, reg, c);
    }
  }

  // ----- what third nodes know -----

  lemma ThirdIsIdle(cl: Cluster, r: Run, a: string, b: string, k: nat, p: string)
    requires IsRun(cl, r) && TwoCallers(r, a, b) && p != a && p != b && k < |r.actions|
    ensures r.actions[k] != Register(p) && r.actions[k] != Decide(p)
  {
    assert r.actions[k] in r.actions;
    if r.actions[k] == Decide(p) {
      assert Enabled(cl, r.states[k], Decide(p));
      var _ := Registered(cl, r, k, p);
    }
  }

  /** A third node told of a delivery was told by its author. */
  lemma {:induction false} ToldBy(cl: Cluster, r: Run, a: string, b: string, i: nat, c: string, p: string) returns (j: nat)
    requires IsRun(cl, r) && TwoCallers(r, a, b) && p != a && p != b && i < |r.states| && ToldSent(r, i, c, p)
    ensures j < i && r.actions[j] == SentArrives(c, p) && (c == a || c == b) && r.states[j].Delivered(c)
    ensures HeardOf(r, i, c, p)
  {
    ThirdIsIdle(cl, r, a, b, i - 1, p);
    if r.actions[i - 1] == SentArrives(c, p) {
      j := i - 1;
      GroundedAt(cl, r, j);
      assert Enabled(cl, r.states[j], r.actions[j]);
      var reg := Registered(cl, r, j, c);
      assert r.actions[reg] in r.actions;
    } else {
      j := ToldBy(cl, r, a, b, i - 1, c, p);
    }
  }

  /** What a third node's entry says about a and b is what it has heard and been told. */
  lemma ThirdKnows(cl: Cluster, r: Run, a: string, b: string, i: nat, p: string)
    requires IsRun(cl, r) && TwoCallers(r, a, b) && Less(a, b) && a != "" && p != a && p != b && i < |r.states|
    ensures r.states[i].EntryAt(p).owner == a <==> HeardOf(r, i, a, p)
    ensures r.states[i].EntryAt(p).sent <==> ToldSent(r, i, a, p) || ToldSent(r, i, b, p)
  {
    hide HeardOf;
    hide ToldSent;
    EntryKnows(cl, r, i, p);
    OwnersOfTwo(cl, r, a, b, i, p);
    LessTrichotomy(a, b);
    if r.states[i].EntryAt(p).sent {
      var x :| ToldSent(r, i, x, p);
      var _ := ToldBy(cl, r, a, b, i, x, p);
    }
  }

  /** c's own sent-message cannot have arrived while its call is open. */
  lemma NotToldYet(cl: Cluster, r: Run, a: string, b: string, i: nat, c: string, p: string)
    requires IsRun(cl, r) && TwoCallers(r, a, b) && p != a && p != b && i < |r.states| && r.states[i].PhaseAt(c).Claiming?
    ensures !ToldSent(r, i, c, p)
  {
    if ToldSent(r, i, c, p) {
      var j := ToldBy(cl, r, a, b, i, c, p);
      PhasesAdvance(cl, r, j, i, c);
    }
  }

  // ----- calls that cross deliver -----

  lemma AnswersToB(cl: Cluster, r: Run, a: string, b: string, t: Schedule, k: nat, p: string)
    requires IsRun(cl, r) && TwoCallers(r, a, b) && Less(a, b) && a != ""
    requires Crossed(r, a, b, t) && NoNews(r, a, b) && k < |r.actions| && r.actions[k] == Answered(b, p)
    ensures Harmless(r.states[k].EntryAt(p), b)
  {
    hide Apply;
    hide Enabled;
    AnswerIsOpen(cl, r, k, t.commitB, b, p);
    OwnersOfTwo(cl, r, a, b, k, p);
    if p == a {
      AnsweredOnce(cl, r, k, t.claimB, b, a);
      NotRegisteredYet(cl, r, k, t.regA, a);
      NothingDeliveredYet(cl, r, a, b, t, k);
    } else {
      ThirdKnows(cl, r, a, b, k, p);
      NotToldYet(cl, r, a, b, k, b, p);
      if ToldSent(r, k, a, p) {
        var _ := ToldBy(cl, r, a, b, k, a, p);
      }
    }
  }

  lemma AnswersToA(cl: Cluster, r: Run, a: string, b: string, t: Schedule, k: nat, p: string)
    requires IsRun(cl, r) && TwoCallers(r, a, b) && Less(a, b) && a != ""
    requires Crossed(r, a, b, t) && NoNews(r, a, b) && k < |r.actions| && r.actions[k] == Answered(a, p)
    ensures Harmless(r.states[k].EntryAt(p), a)
  {
    hide Apply;
    hide Enabled;
    AnswerIsOpen(cl, r, k, t.commitA, a, p);
    OwnersOfTwo(cl, r, a, b, k, p);
    if p == b {
      AnsweredOnce(cl, r, k, t.claimA, a, b);
      NothingDeliveredYet(cl, r, a, b, t, k);
    } else {
      ThirdKnows(cl, r, a, b, k, p);
      NotToldYet(cl, r, a, b, k, a, p);
    }
  }

  /** Calls that cross as in Crossed, without news from elsewhere, both deliver. */
  lemma CrossingDeliversB(cl: Cluster, r: Run, a: string, b: string, t: Schedule)
    requires IsRun(cl, r) && TwoCallers(r, a, b) && Undisturbed(r, a, b) && Less(a, b)
    requires Crossed(r, a, b, t) && NoNews(r, a, b)
    ensures Wins(r.states[t.commitB], b)
  {
    hide NoNews;
    RegisteredOwner(cl, r, t.regA, a);
    RegisteredOwner(cl, r, t.regB, b);
    assert Enabled(cl, r.states[t.commitB], r.actions[t.commitB]);
    hide Apply;
    hide Enabled;
    NotRegisteredYet(cl, r, t.regB, t.regA, a);
    OwnersOfTwo(cl, r, a, b, t.regB, b);
    NothingDeliveredYet(cl, r, a, b, t, t.regB);
    RegistrationOpens(cl, r, t.regB, b);
    LessTrichotomy(b, b);
    forall k: nat, p | k < t.commitB && r.actions[k] == Answered(b, p) ensures Harmless(r.states[k].EntryAt(p), b) {
      AnswersToB(cl, r, a, b, t, k, p);
    }
    KeepsOwnName(cl, r, t.regB, t.commitB, b);
    if r.states[t.commitB].EntryAt(b).sent {
      var j := SentHasCause(cl, r, t.commitB, b);
      if r.actions[j] == Decide(b) {
        DecidesOnce(cl, r, j, t.commitB, b);
      }
    }
  }

  lemma CrossingDeliversA(cl: Cluster, r: Run, a: string, b: string, t: Schedule)
    requires IsRun(cl, r) && TwoCallers(r, a, b) && Undisturbed(r, a, b) && Less(a, b)
    requires Crossed(r, a, b, t) && NoNews(r, a, b)
    ensures Wins(r.states[t.commitA], a)
  {
    hide NoNews;
    RegisteredOwner(cl, r, t.regA, a);
    assert Enabled(cl, r.states[t.commitA], r.actions[t.commitA]);
    hide Apply;
    hide Enabled;
    LessTrichotomy(a, b);
    OwnersOfTwo(cl, r, a, b, t.regA, a);
    NothingDeliveredYet(cl, r, a, b, t, t.regA);
    RegistrationOpens(cl, r, t.regA, a);
    forall k: nat, p | k < t.commitA && r.actions[k] == Answered(a, p) ensures Harmless(r.states[k].EntryAt(p), a) {
      AnswersToA(cl, r, a, b, t, k, p);
    }
    KeepsOwnName(cl, r, t.regA, t.commitA, a);
    OwnerStays(cl, r, t.regA + 1, t.commitA, a, a);
    OwnersOfTwo(cl, r, a, b, t.commitA, a);
  }

  /** If both deliver, no third node can have passed the news. */
  lemma DeliveredUnwarned(cl: Cluster, r: Run, a: string, b: string)
    requires IsRun(cl, r) && TwoCallers(r, a, b) && Less(a, b)
    requires r.Last().Delivered(a) && r.Last().Delivered(b)
    ensures NoNews(r, a, b)
  {
    hide Apply;
    hide Enabled;
    hide HeardOf;
    hide ToldSent;
    hide Wins;
    var last := |r.states| - 1;
    var commitA := DeliveryDecided(cl, r, last, a);
    var commitB := DeliveryDecided(cl, r, last, b);
    forall k: nat, p | k < |r.actions| && p != a && p != b
      ensures r.actions[k] == Answered(b, p) ==> !HeardOf(r, k, a, p)
      ensures r.actions[k] == Answered(a, p) ==> !ToldSent(r, k, b, p)
    {
      if r.actions[k] == Answered(b, p) {
        WinnerHeardNothing(cl, r, a, b, k, commitB, b, p);
      } else if r.actions[k] == Answered(a, p) {
        WinnerHeardNothing(cl, r, a, b, k, commitA, a, p);
      }
    }
  }

  lemma WinnerHeardNothing(cl: Cluster, r: Run, a: string, b: string, k: nat, win: nat, c: string, p: string)
    requires IsRun(cl, r) && TwoCallers(r, a, b) && Less(a, b) && p != a && p != b && (c == a || c == b)
    requires r.Last().Delivered(a)
    requires k < |r.actions| && win < |r.actions| && r.actions[win] == Decide(c) && Wins(r.states[win], c)
    requires r.actions[k] == Answered(c, p)
    ensures !ToldSent(r, k, b, p) && (c == b ==> !HeardOf(r, k, a, p))
  {
    var regA := Registered(cl, r, |r.states| - 1, a);
    RegisteredOwner(cl, r, regA, a);
    AnswerIsOpen(cl, r, k, win, c, p);
    var regC := Registered(cl, r, k, c);
    RegisteredOwner(cl, r, regC, c);
    assert Enabled(cl, r.states[k], r.actions[k]);
    AnswerEntry(cl, r.states[k], c, p);
    hide Apply;
    hide Enabled;
    ThirdKnows(cl, r, a, b, k, p);
    ReplyKept(cl, r, k, win, c, p);
    LessTrichotomy(a, b);
  }

  lemma CrossingDelivers(cl: Cluster, r: Run, a: string, b: string, t: Schedule)
    requires IsRun(cl, r) && TwoCallers(r, a, b) && Undisturbed(r, a, b) && Less(a, b)
    requires Crossed(r, a, b, t) && NoNews(r, a, b)
    ensures r.Last().Delivered(a) && r.Last().Delivered(b)
  {
    CrossingDeliversA(cl, r, a, b, t);
    CrossingDeliversB(cl, r, a, b, t);
    hide *;
    StaysDelivered(cl, r, t.commitA, a);
    StaysDelivered(cl, r, t.commitB, b);
  }

  lemma StaysDelivered(cl: Cluster, r: Run, d: nat, c: string)
    requires Follows(cl, r) && d < |r.actions| && r.actions[d] == Decide(c) && Wins(r.states[d], c)
    ensures r.Last().Delivered(c)
  {
    CommittedIsSent(cl, r, d, c);
    PhasesAdvance(cl, r, d + 1, |r.states| - 1, c);
  }

  /** Two callers both deliver one incident exactly when their calls crossed and no third node passed the
      news, whatever the rest of the cluster lists, loses or forgets. */
  lemma TwoDeliveriesExactly(cl: Cluster, r: Run, a: string, b: string)
    requires IsRun(cl, r) && TwoCallers(r, a, b) && MutuallyListed(cl, a, b) && Undisturbed(r, a, b) && Less(a, b)
    ensures r.Last().Delivered(a) && r.Last().Delivered(b) <==> (exists t :: Crossed(r, a, b, t)) && NoNews(r, a, b)
  {
    assert |r.states| == |r.actions| + 1;
    hide Follows;
    hide TwoCallers;
    hide Crossed;
    hide NoNews;
    if t :| Crossed(r, a, b, t) && NoNews(r, a, b) {
      CrossingDelivers(cl, r, a, b, t);
    }
    if r.Last().Delivered(a) && r.Last().Delivered(b) {
      DoubleDeliveryCrosses(cl, r, a, b);
      DeliveredUnwarned(cl, r, a, b);
    }
  }

  /** In a cluster of two there is nobody to pass it. */
  lemma TwoWatchersExactly(cl: Cluster, r: Run, a: string, b: string)
    requires IsRun(cl, r) && TwoCallers(r, a, b) && Undisturbed(r, a, b) && Less(a, b)
    requires cl.PeersOf(a) == {b} && cl.PeersOf(b) == {a}
    ensures r.Last().Delivered(a) && r.Last().Delivered(b) <==> exists t :: Crossed(r, a, b, t)
  {
    forall k: nat, p | k < |r.actions| && (r.actions[k] == Answered(a, p) || r.actions[k] == Answered(b, p))
      ensures p == a || p == b
    {
      assert Enabled(cl, r.states[k], r.actions[k]);
      PendingListed(cl, r, k, r.actions[k].c);
    }
    TwoDeliveriesExactly(cl, r, a, b);
  }

  const WATCHERS := Cluster(map["a" := {"b", "x"}, "b" := {"a", "x"}], "x")

  lemma CrossingRegisters(s0: State, s1: State, s2: State, s3: State)
    requires s0 == START && s1 == Apply(WATCHERS, s0, Register("b"))
    requires s2 == Apply(WATCHERS, s1, Answered("b", "a")) && s3 == Apply(WATCHERS, s2, Register("a"))
    ensures Enabled(WATCHERS, s0, Register("b"))
    ensures Enabled(WATCHERS, s1, Answered("b", "a")) && Enabled(WATCHERS, s2, Register("a"))
    ensures s3.PhaseAt("a") == Claiming({"b"}, "a", false) && s3.EntryAt("a") == Entry("a", false)
    ensures s3.PhaseAt("b") == Claiming({}, "b", false) && s3.EntryAt("b") == Entry("b", false)
  {
    assert WATCHERS.PeersOf("a") == {"b"} && WATCHERS.PeersOf("b") == {"a"};
    assert s1.PhaseAt("b") == Claiming({"a"}, "b", false);
    assert s2.PhaseAt("b") == Claiming({}, "b", false) && s2.EntryAt("a") == Entry("b", false);
  }

  lemma CrossingCommits(s3: State, s4: State, s5: State, s6: State)
    requires s3.PhaseAt("a") == Claiming({"b"}, "a", false) && s3.EntryAt("a") == Entry("a", false)
    requires s3.PhaseAt("b") == Claiming({}, "b", false) && s3.EntryAt("b") == Entry("b", false)
    requires s4 == Apply(WATCHERS, s3, Answered("a", "b"))
    requires s5 == Apply(WATCHERS, s4, Decide("a")) && s6 == Apply(WATCHERS, s5, Decide("b"))
    ensures Enabled(WATCHERS, s3, Answered("a", "b"))
    ensures Enabled(WATCHERS, s4, Decide("a")) && Enabled(WATCHERS, s5, Decide("b"))
    ensures s6.Delivered("a") && s6.Delivered("b")
  {
    assert s4.PhaseAt("a") == Claiming({}, "a", false) && s4.EntryAt("b") == Entry("a", false);
    assert s5.Delivered("a") && s5.EntryAt("b") == Entry("a", false);
  }

  /** The crossing is reachable: "a" and "b" watch "x", and both notify. */
  lemma DoubleDeliveryHappens()
    ensures exists cl: Cluster, r: Run ::
              && IsRun(cl, r) && TwoCallers(r, "a", "b") && MutuallyListed(cl, "a", "b") && Undisturbed(r, "a", "b")
              && r.Last().Delivered("a") && r.Last().Delivered("b")
  {
    hide Apply;
    hide Enabled;
    var acts := [Register("b"), Answered("b", "a"), Register("a"), Answered("a", "b"), Decide("a"), Decide("b")];
    var s1 := Apply(WATCHERS, START, acts[0]);
    var s2 := Apply(WATCHERS, s1, acts[1]);
    var s3 := Apply(WATCHERS, s2, acts[2]);
    var s4 := Apply(WATCHERS, s3, acts[3]);
    var s5 := Apply(WATCHERS, s4, acts[4]);
    var s6 := Apply(WATCHERS, s5, acts[5]);
    CrossingRegisters(START, s1, s2, s3);
    CrossingCommits(s3, s4, s5, s6);
    var r := Run([START, s1, s2, s3, s4, s5, s6], acts);
    assert Follows(WATCHERS, r);
    assert WATCHERS.PeersOf("a") == {"b"} && WATCHERS.PeersOf("b") == {"a"};
    assert forall x :: x in acts ==> !x.Lost? && !x.Reset?;
    assert TwoCallers(r, "a", "b") && MutuallyListed(WATCHERS, "a", "b");
  }
}
