/**
 How many nodes deliver. At most one is not guaranteed: two nodes that list each other can both
 deliver, in exactly one order of events.
 */
module ElectionSafety {
  import opened Names
  import opened Election
  import opened ElectionSilence

  // ----- what a run remembers -----

  /** A call in progress or finished was registered before. */
  lemma {:induction false} Registered(cl: Cluster, r: Run, i: nat, c: string) returns (k: nat)
    requires IsRun(cl, r) && i < |r.states| && r.states[i].PhaseAt(c) != Idle
    ensures k < i && r.actions[k] == Register(c) && r.states[k].PhaseAt(c) == Idle
  {
    hide MinName;
    if r.states[i - 1].PhaseAt(c) == Idle {
      k := i - 1;
    } else {
      k := Registered(cl, r, i - 1, c);
    }
  }

  /** A call never starts again, and its result stands. */
  lemma {:induction false} PhasesAdvance(cl: Cluster, r: Run, i: nat, j: nat, c: string)
    requires Follows(cl, r) && i <= j < |r.states|
    ensures r.states[i].PhaseAt(c) != Idle ==> r.states[j].PhaseAt(c) != Idle
    ensures r.states[i].PhaseAt(c).Done? ==> r.states[j].PhaseAt(c) == r.states[i].PhaseAt(c)
  {
    if i < j {
      PhasesAdvance(cl, r, i, j - 1, c);
    }
  }

  lemma RegistersOnce(cl: Cluster, r: Run, i: nat, j: nat, c: string)
    requires Follows(cl, r) && i < |r.actions| && j < |r.actions|
    requires r.actions[i] == r.actions[j] == Register(c)
    ensures i == j
  {
    if i < j { PhasesAdvance(cl, r, i + 1, j, c); }
    if j < i { PhasesAdvance(cl, r, j + 1, i, c); }
  }

  lemma DecidesOnce(cl: Cluster, r: Run, i: nat, j: nat, c: string)
    requires Follows(cl, r) && i < |r.actions| && j < |r.actions|
    requires r.actions[i] == r.actions[j] == Decide(c)
    ensures i == j
  {
    if i < j { PhasesAdvance(cl, r, i + 1, j, c); }
    if j < i { PhasesAdvance(cl, r, j + 1, i, c); }
  }

  /** A claim no longer pending was answered or lost. */
  lemma {:induction false} ClaimResolved(cl: Cluster, r: Run, i: nat, c: string, p: string) returns (k: nat)
    requires IsRun(cl, r) && i < |r.states| && r.states[i].PhaseAt(c).Claiming?
    requires p in cl.PeersOf(c) && p !in r.states[i].PhaseAt(c).pending
    ensures k < i && (r.actions[k] == Answered(c, p) || r.actions[k] == Lost(c, p))
  {
    var before := r.states[i - 1].PhaseAt(c);
    if before.Claiming? && p !in before.pending {
      k := ClaimResolved(cl, r, i - 1, c, p);
    } else {
      k := i - 1;
    }
  }

  /** The decision to deliver: every claim resolved, no "sent" heard, own name smallest, not raced out. */
  ghost predicate Wins(s: State, c: string) {
    s.PhaseAt(c) == Claiming({}, c, false) && !RacedOut(s.EntryAt(c), c)
  }

  lemma {:induction false} DeliveryDecided(cl: Cluster, r: Run, i: nat, c: string) returns (k: nat)
    requires IsRun(cl, r) && i < |r.states| && r.states[i].Delivered(c)
    ensures k < i && r.actions[k] == Decide(c) && Wins(r.states[k], c)
  {
    hide MinName;
    if r.states[i - 1].Delivered(c) {
      k := DeliveryDecided(cl, r, i - 1, c);
    } else {
      k := i - 1;
    }
  }

  /** The aggregate of a call only gets smaller, and never forgets a "sent". */
  lemma AggregateShrinks(cl: Cluster, s: State, a: Action, c: string)
    requires Enabled(cl, s, a) && s.PhaseAt(c).Claiming? && Apply(cl, s, a).PhaseAt(c).Claiming?
    requires s.PhaseAt(c).owner != ""
    ensures Apply(cl, s, a).PhaseAt(c).owner != ""
    ensures AtMost(Apply(cl, s, a).PhaseAt(c).owner, s.PhaseAt(c).owner)
    ensures s.PhaseAt(c).sentElsewhere ==> Apply(cl, s, a).PhaseAt(c).sentElsewhere
  {
    if a.Answered? && a.c == c {
      MinNameIsLeast(s.PhaseAt(c).owner, AfterClaim(s.EntryAt(a.p), c).owner);
    }
  }

  /** A reply just received is reflected in the aggregate. */
  lemma ReplyCounted(cl: Cluster, s: State, c: string, p: string)
    requires Enabled(cl, s, Answered(c, p)) && c != ""
    ensures Apply(cl, s, Answered(c, p)).PhaseAt(c).Claiming?
    ensures var t := Apply(cl, s, Answered(c, p));
            && t.PhaseAt(c).owner != ""
            && AtMost(t.PhaseAt(c).owner, t.EntryAt(p).owner)
            && (t.EntryAt(p).sent ==> t.PhaseAt(c).sentElsewhere)
  {
    var e := AfterClaim(s.EntryAt(p), c);
    MinNameIsLeast(s.EntryAt(p).owner, c);
    MinNameIsLeast(s.PhaseAt(c).owner, e.owner);
  }

  lemma {:induction false} AggregateKept(cl: Cluster, r: Run, i: nat, j: nat, c: string)
    requires Follows(cl, r) && i <= j < |r.states|
    requires r.states[i].PhaseAt(c).Claiming? && r.states[j].PhaseAt(c).Claiming?
    requires r.states[i].PhaseAt(c).owner != ""
    ensures r.states[j].PhaseAt(c).owner != ""
    ensures AtMost(r.states[j].PhaseAt(c).owner, r.states[i].PhaseAt(c).owner)
    ensures r.states[i].PhaseAt(c).sentElsewhere ==> r.states[j].PhaseAt(c).sentElsewhere
  {
    hide Apply;
    hide Enabled;
    if i < j {
      assert r.states[j - 1].PhaseAt(c).Claiming? by {
        PhasesAdvance(cl, r, i, j - 1, c);
        PhasesAdvance(cl, r, j - 1, j, c);
      }
      AggregateKept(cl, r, i, j - 1, c);
      var s, a := r.states[j - 1], r.actions[j - 1];
      assert Enabled(cl, s, a) && r.states[j] == Apply(cl, s, a);
      AggregateShrinks(cl, s, a, c);
      AtMostTransitive(r.states[j].PhaseAt(c).owner, s.PhaseAt(c).owner, r.states[i].PhaseAt(c).owner);
    }
  }

  /** What a reply said is still reflected in the aggregate later. */
  lemma ReplyKept(cl: Cluster, r: Run, k: nat, i: nat, c: string, p: string)
    requires Follows(cl, r) && k < i < |r.states| && c != ""
    requires r.actions[k] == Answered(c, p) && r.states[i].PhaseAt(c).Claiming?
    ensures AtMost(r.states[i].PhaseAt(c).owner, r.states[k + 1].EntryAt(p).owner)
    ensures r.states[k + 1].EntryAt(p).sent ==> r.states[i].PhaseAt(c).sentElsewhere
  {
    ReplyCounted(cl, r.states[k], c, p);
    AggregateKept(cl, r, k + 1, i, c);
    AtMostTransitive(r.states[i].PhaseAt(c).owner, r.states[k + 1].PhaseAt(c).owner, r.states[k + 1].EntryAt(p).owner);
  }

  /** Without expiry, a "sent" mark stays. */
  lemma {:induction false} SentStays(cl: Cluster, r: Run, i: nat, j: nat, n: string)
    requires Follows(cl, r) && Lasting(r, n) && i <= j < |r.states|
    ensures r.states[i].EntryAt(n).sent ==> r.states[j].EntryAt(n).sent
  {
    hide MinName;
    if i < j {
      SentStays(cl, r, i, j - 1, n);
      assert r.actions[j - 1] in r.actions;
    }
  }

  /** Without expiry, the owner recorded at n only gets smaller, unless a larger n commits itself. */
  lemma {:induction false} OwnerStays(cl: Cluster, r: Run, i: nat, j: nat, n: string, bound: string)
    requires Follows(cl, r) && Lasting(r, n) && i <= j < |r.states|
    requires r.states[i].EntryAt(n).owner != "" && AtMost(r.states[i].EntryAt(n).owner, bound)
    requires AtMost(n, bound) || forall k :: i <= k < j ==> r.actions[k] != Decide(n)
    requires n != ""
    ensures r.states[j].EntryAt(n).owner != "" && AtMost(r.states[j].EntryAt(n).owner, bound)
  {
    hide MinName;
    hide AtMost;
    if i < j {
      OwnerStays(cl, r, i, j - 1, n, bound);
      var e := r.states[j - 1].EntryAt(n);
      assert r.actions[j - 1] in r.actions;
      match r.actions[j - 1] {
        case Register(c) => MergeBounded(e.owner, c, bound);
        case Answered(c, p) => MergeBounded(e.owner, c, bound);
        case Stray(c, p) => MergeBounded(e.owner, c, bound);
        case SentArrives(c, p) => MergeBounded(e.owner, c, bound);
        case _ =>
      }
    }
  }

  lemma MergeBounded(owner: string, c: string, bound: string)
    requires owner != "" && AtMost(owner, bound)
    ensures MinName(owner, c) != "" && AtMost(MinName(owner, c), bound)
  {
    MinNameIsLeast(owner, c);
    AtMostTransitive(MinName(owner, c), owner, bound);
  }

  // ----- two deliveries -----

  /** Nodes a and b query and notify each other. */
  ghost predicate MutuallyListed(cl: Cluster, a: string, b: string) {
    b in cl.PeersOf(a) && a in cl.PeersOf(b)
  }

  /** Both claims between a and b get through, and neither entry expires. */
  ghost predicate Undisturbed(r: Run, a: string, b: string) {
    Lasting(r, a) && Lasting(r, b) && Lost(a, b) !in r.actions && Lost(b, a) !in r.actions
  }

  /** Positions of the six events of a double delivery in a run. */
  datatype Schedule = Schedule(regB: nat, claimB: nat, regA: nat, claimA: nat, commitA: nat, commitB: nat)

  /** b registers, b's claim is handled at a, only then a registers, a's claim is handled at b,
      both commit, and no sent-message from anyone reaches b before b commits. */
  ghost predicate Crossed(r: Run, a: string, b: string, t: Schedule) {
    && t.regB < t.claimB < t.regA < t.claimA < t.commitB < |r.actions|
    && t.claimA < t.commitA < |r.actions|
    && r.actions[t.regB] == Register(b) && r.actions[t.claimB] == Answered(b, a)
    && r.actions[t.regA] == Register(a) && r.actions[t.claimA] == Answered(a, b)
    && r.actions[t.commitA] == Decide(a) && r.actions[t.commitB] == Decide(b)
    && forall x, j :: 0 <= j < |r.actions| && r.actions[j] == SentArrives(x, b) ==> t.commitB < j
  }

  lemma AnsweredClaim(cl: Cluster, r: Run, i: nat, c: string, p: string) returns (k: nat, reg: nat)
    requires IsRun(cl, r) && i < |r.states| && Lost(c, p) !in r.actions
    requires r.states[i].PhaseAt(c) == Claiming({}, c, false) && p in cl.PeersOf(c)
    ensures reg < k < i && r.actions[k] == Answered(c, p) && r.actions[reg] == Register(c) && c != ""
  {
    k := ClaimResolved(cl, r, i, c, p);
    assert r.actions[k] in r.actions;
    reg := Registered(cl, r, k, c);
  }

  /** A winner's claim was handled by p before any smaller p registered. */
  lemma WonBeforeSmallerRegistered(cl: Cluster, r: Run, win: nat, k: nat, reg: nat, c: string, p: string)
    requires IsRun(cl, r) && Lasting(r, p) && win < |r.actions| && k < win && reg < |r.actions|
    requires Wins(r.states[win], c) && r.actions[k] == Answered(c, p) && r.actions[reg] == Register(p)
    requires Less(p, c) && p != ""
    ensures k < reg
  {
    hide RacedOut;
    if reg < k {
      MinNameIsLeast(r.states[reg].EntryAt(p).owner, p);
      assert r.states[reg + 1].EntryAt(p).owner == MinName(r.states[reg].EntryAt(p).owner, p);
      OwnerStays(cl, r, reg + 1, k, p, p);
      MergeBounded(r.states[k].EntryAt(p).owner, c, p);
      assert r.states[k + 1].EntryAt(p).owner == MinName(r.states[k].EntryAt(p).owner, c);
      ReplyKept(cl, r, k, win, c, p);
      AtMostTransitive(c, r.states[k + 1].EntryAt(p).owner, p);
      LessTrichotomy(p, c);
    }
  }

  /** No node whose "sent" mark lasts has one when a later winner's claim is handled there. */
  lemma WonBeforeSent(cl: Cluster, r: Run, win: nat, k: nat, j: nat, c: string, p: string)
    requires IsRun(cl, r) && Lasting(r, p) && win < |r.actions| && k < win && j <= k && c != ""
    requires Wins(r.states[win], c) && r.actions[k] == Answered(c, p)
    ensures !r.states[j].EntryAt(p).sent
  {
    SentStays(cl, r, j, k, p);
    ReplyKept(cl, r, k, win, c, p);
    assert r.states[k + 1].EntryAt(p).sent == r.states[k].EntryAt(p).sent;
  }

  /** If mutually listed a < b both deliver one incident, their calls crossed in exactly this way. */
  lemma DoubleDeliveryCrosses(cl: Cluster, r: Run, a: string, b: string)
    requires IsRun(cl, r) && MutuallyListed(cl, a, b) && Undisturbed(r, a, b) && Less(a, b)
    requires r.Last().Delivered(a) && r.Last().Delivered(b)
    ensures exists t :: Crossed(r, a, b, t)
  {
    hide Apply;
    hide Enabled;
    var last := |r.states| - 1;
    var commitA := DeliveryDecided(cl, r, last, a);
    var commitB := DeliveryDecided(cl, r, last, b);
    var claimA, regA := AnsweredClaim(cl, r, commitA, a, b);
    var claimB, regB := AnsweredClaim(cl, r, commitB, b, a);
    WonBeforeSmallerRegistered(cl, r, commitB, claimB, regA, b, a);
    CommittedIsSent(cl, r, commitB, b);
    if commitB < claimA {
      WonBeforeSent(cl, r, commitA, claimA, commitB + 1, a, b);
    }
    forall x, j: nat | j < |r.actions| && r.actions[j] == SentArrives(x, b) ensures commitB < j {
      if j < commitB {
        ArrivalIsSent(cl, r, j, x, b);
        SentStays(cl, r, j + 1, commitB, b);
        if j < claimA {
          WonBeforeSent(cl, r, commitA, claimA, j + 1, a, b);
        } else {
          ClaimedOwnerStays(cl, r, claimA, commitB, a, b);
          LessTrichotomy(a, b);
        }
      }
    }
    assert Crossed(r, a, b, Schedule(regB, claimB, regA, claimA, commitA, commitB));
  }

  lemma CommittedIsSent(cl: Cluster, r: Run, i: nat, c: string)
    requires Follows(cl, r) && i < |r.actions| && r.actions[i] == Decide(c) && Wins(r.states[i], c)
    ensures r.states[i + 1].EntryAt(c) == Entry(c, true)
    ensures r.states[i + 1].Delivered(c)
  {
    assert r.states[i + 1] == Apply(cl, r.states[i], Decide(c));
  }

  lemma ArrivalIsSent(cl: Cluster, r: Run, j: nat, x: string, p: string)
    requires Follows(cl, r) && j < |r.actions| && r.actions[j] == SentArrives(x, p)
    ensures r.states[j + 1].EntryAt(p).sent
  {
    assert r.states[j + 1] == Apply(cl, r.states[j], SentArrives(x, p));
  }

  /** From a's claim at b until b decides, the owner recorded at b is at most a. */
  lemma ClaimedOwnerStays(cl: Cluster, r: Run, k: nat, i: nat, a: string, b: string)
    requires IsRun(cl, r) && Lasting(r, b) && k < i < |r.actions| && a != "" && b != ""
    requires r.actions[k] == Answered(a, b) && r.actions[i] == Decide(b)
    ensures AtMost(r.states[i].EntryAt(b).owner, a)
  {
    MinNameIsLeast(r.states[k].EntryAt(b).owner, a);
    assert r.states[k + 1].EntryAt(b).owner == MinName(r.states[k].EntryAt(b).owner, a);
    forall m | k + 1 <= m < i ensures r.actions[m] != Decide(b) {
      if r.actions[m] == Decide(b) {
        DecidesOnce(cl, r, m, i, b);
      }
    }
    OwnerStays(cl, r, k + 1, i, b, a);
  }

  /** Calls that do not overlap deliver at most once. */
  lemma DisjointCallsDeliverOnce(cl: Cluster, r: Run, a: string, b: string, endFirst: nat, startSecond: nat)
    requires IsRun(cl, r) && MutuallyListed(cl, a, b) && Undisturbed(r, a, b) && a != b
    requires endFirst < startSecond < |r.actions|
    requires r.actions[endFirst] == Decide(a) && r.actions[startSecond] == Register(b)
    ensures !(r.Last().Delivered(a) && r.Last().Delivered(b))
  {
    if r.Last().Delivered(a) && r.Last().Delivered(b) {
      LessTrichotomy(a, b);
      if Less(a, b) {
        DoubleDeliveryCrosses(cl, r, a, b);
        var t :| Crossed(r, a, b, t);
        DecidesOnce(cl, r, endFirst, t.commitA, a);
        RegistersOnce(cl, r, startSecond, t.regB, b);
      } else {
        DoubleDeliveryCrosses(cl, r, b, a);
        var t :| Crossed(r, b, a, t);
        DecidesOnce(cl, r, endFirst, t.commitB, a);
        RegistersOnce(cl, r, startSecond, t.regA, b);
      }
    }
  }

  /** Both candidacies are recorded before b's claim is handled at a. */
  ghost predicate RegisterFirst(r: Run, a: string, b: string) {
    forall i, j | 0 <= i < |r.actions| && 0 <= j < |r.actions| ::
      r.actions[i] == Register(a) && r.actions[j] == Answered(b, a) ==> i < j
  }

  /** Calls that both register before either claim is handled deliver at most once. */
  lemma RegisteredFirstDeliversOnce(cl: Cluster, r: Run, a: string, b: string)
    requires IsRun(cl, r) && MutuallyListed(cl, a, b) && Undisturbed(r, a, b) && Less(a, b)
    requires RegisterFirst(r, a, b)
    ensures !(r.Last().Delivered(a) && r.Last().Delivered(b))
  {
    if r.Last().Delivered(a) && r.Last().Delivered(b) {
      DoubleDeliveryCrosses(cl, r, a, b);
    }
  }

  /** When candidacy is recorded before the claims arrive, the smallest-named caller alone delivers. */
  lemma SmallestIsElected(cl: Cluster, r: Run, smallest: string)
    requires IsRun(cl, r) && r.Last().PhaseAt(smallest).Done?
    requires forall n :: r.Last().PhaseAt(n) != Idle ==> AtMost(smallest, n)
    requires forall n :: r.Last().PhaseAt(n) != Idle && n != smallest ==>
                           MutuallyListed(cl, smallest, n) && Undisturbed(r, smallest, n) && RegisterFirst(r, smallest, n)
    ensures forall n :: r.Last().Delivered(n) <==> n == smallest
  {
    var last := |r.states| - 1;
    var reg := Registered(cl, r, last, smallest);
    forall n | r.Last().Delivered(n) ensures n == smallest {
      if n != smallest {
        var win := DeliveryDecided(cl, r, last, n);
        var claim, _ := AnsweredClaim(cl, r, win, n, smallest);
        WonBeforeSmallerRegistered(cl, r, win, claim, reg, n, smallest);
      }
    }
    NoSilence(cl, r, smallest);
  }
}
