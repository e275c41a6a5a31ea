/**
 What the ledgers know, told by the events of a run alone, and from it the exact condition under
 which one caller among any number delivers.
 */
module ElectionKnowledge {
  import opened Names
  import opened Election
  import opened ElectionSilence
  import opened ElectionSafety

  /** The name an action brings into the ledger of p, or "". */
  function Entrant(a: Action, p: string): string {
    match a
    case Register(c) => if c == p then p else ""
    case Answered(c, q) => if q == p then c else ""
    case Stray(c, q) => if q == p then c else ""
    case SentArrives(c, q) => if q == p then c else ""
    case _ => ""
  }

  /** p, done asking, writes its own name over whatever its ledger says. */
  predicate CommitsIn(s: State, a: Action, p: string) {
    a == Decide(p) && s.PhaseAt(p).Claiming? && s.PhaseAt(p).owner == p && !s.PhaseAt(p).sentElsewhere
  }

  ghost predicate Commits(r: Run, i: nat, p: string)
    requires i < |r.actions| < |r.states|
  {
    CommitsIn(r.states[i], r.actions[i], p)
  }

  /** Before action i, the ledger of p has heard of c, and neither expired nor been overwritten since. */
  ghost predicate HeardOf(r: Run, i: nat, c: string, p: string)
    requires i <= |r.actions| < |r.states|
  {
    i > 0 &&
    if Commits(r, i - 1, p) then c == p
    else r.actions[i - 1] != Reset(p) && ((c != "" && c == Entrant(r.actions[i - 1], p)) || HeardOf(r, i - 1, c, p))
  }

  /** Before action i, and since its entry last expired, p has been told that c sent, or is c and did. */
  ghost predicate ToldSent(r: Run, i: nat, c: string, p: string)
    requires i <= |r.actions| < |r.states|
  {
    i > 0 && (
      || r.actions[i - 1] == SentArrives(c, p)
      || (c == p && Commits(r, i - 1, p))
      || (r.actions[i - 1] != Reset(p) && ToldSent(r, i - 1, c, p)))
  }

  /** p knows of a delivery. */
  ghost predicate Told(r: Run, i: nat, p: string)
    requires i <= |r.actions| < |r.states|
  {
    exists x :: ToldSent(r, i, x, p)
  }

  lemma EntryChanges(cl: Cluster, s: State, a: Action, p: string)
    requires Enabled(cl, s, a)
    ensures var e := s.EntryAt(p);
            Apply(cl, s, a).EntryAt(p) ==
            if CommitsIn(s, a, p) then Entry(p, true)
            else if a == Reset(p) then NO_ENTRY
            else Entry(MinName(e.owner, Entrant(a, p)), e.sent || (a.SentArrives? && a.p == p))
  {
    hide Less;
  }

  /** A ledger's owner is the smallest name it has heard of, and it is marked exactly if it was told. */
  ghost predicate Knows(r: Run, i: nat, p: string)
    requires i <= |r.actions| < |r.states|
  {
    var e := r.states[i].EntryAt(p);
    && (e.owner != "" ==> HeardOf(r, i, e.owner, p))
    && (forall x :: HeardOf(r, i, x, p) ==> e.owner != "" && AtMost(e.owner, x))
    && (e.sent <==> Told(r, i, p))
  }

  lemma {:induction false} EntryKnows(cl: Cluster, r: Run, i: nat, p: string)
    requires IsRun(cl, r) && i < |r.states|
    ensures Knows(r, i, p)
  {
    if i > 0 {
      EntryKnows(cl, r, i - 1, p);
      EntryKnowsStep(cl, r, i - 1, p);
    }
  }

  lemma EntryKnowsStep(cl: Cluster, r: Run, i: nat, p: string)
    requires IsRun(cl, r) && i < |r.actions| && Knows(r, i, p)
    ensures Knows(r, i + 1, p)
  {
    var s, a := r.states[i], r.actions[i];
    assert r.states[i + 1] == Apply(cl, s, a) && Enabled(cl, s, a);
    EntryChanges(cl, s, a, p);
    assert s.PhaseAt("") == Idle by { GroundedAt(cl, r, i); }
    hide Apply;
    hide Enabled;
    hide Entrant;
    hide Less;
    hide Told;
    var e, e', c := s.EntryAt(p), r.states[i + 1].EntryAt(p), Entrant(a, p);
    if !CommitsIn(s, a, p) && a != Reset(p) {
      MinNameIsLeast(e.owner, c);
      forall x | HeardOf(r, i + 1, x, p) ensures e'.owner != "" && AtMost(e'.owner, x) {
        if HeardOf(r, i, x, p) {
          AtMostTransitive(e'.owner, e.owner, x);
        }
      }
    }
    ToldStep(r, i, p);
  }

  lemma ToldStep(r: Run, i: nat, p: string)
    requires i < |r.actions| < |r.states|
    ensures Told(r, i + 1, p) <==>
            || (r.actions[i].SentArrives? && r.actions[i].p == p) || Commits(r, i, p)
            || (r.actions[i] != Reset(p) && Told(r, i, p))
  {
    if r.actions[i].SentArrives? && r.actions[i].p == p {
      assert ToldSent(r, i + 1, r.actions[i].c, p);
    }
    if Commits(r, i, p) {
      assert ToldSent(r, i + 1, p, p);
    }
    if Told(r, i, p) && r.actions[i] != Reset(p) {
      var x :| ToldSent(r, i, x, p);
      assert ToldSent(r, i + 1, x, p);
    }
    var after := i + 1;
    if x :| ToldSent(r, after, x, p) {
      assert r.actions[i] == SentArrives(x, p) || Commits(r, i, p) || ToldSent(r, i, x, p);
    }
  }

  // ----- one caller among any number -----

  /** The ledger of p knows of a delivery, or of a smaller name than c. */
  ghost predicate Warned(r: Run, i: nat, c: string, p: string)
    requires i <= |r.actions| < |r.states|
  {
    Told(r, i, p) || exists x :: Less(x, c) && HeardOf(r, i, x, p)
  }

  /** c knows of a delivery by another one: it has heard of a smaller name, or no longer of itself. */
  ghost predicate Overtaken(r: Run, i: nat, c: string)
    requires i <= |r.actions| < |r.states|
  {
    Told(r, i, c) && (!HeardOf(r, i, c, c) || exists x :: Less(x, c) && HeardOf(r, i, x, c))
  }

  lemma WarnedExactly(cl: Cluster, r: Run, i: nat, c: string, p: string)
    requires IsRun(cl, r) && i < |r.states|
    ensures Warned(r, i, c, p) <==> !Harmless(r.states[i].EntryAt(p), c)
  {
    EntryKnows(cl, r, i, p);
    hide Less;
    hide HeardOf;
    var owner := r.states[i].EntryAt(p).owner;
    LessTrichotomy(owner, c);
    forall x | Less(x, c) && HeardOf(r, i, x, p) ensures owner != "" && Less(owner, c) {
      if owner != x { LessTransitive(owner, x, c); }
    }
  }

  lemma OvertakenExactly(cl: Cluster, r: Run, i: nat, c: string)
    requires IsRun(cl, r) && i < |r.states| && c != ""
    ensures Overtaken(r, i, c) <==> RacedOut(r.states[i].EntryAt(c), c)
  {
    EntryKnows(cl, r, i, c);
    hide Less;
    hide HeardOf;
    var owner := r.states[i].EntryAt(c).owner;
    LessTrichotomy(owner, c);
    if x :| Less(x, c) && HeardOf(r, i, x, c) {
      LessTrichotomy(x, c);
    }
  }

  /** c's decision at d: its own ledger held no warning when it registered, no peer it heard from was warned,
      and no other delivery overtook it. */
  ghost predicate Unwarned(r: Run, c: string, d: nat)
    requires d < |r.actions| < |r.states|
  {
    && (forall k: nat :: k < |r.actions| && r.actions[k] == Register(c) ==> !Warned(r, k, c, c))
    && (forall k: nat, p :: k < |r.actions| && r.actions[k] == Answered(c, p) ==> !Warned(r, k, c, p))
    && !Overtaken(r, d, c)
  }

  /** What one step does to a call that stays open: nothing, or one claim is resolved. */
  lemma OpenCallStep(cl: Cluster, s: State, a: Action, c: string)
    requires Enabled(cl, s, a) && s.PhaseAt(c).Claiming? && Apply(cl, s, a).PhaseAt(c).Claiming?
    ensures var ph, t := s.PhaseAt(c), Apply(cl, s, a);
            || t.PhaseAt(c) == ph
            || (exists p :: p in ph.pending && a == Lost(c, p))
            || (exists p :: p in ph.pending && a == Answered(c, p) &&
                            t.PhaseAt(c) == Claiming(ph.pending - {p}, MinName(ph.owner, t.EntryAt(p).owner), ph.sentElsewhere || t.EntryAt(p).sent))
  {}

  lemma RegistrationOpens(cl: Cluster, r: Run, reg: nat, c: string)
    requires IsRun(cl, r) && reg < |r.actions| && r.actions[reg] == Register(c)
    ensures var e := r.states[reg].EntryAt(c);
            r.states[reg + 1].PhaseAt(c) == if e.sent then Done(false) else Claiming(cl.PeersOf(c), MinName(e.owner, c), false)
  {
    assert r.states[reg + 1] == Apply(cl, r.states[reg], r.actions[reg]);
  }

  lemma HarmlessAnswer(e: Entry, c: string)
    requires Harmless(e, c) && c != ""
    ensures MinName(c, AfterClaim(e, c).owner) == c && !AfterClaim(e, c).sent
  {
    MinNameIsLeast(e.owner, c);
    LessTrichotomy(e.owner, c);
    LessTrichotomy(c, c);
  }

  lemma AnswerEntry(cl: Cluster, s: State, c: string, p: string)
    requires Enabled(cl, s, Answered(c, p))
    ensures Apply(cl, s, Answered(c, p)).EntryAt(p) == AfterClaim(s.EntryAt(p), c)
  {}

  /** As long as all answers are harmless, an open call that started with its own name keeps it. */
  lemma {:induction false} KeepsOwnName(cl: Cluster, r: Run, reg: nat, i: nat, c: string)
    requires IsRun(cl, r) && reg < i < |r.states| && r.actions[reg] == Register(c) && c != ""
    requires r.states[reg + 1].PhaseAt(c).Claiming? && r.states[reg + 1].PhaseAt(c).owner == c
    requires forall k: nat, p :: k < i && r.actions[k] == Answered(c, p) ==> Harmless(r.states[k].EntryAt(p), c)
    requires r.states[i].PhaseAt(c).Claiming?
    ensures r.states[i].PhaseAt(c).owner == c && !r.states[i].PhaseAt(c).sentElsewhere
  {
    hide Apply;
    hide Enabled;
    RegistrationOpens(cl, r, reg, c);
    PhasesAdvance(cl, r, reg + 1, i, c);
    if reg + 1 < i {
      PhasesAdvance(cl, r, reg + 1, i - 1, c);
      PhasesAdvance(cl, r, i - 1, i, c);
      KeepsOwnName(cl, r, reg, i - 1, c);
      var s, act := r.states[i - 1], r.actions[i - 1];
      assert r.states[i] == Apply(cl, s, act) && Enabled(cl, s, act);
      OpenCallStep(cl, s, act, c);
      if p :| act == Answered(c, p) {
        AnswerEntry(cl, s, c, p);
        HarmlessAnswer(s.EntryAt(p), c);
      } else if p :| act == Lost(c, p) {
        LostKeeps(cl, s, c, p);
      }
    }
  }

  lemma LostKeeps(cl: Cluster, s: State, c: string, p: string)
    requires Enabled(cl, s, Lost(c, p))
    ensures Apply(cl, s, Lost(c, p)).PhaseAt(c) == s.PhaseAt(c).(pending := s.PhaseAt(c).pending - {p})
  {}

  /** Only listed peers are waited for. */
  lemma {:induction false} PendingListed(cl: Cluster, r: Run, i: nat, c: string)
    requires IsRun(cl, r) && i < |r.states| && r.states[i].PhaseAt(c).Claiming?
    ensures r.states[i].PhaseAt(c).pending <= cl.PeersOf(c)
  {
    hide MinName;
    if r.states[i - 1].PhaseAt(c).Claiming? {
      PendingListed(cl, r, i - 1, c);
    }
  }

  /** An answer comes while the call is open, from a listed peer. */
  lemma AnswerIsOpen(cl: Cluster, r: Run, k: nat, i: nat, c: string, p: string)
    requires IsRun(cl, r) && k < |r.actions| && i < |r.actions|
    requires r.actions[k] == Answered(c, p) && r.actions[i] == Decide(c)
    ensures k < i && r.states[k].PhaseAt(c).Claiming? && p in cl.PeersOf(c)
  {
    assert Enabled(cl, r.states[k], r.actions[k]) && Enabled(cl, r.states[i], r.actions[i]);
    PendingListed(cl, r, k, c);
    if i < k {
      assert r.states[i + 1].PhaseAt(c).Done? by { DecideEnds(cl, r.states[i], c); }
      PhasesAdvance(cl, r, i + 1, k, c);
    }
  }

  lemma DecideEnds(cl: Cluster, s: State, c: string)
    requires Enabled(cl, s, Decide(c))
    ensures Apply(cl, s, Decide(c)).PhaseAt(c).Done?
  {}

  lemma RegisteredOwner(cl: Cluster, r: Run, reg: nat, c: string)
    requires IsRun(cl, r) && reg < |r.actions| && r.actions[reg] == Register(c)
    ensures c != "" && r.states[reg + 1].EntryAt(c).owner != ""
    ensures AtMost(r.states[reg + 1].EntryAt(c).owner, c)
  {
    assert r.states[reg + 1] == Apply(cl, r.states[reg], r.actions[reg]);
    MinNameIsLeast(r.states[reg].EntryAt(c).owner, c);
  }


  lemma WonHarmless(cl: Cluster, r: Run, k: nat, d: nat, c: string, p: string)
    requires IsRun(cl, r) && d < |r.actions| && r.actions[d] == Decide(c) && Wins(r.states[d], c) && c != ""
    requires k < |r.actions| && r.actions[k] == Answered(c, p)
    ensures Harmless(r.states[k].EntryAt(p), c)
  {
    AnswerIsOpen(cl, r, k, d, c, p);
    assert Enabled(cl, r.states[k], r.actions[k]) && r.states[k + 1] == Apply(cl, r.states[k], r.actions[k]);
    AnswerEntry(cl, r.states[k], c, p);
    hide Apply;
    hide Enabled;
    ReplyKept(cl, r, k, d, c, p);
    MergeHarmless(r.states[k].EntryAt(p), c);
  }

  lemma MergeHarmless(e: Entry, c: string)
    requires c != "" && AtMost(c, MinName(e.owner, c)) && !e.sent
    ensures Harmless(e, c)
  {
    LessTrichotomy(e.owner, c);
  }

  /** The registration that leads to a decision found no "sent" mark; and no smaller name, if it wins. */
  lemma RegistrationLed(cl: Cluster, r: Run, reg: nat, d: nat, c: string)
    requires IsRun(cl, r) && reg < |r.actions| && d < |r.actions|
    requires r.actions[reg] == Register(c) && r.actions[d] == Decide(c)
    ensures c != "" && reg < d && !r.states[reg].EntryAt(c).sent
    ensures r.states[reg + 1].PhaseAt(c) == Claiming(cl.PeersOf(c), MinName(r.states[reg].EntryAt(c).owner, c), false)
    ensures Wins(r.states[d], c) ==> Harmless(r.states[reg].EntryAt(c), c)
  {
    assert Enabled(cl, r.states[d], r.actions[d]);
    RegisteredOwner(cl, r, reg, c);
    RegistrationOpens(cl, r, reg, c);
    hide Apply;
    hide Enabled;
    var known := Registered(cl, r, d, c);
    RegistersOnce(cl, r, reg, known, c);
    PhasesAdvance(cl, r, reg + 1, d, c);
    AggregateKept(cl, r, reg + 1, d, c);
    if Wins(r.states[d], c) {
      MergeHarmless(r.states[reg].EntryAt(c), c);
    }
  }

  /** The exact condition, for any cluster, any number of callers, any losses and expiries. */
  lemma DeliversExactly(cl: Cluster, r: Run, c: string, d: nat)
    requires IsRun(cl, r) && d < |r.actions| && r.actions[d] == Decide(c)
    ensures r.states[d + 1].Delivered(c) <==> Unwarned(r, c, d)
  {
    DecideWins(cl, r.states[d], c);
    assert Enabled(cl, r.states[d], r.actions[d]) && r.states[d + 1] == Apply(cl, r.states[d], r.actions[d]);
    var reg := Registered(cl, r, d, c);
    hide Apply;
    hide Enabled;
    hide Warned;
    hide Overtaken;
    hide Wins;
    RegistrationLed(cl, r, reg, d, c);
    OvertakenExactly(cl, r, d, c);
    forall k: nat | k < |r.actions| && r.actions[k] == Register(c)
      ensures k == reg && (Warned(r, k, c, c) <==> !Harmless(r.states[k].EntryAt(c), c))
    {
      RegistersOnce(cl, r, k, reg, c);
      WarnedExactly(cl, r, k, c, c);
    }
    forall k: nat, p | k < |r.actions| && r.actions[k] == Answered(c, p)
      ensures Warned(r, k, c, p) <==> !Harmless(r.states[k].EntryAt(p), c)
    {
      WarnedExactly(cl, r, k, c, p);
    }
    if Unwarned(r, c, d) {
      HarmlessAnswer(r.states[reg].EntryAt(c), c);
      OwnNameFirst(r.states[reg].EntryAt(c), c);
      KeepsOwnName(cl, r, reg, d, c);
      WinsExactly(r.states[d], c);
    } else if Wins(r.states[d], c) {
      WinsExactly(r.states[d], c);
      forall k: nat, p | k < |r.actions| && r.actions[k] == Answered(c, p) ensures Harmless(r.states[k].EntryAt(p), c) {
        WonHarmless(cl, r, k, d, c, p);
      }
      assert false;
    }
  }

  lemma OwnNameFirst(e: Entry, c: string)
    requires Harmless(e, c) && c != ""
    ensures MinName(e.owner, c) == c
  {
    LessTrichotomy(e.owner, c);
  }

  lemma WinsExactly(s: State, c: string)
    ensures Wins(s, c) <==> s.PhaseAt(c) == Claiming({}, c, false) && !RacedOut(s.EntryAt(c), c)
  {}

  lemma DecideWins(cl: Cluster, s: State, c: string)
    requires Enabled(cl, s, Decide(c))
    ensures s.PhaseAt(c).Claiming? && s.PhaseAt(c).pending == {}
    ensures Apply(cl, s, Decide(c)).Delivered(c) <==> Wins(s, c)
  {}

  /** A node has delivered by the end of a run exactly if it decided, unwarned and not overtaken. */
  lemma DeliveredExactly(cl: Cluster, r: Run, c: string)
    requires IsRun(cl, r)
    ensures r.Last().Delivered(c) <==> exists d: nat :: d < |r.actions| && r.actions[d] == Decide(c) && Unwarned(r, c, d)
  {
    hide Unwarned;
    hide Apply;
    hide Enabled;
    var last := |r.states| - 1;
    if r.Last().Delivered(c) {
      var d := DeliveryDecided(cl, r, last, c);
      CommittedIsSent(cl, r, d, c);
      DeliversExactly(cl, r, c, d);
    }
    if d: nat :| d < |r.actions| && r.actions[d] == Decide(c) && Unwarned(r, c, d) {
      DeliversExactly(cl, r, c, d);
      PhasesAdvance(cl, r, d + 1, last, c);
    }
  }
}
