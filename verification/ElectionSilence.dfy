/**
 "Duplicates are acceptable, silence is not": under any loss of messages, any (even one-sided)
 peer lists and any expiry of entries, an incident somebody evaluates to the end is delivered.
 */
module ElectionSilence {
  import opened Names
  import opened Election

  ghost predicate SomeDelivery(s: State) {
    exists n :: s.Delivered(n)
  }

  ghost predicate Called(s: State, n: string) {
    n != "" && s.PhaseAt(n) != Idle
  }

  /** A smaller caller than c exists. */
  ghost predicate Outranked(s: State, c: string) {
    exists x :: Called(s, x) && Less(x, c)
  }

  /** In the ledger of n, which started as l says: an owner is a caller or was there at the start, and a
      "sent" mark stems from a real delivery or was there at the start. */
  ghost predicate EntryGrounded(l: map<string, Entry>, s: State, n: string, e: Entry) {
    && (e.owner != "" ==> Called(s, e.owner) || (n in l && e.owner == l[n].owner))
    && (e.sent ==> SomeDelivery(s) || (n in l && l[n].sent))
  }

  /** What a call has gathered stems from callers and deliveries; a call that stood down had a reason to. */
  ghost predicate PhaseGrounded(cl: Cluster, s: State, c: string, ph: Phase) {
    match ph
    case Idle => true
    case Claiming(pending, owner, sentElsewhere) =>
      Called(s, owner) && AtMost(owner, c) && (sentElsewhere ==> SomeDelivery(s)) && pending <= cl.PeersOf(c)
    case Done(deliver) => deliver || SomeDelivery(s) || Outranked(s, c)
  }

  ghost predicate Grounded(cl: Cluster, l: map<string, Entry>, s: State) {
    && s.PhaseAt("") == Idle && s.PhaseAt(cl.subject) == Idle
    && (forall n :: EntryGrounded(l, s, n, s.EntryAt(n)))
    && (forall c :: PhaseGrounded(cl, s, c, s.PhaseAt(c)))
    && (forall c, p :: (c, p) in s.stray ==> Called(s, c))
    && (forall c, p :: (c, p) in s.mail ==> s.Delivered(c))
  }

  /** An entry that leaves c the smallest name, and nothing sent. */
  predicate Harmless(e: Entry, c: string) {
    !e.sent && (e.owner == "" || AtMost(c, e.owner))
  }

  /** The ledgers a call of c reads: its own and those of the peers it asks. */
  predicate Reads(cl: Cluster, c: string, n: string) {
    c != "" && c != cl.subject && (n == c || n in cl.PeersOf(c))
  }

  /** No entry at the start harms a caller that reads it. */
  ghost predicate Safe(cl: Cluster, l: map<string, Entry>) {
    forall c, n :: Reads(cl, c, n) && n in l ==> Harmless(l[n], c)
  }

  ghost predicate Grows(s: State, t: State) {
    && (forall n :: Called(s, n) ==> Called(t, n))
    && (forall n :: s.Delivered(n) ==> t.Delivered(n))
  }

  /** Calls and deliveries are never taken back. */
  lemma StepGrows(cl: Cluster, s: State, a: Action)
    requires Enabled(cl, s, a)
    ensures Grows(s, Apply(cl, s, a))
  {}

  lemma GroundsPersist(cl: Cluster, l: map<string, Entry>, s: State, t: State)
    requires Grows(s, t)
    ensures forall n, e :: EntryGrounded(l, s, n, e) ==> EntryGrounded(l, t, n, e)
    ensures forall c, ph :: PhaseGrounded(cl, s, c, ph) ==> PhaseGrounded(cl, t, c, ph)
  {
    if SomeDelivery(s) {
      var n :| s.Delivered(n);
      assert t.Delivered(n);
    }
    forall c | Outranked(s, c) ensures Outranked(t, c) {
      var x :| Called(s, x) && Less(x, c);
      assert Called(t, x);
    }
  }

  lemma ClaimGrounded(l: map<string, Entry>, s: State, n: string, e: Entry, c: string)
    requires EntryGrounded(l, s, n, e) && Called(s, c)
    ensures EntryGrounded(l, s, n, AfterClaim(e, c))
    ensures AtMost(AfterClaim(e, c).owner, c) && AfterClaim(e, c).owner != ""
    ensures (n in l ==> Harmless(l[n], c)) ==> Called(s, AfterClaim(e, c).owner) && (e.sent ==> SomeDelivery(s))
  {
    MinNameIsLeast(e.owner, c);
    LessTrichotomy(e.owner, c);
  }

  /** The node whose entry an action touches, and the caller whose call it moves on. */
  function NodeOf(a: Action): string {
    match a
    case Register(c) => c
    case Answered(_, p) => p
    case Lost(c, _) => c
    case Stray(_, p) => p
    case Decide(c) => c
    case SentArrives(_, p) => p
    case Reset(n) => n
  }

  function CallerOf(a: Action): string {
    match a
    case Register(c) => c
    case Answered(c, _) => c
    case Lost(c, _) => c
    case Decide(c) => c
    case _ => ""
  }

  lemma StepIsLocal(cl: Cluster, s: State, a: Action)
    requires Enabled(cl, s, a)
    ensures forall n :: n != NodeOf(a) ==> Apply(cl, s, a).EntryAt(n) == s.EntryAt(n)
    ensures forall c :: c != CallerOf(a) ==> Apply(cl, s, a).PhaseAt(c) == s.PhaseAt(c)
  {}

  lemma EntryStep(cl: Cluster, l: map<string, Entry>, s: State, a: Action)
    requires Safe(cl, l) && Grounded(cl, l, s) && Enabled(cl, s, a)
    ensures var t := Apply(cl, s, a); EntryGrounded(l, t, NodeOf(a), t.EntryAt(NodeOf(a)))
  {
    hide MinName;
    var t, n := Apply(cl, s, a), NodeOf(a);
    StepGrows(cl, s, a);
    GroundsPersist(cl, l, s, t);
    assert EntryGrounded(l, t, n, s.EntryAt(n));
    match a {
      case Register(c) => ClaimGrounded(l, t, n, s.EntryAt(n), c);
      case Answered(c, p) => ClaimGrounded(l, t, n, s.EntryAt(n), c);
      case Lost(c, p) =>
      case Stray(c, p) => ClaimGrounded(l, t, n, s.EntryAt(n), c);
      case Decide(c) => DecideGrounded(cl, l, s, c);
      case SentArrives(c, p) =>
        assert t.Delivered(c);
        ClaimGrounded(l, t, n, s.EntryAt(n), c);
      case Reset(_) =>
    }
  }

  lemma PhaseStep(cl: Cluster, l: map<string, Entry>, s: State, a: Action)
    requires Safe(cl, l) && Grounded(cl, l, s) && Enabled(cl, s, a)
    ensures var t := Apply(cl, s, a); PhaseGrounded(cl, t, CallerOf(a), t.PhaseAt(CallerOf(a)))
  {
    hide MinName;
    var t, c := Apply(cl, s, a), CallerOf(a);
    StepGrows(cl, s, a);
    GroundsPersist(cl, l, s, t);
    assert PhaseGrounded(cl, s, c, s.PhaseAt(c));
    match a {
      case Register(_) =>
        assert Reads(cl, c, c);
        ClaimGrounded(l, t, c, s.EntryAt(c), c);
      case Answered(_, p) =>
        assert Reads(cl, c, p);
        ClaimGrounded(l, t, p, s.EntryAt(p), c);
        MergeGrounded(cl, t, c, s.PhaseAt(c), AfterClaim(s.EntryAt(p), c), p);
      case Decide(_) =>
        assert Reads(cl, c, c);
        DecideGrounded(cl, l, s, c);
      case _ =>
    }
  }

  lemma TrafficStep(cl: Cluster, l: map<string, Entry>, s: State, a: Action)
    requires Grounded(cl, l, s) && Enabled(cl, s, a)
    ensures var t := Apply(cl, s, a);
            && t.PhaseAt("") == Idle && t.PhaseAt(cl.subject) == Idle
            && (forall c, p :: (c, p) in t.stray ==> Called(t, c))
            && (forall c, p :: (c, p) in t.mail ==> t.Delivered(c))
  {
    StepGrows(cl, s, a);
  }

  lemma GroundedStep(cl: Cluster, l: map<string, Entry>, s: State, a: Action)
    requires Safe(cl, l) && Grounded(cl, l, s) && Enabled(cl, s, a)
    ensures Grounded(cl, l, Apply(cl, s, a))
  {
    hide Apply;
    hide Enabled;
    hide Safe;
    hide EntryGrounded;
    hide PhaseGrounded;
    StepIsLocal(cl, s, a);
    EntryStep(cl, l, s, a);
    PhaseStep(cl, l, s, a);
    TrafficStep(cl, l, s, a);
    StepGrows(cl, s, a);
    GroundsPersist(cl, l, s, Apply(cl, s, a));
  }

  lemma MergeGrounded(cl: Cluster, s: State, c: string, ph: Phase, e: Entry, p: string)
    requires ph.Claiming? && PhaseGrounded(cl, s, c, ph)
    requires e.owner != "" && Called(s, e.owner) && (e.sent ==> SomeDelivery(s))
    ensures PhaseGrounded(cl, s, c, Claiming(ph.pending - {p}, MinName(ph.owner, e.owner), ph.sentElsewhere || e.sent))
  {
    MinNameIsLeast(ph.owner, e.owner);
    AtMostTransitive(MinName(ph.owner, e.owner), ph.owner, c);
  }

  lemma DecideGrounded(cl: Cluster, l: map<string, Entry>, s: State, c: string)
    requires Safe(cl, l) && Grounded(cl, l, s) && Enabled(cl, s, Decide(c))
    ensures var t := Apply(cl, s, Decide(c));
            PhaseGrounded(cl, t, c, t.PhaseAt(c)) && EntryGrounded(l, t, c, t.EntryAt(c))
  {
    var t := Apply(cl, s, Decide(c));
    assert Reads(cl, c, c);
    assert PhaseGrounded(cl, s, c, s.PhaseAt(c));
    assert EntryGrounded(l, s, c, s.EntryAt(c));
    StepGrows(cl, s, Decide(c));
    GroundsPersist(cl, l, s, t);
    if t.PhaseAt(c) == Done(true) {
      assert t.Delivered(c);
    } else if s.PhaseAt(c).owner != c {
      assert Called(t, s.PhaseAt(c).owner) && Less(s.PhaseAt(c).owner, c);
    }
  }

  lemma {:induction false} GroundedFrom(cl: Cluster, l: map<string, Entry>, r: Run, i: nat)
    requires Follows(cl, r) && Safe(cl, l) && Grounded(cl, l, r.states[0]) && i < |r.states|
    ensures Grounded(cl, l, r.states[i])
  {
    if i > 0 {
      GroundedFrom(cl, l, r, i - 1);
      GroundedStep(cl, l, r.states[i - 1], r.actions[i - 1]);
    }
  }

  lemma GroundedAt(cl: Cluster, r: Run, i: nat)
    requires IsRun(cl, r) && i < |r.states|
    ensures Grounded(cl, map[], r.states[i])
  {
    GroundedFrom(cl, map[], r, i);
  }

  lemma SmallestSpeaks(cl: Cluster, l: map<string, Entry>, s: State, smallest: string)
    requires Grounded(cl, l, s) && s.PhaseAt(smallest).Done?
    requires forall n :: s.PhaseAt(n) != Idle ==> AtMost(smallest, n)
    ensures SomeDelivery(s)
  {
    assert PhaseGrounded(cl, s, smallest, s.PhaseAt(smallest));
    if s.Delivered(smallest) {
    } else if Outranked(s, smallest) {
      var x :| Called(s, x) && Less(x, smallest);
      LessTrichotomy(x, smallest);
    }
  }

  /** Once the smallest-named caller's ShouldSend has returned, some node's has returned true. */
  lemma NoSilence(cl: Cluster, r: Run, smallest: string)
    requires IsRun(cl, r)
    requires r.Last().PhaseAt(smallest).Done?
    requires forall n :: r.Last().PhaseAt(n) != Idle ==> AtMost(smallest, n)
    ensures exists n :: r.Last().Delivered(n)
  {
    GroundedAt(cl, r, |r.states| - 1);
    SmallestSpeaks(cl, map[], r.Last(), smallest);
  }

  /** A stored owner or a reply can only name a node that has already called, whatever was lost. */
  lemma OwnersAreCallers(cl: Cluster, r: Run, i: nat, n: string)
    requires IsRun(cl, r) && i < |r.states|
    requires r.states[i].EntryAt(n).owner != ""
    ensures r.states[i].PhaseAt(r.states[i].EntryAt(n).owner) != Idle
  {
    GroundedAt(cl, r, i);
    assert EntryGrounded(map[], r.states[i], n, r.states[i].EntryAt(n));
  }

  // ----- ledgers that are not empty -----

  /** A run over a later episode of the incident: nobody has called yet, the ledgers are as they were left. */
  ghost predicate Resumes(cl: Cluster, r: Run, l: map<string, Entry>) {
    Follows(cl, r) && r.states[0] == START.(ledger := l)
  }

  /** Somebody delivers whenever the smallest caller is through, in every run of this cluster from l. */
  ghost predicate NeverSilentIn(cl: Cluster, l: map<string, Entry>) {
    forall r, smallest |
      && Resumes(cl, r, l) && r.Last().PhaseAt(smallest).Done?
      && forall n :: r.Last().PhaseAt(n) != Idle ==> AtMost(smallest, n) ::
      SomeDelivery(r.Last())
  }

  /** In a given cluster silence is excluded exactly if no entry at the start harms a caller that reads it. */
  lemma NeverSilentInExactly(cl: Cluster, l: map<string, Entry>)
    ensures NeverSilentIn(cl, l) <==> Safe(cl, l)
  {
    hide Apply;
    hide Enabled;
    hide Harmless;
    hide Reads;
    if c, n :| Reads(cl, c, n) && n in l && !Harmless(l[n], c) {
      var r := LoneCall(cl, l, c, n);
      assert !SomeDelivery(r.Last());
    } else {
      forall r, smallest |
        && Resumes(cl, r, l) && r.Last().PhaseAt(smallest).Done?
        && forall n :: r.Last().PhaseAt(n) != Idle ==> AtMost(smallest, n)
        ensures SomeDelivery(r.Last())
      {
        GroundedStart(cl, l);
        GroundedFrom(cl, l, r, |r.states| - 1);
        SmallestSpeaks(cl, l, r.Last(), smallest);
      }
    }
  }

  lemma GroundedStart(cl: Cluster, l: map<string, Entry>)
    ensures Grounded(cl, l, START.(ledger := l))
  {}

  function Extended(cl: Cluster, r: Run, a: Action): Run
    requires r.states != []
  {
    Run(r.states + [Apply(cl, r.Last(), a)], r.actions + [a])
  }

  lemma ExtendedFollows(cl: Cluster, r: Run, a: Action)
    requires Follows(cl, r) && Enabled(cl, r.Last(), a)
    ensures Follows(cl, Extended(cl, r, a)) && Extended(cl, r, a).states[0] == r.states[0]
    ensures Extended(cl, r, a).Last() == Apply(cl, r.Last(), a)
  {
    hide Apply;
    hide Enabled;
  }

  /** All claims still out are given up on. */
  lemma {:induction false} LoseRest(cl: Cluster, r: Run, c: string) returns (r': Run)
    requires Follows(cl, r) && r.Last().PhaseAt(c).Claiming?
    ensures Follows(cl, r') && r'.states[0] == r.states[0]
    ensures r'.Last().PhaseAt(c) == r.Last().PhaseAt(c).(pending := {})
    ensures forall m :: m != c ==> r'.Last().PhaseAt(m) == r.Last().PhaseAt(m)
    decreases r.Last().PhaseAt(c).pending
  {
    if r.Last().PhaseAt(c).pending == {} {
      r' := r;
    } else {
      var p :| p in r.Last().PhaseAt(c).pending;
      ExtendedFollows(cl, r, Lost(c, p));
      r' := LoseRest(cl, Extended(cl, r, Lost(c, p)), c);
    }
  }

  /** A caller that reads a harmful entry, calls alone and hears from nobody else, stands down. */
  lemma LoneCall(cl: Cluster, l: map<string, Entry>, c: string, n: string) returns (r: Run)
    requires Reads(cl, c, n) && n in l && !Harmless(l[n], c)
    ensures Resumes(cl, r, l) && r.Last().PhaseAt(c) == Done(false)
    ensures forall m :: m != c ==> r.Last().PhaseAt(m) == Idle
  {
    var start := Run([START.(ledger := l)], []);
    ExtendedFollows(cl, start, Register(c));
    r := Extended(cl, start, Register(c));
    RegisterBeaten(cl, l, c);
    if !r.Last().PhaseAt(c).Done? {
      if n != c {
        AnswerBeats(cl, r.Last(), c, n);
        ExtendedFollows(cl, r, Answered(c, n));
        r := Extended(cl, r, Answered(c, n));
      }
      r := LoseRest(cl, r, c);
      BeatenStandsDown(cl, r.Last(), c);
      ExtendedFollows(cl, r, Decide(c));
      r := Extended(cl, r, Decide(c));
    }
  }

  /** c's call has heard of a smaller name, or of a delivery. */
  predicate Beaten(s: State, c: string) {
    s.PhaseAt(c).Claiming? && (s.PhaseAt(c).owner != c || s.PhaseAt(c).sentElsewhere)
  }

  lemma RegisterBeaten(cl: Cluster, l: map<string, Entry>, c: string)
    requires c != ""
    ensures var t := Apply(cl, START.(ledger := l), Register(c));
            && (forall m :: m != c ==> t.PhaseAt(m) == Idle && t.EntryAt(m) == START.(ledger := l).EntryAt(m))
            && (t.PhaseAt(c) == Done(false) || (t.PhaseAt(c).Claiming? && t.PhaseAt(c).pending == cl.PeersOf(c)))
            && (c in l && !Harmless(l[c], c) ==> t.PhaseAt(c) == Done(false) || Beaten(t, c))
  {
    if c in l && !Harmless(l[c], c) && !l[c].sent { HarmfulWins(l[c], c); }
  }

  lemma HarmfulWins(e: Entry, c: string)
    requires c != "" && !Harmless(e, c) && !e.sent
    ensures AtMost(MinName(e.owner, c), e.owner) && MinName(e.owner, c) != c && e.owner != "" && Less(e.owner, c)
  {
    LessTrichotomy(e.owner, c);
  }

  lemma AnswerBeats(cl: Cluster, s: State, c: string, n: string)
    requires c != "" && s.PhaseAt(c).Claiming? && n in s.PhaseAt(c).pending && !Harmless(s.EntryAt(n), c)
    ensures Beaten(Apply(cl, s, Answered(c, n)), c)
    ensures forall m :: m != c ==> Apply(cl, s, Answered(c, n)).PhaseAt(m) == s.PhaseAt(m)
  {
    var e, own := AfterClaim(s.EntryAt(n), c), s.PhaseAt(c).owner;
    if !e.sent {
      HarmfulWins(s.EntryAt(n), c);
      MinNameIsLeast(own, e.owner);
      LessTrichotomy(e.owner, c);
    }
  }

  lemma BeatenStandsDown(cl: Cluster, s: State, c: string)
    requires Beaten(s, c) && s.PhaseAt(c).pending == {}
    ensures Enabled(cl, s, Decide(c)) && Apply(cl, s, Decide(c)).PhaseAt(c) == Done(false)
    ensures forall m :: m != c ==> Apply(cl, s, Decide(c)).PhaseAt(m) == s.PhaseAt(m)
  {}

  lemma {:induction false} LessExtended(o: string, d: char)
    ensures Less(o, o + [d])
  {
    if o != "" {
      LessExtended(o[1..], d);
      assert (o + [d])[1..] == o[1..] + [d];
    }
  }

  /** Over all clusters, it is excluded exactly if no ledger has a live entry for the key. An entry that is
      not even sent does harm somewhere: its owner may never call again. */
  lemma NeverSilentExactly(l: map<string, Entry>)
    ensures (forall cl :: NeverSilentIn(cl, l)) <==> forall n :: n in l ==> l[n] == NO_ENTRY
  {
    hide NeverSilentIn;
    forall cl ensures NeverSilentIn(cl, l) <==> Safe(cl, l) {
      NeverSilentInExactly(cl, l);
    }
    if n :| n in l && l[n] != NO_ENTRY {
      var o := l[n].owner;
      var c := o + if o + "a" != n then "a" else "b";
      var subject := o + if o + "x" != n then "x" else "y";
      assert c[|o|] != subject[|o|];
      var cl := Cluster(map[c := {n}], subject);
      assert Reads(cl, c, n);
      LessExtended(o, c[|o|]);
      LessTrichotomy(o, c);
      assert !Safe(cl, l);
    }
  }

  /** Entries that matter are left by delivering: "a" delivers, and within the time to live its own
      entry silences it, the only caller, when the incident comes back. */
  lemma StaleEntrySilences()
    ensures exists cl: Cluster, first: Run, second: Run ::
              && IsRun(cl, first) && first.Last().Delivered("a")
              && Resumes(cl, second, first.Last().ledger)
              && second.Last().PhaseAt("a") == Done(false)
              && (forall n :: n != "a" ==> second.Last().PhaseAt(n) == Idle)
  {
    var cl := Cluster(map[], "x");
    var s1 := Apply(cl, START, Register("a"));
    var s2 := Apply(cl, s1, Decide("a"));
    var first := Run([START, s1, s2], [Register("a"), Decide("a")]);
    assert cl.PeersOf("a") == {};
    assert IsRun(cl, first) && first.Last().Delivered("a");
    var t := START.(ledger := s2.ledger);
    var second := Run([t, Apply(cl, t, Register("a"))], [Register("a")]);
    assert Resumes(cl, second, first.Last().ledger);
    assert second.Last().PhaseAt("a") == Done(false);
  }
}
