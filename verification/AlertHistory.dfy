/**
 One (rule, node, entity) of the alert engine: the constant-size state it keeps, and what it must
 announce, stated over the whole history of observations.
 */
module AlertHistory {
  import opened Options
  import opened Times

  /** Rule durations are given in seconds. */
  datatype RuleView = RuleView(
    id: int, name: string, source: string, severity: string, forSec: int, recoverGrace: int)

  /** One call of Observe for this entity; the rule's parameters may differ from call to call. */
  datatype Observation = Observation(rule: RuleView, detail: string, met: bool, seed: bool, now: int)

  /** Zero times are None. The level of a state never stored is "". */
  datatype RuleState = RuleState(
    level: string, breachSince: Option<int>, recoveredAt: Option<int>, firingSince: Option<int>,
    node: string, entity: string, source: string, subject: string, detail: string)
  {
    predicate Firing() {
      level != "" && level != "ok"
    }
  }

  const ZERO_STATE := RuleState("", None, None, None, "", "", "", "", "")

  datatype Edge = Quiet | Fired | Recovered

  function Severity(rule: RuleView): string {
    if rule.severity == "" then "warning" else rule.severity
  }

  /** Rules are validated to "warning" or "critical"; "ok" would make a firing level look clear. */
  predicate Sane(o: Observation) {
    o.rule.severity != "ok"
  }

  /** One observation: the new state, and the transition to announce. */
  function Step(st0: RuleState, node: string, entity: string, o: Observation): (RuleState, Edge) {
    var st := if st0.level == "" then st0.(level := "ok") else st0;
    var context := (s: RuleState) =>
                     s.(node := node, entity := entity, source := o.rule.source, subject := o.rule.name, detail := o.detail);
    if o.seed then
      if o.met then
        var since := Some(o.now - o.rule.forSec * SECOND);
        (context(st.(level := Severity(o.rule), breachSince := since, firingSince := since, recoveredAt := None)), Quiet)
      else (context(ZERO_STATE.(level := "ok")), Quiet)
    else if o.met then
      var since := if st.breachSince.None? then o.now else st.breachSince.value;
      var st1 := st.(recoveredAt := None, breachSince := Some(since));
      if st1.level == "ok" && o.now - since >= o.rule.forSec * SECOND then
        (context(st1.(level := Severity(o.rule), firingSince := Some(since))), Fired)
      else (context(st1), Quiet)
    else
      var st1 := st.(breachSince := None);
      if st1.level == "ok" then (context(st1), Quiet)
      else
        var since := if st1.recoveredAt.None? then o.now else st1.recoveredAt.value;
        if o.now - since >= o.rule.recoverGrace * SECOND then
          (context(st1.(level := "ok", recoveredAt := None, firingSince := None)), Recovered)
        else (context(st1.(recoveredAt := Some(since))), Quiet)
  }

  type History = seq<Observation>

  function Front(h: History): History
    requires h != []
  {
    h[..|h| - 1]
  }

  function Last(h: History): Observation
    requires h != []
  {
    h[|h| - 1]
  }

  /** The state after a history that starts from nothing. */
  function Replay(node: string, entity: string, h: History): RuleState {
    if h == [] then ZERO_STATE else Step(Replay(node, entity, Front(h)), node, entity, Last(h)).0
  }

  /** The transition announced for the last observation of a history. */
  function Announced(node: string, entity: string, h: History): Edge {
    if h == [] then Quiet else Step(Replay(node, entity, Front(h)), node, entity, Last(h)).1
  }

  // ----- the specification (times in nanoseconds) -----

  /** What an alert of this rule is graded as. */
  ghost predicate IsSeverity(rule: RuleView, shown: string) {
    (rule.severity != "" ==> shown == rule.severity) && (rule.severity == "" ==> shown == "warning")
  }

  /** The current unbroken breaching streak starts at i; a seed starts it afresh. */
  ghost predicate BreachStart(h: History, i: nat) {
    && i < |h|
    && (forall j :: i <= j < |h| ==> h[j].met)
    && (forall j :: i < j < |h| ==> !h[j].seed)
    && (i == 0 || !h[i - 1].met || h[i].seed)
  }

  /** When that streak counts as begun: a breach found at startup is taken as already sustained. */
  function BreachTime(o: Observation): int {
    if o.seed then o.now - o.rule.forSec * 1_000_000_000 else o.now
  }

  /** The current unbroken clear streak starts at i. */
  ghost predicate ClearStart(h: History, i: nat) {
    && i < |h|
    && (forall j :: i <= j < |h| ==> !h[j].met)
    && (i == 0 || h[i - 1].met)
  }

  ghost predicate BreachBegan(h: History, t: int) {
    exists i: nat :: BreachStart(h, i) && t == BreachTime(h[i])
  }

  ghost predicate ClearBegan(h: History, t: int) {
    exists i: nat :: ClearStart(h, i) && t == h[i].now
  }

  ghost predicate SustainedBreach(h: History) {
    h != [] && exists t :: BreachBegan(h, t) && Last(h).now - t >= Last(h).rule.forSec * 1_000_000_000
  }

  ghost predicate SustainedClear(h: History) {
    h != [] && exists t :: ClearBegan(h, t) && Last(h).now - t >= Last(h).rule.recoverGrace * 1_000_000_000
  }

  /** Whether the entity counts as firing after h. */
  ghost predicate FiringAfter(h: History) {
    h != [] &&
    if Last(h).seed then Last(h).met
    else if FiringAfter(Front(h)) then !SustainedClear(h)
    else SustainedBreach(h)
  }

  /** What must be announced for the last observation. */
  ghost function Due(h: History): Edge {
    if h == [] || Last(h).seed then Quiet
    else if !FiringAfter(Front(h)) && SustainedBreach(h) then Fired
    else if FiringAfter(Front(h)) && SustainedClear(h) then Recovered
    else Quiet
  }

  // ----- the engine meets it -----

  lemma BreachStartUnique(h: History, i: nat, j: nat)
    requires BreachStart(h, i) && BreachStart(h, j)
    ensures i == j
  {
    assert !(i < j) && !(j < i);
  }

  /** A streak began at one time only, and only while it lasts. */
  lemma BreachBeganUnique(h: History, t: int, u: int)
    requires BreachBegan(h, t) && BreachBegan(h, u)
    ensures t == u && Last(h).met
  {
    var i: nat :| BreachStart(h, i) && t == BreachTime(h[i]);
    var j: nat :| BreachStart(h, j) && u == BreachTime(h[j]);
    BreachStartUnique(h, i, j);
  }

  lemma ClearBeganUnique(h: History, t: int, u: int)
    requires ClearBegan(h, t) && ClearBegan(h, u)
    ensures t == u && !Last(h).met
  {
    var i: nat :| ClearStart(h, i) && t == h[i].now;
    var j: nat :| ClearStart(h, j) && u == h[j].now;
    assert !(i < j) && !(j < i);
  }

  lemma BreachStartExtends(h: History, i: nat)
    requires |h| > 1 && BreachStart(Front(h), i) && Last(h).met && !Last(h).seed
    ensures BreachStart(h, i) && h[i] == Front(h)[i]
  {
    forall j | i <= j < |h| ensures h[j].met && (i < j ==> !h[j].seed) {
      if j < |h| - 1 {
        assert h[j] == Front(h)[j];
      }
    }
  }

  /** A breaching observation starts a streak, or continues the one before it. */
  lemma BreachExtends(h: History)
    requires h != [] && Last(h).met
    ensures Last(h).seed || |h| == 1 || !Last(Front(h)).met ==> BreachBegan(h, BreachTime(Last(h)))
    ensures !Last(h).seed && |h| > 1 ==> forall t :: BreachBegan(Front(h), t) ==> BreachBegan(h, t)
  {
    var n: nat := |h| - 1;
    if Last(h).seed || n == 0 || !Last(Front(h)).met {
      assert BreachStart(h, n);
    }
    if !Last(h).seed && n > 0 {
      forall t | BreachBegan(Front(h), t) ensures BreachBegan(h, t) {
        var i: nat :| BreachStart(Front(h), i) && t == BreachTime(Front(h)[i]);
        BreachStartExtends(h, i);
      }
    }
  }

  lemma ClearExtends(h: History)
    requires h != [] && !Last(h).met
    ensures |h| == 1 || Last(Front(h)).met ==> ClearBegan(h, Last(h).now)
    ensures |h| > 1 ==> forall t :: ClearBegan(Front(h), t) ==> ClearBegan(h, t)
  {
    var n: nat := |h| - 1;
    if n == 0 || Last(Front(h)).met {
      assert ClearStart(h, n);
    }
    if n > 0 {
      forall t | ClearBegan(Front(h), t) ensures ClearBegan(h, t) {
        var i: nat :| ClearStart(Front(h), i) && t == Front(h)[i].now;
        assert ClearStart(h, i);
      }
    }
  }

  /** The two timers hold the starts of the current streaks. */
  ghost predicate Tracks(st: RuleState, h: History) {
    && (st.Firing() <==> FiringAfter(h))
    && (h == [] ==> st == ZERO_STATE)
    && (h != [] ==> st.level != "" && (Last(h).met <==> st.breachSince.Some?))
    && (st.breachSince.Some? ==> BreachBegan(h, st.breachSince.value))
    && (st.recoveredAt.Some? <==> st.Firing() && st.breachSince.None?)
    && (st.recoveredAt.Some? ==> ClearBegan(h, st.recoveredAt.value))
  }

  lemma TracksStep(node: string, entity: string, h: History, st: RuleState)
    requires h != [] && Sane(Last(h)) && Tracks(st, Front(h))
    ensures Tracks(Step(st, node, entity, Last(h)).0, h)
    ensures Step(st, node, entity, Last(h)).1 == Due(h)
  {
    hide BreachBegan;
    hide ClearBegan;
    var o, next := Last(h), Step(st, node, entity, Last(h)).0;
    if o.met {
      BreachExtends(h);
      assert BreachBegan(h, next.breachSince.value);
      forall t | BreachBegan(h, t) ensures t == next.breachSince.value {
        BreachBeganUnique(h, t, next.breachSince.value);
      }
      forall t ensures !ClearBegan(h, t) {
        if ClearBegan(h, t) { ClearBeganUnique(h, t, t); }
      }
    } else {
      ClearExtends(h);
      forall t ensures !BreachBegan(h, t) {
        if BreachBegan(h, t) { BreachBeganUnique(h, t, t); }
      }
      if st.Firing() {
        var since := if st.recoveredAt.None? then o.now else st.recoveredAt.value;
        assert ClearBegan(h, since);
        forall t | ClearBegan(h, t) ensures t == since {
          ClearBeganUnique(h, t, since);
        }
      }
    }
  }

  /** The engine's few fields refine the whole history: it announces "firing" and "recovered"
      exactly when the history calls for it, even if rule parameters change on the way. */
  lemma {:induction false} EngineMeetsHistory(node: string, entity: string, h: History)
    requires forall o :: o in h ==> Sane(o)
    ensures Tracks(Replay(node, entity, h), h)
    ensures Announced(node, entity, h) == Due(h)
  {
    if h != [] {
      EngineMeetsHistory(node, entity, Front(h));
      TracksStep(node, entity, h, Replay(node, entity, Front(h)));
    }
  }

  // ----- what follows for the announcements -----

  /** The transitions due over `run` after the history `base`, oldest first. */
  ghost function Edges(base: History, run: History): seq<Edge> {
    if run == [] then []
    else
      var e := Due(base + run);
      Edges(base, Front(run)) + if e == Quiet then [] else [e]
  }

  function Opposite(e: Edge): Edge {
    if e == Fired then Recovered else Fired
  }

  /** first, then the other one, and so on. */
  ghost predicate Alternate(edges: seq<Edge>, first: Edge) {
    forall i :: 0 <= i < |edges| ==> edges[i] == if i % 2 == 0 then first else Opposite(first)
  }

  lemma AlternateAppend(edges: seq<Edge>, first: Edge, e: Edge)
    ensures Alternate([], first)
    ensures Alternate(edges, first) && e == (if |edges| % 2 == 0 then first else Opposite(first)) ==>
              Alternate(edges + [e], first)
  {}

  /** An announcement is a change of state, and every change outside a seed is announced. */
  lemma DueIsChange(h: History)
    requires h != [] && !Last(h).seed
    ensures Due(h) == if FiringAfter(h) == FiringAfter(Front(h)) then Quiet
                      else if FiringAfter(h) then Fired else Recovered
  {}

  /** Between two seeds announcements strictly alternate: a recovery comes first if the seed (or
      whatever came before) left the entity firing, otherwise a firing. */
  lemma {:induction false} EdgesAlternate(base: History, run: History)
    requires forall o :: o in run ==> !o.seed
    ensures Alternate(Edges(base, run), if FiringAfter(base) then Recovered else Fired)
    ensures FiringAfter(base + run) == (FiringAfter(base) == (|Edges(base, run)| % 2 == 0))
  {
    hide Due;
    hide FiringAfter;
    hide Alternate;
    var first := if FiringAfter(base) then Recovered else Fired;
    if run == [] {
      AlternateAppend([], first, first);
      assert base + run == base;
    } else {
      var h := base + run;
      assert Front(h) == base + Front(run) && Last(h) == Last(run);
      EdgesAlternate(base, Front(run));
      DueIsChange(h);
      var before := Edges(base, Front(run));
      AlternateAppend(before, first, Due(h));
      assert Edges(base, run) == if Due(h) == Quiet then before else before + [Due(h)];
    }
  }

  /** An entity that breaches at the seed pass and ever after announces nothing after a restart. */
  lemma {:induction false} StillBreachingIsQuiet(seed: Observation, run: History)
    requires seed.seed && seed.met && forall o :: o in run ==> o.met && !o.seed
    ensures Edges([seed], run) == [] && FiringAfter([seed] + run)
  {
    if run == [] {
      assert [seed] + run == [seed];
    } else {
      var h := [seed] + run;
      assert Front(h) == [seed] + Front(run) && Last(h) == Last(run);
      StillBreachingIsQuiet(seed, Front(run));
      if t :| ClearBegan(h, t) {
        ClearBeganUnique(h, t, t);
      }
    }
  }

  /** An observation that fixes the state: a seed, or one that was announced. */
  ghost predicate Marks(h: History, i: nat) {
    i < |h| && (h[i].seed || Due(h[..i + 1]) != Quiet)
  }

  ghost predicate LastMarkFires(h: History, i: nat) {
    && Marks(h, i) && (forall j :: i < j < |h| ==> !Marks(h, j))
    && (if h[i].seed then h[i].met else Due(h[..i + 1]) == Fired)
  }

  lemma MarksOfFront(h: History, i: nat)
    requires h != [] && i < |h| - 1
    ensures Front(h)[..i + 1] == h[..i + 1] && (Marks(Front(h), i) <==> Marks(h, i))
  {}

  /** Whether the entity is firing is what its last seed or announcement says. */
  lemma {:induction false} FiringIsLastMark(h: History)
    ensures FiringAfter(h) <==> exists i: nat :: LastMarkFires(h, i)
  {
    hide SustainedBreach;
    hide SustainedClear;
    if h != [] {
      var n: nat := |h| - 1;
      assert h[..n + 1] == h;
      FiringIsLastMark(Front(h));
      if Marks(h, n) {
        assert FiringAfter(h) <==> LastMarkFires(h, n);
        forall i: nat | LastMarkFires(h, i) ensures i == n {}
      } else {
        assert FiringAfter(h) == FiringAfter(Front(h));
        forall i: nat ensures LastMarkFires(h, i) <==> LastMarkFires(Front(h), i) {
          forall j: nat | j < n ensures Front(h)[..j + 1] == h[..j + 1] && (Marks(Front(h), j) <==> Marks(h, j)) {
            MarksOfFront(h, j);
          }
        }
      }
    }
  }

  /** A state shows where it was observed, and the rule and detail it was last observed with. */
  lemma ContextIsLatest(node: string, entity: string, h: History)
    requires h != []
    ensures var st, o := Replay(node, entity, h), Last(h);
            && st.node == node && st.entity == entity
            && st.source == o.rule.source && st.subject == o.rule.name && st.detail == o.detail
  {}

  /** A firing state shows the severity of the seed or announcement that made it fire, and when the
      breach behind it began, whatever the rule became since. */
  lemma {:induction false} OriginOfFiring(node: string, entity: string, h: History, i: nat)
    requires (forall o :: o in h ==> Sane(o)) && LastMarkFires(h, i)
    ensures var st := Replay(node, entity, h);
            && IsSeverity(h[i].rule, st.level)
            && st.firingSince.Some? && BreachBegan(h[..i + 1], st.firingSince.value)
  {
    hide FiringAfter;
    hide BreachBegan;
    hide ClearBegan;
    hide Due;
    var n: nat := |h| - 1;
    assert h[..n + 1] == h;
    EngineMeetsHistory(node, entity, Front(h));
    EngineMeetsHistory(node, entity, h);
    if Marks(h, n) {
      assert i == n;
    } else {
      MarksOfFront(h, i);
      forall j: nat | i < j < n ensures !Marks(Front(h), j) {
        MarksOfFront(h, j);
      }
      OriginOfFiring(node, entity, Front(h), i);
    }
  }
}
