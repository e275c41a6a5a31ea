/**
 The alert engine: one state map for all entities, keyed by concatenated strings, and the log of
 transitions it recorded and handed to dispatch.
 */
module AlertEngine {
  import opened Options
  import opened Times
  import opened Keys
  import opened AlertHistory

  datatype Alert = Alert(
    firing: bool, ruleId: int, source: string, node: string, observer: string, entity: string,
    subject: string, severity: string, detail: string, at: int)

  datatype ActiveAlert = ActiveAlert(
    node: string, observer: string, entity: string, source: string, subject: string,
    severity: string, detail: string, breachSince: Option<int>)

  /** One call on the engine. */
  datatype Op =
    | Observe(node: string, entity: string, obs: Observation)
    | Forget(rule: int)
    | ForgetEntity(node: string, entity: string)
    | ForgetNode(node: string)

  type States = map<string, RuleState>

  function EntityOf(op: Op): Triple
    requires op.Observe?
  {
    Triple(op.obs.rule.id, op.node, op.entity)
  }

  function KeyOf(op: Op): string
    requires op.Observe?
  {
    RuleKey(EntityOf(op))
  }

  function Lookup(m: States, k: string): RuleState {
    if k in m then m[k] else ZERO_STATE
  }

  /** The keys a Forget operation deletes. */
  predicate Drops(op: Op, k: string) {
    match op
    case Observe(_, _, _) => false
    case Forget(rule) => HasRulePrefix(k, rule)
    case ForgetEntity(node, entity) => HasNodeEntity(k, node, entity)
    case ForgetNode(node) => HasNode(k, node)
  }

  function Without(m: States, op: Op): States {
    map k | k in m && !Drops(op, k) :: m[k]
  }

  function Transition(m: States, op: Op): (RuleState, Edge)
    requires op.Observe?
  {
    Step(Lookup(m, KeyOf(op)), op.node, op.entity, op.obs)
  }

  function AfterOp(m: States, op: Op): States {
    if op.Observe? then m[KeyOf(op) := Transition(m, op).0] else Without(m, op)
  }

  function AlertOf(observer: string, op: Op, e: Edge): Alert
    requires op.Observe?
  {
    var o := op.obs;
    Alert(e == Fired, o.rule.id, o.rule.source, op.node, observer, op.entity, o.rule.name, Severity(o.rule), o.detail, o.now)
  }

  function AlertsOf(observer: string, m: States, op: Op): seq<Alert> {
    if op.Observe? && Transition(m, op).1 != Quiet then [AlertOf(observer, op, Transition(m, op).1)] else []
  }

  /** The state map after a sequence of calls on a new engine, and the alerts recorded meanwhile. */
  function StatesAfter(ops: seq<Op>): States {
    if ops == [] then map[] else AfterOp(StatesAfter(ops[..|ops| - 1]), ops[|ops| - 1])
  }

  function Recorded(observer: string, ops: seq<Op>): seq<Alert> {
    if ops == [] then []
    else
      var front := ops[..|ops| - 1];
      Recorded(observer, front) + AlertsOf(observer, StatesAfter(front), ops[|ops| - 1])
  }

  lemma AppendCall(observer: string, before: seq<Op>, op: Op)
    ensures StatesAfter(before + [op]) == AfterOp(StatesAfter(before), op)
    ensures Recorded(observer, before + [op]) == Recorded(observer, before) + AlertsOf(observer, StatesAfter(before), op)
  {
    assert (before + [op])[..|before + [op]| - 1] == before;
  }

  function Snapshot(observer: string, st: RuleState): ActiveAlert {
    ActiveAlert(st.node, observer, st.entity, st.source, st.subject, st.level, st.detail, st.firingSince)
  }

  /** The keys firing that show as this. */
  function FiringAs(observer: string, m: States, a: ActiveAlert): set<string> {
    set k | k in m && m[k].Firing() && Snapshot(observer, m[k]) == a
  }

  /** out has one line for each firing key that is not still to do. */
  ghost predicate Counted(observer: string, m: States, todo: set<string>, out: seq<ActiveAlert>) {
    forall a :: multiset(out)[a] == |FiringAs(observer, m, a) - todo|
  }

  lemma CountedEnds(observer: string, m: States)
    ensures Counted(observer, m, m.Keys, [])
    ensures forall out :: Counted(observer, m, {}, out) ==> forall a :: multiset(out)[a] == |FiringAs(observer, m, a)|
  {
    forall a ensures FiringAs(observer, m, a) - m.Keys == {} && FiringAs(observer, m, a) - {} == FiringAs(observer, m, a) {}
  }

  lemma CountNext(observer: string, m: States, todo: set<string>, k: string, out: seq<ActiveAlert>)
    requires Counted(observer, m, todo, out) && k in todo && k in m
    ensures Counted(observer, m, todo - {k}, out + if m[k].Firing() then [Snapshot(observer, m[k])] else [])
  {
    hide FiringAs;
    hide Snapshot;
    forall a
      ensures multiset(out + if m[k].Firing() then [Snapshot(observer, m[k])] else [])[a] == |FiringAs(observer, m, a) - (todo - {k})|
    {
      TakeKey(observer, m, todo, k, a);
    }
  }

  lemma TakeKey(observer: string, m: States, todo: set<string>, k: string, a: ActiveAlert)
    requires k in todo && k in m
    ensures |FiringAs(observer, m, a) - (todo - {k})| ==
            |FiringAs(observer, m, a) - todo| + if m[k].Firing() && Snapshot(observer, m[k]) == a then 1 else 0
  {
    hide Snapshot;
    var now, before := FiringAs(observer, m, a) - (todo - {k}), FiringAs(observer, m, a) - todo;
    assert now == if k in FiringAs(observer, m, a) then before + {k} else before;
  }

  class Engine {
    const observer: string
    var state: States
    var recorded: seq<Alert>
    ghost var calls: seq<Op>

    ghost predicate Valid()
      reads this
    {
      state == StatesAfter(calls) && recorded == Recorded(observer, calls)
    }

    constructor (observer: string)
      ensures Valid() && calls == [] && this.observer == observer
    {
      this.observer := observer;
      state, recorded, calls := map[], [], [];
    }

    /** The state machine of Observe: the new state, and whether to announce a firing or a recovery. */
    static method Advance(before: RuleState, node: string, entity: string, o: Observation) returns (st: RuleState, toFire: Option<bool>)
      ensures (st, if toFire.None? then Quiet else if toFire.value then Fired else Edge.Recovered) == Step(before, node, entity, o)
      ensures o.seed ==> toFire.None?
    {
      var forDur, graceDur := o.rule.forSec * SECOND, o.rule.recoverGrace * SECOND;
      st, toFire := before, None;
      if st.level == "" {
        st := st.(level := "ok");
      }
      if o.seed {
        if o.met {
          st := st.(level := Severity(o.rule), breachSince := Some(o.now - forDur));
          st := st.(firingSince := st.breachSince, recoveredAt := None);
        } else {
          st := ZERO_STATE.(level := "ok");
        }
      } else if o.met {
        st := st.(recoveredAt := None);
        if st.breachSince.None? {
          st := st.(breachSince := Some(o.now));
        }
        if st.level == "ok" && o.now - st.breachSince.value >= forDur {
          st := st.(level := Severity(o.rule), firingSince := st.breachSince);
          toFire := Some(true);
        }
      } else {
        st := st.(breachSince := None);
        if st.level != "ok" {
          if st.recoveredAt.None? {
            st := st.(recoveredAt := Some(o.now));
          }
          if o.now - st.recoveredAt.value >= graceDur {
            st := st.(level := "ok", recoveredAt := None, firingSince := None);
            toFire := Some(false);
          }
        }
      }
      st := st.(node := node, entity := entity, source := o.rule.source, subject := o.rule.name, detail := o.detail);
    }

    method Observe(rule: RuleView, node: string, entity: string, detail: string, conditionMet: bool, seed: bool, now: int)
      requires Valid()
      modifies this
      ensures Valid()
      ensures calls == old(calls) + [Op.Observe(node, entity, Observation(rule, detail, conditionMet, seed, now))]
      ensures seed ==> recorded == old(recorded)
    {
      hide RuleKey;
      hide Step;
      hide StatesAfter;
      hide Recorded;
      var o := Observation(rule, detail, conditionMet, seed, now);
      var key := RuleKey(Triple(rule.id, node, entity));
      var st, toFire := Advance(if key in state then state[key] else ZERO_STATE, node, entity, o);
      state := state[key := st];
      if toFire.Some? {
        recorded := recorded +
        [Alert(toFire.value, rule.id, rule.source, node, observer, entity, rule.name, Severity(rule), detail, now)];
      }
      AppendCall(observer, calls, Op.Observe(node, entity, o));
      calls := calls + [Op.Observe(node, entity, o)];
    }

    /** One line per firing key, in no particular order. */
    method ActiveAlerts() returns (out: seq<ActiveAlert>)
      ensures forall a :: multiset(out)[a] == |FiringAs(observer, state, a)|
    {
      hide Counted;
      out := [];
      var todo := state.Keys;
      CountedEnds(observer, state);
      while todo != {}
        invariant todo <= state.Keys && Counted(observer, state, todo, out)
        decreases todo
      {
        var k :| k in todo;
        CountNext(observer, state, todo, k, out);
        todo := todo - {k};
        if state[k].level != "" && state[k].level != "ok" {
          out := out + [Snapshot(observer, state[k])];
        } else {
          assert out + [] == out;
        }
      }
    }

    method Forget(rule: int)
      requires Valid()
      modifies this
      ensures Valid() && recorded == old(recorded)
      ensures calls == old(calls) + [Op.Forget(rule)]
    {
      DropMatching(Op.Forget(rule));
    }

    method ForgetEntity(node: string, entity: string)
      requires Valid()
      modifies this
      ensures Valid() && recorded == old(recorded)
      ensures calls == old(calls) + [Op.ForgetEntity(node, entity)]
    {
      DropMatching(Op.ForgetEntity(node, entity));
    }

    method ForgetNode(node: string)
      requires Valid()
      modifies this
      ensures Valid() && recorded == old(recorded)
      ensures calls == old(calls) + [Op.ForgetNode(node)]
    {
      DropMatching(Op.ForgetNode(node));
    }

    /** Walk over the keys and delete in place those the operation is about. */
    method DropMatching(op: Op)
      requires Valid() && !op.Observe?
      modifies this
      ensures Valid() && recorded == old(recorded)
      ensures calls == old(calls) + [op]
    {
      hide StatesAfter;
      hide Recorded;
      hide Drops;
      var todo := state.Keys;
      while todo != {}
        invariant todo <= state.Keys <= old(state).Keys
        invariant forall k :: k in old(state) && k !in todo ==> (k in state <==> !Drops(op, k))
        invariant forall k :: k in state ==> state[k] == old(state)[k]
        invariant recorded == old(recorded) && calls == old(calls)
        decreases todo
      {
        var k :| k in todo;
        todo := todo - {k};
        if Drops(op, k) {
          state := state - {k};
        }
      }
      assert state == Without(old(state), op);
      AppendCall(observer, calls, op);
      calls := calls + [op];
    }
  }

  // ----- the string keys stand for triples -----

  /** Whether a Forget operation is about this entity. */
  predicate About(op: Op, t: Triple) {
    match op
    case Observe(_, _, _) => false
    case Forget(rule) => t.rule == rule
    case ForgetEntity(node, entity) => t.node == node && t.entity == entity
    case ForgetNode(node) => t.node == node
  }

  /** The observations of one entity since it was last forgotten. */
  function HistoryOf(ops: seq<Op>, t: Triple): History {
    if ops == [] then []
    else
      var op, before := ops[|ops| - 1], HistoryOf(ops[..|ops| - 1], t);
      if op.Observe? && EntityOf(op) == t then before + [op.obs]
      else if About(op, t) then []
      else before
  }

  /** Observed nodes have no '|' in their names, and severities are validated. */
  ghost predicate WellNamed(ops: seq<Op>) {
    forall op :: op in ops && op.Observe? ==> '|' !in op.node && Sane(op.obs)
  }

  /** The map holds exactly the entities with a history, each with the replay of its own history. */
  ghost predicate Represents(m: States, ops: seq<Op>) {
    && (forall t :: Plain(t) ==> (RuleKey(t) in m <==> HistoryOf(ops, t) != []))
    && (forall t :: Plain(t) ==> Lookup(m, RuleKey(t)) == Replay(t.node, t.entity, HistoryOf(ops, t)))
    && (forall k :: k in m ==> exists t :: Plain(t) && RuleKey(t) == k)
  }

  lemma ForgetKeepsOthers(m: States, op: Op, t: Triple)
    requires !op.Observe? && Plain(t)
    ensures Lookup(Without(m, op), RuleKey(t)) == if About(op, t) then ZERO_STATE else Lookup(m, RuleKey(t))
    ensures RuleKey(t) in Without(m, op) <==> RuleKey(t) in m && !About(op, t)
  {
    match op {
      case Forget(rule) => MatchesExactly(t, rule, "", "");
      case ForgetEntity(node, entity) => MatchesExactly(t, 0, node, entity);
      case ForgetNode(node) => MatchesExactly(t, 0, node, "");
    }
  }

  /** The concatenated keys never mix entities up, over any sequence of calls. */
  lemma {:induction false} KeysRepresentTriples(ops: seq<Op>)
    requires WellNamed(ops)
    ensures Represents(StatesAfter(ops), ops)
  {
    if ops != [] {
      var front, op := ops[..|ops| - 1], ops[|ops| - 1];
      KeysRepresentTriples(front);
      assert front + [op] == ops;
      if op.Observe? {
        ObserveRepresents(StatesAfter(front), front, op);
      } else {
        ForgetRepresents(StatesAfter(front), front, op);
      }
    }
  }

  lemma ForgetRepresents(m: States, front: seq<Op>, op: Op)
    requires !op.Observe? && Represents(m, front)
    ensures Represents(AfterOp(m, op), front + [op])
  {
    hide RuleKey;
    hide Drops;
    var ops, m' := front + [op], AfterOp(m, op);
    assert ops[..|ops| - 1] == front;
    forall t | Plain(t)
      ensures RuleKey(t) in m' <==> HistoryOf(ops, t) != []
      ensures Lookup(m', RuleKey(t)) == Replay(t.node, t.entity, HistoryOf(ops, t))
    {
      ForgetKeepsOthers(m, op, t);
      assert HistoryOf(ops, t) == if About(op, t) then [] else HistoryOf(front, t);
    }
  }

  lemma ObserveRepresents(m: States, front: seq<Op>, op: Op)
    requires op.Observe? && '|' !in op.node && Represents(m, front)
    ensures Represents(AfterOp(m, op), front + [op])
  {
    var ops, own := front + [op], EntityOf(op);
    var m' := AfterOp(m, op);
    assert ops[..|ops| - 1] == front;
    forall t | Plain(t)
      ensures RuleKey(t) in m' <==> HistoryOf(ops, t) != []
      ensures Lookup(m', RuleKey(t)) == Replay(t.node, t.entity, HistoryOf(ops, t))
    {
      if t == own {
        var h := HistoryOf(ops, t);
        assert Front(h) == HistoryOf(front, t) && AlertHistory.Last(h) == op.obs;
      } else if RuleKey(t) == RuleKey(own) {
        RuleKeyInjective(t, own);
      }
    }
    forall k | k in m' ensures exists t :: Plain(t) && RuleKey(t) == k {
      if k !in m {
        assert Plain(own) && RuleKey(own) == k;
      }
    }
  }

  lemma {:induction false} HistoriesSane(ops: seq<Op>, t: Triple)
    requires WellNamed(ops)
    ensures forall o :: o in HistoryOf(ops, t) ==> Sane(o)
  {
    if ops != [] {
      HistoriesSane(ops[..|ops| - 1], t);
    }
  }

  /** Seen through its string keys, the map holds for each of these nodes' entities their own history. */
  ghost predicate Mirrors(m: States, ops: seq<Op>, nodes: set<string>) {
    forall t: Triple | t.node in nodes ::
      && (RuleKey(t) in m <==> HistoryOf(ops, t) != [])
      && Lookup(m, RuleKey(t)) == Replay(t.node, t.entity, HistoryOf(ops, t))
  }

  ghost predicate Over(ops: seq<Op>, nodes: set<string>) {
    forall op :: op in ops && op.Observe? ==> op.node in nodes && Sane(op.obs)
  }

  /** A node name with a separator is forgotten in vain: its key stays. */
  lemma ForgottenInVain(node: string, o: Observation)
    requires '|' in node
    ensures var ops, t := [Op.Observe(node, "", o), Op.ForgetNode(node)], Triple(o.rule.id, node, "");
            RuleKey(t) in StatesAfter(ops) && HistoryOf(ops, t) == []
  {
    var first, t := [Op.Observe(node, "", o)], Triple(o.rule.id, node, "");
    var ops := first + [Op.ForgetNode(node)];
    assert ops == [Op.Observe(node, "", o), Op.ForgetNode(node)];
    assert first[..0] == [] && ops[..1] == first;
    ForgetFindsExactly(t, node, "");
    assert RuleKey(t) in StatesAfter(first) by { assert StatesAfter(first) == AfterOp(map[], first[0]); }
  }

  /** The string keys serve these nodes, over all sequences of calls, exactly if none has a separator in
      its name. */
  lemma MirrorsExactly(nodes: set<string>)
    ensures (forall ops | Over(ops, nodes) :: Mirrors(StatesAfter(ops), ops, nodes)) <==>
            forall n :: n in nodes ==> '|' !in n
  {
    hide RuleKey;
    if n :| n in nodes && '|' in n {
      var o := Observation(RuleView(1, "", "", "", 0, 0), "", false, false, 0);
      var ops, t := [Op.Observe(n, "", o), Op.ForgetNode(n)], Triple(1, n, "");
      ForgottenInVain(n, o);
      assert Over(ops, nodes) && t.node in nodes;
      assert !Mirrors(StatesAfter(ops), ops, nodes);
    } else {
      forall ops | Over(ops, nodes) ensures Mirrors(StatesAfter(ops), ops, nodes) {
        KeysRepresentTriples(ops);
      }
    }
  }

  /** ActiveAlerts lists an entity exactly when its own history leaves it firing. */
  lemma ActiveExactly(ops: seq<Op>, t: Triple)
    requires WellNamed(ops) && Plain(t)
    ensures RuleKey(t) in StatesAfter(ops) && StatesAfter(ops)[RuleKey(t)].Firing() <==> FiringAfter(HistoryOf(ops, t))
  {
    KeysRepresentTriples(ops);
    HistoriesSane(ops, t);
    EngineMeetsHistory(t.node, t.entity, HistoryOf(ops, t));
    assert Lookup(StatesAfter(ops), RuleKey(t)) == Replay(t.node, t.entity, HistoryOf(ops, t));
  }

  /** What an active alert shows: where, the rule and detail last observed, and the severity and start
      of the breach that made it fire. */
  lemma ActiveShows(observer: string, ops: seq<Op>, t: Triple, i: nat)
    requires WellNamed(ops) && Plain(t) && LastMarkFires(HistoryOf(ops, t), i)
    ensures RuleKey(t) in StatesAfter(ops)
    ensures var h, shown := HistoryOf(ops, t), Snapshot(observer, StatesAfter(ops)[RuleKey(t)]);
            var o := AlertHistory.Last(h);
            && shown.node == t.node && shown.observer == observer && shown.entity == t.entity
            && shown.source == o.rule.source && shown.subject == o.rule.name && shown.detail == o.detail
            && IsSeverity(h[i].rule, shown.severity)
            && shown.breachSince.Some? && BreachBegan(h[..i + 1], shown.breachSince.value)
  {
    hide StatesAfter;
    hide RuleKey;
    hide LastMarkFires;
    var h := HistoryOf(ops, t);
    assert h != [] by { MarkedIsObserved(h, i); }
    KeysRepresentTriples(ops);
    HistoriesSane(ops, t);
    ContextIsLatest(t.node, t.entity, h);
    OriginOfFiring(t.node, t.entity, h, i);
    assert Lookup(StatesAfter(ops), RuleKey(t)) == Replay(t.node, t.entity, h);
  }

  lemma MarkedIsObserved(h: History, i: nat)
    requires LastMarkFires(h, i)
    ensures h != [] && i < |h|
  {}

  /** The log due according to the histories alone. */
  ghost function DueLog(observer: string, ops: seq<Op>): seq<Alert> {
    if ops == [] then []
    else
      var op := ops[|ops| - 1];
      DueLog(observer, ops[..|ops| - 1]) +
      if !op.Observe? then []
      else
        var e := Due(HistoryOf(ops, EntityOf(op)));
        if e == Quiet then [] else [AlertOf(observer, op, e)]
  }

  /** The recorded alerts are exactly the transitions due, one each, in order. */
  lemma {:induction false} RecordsEveryEdge(observer: string, ops: seq<Op>)
    requires WellNamed(ops)
    ensures Recorded(observer, ops) == DueLog(observer, ops)
  {
    if ops != [] {
      var front, op := ops[..|ops| - 1], ops[|ops| - 1];
      RecordsEveryEdge(observer, front);
      if op.Observe? {
        var t := EntityOf(op);
        var h := HistoryOf(ops, t);
        KeysRepresentTriples(front);
        HistoriesSane(ops, t);
        EngineMeetsHistory(t.node, t.entity, h);
        assert Front(h) == HistoryOf(front, t) && AlertHistory.Last(h) == op.obs;
        assert Lookup(StatesAfter(front), RuleKey(t)) == Replay(t.node, t.entity, Front(h));
      }
    }
  }

  /** The alert of this observation, for this transition. */
  ghost predicate Tells(a: Alert, observer: string, op: Op, e: Edge)
    requires op.Observe?
  {
    && (e == Fired || e == Edge.Recovered) && (a.firing <==> e == Fired)
    && a.ruleId == op.obs.rule.id && a.source == op.obs.rule.source && a.subject == op.obs.rule.name
    && a.node == op.node && a.entity == op.entity && a.observer == observer
    && a.detail == op.obs.detail && a.at == op.obs.now && IsSeverity(op.obs.rule, a.severity)
  }

  ghost predicate TellsAt(observer: string, ops: seq<Op>, k: nat, a: Alert) {
    k < |ops| && ops[k].Observe? && Tells(a, observer, ops[k], Due(HistoryOf(ops[..k + 1], EntityOf(ops[k]))))
  }

  lemma AlertTells(a: Alert, observer: string, op: Op, e: Edge)
    requires op.Observe? && e != Quiet
    ensures a == AlertOf(observer, op, e) <==> Tells(a, observer, op, e)
  {}

  /** An alert is recorded exactly if some observation made its transition due, and it says what that
      observation said. */
  lemma {:induction false} RecordedExactly(observer: string, ops: seq<Op>, a: Alert)
    requires WellNamed(ops)
    ensures a in Recorded(observer, ops) <==> exists k :: TellsAt(observer, ops, k, a)
  {
    RecordsEveryEdge(observer, ops);
    LogTells(observer, ops, a);
  }

  lemma {:induction false} LogTells(observer: string, ops: seq<Op>, a: Alert)
    ensures a in DueLog(observer, ops) <==> exists k :: TellsAt(observer, ops, k, a)
  {
    hide Due;
    hide HistoryOf;
    hide AlertOf;
    hide Tells;
    if ops != [] {
      var n: nat := |ops| - 1;
      var front, op := ops[..n], ops[n];
      LogTells(observer, front, a);
      forall k: nat | k < n ensures TellsAt(observer, front, k, a) <==> TellsAt(observer, ops, k, a) {
        assert front[..k + 1] == ops[..k + 1];
      }
      assert ops[..n + 1] == ops;
      if op.Observe? {
        var e := Due(HistoryOf(ops, EntityOf(op)));
        if e != Quiet {
          AlertTells(a, observer, op, e);
        } else {
          QuietTells(a, observer, op);
        }
        assert TellsAt(observer, ops, n, a) <==> Tells(a, observer, op, e);
      }
    }
  }

  lemma QuietTells(a: Alert, observer: string, op: Op)
    requires op.Observe?
    ensures !Tells(a, observer, op, Quiet)
  {}

  // ----- the log of one entity -----

  lemma {:induction false} HistoryConcat(a: seq<Op>, b: seq<Op>, t: Triple)
    requires forall op :: op in b ==> !About(op, t)
    ensures HistoryOf(a + b, t) == HistoryOf(a, t) + HistoryOf(b, t)
  {
    if b == [] {
      assert a + b == a;
    } else {
      assert b == b[..|b| - 1] + [b[|b| - 1]];
      HistoryConcat(a, b[..|b| - 1], t);
      assert (a + b)[..|a + b| - 1] == a + b[..|b| - 1];
    }
  }

  lemma {:induction false} HistoryIsObserved(ops: seq<Op>, t: Triple)
    ensures forall o :: o in HistoryOf(ops, t) ==>
                          exists i :: 0 <= i < |ops| && ops[i].Observe? && ops[i].obs == o && EntityOf(ops[i]) == t
  {
    if ops != [] {
      var front := ops[..|ops| - 1];
      HistoryIsObserved(front, t);
      forall o | o in HistoryOf(front, t)
        ensures exists i :: 0 <= i < |ops| && ops[i].Observe? && ops[i].obs == o && EntityOf(ops[i]) == t
      {
        var i :| 0 <= i < |front| && front[i].Observe? && front[i].obs == o && EntityOf(front[i]) == t;
        assert ops[i] == front[i];
      }
    }
  }

  /** These calls neither forget the entity nor seed it. */
  ghost predicate Leaves(ops: seq<Op>, t: Triple) {
    forall op :: op in ops ==> !About(op, t) && (op.Observe? && op.obs.seed ==> EntityOf(op) != t)
  }

  lemma LeavesUnseeded(ops: seq<Op>, t: Triple)
    requires Leaves(ops, t)
    ensures forall o :: o in HistoryOf(ops, t) ==> !o.seed
  {
    HistoryIsObserved(ops, t);
    forall o | o in HistoryOf(ops, t) ensures !o.seed {
      var i :| 0 <= i < |ops| && ops[i].Observe? && ops[i].obs == o && EntityOf(ops[i]) == t;
      assert ops[i] in ops;
    }
  }

  /** The transitions a log holds for one entity, oldest first. */
  function TransitionsOf(log: seq<Alert>, t: Triple): seq<Edge> {
    if log == [] then []
    else
      var a := log[|log| - 1];
      TransitionsOf(log[..|log| - 1], t) +
      if Triple(a.ruleId, a.node, a.entity) != t then [] else if a.firing then [Fired] else [Edge.Recovered]
  }

  lemma TransitionsAppend(log: seq<Alert>, a: Alert, t: Triple)
    ensures TransitionsOf(log + [a], t) == TransitionsOf(log, t) +
                                           if Triple(a.ruleId, a.node, a.entity) != t then [] else if a.firing then [Fired] else [Edge.Recovered]
  {
    assert (log + [a])[..|log|] == log;
  }

  function Announcement(e: Edge): seq<Edge> {
    if e == Quiet then [] else [e]
  }

  lemma DueLogStep(observer: string, before: seq<Op>, op: Op)
    ensures var e := if op.Observe? then Due(HistoryOf(before + [op], EntityOf(op))) else Quiet;
            DueLog(observer, before + [op]) == DueLog(observer, before) + if e == Quiet then [] else [AlertOf(observer, op, e)]
  {
    hide Due;
    hide HistoryOf;
    hide AlertOf;
    var ops := before + [op];
    assert ops[..|ops| - 1] == before && ops[|ops| - 1] == op;
  }

  lemma LogStep(observer: string, before: seq<Op>, op: Op, t: Triple)
    ensures TransitionsOf(DueLog(observer, before + [op]), t) == TransitionsOf(DueLog(observer, before), t) +
                                                                 if op.Observe? && EntityOf(op) == t then Announcement(Due(HistoryOf(before + [op], t))) else []
  {
    hide Due;
    hide HistoryOf;
    DueLogStep(observer, before, op);
    hide DueLog;
    hide TransitionsOf;
    var log := DueLog(observer, before);
    assert log + [] == log && TransitionsOf(log, t) + [] == TransitionsOf(log, t);
    if op.Observe? {
      var e := Due(HistoryOf(before + [op], EntityOf(op)));
      if e != Quiet {
        TransitionsAppend(log, AlertOf(observer, op, e), t);
      }
    }
  }

  lemma EdgesStep(base: History, run: History, o: Observation)
    ensures Edges(base, run + [o]) == Edges(base, run) + Announcement(Due(base + run + [o]))
  {
    hide Due;
    assert Front(run + [o]) == run && base + (run + [o]) == base + run + [o];
  }

  lemma HistoryStep(base: seq<Op>, front: seq<Op>, op: Op, t: Triple)
    requires Leaves(front, t) && !About(op, t)
    ensures var own := op.Observe? && EntityOf(op) == t;
            && HistoryOf(front + [op], t) == HistoryOf(front, t) + (if own then [op.obs] else [])
            && (own ==> HistoryOf(base + front + [op], t) == HistoryOf(base, t) + HistoryOf(front, t) + [op.obs])
  {
    HistoryConcat(base, front, t);
    assert (front + [op])[..|front + [op]| - 1] == front;
    assert (base + front + [op])[..|base + front + [op]| - 1] == base + front;
  }

  /** Of an entity left in place the log of due transitions holds exactly those of its own history. */
  lemma {:induction false} LogFollowsHistory(observer: string, base: seq<Op>, run: seq<Op>, t: Triple)
    requires Leaves(run, t)
    ensures TransitionsOf(DueLog(observer, base + run), t) ==
            TransitionsOf(DueLog(observer, base), t) + Edges(HistoryOf(base, t), HistoryOf(run, t))
  {
    hide DueLog;
    hide Due;
    hide TransitionsOf;
    hide EntityOf;
    if run == [] {
      assert base + run == base;
    } else {
      var front, op := run[..|run| - 1], run[|run| - 1];
      assert run == front + [op] && base + run == base + front + [op];
      LogFollowsHistory(observer, base, front, t);
      LogStep(observer, base + front, op, t);
      HistoryStep(base, front, op, t);
      hide HistoryOf;
      hide Edges;
      var log, own := TransitionsOf(DueLog(observer, base), t), HistoryOf(front, t);
      if op.Observe? && EntityOf(op) == t {
        var e := Announcement(Due(HistoryOf(base, t) + own + [op.obs]));
        EdgesStep(HistoryOf(base, t), own, op.obs);
        assert log + Edges(HistoryOf(base, t), own) + e == log + (Edges(HistoryOf(base, t), own) + e);
      } else {
        assert HistoryOf(run, t) == own;
      }
    }
  }

  /** What the engine records of an entity that is neither seeded nor forgotten alternates, beginning with
      the transition that changes the state it was found in. */
  lemma LogAlternates(observer: string, base: seq<Op>, run: seq<Op>, t: Triple)
    requires WellNamed(base + run) && Leaves(run, t)
    ensures var edges := Edges(HistoryOf(base, t), HistoryOf(run, t));
            && TransitionsOf(Recorded(observer, base + run), t) == TransitionsOf(Recorded(observer, base), t) + edges
            && Alternate(edges, if FiringAfter(HistoryOf(base, t)) then Edge.Recovered else Fired)
  {
    hide StatesAfter;
    assert WellNamed(base) by {
      forall op | op in base ensures op in base + run {}
    }
    RecordsEveryEdge(observer, base + run);
    RecordsEveryEdge(observer, base);
    LogFollowsHistory(observer, base, run, t);
    LeavesUnseeded(run, t);
    EdgesAlternate(HistoryOf(base, t), HistoryOf(run, t));
  }

  lemma {:induction false} SeedsRecordNothing(observer: string, ops: seq<Op>)
    requires forall op :: op in ops ==> op.Observe? && op.obs.seed
    ensures Recorded(observer, ops) == []
  {
    hide StatesAfter;
    if ops != [] {
      SeedsRecordNothing(observer, ops[..|ops| - 1]);
      assert ops[|ops| - 1] in ops;
    }
  }
}
