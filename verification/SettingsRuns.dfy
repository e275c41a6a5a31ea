/** What holds over every run of settings operations and restarts. */
module SettingsRuns {
  import opened Text
  import opened Times
  import opened StatusCodes
  import opened Settings
  import AlertHistory
  import Runner
  import Scheduler

  function ApplyAll(s: Store, ops: seq<Op>): Store {
    if ops == [] then s else Apply(ApplyAll(s, ops[..|ops| - 1]), ops[|ops| - 1])
  }

  /** Ids ascend and are below the next one to be given. */
  ghost predicate Ascend(ids: seq<int>, next: int) {
    (forall i, j :: 0 <= i < j < |ids| ==> ids[i] < ids[j]) && (forall i :: 0 <= i < |ids| ==> ids[i] < next)
  }

  function CheckIds(rows: seq<CheckRow>): seq<int> {
    seq(|rows|, i requires 0 <= i < |rows| => rows[i].id)
  }

  function RuleIds(rows: seq<RuleRow>): seq<int> {
    seq(|rows|, i requires 0 <= i < |rows| => rows[i].rule.id)
  }

  ghost predicate Ordered(s: Store) {
    Ascend(CheckIds(s.checks), s.nextCheck) && Ascend(RuleIds(s.rules), s.nextRule)
  }

  // ----- seeding -----

  lemma {:induction false} AddChecksAppends(s: Store, checks: seq<Check>)
    ensures AddChecks(s, checks) == s.(
                                    checks := s.checks + seq(|checks|, i requires 0 <= i < |checks| =>
                                      ToStorage(checks[i].(enabled := true)).(id := s.nextCheck + i)),
                                    nextCheck := s.nextCheck + |checks|)
  {
    hide ToStorage;
    if checks != [] {
      AddChecksAppends(s, checks[..|checks| - 1]);
    }
  }

  lemma {:induction false} AddRulesAppends(s: Store, rules: seq<Runner.Rule>, now: int)
    ensures AddRules(s, rules, now) == s.(
                                       rules := s.rules + seq(|rules|, i requires 0 <= i < |rules| => RuleRow(NormalizeRule(rules[i]).(id := s.nextRule + i), now)),
                                       nextRule := s.nextRule + |rules|)
  {
    hide NormalizeRule;
    if rules != [] {
      AddRulesAppends(s, rules[..|rules| - 1], now);
    }
  }

  /** The two flags guard independently: a start seeds exactly what its own flag says is missing, so a
      database from before the alert rules still gets them. */
  lemma FlagsAreIndependent(s: Store, c: Config, now: int)
    ensures var t := Apply(s, Load(c, now));
            && t.initialized && t.alertsSeeded && t.statuses == s.statuses
            && t.nextCheck == s.nextCheck + (if s.initialized then 0 else |c.checks|)
            && t.nextRule == s.nextRule + (if s.alertsSeeded then 0 else |Defaults(c)|)
            && t.checks == s.checks + (if s.initialized then [] else
                                       seq(|c.checks|, i requires 0 <= i < |c.checks| =>
                                         ToStorage(c.checks[i].(enabled := true)).(id := s.nextCheck + i)))
            && t.rules == s.rules + (if s.alertsSeeded then [] else
                                     seq(|Defaults(c)|, i requires 0 <= i < |Defaults(c)| =>
                                       RuleRow(NormalizeRule(Defaults(c)[i]).(id := s.nextRule + i), now)))
  {
    hide ToStorage;
    hide Defaults;
    AddChecksAppends(s, c.checks);
    AddRulesAppends(SeedChecks(s, c), Defaults(c), now);
  }

  /** A restart changes nothing, whatever the configuration now says. */
  lemma RestartChangesNothing(s: Store, c: Config, now: int, c': Config, now': int)
    ensures Apply(Apply(s, Load(c, now)), Load(c', now')) == Apply(s, Load(c, now))
  {
    FlagsAreIndependent(s, c, now);
  }

  // ----- what is deleted stays deleted -----

  /** The checks a user adds with an accepted operation. */
  function ChecksCreated(ops: seq<Op>): nat {
    if ops == [] then 0
    else
      var op := ops[|ops| - 1];
      ChecksCreated(ops[..|ops| - 1]) + if op.CreateCheck? && Acceptable(Normalize(op.check)) then 1 else 0
  }

  function RulesCreated(ops: seq<Op>): nat {
    if ops == [] then 0
    else
      var op := ops[|ops| - 1];
      RulesCreated(ops[..|ops| - 1]) + if op.CreateRule? && AcceptableRule(NormalizeRule(op.rule)) then 1 else 0
  }

  ghost predicate NoNewId(s: Store, t: Store) {
    && s.nextCheck <= t.nextCheck && s.nextRule <= t.nextRule
    && (forall r :: r in t.checks && r.id < s.nextCheck ==> HasCheck(s, r.id))
    && (forall r :: r in t.rules && r.rule.id < s.nextRule ==> HasRule(s, r.rule.id))
  }

  lemma InSomeCheck(s: Store, r: CheckRow)
    requires r in s.checks
    ensures HasCheck(s, r.id)
  {
    var i :| 0 <= i < |s.checks| && s.checks[i] == r;
  }

  lemma InSomeRule(s: Store, r: RuleRow)
    requires r in s.rules
    ensures HasRule(s, r.rule.id)
  {
    var i :| 0 <= i < |s.rules| && s.rules[i] == r;
  }

  lemma StepAddsNoOldId(s: Store, op: Op)
    ensures NoNewId(s, Apply(s, op))
  {
    var t := Apply(s, op);
    StepIdsGrow(s, op);
    hide Apply;
    hide HasCheck;
    hide HasRule;
    forall r | r in t.checks && r.id < s.nextCheck ensures HasCheck(s, r.id) {
      OldCheck(s, op, r);
    }
    forall r | r in t.rules && r.rule.id < s.nextRule ensures HasRule(s, r.rule.id) {
      OldRule(s, op, r);
    }
  }

  lemma StepIdsGrow(s: Store, op: Op)
    ensures s.nextCheck <= Apply(s, op).nextCheck && s.nextRule <= Apply(s, op).nextRule
  {
    hide ToStorage;
    hide Normalize;
    hide Acceptable;
    hide NormalizeRule;
    hide AcceptableRule;
    if op.Load? { FlagsAreIndependent(s, op.config, op.now); }
  }

  lemma OldCheck(s: Store, op: Op, r: CheckRow)
    requires r in Apply(s, op).checks && r.id < s.nextCheck
    ensures HasCheck(s, r.id)
  {
    hide ToStorage;
    hide Normalize;
    hide Acceptable;
    hide NormalizeRule;
    hide AcceptableRule;
    var t := Apply(s, op);
    if op.Load? { FlagsAreIndependent(s, op.config, op.now); hide Defaults; }
    if r in s.checks {
      InSomeCheck(s, r);
    } else if op.UpdateCheck? {
      var i :| 0 <= i < |t.checks| && t.checks[i] == r;
      assert s.checks[i].id == r.id;
    }
  }

  lemma OldRule(s: Store, op: Op, r: RuleRow)
    requires r in Apply(s, op).rules && r.rule.id < s.nextRule
    ensures HasRule(s, r.rule.id)
  {
    hide ToStorage;
    hide Normalize;
    hide Acceptable;
    hide NormalizeRule;
    hide AcceptableRule;
    var t := Apply(s, op);
    if op.Load? { FlagsAreIndependent(s, op.config, op.now); hide Defaults; }
    if r in s.rules {
      InSomeRule(s, r);
    } else if op.UpdateRule? {
      var i :| 0 <= i < |t.rules| && t.rules[i] == r;
      assert s.rules[i].rule.id == r.rule.id;
    }
  }

  /** No run brings back an id: neither a user's nor a seeded one's. */
  lemma {:induction false} DeletedStaysDeleted(s: Store, ops: seq<Op>)
    ensures NoNewId(s, ApplyAll(s, ops))
  {
    if ops == [] {
      forall r | r in s.checks ensures HasCheck(s, r.id) { InSomeCheck(s, r); }
      forall r | r in s.rules ensures HasRule(s, r.rule.id) { InSomeRule(s, r); }
    } else {
      DeletedStaysDeleted(s, ops[..|ops| - 1]);
      StepAddsNoOldId(ApplyAll(s, ops[..|ops| - 1]), ops[|ops| - 1]);
      hide Apply;
    }
  }

  /** Once seeded, only users add: over any run with any number of restarts, the ids beyond the old ones
      are as many as the accepted creations, for checks and rules separately. */
  lemma {:induction false} OnlyUsersAdd(s: Store, ops: seq<Op>)
    ensures s.initialized ==>
              ApplyAll(s, ops).initialized && ApplyAll(s, ops).nextCheck == s.nextCheck + ChecksCreated(ops)
    ensures s.alertsSeeded ==>
              ApplyAll(s, ops).alertsSeeded && ApplyAll(s, ops).nextRule == s.nextRule + RulesCreated(ops)
  {
    if ops != [] {
      OnlyUsersAdd(s, ops[..|ops| - 1]);
      StepAddsOnly(ApplyAll(s, ops[..|ops| - 1]), ops[|ops| - 1]);
      hide Apply;
    }
  }

  lemma StepAddsOnly(s: Store, op: Op)
    ensures var t := Apply(s, op);
            && (s.initialized ==> t.initialized && t.nextCheck == s.nextCheck + ChecksCreated([op]))
            && (s.alertsSeeded ==> t.alertsSeeded && t.nextRule == s.nextRule + RulesCreated([op]))
  {
    hide ToStorage;
    hide Normalize;
    hide Acceptable;
    hide NormalizeRule;
    hide AcceptableRule;
    assert [op][..0] == [];
    if op.Load? { FlagsAreIndependent(s, op.config, op.now); }
  }

  /** A check deleted at any point of a run, seeded or not, never returns. */
  lemma DeletedForGood(s: Store, id: int, node: string, ops: seq<Op>)
    requires id < s.nextCheck
    ensures !HasCheck(ApplyAll(Apply(s, DeleteCheck(id, node)), ops), id)
  {
    var t := Apply(s, DeleteCheck(id, node));
    assert forall i :: 0 <= i < |t.checks| ==> t.checks[i] in t.checks;
    DeletedStaysDeleted(t, ops);
    var u := ApplyAll(t, ops);
    assert forall i :: 0 <= i < |u.checks| ==> u.checks[i] in u.checks;
  }

  // ----- what is stored stays -----

  predicate Touches(op: Op, id: int) {
    (op.UpdateCheck? && op.check.id == id) || (op.DeleteCheck? && op.id == id)
  }

  lemma StepKeepsRow(s: Store, op: Op, row: CheckRow)
    requires row in s.checks && !Touches(op, row.id)
    ensures row in Apply(s, op).checks
  {
    var i :| 0 <= i < |s.checks| && s.checks[i] == row;
    if op.Load? {
      FlagsAreIndependent(s, op.config, op.now);
      assert Apply(s, op).checks[i] == row;
    } else if op.UpdateCheck? {
      assert Apply(s, op).checks[i] == row;
    }
  }

  lemma {:induction false} RunKeepsRow(s: Store, ops: seq<Op>, row: CheckRow)
    requires row in s.checks && forall op :: op in ops ==> !Touches(op, row.id)
    ensures row in ApplyAll(s, ops).checks
  {
    if ops != [] {
      assert ops == ops[..|ops| - 1] + [ops[|ops| - 1]];
      RunKeepsRow(s, ops[..|ops| - 1], row);
      StepKeepsRow(ApplyAll(s, ops[..|ops| - 1]), ops[|ops| - 1], row);
    }
  }

  // ----- what a check is after its way through the store -----

  /** A check comes back from the store as it went in exactly when its two durations are whole seconds. */
  lemma KeptExactly(c: Check)
    requires Acceptable(Normalize(c)) && forall code :: code in c.accepted ==> InInt64(code)
    ensures FromStorage(ToStorage(Normalize(c))) == Normalize(c) <==>
            c.interval % SECOND == 0 && Normalize(c).timeout % SECOND == 0
    ensures FromStorage(ToStorage(Normalize(c))).accepted == Normalize(c).accepted
  {
    var n := Normalize(c);
    AcceptableInterval(n);
    CanonicalHolds(c.accepted);
    ParseInvertsFormat(n.accepted);
    StoredExactly(n);
  }

  lemma StoredExactly(c: Check)
    requires c.interval > 0 && c.timeout > 0 && Parse(Format(c.accepted)) == c.accepted
    ensures FromStorage(ToStorage(c)) == c <==> c.interval % SECOND == 0 && c.timeout % SECOND == 0
    ensures FromStorage(ToStorage(c)).accepted == c.accepted
  {
    hide Format;
    hide Parse;
    WholeExactly(c.interval);
    WholeExactly(c.timeout);
    hide WholeSeconds;
  }

  lemma WholeExactly(ns: int)
    requires ns > 0
    ensures WholeSeconds(ns) * SECOND == ns <==> ns % SECOND == 0
  {}

  lemma AcceptableInterval(c: Check)
    requires Acceptable(c)
    ensures c.interval > 0
  {}

  /** The accepted statuses of a new check survive, in canonical form, any later run of operations and
      restarts that neither updates nor deletes it. */
  lemma AcceptedStatusesSurvive(s: Store, c: Check, ops: seq<Op>)
    requires Acceptable(Normalize(c)) && forall code :: code in c.accepted ==> InInt64(code)
    requires forall op :: op in ops ==> !Touches(op, s.nextCheck)
    ensures exists kept ::
              && kept in Decode(ApplyAll(Apply(s, CreateCheck(c)), ops).checks)
              && kept.id == s.nextCheck && kept.name == Trim(c.name) && IsCanonical(c.accepted, kept.accepted)
  {
    var row := ToStorage(Normalize(c)).(id := s.nextCheck);
    var first := Apply(s, CreateCheck(c));
    assert first.checks[|s.checks|] == row;
    RunKeepsRow(first, ops, row);
    KeptExactly(c);
    CanonicalHolds(c.accepted);
    var rows := ApplyAll(first, ops).checks;
    var i :| 0 <= i < |rows| && rows[i] == row;
    assert Decode(rows)[i] == FromStorage(row);
  }

  /** A check whose interval is under a second is accepted, but the scheduler never considers it. */
  lemma ScheduledExactly(c: Check, now: int)
    requires c.enabled && c.interval > 0
    ensures var kept := FromStorage(ToStorage(c));
            Scheduler.PassEvents([Scheduler.Check(kept.name, kept.enabled, kept.interval)], now) == [] <==> c.interval < SECOND
  {
    hide Format;
    hide Parse;
    WholeSecondsOf(c.interval);
    var kept := FromStorage(ToStorage(c));
    OnePass(Scheduler.Check(kept.name, kept.enabled, kept.interval), now);
  }

  const EMPTY := Store([], 1, [], 1, false, false, {})

  /** Such a check comes in by the configuration file: half a second is seeded as a row that no tick
      ever considers. */
  lemma HalfSecondNeverRuns(now: int)
    ensures exists c: Config, tick ::
              && |c.checks| == 1 && c.checks[0].interval == SECOND / 2 && Acceptable(c.checks[0])
              && var kept := Decode(Apply(EMPTY, Load(c, now)).checks);
              && |kept| == 1 && kept[0].name == c.checks[0].name && kept[0].enabled
              && Scheduler.PassEvents([Scheduler.Check(kept[0].name, kept[0].enabled, kept[0].interval)], tick) == []
  {
    var check := Check(0, "web", "process", SECOND / 2, 0, true, [], Target("", "", "", 0, "web", "", false, ""));
    var c := Config([check], 0.0, 0.0, 0.0);
    FlagsAreIndependent(EMPTY, c, now);
    hide Defaults;
    hide NormalizeRule;
    var kept := Decode(Apply(EMPTY, Load(c, now)).checks);
    assert |kept| == 1;
    assert kept[0] == FromStorage(ToStorage(check.(enabled := true)).(id := 1));
    OnePass(Scheduler.Check(kept[0].name, kept[0].enabled, kept[0].interval), now);
  }

  lemma WholeSecondsOf(ns: int)
    requires ns > 0
    ensures WholeSeconds(ns) * SECOND <= 0 <==> ns < SECOND
  {}

  lemma OnePass(c: Scheduler.Check, now: int)
    ensures Scheduler.PassEvents([c], now) == [] <==> !c.enabled || c.interval <= 0
  {
    assert [c][..0] == [];
  }

  // ----- the order of the rows -----

  function Drop(ids: seq<int>, id: int): (rest: seq<int>)
    ensures forall x :: x in rest ==> x in ids
  {
    if ids == [] then []
    else Drop(ids[..|ids| - 1], id) + if ids[|ids| - 1] == id then [] else [ids[|ids| - 1]]
  }

  lemma {:induction false} DropAscends(ids: seq<int>, id: int, next: int)
    requires Ascend(ids, next)
    ensures Ascend(Drop(ids, id), next)
  {
    if ids != [] {
      var front, last := ids[..|ids| - 1], ids[|ids| - 1];
      DropAscends(front, id, last);
    }
  }

  lemma {:induction false} DropChecks(rows: seq<CheckRow>, id: int)
    ensures CheckIds(WithoutCheck(rows, id)) == Drop(CheckIds(rows), id)
  {
    if rows != [] {
      DropChecks(rows[..|rows| - 1], id);
      assert CheckIds(rows)[..|rows| - 1] == CheckIds(rows[..|rows| - 1]);
    }
  }

  lemma {:induction false} DropRules(rows: seq<RuleRow>, id: int)
    ensures RuleIds(WithoutRule(rows, id)) == Drop(RuleIds(rows), id)
  {
    if rows != [] {
      DropRules(rows[..|rows| - 1], id);
      assert RuleIds(rows)[..|rows| - 1] == RuleIds(rows[..|rows| - 1]);
    }
  }

  lemma AscendMore(ids: seq<int>, next: int, n: nat)
    requires Ascend(ids, next)
    ensures Ascend(ids + seq(n, i => next + i), next + n)
  {}

  lemma LoadKeepsOrder(s: Store, c: Config, now: int)
    requires Ordered(s)
    ensures Ordered(Apply(s, Load(c, now)))
  {
    FlagsAreIndependent(s, c, now);
    hide ToStorage;
    hide Defaults;
    hide NormalizeRule;
    hide Apply;
    hide Ascend;
    var t := Apply(s, Load(c, now));
    var moreChecks, moreRules := |t.checks| - |s.checks|, |t.rules| - |s.rules|;
    assert CheckIds(t.checks) == CheckIds(s.checks) + seq(moreChecks, i => s.nextCheck + i);
    assert RuleIds(t.rules) == RuleIds(s.rules) + seq(moreRules, i => s.nextRule + i);
    AscendMore(CheckIds(s.checks), s.nextCheck, moreChecks);
    AscendMore(RuleIds(s.rules), s.nextRule, moreRules);
  }

  /** Rows stay in the order of their ids, and ids stay unique. */
  lemma StepKeepsOrder(s: Store, op: Op)
    requires Ordered(s)
    ensures Ordered(Apply(s, op))
  {
    hide ToStorage;
    hide Normalize;
    hide Acceptable;
    hide NormalizeRule;
    hide AcceptableRule;
    var t := Apply(s, op);
    match op
    case Load(config, now) => LoadKeepsOrder(s, config, now);
    case DeleteCheck(id, node) =>
      DropChecks(s.checks, id);
      DropAscends(CheckIds(s.checks), id, s.nextCheck);
    case DeleteRule(id) =>
      DropRules(s.rules, id);
      DropAscends(RuleIds(s.rules), id, s.nextRule);
    case UpdateCheck(c) => assert CheckIds(t.checks) == CheckIds(s.checks);
    case UpdateRule(rule) => assert RuleIds(t.rules) == RuleIds(s.rules);
    case CreateCheck(c) => assert t == s || CheckIds(t.checks) == CheckIds(s.checks) + [s.nextCheck];
    case CreateRule(rule, now) => assert t == s || RuleIds(t.rules) == RuleIds(s.rules) + [s.nextRule];
  }

  lemma {:induction false} OrderKept(s: Store, ops: seq<Op>)
    requires Ordered(s)
    ensures Ordered(ApplyAll(s, ops))
  {
    if ops != [] {
      OrderKept(s, ops[..|ops| - 1]);
      StepKeepsOrder(ApplyAll(s, ops[..|ops| - 1]), ops[|ops| - 1]);
    }
  }

  // ----- what the alert engine assumes of rules -----

  ghost predicate SeveritiesValid(rows: seq<RuleRow>) {
    forall i :: 0 <= i < |rows| ==> rows[i].rule.severity in {"warning", "critical"}
  }

  predicate IsLower(s: string) {
    forall i :: 0 <= i < |s| ==> !('A' <= s[i] <= 'Z')
  }

  lemma LowerFixes(s: string)
    requires IsLower(s)
    ensures Lower(s) == s
  {
    assert forall i :: 0 <= i < |s| ==> LowerChar(s[i]) == s[i];
  }

  /** Begins and ends with a visible ASCII character. */
  predicate Bare(s: string) {
    s == "" || ('!' <= s[0] <= '~' && '!' <= s[|s| - 1] <= '~')
  }

  lemma TrimFixes(s: string)
    requires Bare(s)
    ensures Trim(s) == s
  {
    assert s != "" ==> !IsSpace(s[0]) && !IsSpace(s[|s| - 1]);
  }

  lemma TextsFixed(r: Runner.Rule)
    requires Bare(r.name) && Bare(r.source) && Bare(r.entity) && Bare(r.comparator) && Bare(r.severity)
    requires IsLower(r.source) && IsLower(r.severity)
    ensures Trim(r.name) == r.name && Trim(Lower(r.source)) == r.source && Trim(r.entity) == r.entity
    ensures Trim(r.comparator) == r.comparator && Trim(Lower(r.severity)) == r.severity
  {
    TrimFixes(r.name);
    TrimFixes(r.source);
    TrimFixes(r.entity);
    TrimFixes(r.comparator);
    TrimFixes(r.severity);
    hide *;
    LowerFixes(r.source);
    LowerFixes(r.severity);
  }

  lemma NormalAlready(r: Runner.Rule)
    requires Trim(r.name) == r.name && Trim(Lower(r.source)) == r.source && Trim(r.entity) == r.entity
    requires Trim(r.comparator) == r.comparator && Trim(Lower(r.severity)) == r.severity
    requires if r.source in NUMERIC then r.comparator != "" else r.comparator == "" && r.threshold == 0.0
    requires if r.source in WITH_ENTITY then r.entity != "" else r.entity == ""
    requires r.forSec >= 0 && r.recoverGrace >= 0 && r.severity != ""
    ensures NormalizeRule(r) == r
  {
    hide Trim;
    hide Lower;
  }

  lemma CriticalIsBare()
    ensures Bare("critical") && IsLower("critical")
  {}

  lemma DefaultIsNormal(name: string, source: string, entity: string, comparator: string, threshold: real)
    requires Bare(name) && Bare(source) && Bare(entity) && Bare(comparator) && IsLower(source)
    requires if source in NUMERIC then comparator != "" else comparator == "" && threshold == 0.0
    requires if source in WITH_ENTITY then entity != "" else entity == ""
    ensures NormalizeRule(Default(name, source, entity, comparator, threshold)) == Default(name, source, entity, comparator, threshold)
  {
    hide Bare;
    hide IsLower;
    hide Trim;
    hide Lower;
    CriticalIsBare();
    TextsFixed(Default(name, source, entity, comparator, threshold));
    NormalAlready(Default(name, source, entity, comparator, threshold));
  }

  lemma StatusDefaultsNormal()
    ensures var r := Default("Service check failing", "check_status", "*", "", 0.0); NormalizeRule(r) == r
    ensures var r := Default("Node unreachable", "peer", "*", "", 0.0); NormalizeRule(r) == r
  {
    hide NormalizeRule;
    DefaultIsNormal("Service check failing", "check_status", "*", "", 0.0);
    DefaultIsNormal("Node unreachable", "peer", "*", "", 0.0);
  }

  lemma NumericDefaultsNormal(threshold: real)
    ensures var r := Default("High CPU usage", "cpu", "", ">=", threshold); NormalizeRule(r) == r
    ensures var r := Default("High memory usage", "mem", "", ">=", threshold); NormalizeRule(r) == r
    ensures var r := Default("Disk almost full", "disk", "*", ">=", threshold); NormalizeRule(r) == r
  {
    hide NormalizeRule;
    DefaultIsNormal("High CPU usage", "cpu", "", ">=", threshold);
    DefaultIsNormal("High memory usage", "mem", "", ">=", threshold);
    DefaultIsNormal("Disk almost full", "disk", "*", ">=", threshold);
  }

  /** The default rules are stored as they are written. */
  lemma DefaultsAreNormal(c: Config, i: nat)
    requires i < |Defaults(c)|
    ensures NormalizeRule(Defaults(c)[i]) == Defaults(c)[i] && Defaults(c)[i].severity == "critical"
  {
    hide NormalizeRule;
    StatusDefaultsNormal();
    NumericDefaultsNormal(c.cpu);
    NumericDefaultsNormal(c.mem);
    NumericDefaultsNormal(c.disk);
  }

  lemma StepKeepsSeverities(s: Store, op: Op)
    requires SeveritiesValid(s.rules)
    ensures SeveritiesValid(Apply(s, op).rules)
  {
    hide ToStorage;
    hide Normalize;
    hide Acceptable;
    hide NormalizeRule;
    match op
    case Load(config, now) =>
      FlagsAreIndependent(s, config, now);
      forall i: nat | i < |Defaults(config)| ensures NormalizeRule(Defaults(config)[i]).severity == "critical" {
        DefaultsAreNormal(config, i);
      }
    case DeleteRule(id) =>
      var rest := WithoutRule(s.rules, id);
      assert forall i :: 0 <= i < |rest| ==> rest[i] in rest && rest[i] in s.rules;
    case _ =>
  }

  /** Over any run, every observation of a stored rule has the kind of severity the engine relies on. */
  lemma {:induction false} RulesStaySane(s: Store, ops: seq<Op>)
    requires SeveritiesValid(s.rules)
    ensures SeveritiesValid(ApplyAll(s, ops).rules)
    ensures forall row, detail, met, seed, now :: row in ApplyAll(s, ops).rules ==>
                                                    AlertHistory.Sane(AlertHistory.Observation(Runner.View(row.rule), detail, met, seed, now))
  {
    hide Apply;
    if ops != [] {
      RulesStaySane(s, ops[..|ops| - 1]);
      StepKeepsSeverities(ApplyAll(s, ops[..|ops| - 1]), ops[|ops| - 1]);
    }
  }
}
