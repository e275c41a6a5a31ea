/**
 The settings service: the stored checks and alert rules, their in-memory copies, and the defaults
 that are seeded once.
 */
module Settings {
  import opened Text
  import opened Times
  import opened StatusCodes
  import Runner

  const DEFAULT_TIMEOUT := 10 * SECOND

  datatype Target = Target(
    url: string, verb: string, host: string, port: int, process: string, command: string, acceptAny: bool,
    userAgent: string)

  /** A check as the program uses it; durations in nanoseconds. */
  datatype Check = Check(
    id: int, name: string, kind: string, interval: int, timeout: int, enabled: bool, accepted: seq<int>,
    target: Target)

  /** A check as stored: whole seconds, and the accepted codes as text. */
  datatype CheckRow = CheckRow(
    id: int, name: string, kind: string, intervalSec: int, timeoutSec: int, enabled: bool, accepted: string,
    target: Target)

  datatype RuleRow = RuleRow(rule: Runner.Rule, createdAt: int)

  // ----- conversions -----

  /** Truncation towards zero. */
  function WholeSeconds(ns: int): int {
    if ns >= 0 then ns / SECOND else -(-ns / SECOND)
  }

  function ToStorage(c: Check): CheckRow {
    CheckRow(c.id, c.name, c.kind, WholeSeconds(c.interval), WholeSeconds(c.timeout), c.enabled,
             Format(c.accepted), c.target)
  }

  function FromStorage(r: CheckRow): Check {
    Check(r.id, r.name, r.kind, r.intervalSec * SECOND, r.timeoutSec * SECOND, r.enabled, Parse(r.accepted), r.target)
  }

  function Decode(rows: seq<CheckRow>): seq<Check> {
    seq(|rows|, i requires 0 <= i < |rows| => FromStorage(rows[i]))
  }

  function Normalize(c: Check): Check {
    var kind := Trim(Lower(c.kind));
    c.(name := Trim(c.name), kind := kind,
    timeout := if c.timeout <= 0 then DEFAULT_TIMEOUT else c.timeout,
    accepted := Canonical(c.accepted),
    target := c.target.(verb := if kind == "http" && c.target.verb == "" then "GET" else c.target.verb,
    userAgent := Trim(c.target.userAgent)))
  }

  predicate Acceptable(c: Check) {
    && c.name != "" && c.interval > 0
    && match c.kind
       case "http" => c.target.url != "" && forall code :: code in c.accepted ==> 100 <= code <= 599
       case "tcp" => c.target.host != "" && 1 <= c.target.port <= 65535
       case "process" => c.target.process != ""
       case "shell" => c.target.command != ""
       case _ => false
  }

  // ----- what is kept of a check -----

  /** kept is c, tidied: text trimmed, type in lower case, a timeout of ten seconds and the method GET where
      none is given, codes in canonical order, durations cut to whole seconds. */
  ghost predicate Keeps(c: Check, kept: Check) {
    && kept.name == Trim(c.name) && kept.kind == Trim(Lower(c.kind)) && kept.enabled == c.enabled
    && kept.interval == c.interval - c.interval % 1_000_000_000
    && (c.timeout <= 0 ==> kept.timeout == 10_000_000_000)
    && (c.timeout > 0 ==> kept.timeout == c.timeout - c.timeout % 1_000_000_000)
    && IsCanonical(c.accepted, kept.accepted)
    && kept.target.url == c.target.url && kept.target.host == c.target.host && kept.target.port == c.target.port
    && kept.target.process == c.target.process && kept.target.command == c.target.command
    && kept.target.acceptAny == c.target.acceptAny && kept.target.userAgent == Trim(c.target.userAgent)
    && (c.target.verb != "" || kept.kind != "http" ==> kept.target.verb == c.target.verb)
    && (c.target.verb == "" && kept.kind == "http" ==> kept.target.verb == "GET")
  }

  lemma KeepsAnyId(c: Check, kept: Check, id: int)
    ensures Keeps(c, kept.(id := id)) <==> Keeps(c, kept)
  {}

  lemma SecondsKept(ns: int)
    requires ns > 0
    ensures WholeSeconds(ns) * SECOND == ns - ns % 1_000_000_000
  {}

  /** What comes back from the store. */
  lemma StoredShows(n: Check)
    ensures var kept := FromStorage(ToStorage(n));
            kept == Check(n.id, n.name, n.kind, WholeSeconds(n.interval) * SECOND, WholeSeconds(n.timeout) * SECOND,
                          n.enabled, Parse(Format(n.accepted)), n.target)
  {
    hide Parse;
    hide Format;
    hide WholeSeconds;
  }

  lemma NormalShows(c: Check)
    ensures var n := Normalize(c);
            && n.accepted == Canonical(c.accepted) && n.interval == c.interval
            && n.timeout == (if c.timeout <= 0 then 10_000_000_000 else c.timeout)
            && Keeps(c.(interval := 0, timeout := 0, accepted := []), n.(interval := 0, timeout := 10_000_000_000, accepted := []))
  {
    hide Trim;
    hide Lower;
    hide Canonical;
  }

  lemma KeepsParts(c: Check, kept: Check)
    requires Keeps(c.(interval := 0, timeout := 0, accepted := []), kept.(interval := 0, timeout := 10_000_000_000, accepted := []))
    requires kept.interval == c.interval - c.interval % 1_000_000_000 && IsCanonical(c.accepted, kept.accepted)
    requires c.timeout <= 0 ==> kept.timeout == 10_000_000_000
    requires c.timeout > 0 ==> kept.timeout == c.timeout - c.timeout % 1_000_000_000
    ensures Keeps(c, kept)
  {
    hide Trim;
    hide Lower;
    hide IsCanonical;
  }

  lemma KeepsNormal(c: Check)
    requires c.interval > 0 && forall code :: code in c.accepted ==> InInt64(code)
    ensures Keeps(c, FromStorage(ToStorage(Normalize(c))))
  {
    hide *;
    var n := Normalize(c);
    NormalShows(c);
    CodesKept(c.accepted);
    SecondsKept(n.interval);
    SecondsKept(n.timeout);
    StoredShows(n);
    KeepsParts(c, FromStorage(ToStorage(n)));
  }

  lemma CodesKept(codes: seq<int>)
    requires forall code :: code in codes ==> InInt64(code)
    ensures IsCanonical(codes, Parse(Format(Canonical(codes))))
  {
    CanonicalHolds(codes);
    assert forall code :: code in Canonical(codes) ==> InInt64(code);
    hide Format;
    hide Parse;
    ParseInvertsFormat(Canonical(codes));
  }

  /** A check is turned down exactly for one of these reasons. */
  lemma RejectsExactly(c: Check)
    ensures !Acceptable(c) <==>
            || c.name == "" || c.interval <= 0
            || c.kind !in {"http", "tcp", "process", "shell"}
            || (c.kind == "http" && c.target.url == "")
            || (c.kind == "http" && exists code :: code in c.accepted && (code < 100 || 599 < code))
            || (c.kind == "tcp" && (c.target.host == "" || c.target.port < 1 || 65535 < c.target.port))
            || (c.kind == "process" && c.target.process == "")
            || (c.kind == "shell" && c.target.command == "")
  {}

  // ----- rules -----

  const NUMERIC := {"cpu", "mem", "disk", "check_latency", "net_recv", "net_sent", "nodata"}
  const PERCENT := {"cpu", "mem", "disk"}
  const WITH_ENTITY := {"disk", "check_status", "check_latency", "peer", "nodata"}

  function NormalizeRule(r: Runner.Rule): Runner.Rule {
    var source, entity := Trim(Lower(r.source)), Trim(r.entity);
    var severity, comparator := Trim(Lower(r.severity)), Trim(r.comparator);
    r.(name := Trim(r.name), source := source,
    severity := if severity == "" then "warning" else severity,
    comparator := if source !in NUMERIC then "" else if comparator == "" then ">=" else comparator,
    threshold := if source in NUMERIC then r.threshold else 0.0,
    entity := if source !in WITH_ENTITY then "" else if entity == "" then "*" else entity,
    forSec := if r.forSec < 0 then 0 else r.forSec,
    recoverGrace := if r.recoverGrace < 0 then 0 else r.recoverGrace)
  }

  lemma NormalizeKeepsId(r: Runner.Rule)
    ensures NormalizeRule(r).id == r.id
  {}

  predicate AcceptableRule(r: Runner.Rule) {
    && r.name != "" && (r.source in NUMERIC || r.source == "check_status" || r.source == "peer")
    && (r.severity == "warning" || r.severity == "critical")
    && (r.source in NUMERIC ==>
          && r.comparator in {">=", ">", "<=", "<"} && r.threshold >= 0.0
          && (r.source in PERCENT ==> r.threshold <= 100.0))
  }

  /** n is r, tidied: text trimmed, source and severity in lower case, and the parts its source has no use for
      blanked or filled in. */
  lemma NormalRuleExactly(r: Runner.Rule)
    ensures var n := NormalizeRule(r);
            var numeric := n.source in ["cpu", "mem", "disk", "check_latency", "net_recv", "net_sent", "nodata"];
            && n.id == r.id && n.enabled == r.enabled && n.name == Trim(r.name) && n.source == Trim(Lower(r.source))
            && (Trim(Lower(r.severity)) == "" ==> n.severity == "warning")
            && (Trim(Lower(r.severity)) != "" ==> n.severity == Trim(Lower(r.severity)))
            && (numeric ==> n.threshold == r.threshold)
            && (numeric && Trim(r.comparator) == "" ==> n.comparator == ">=")
            && (numeric && Trim(r.comparator) != "" ==> n.comparator == Trim(r.comparator))
            && (!numeric ==> n.comparator == "" && n.threshold == 0.0)
            && (n.source in ["disk", "check_status", "check_latency", "peer", "nodata"] ==>
                  n.entity == if Trim(r.entity) == "" then "*" else Trim(r.entity))
            && (n.source !in ["disk", "check_status", "check_latency", "peer", "nodata"] ==> n.entity == "")
            && (r.forSec >= 0 ==> n.forSec == r.forSec) && (r.forSec < 0 ==> n.forSec == 0)
            && (r.recoverGrace >= 0 ==> n.recoverGrace == r.recoverGrace) && (r.recoverGrace < 0 ==> n.recoverGrace == 0)
  {
    hide Trim;
    hide Lower;
  }

  /** A rule is turned down exactly for one of these reasons. */
  lemma RejectsRuleExactly(r: Runner.Rule)
    ensures var numeric := r.source in ["cpu", "mem", "disk", "check_latency", "net_recv", "net_sent", "nodata"];
            !AcceptableRule(r) <==>
            || r.name == "" || (!numeric && r.source != "check_status" && r.source != "peer")
            || (r.severity != "warning" && r.severity != "critical")
            || (numeric && r.comparator !in [">=", ">", "<=", "<"])
            || (numeric && r.threshold < 0.0)
            || (r.source in ["cpu", "mem", "disk"] && r.threshold > 100.0)
  {}

  // ----- the store -----

  /** Rows in order of their ids, which are never given twice, the two seed flags, and the names that
      have a stored check status, per node. */
  datatype Store = Store(
    checks: seq<CheckRow>, nextCheck: int, rules: seq<RuleRow>, nextRule: int,
    initialized: bool, alertsSeeded: bool, statuses: set<(string, string)>)

  datatype Config = Config(checks: seq<Check>, cpu: real, mem: real, disk: real)

  datatype Op =
    | Load(config: Config, now: int)
    | CreateCheck(check: Check)
    | UpdateCheck(check: Check)
    | DeleteCheck(id: int, node: string)
    | CreateRule(rule: Runner.Rule, now: int)
    | UpdateRule(rule: Runner.Rule)
    | DeleteRule(id: int)

  function AddCheck(s: Store, row: CheckRow): Store {
    s.(checks := s.checks + [row.(id := s.nextCheck)], nextCheck := s.nextCheck + 1)
  }

  function AddRule(s: Store, rule: Runner.Rule, now: int): Store {
    s.(rules := s.rules + [RuleRow(rule.(id := s.nextRule), now)], nextRule := s.nextRule + 1)
  }

  function AddChecks(s: Store, checks: seq<Check>): Store {
    if checks == [] then s
    else AddCheck(AddChecks(s, checks[..|checks| - 1]), ToStorage(checks[|checks| - 1].(enabled := true)))
  }

  function AddRules(s: Store, rules: seq<Runner.Rule>, now: int): Store {
    if rules == [] then s
    else AddRule(AddRules(s, rules[..|rules| - 1], now), NormalizeRule(rules[|rules| - 1]), now)
  }

  function Default(name: string, source: string, entity: string, comparator: string, threshold: real): Runner.Rule {
    Runner.Rule(0, name, true, source, entity, comparator, threshold, 0, 0, "critical")
  }

  function Defaults(c: Config): seq<Runner.Rule> {
    [Default("Service check failing", "check_status", "*", "", 0.0), Default("Node unreachable", "peer", "*", "", 0.0)]
    + (if c.cpu > 0.0 then [Default("High CPU usage", "cpu", "", ">=", c.cpu)] else [])
    + (if c.mem > 0.0 then [Default("High memory usage", "mem", "", ">=", c.mem)] else [])
    + (if c.disk > 0.0 then [Default("Disk almost full", "disk", "*", ">=", c.disk)] else [])
  }

  ghost predicate IsDefault(r: Runner.Rule, source: string, entity: string, comparator: string, threshold: real) {
    && r.enabled && r.source == source && r.entity == entity && r.comparator == comparator && r.threshold == threshold
    && r.forSec == 0 && r.recoverGrace == 0 && r.severity == "critical"
  }

  /** One rule each for failing checks and unreachable nodes, and for each configured threshold above zero
      one that fires from that threshold upwards. */
  lemma DefaultsExactly(c: Config)
    ensures forall r :: r in Defaults(c) ==>
                          || IsDefault(r, "check_status", "*", "", 0.0) || IsDefault(r, "peer", "*", "", 0.0)
                          || (c.cpu > 0.0 && IsDefault(r, "cpu", "", ">=", c.cpu))
                          || (c.mem > 0.0 && IsDefault(r, "mem", "", ">=", c.mem))
                          || (c.disk > 0.0 && IsDefault(r, "disk", "*", ">=", c.disk))
    ensures exists r :: r in Defaults(c) && IsDefault(r, "check_status", "*", "", 0.0)
    ensures exists r :: r in Defaults(c) && IsDefault(r, "peer", "*", "", 0.0)
    ensures c.cpu > 0.0 ==> exists r :: r in Defaults(c) && IsDefault(r, "cpu", "", ">=", c.cpu)
    ensures c.mem > 0.0 ==> exists r :: r in Defaults(c) && IsDefault(r, "mem", "", ">=", c.mem)
    ensures c.disk > 0.0 ==> exists r :: r in Defaults(c) && IsDefault(r, "disk", "*", ">=", c.disk)
    ensures |Defaults(c)| ==
            2 + (if c.cpu > 0.0 then 1 else 0) + (if c.mem > 0.0 then 1 else 0) + (if c.disk > 0.0 then 1 else 0)
  {
    var rules := Defaults(c);
    var m, d := if c.cpu > 0.0 then 3 else 2, (if c.cpu > 0.0 then 3 else 2) + if c.mem > 0.0 then 1 else 0;
    assert rules[0] in rules && rules[1] in rules;
    if c.cpu > 0.0 { assert rules[2] in rules; }
    if c.mem > 0.0 { assert rules[m] in rules; }
    if c.disk > 0.0 { assert rules[d] in rules; }
  }

  function SeedChecks(s: Store, c: Config): Store {
    if s.initialized then s else AddChecks(s, c.checks).(initialized := true)
  }

  function SeedRules(s: Store, c: Config, now: int): Store {
    if s.alertsSeeded then s else AddRules(s, Defaults(c), now).(alertsSeeded := true)
  }

  predicate HasCheck(s: Store, id: int) {
    exists i :: 0 <= i < |s.checks| && s.checks[i].id == id
  }

  predicate HasRule(s: Store, id: int) {
    exists i :: 0 <= i < |s.rules| && s.rules[i].rule.id == id
  }

  function ReplaceCheck(rows: seq<CheckRow>, row: CheckRow): seq<CheckRow> {
    seq(|rows|, i requires 0 <= i < |rows| => if rows[i].id == row.id then row else rows[i])
  }

  function ReplaceRule(rows: seq<RuleRow>, rule: Runner.Rule): seq<RuleRow> {
    seq(|rows|, i requires 0 <= i < |rows| => if rows[i].rule.id == rule.id then rows[i].(rule := rule) else rows[i])
  }

  function WithoutCheck(rows: seq<CheckRow>, id: int): (rest: seq<CheckRow>)
    ensures forall r :: r in rest <==> r in rows && r.id != id
  {
    if rows == [] then []
    else
      assert rows == rows[..|rows| - 1] + [rows[|rows| - 1]];
      WithoutCheck(rows[..|rows| - 1], id) + if rows[|rows| - 1].id == id then [] else [rows[|rows| - 1]]
  }

  function WithoutRule(rows: seq<RuleRow>, id: int): (rest: seq<RuleRow>)
    ensures forall r :: r in rest <==> r in rows && r.rule.id != id
  {
    if rows == [] then []
    else
      assert rows == rows[..|rows| - 1] + [rows[|rows| - 1]];
      WithoutRule(rows[..|rows| - 1], id) + if rows[|rows| - 1].rule.id == id then [] else [rows[|rows| - 1]]
  }

  /** The name of the first check with this id, or "". */
  function NameOf(checks: seq<Check>, id: int): string {
    if checks == [] then "" else if checks[0].id == id then checks[0].name else NameOf(checks[1..], id)
  }

  /** It is the name of the first check with this id. */
  lemma {:induction false} NameOfFirst(checks: seq<Check>, id: int, i: nat)
    requires forall j :: 0 <= j < i && j < |checks| ==> checks[j].id != id
    ensures i < |checks| && checks[i].id == id ==> NameOf(checks, id) == checks[i].name
    ensures i >= |checks| ==> NameOf(checks, id) == ""
  {
    if i > 0 && checks != [] {
      assert checks[0].id != id;
      NameOfFirst(checks[1..], id, i - 1);
    }
  }

  lemma DecodeHas(rows: seq<CheckRow>, c: Check)
    ensures c in Decode(rows) <==> exists r :: r in rows && c == FromStorage(r)
  {
    hide FromStorage;
    if c in Decode(rows) {
      var i :| 0 <= i < |rows| && Decode(rows)[i] == c;
      assert rows[i] in rows;
    }
    if r :| r in rows && c == FromStorage(r) {
      var i :| 0 <= i < |rows| && rows[i] == r;
      assert Decode(rows)[i] == c;
    }
  }

  /** Memory loses exactly the checks with this id. */
  lemma DecodeWithout(rows: seq<CheckRow>, id: int, c: Check)
    ensures c in Decode(WithoutCheck(rows, id)) <==> c in Decode(rows) && c.id != id
  {
    DecodeHas(rows, c);
    DecodeHas(WithoutCheck(rows, id), c);
    assert forall r :: FromStorage(r).id == r.id;
    hide FromStorage;
    hide Decode;
  }

  lemma DecodeReplaced(rows: seq<CheckRow>, n: Check, i: nat)
    requires i < |rows|
    ensures var after := Decode(ReplaceCheck(rows, ToStorage(n)));
            && |after| == |rows| && Decode(rows)[i].id == rows[i].id
            && after[i] == if rows[i].id == n.id then FromStorage(ToStorage(n)) else Decode(rows)[i]
  {
    hide Format;
    hide Parse;
  }

  /** What each operation does to the store; the ones that fail do nothing. */
  function Apply(s: Store, op: Op): Store {
    match op
    case Load(config, now) => SeedRules(SeedChecks(s, config), config, now)
    case CreateCheck(c) => if Acceptable(Normalize(c)) then AddCheck(s, ToStorage(Normalize(c))) else s
    case UpdateCheck(c) =>
      if Acceptable(Normalize(c)) then s.(checks := ReplaceCheck(s.checks, ToStorage(Normalize(c)))) else s
    case DeleteCheck(id, node) =>
      var name := NameOf(Decode(s.checks), id);
      s.(checks := WithoutCheck(s.checks, id), statuses := if name == "" then s.statuses else s.statuses - {(node, name)})
    case CreateRule(rule, now) => if AcceptableRule(NormalizeRule(rule)) then AddRule(s, NormalizeRule(rule), now) else s
    case UpdateRule(rule) =>
      if AcceptableRule(NormalizeRule(rule)) then s.(rules := ReplaceRule(s.rules, NormalizeRule(rule))) else s
    case DeleteRule(id) => s.(rules := WithoutRule(s.rules, id))
  }

  lemma DecodeAppend(rows: seq<CheckRow>, row: CheckRow)
    ensures Decode(rows + [row]) == Decode(rows) + [FromStorage(row)]
  {
    hide FromStorage;
  }

  /** Creating an acceptable check adds what is kept of it, under the next id. */
  lemma CreateChecks(s: Store, c: Check)
    requires Acceptable(Normalize(c))
    ensures var t := AddCheck(s, ToStorage(Normalize(c)));
            && t == Apply(s, CreateCheck(c)) && t.rules == s.rules
            && |Decode(t.checks)| == |Decode(s.checks)| + 1
            && var created := Decode(t.checks)[|Decode(t.checks)| - 1];
            && Decode(t.checks) == Decode(s.checks) + [created] && created.id == s.nextCheck
            && ((forall code :: code in c.accepted ==> InInt64(code)) ==> Keeps(c, created))
  {
    var row := ToStorage(Normalize(c));
    assert c.interval > 0;
    if forall code :: code in c.accepted ==> InInt64(code) {
      KeepsNormal(c);
    }
    assert FromStorage(row.(id := s.nextCheck)) == FromStorage(row).(id := s.nextCheck);
    KeepsAnyId(c, FromStorage(row), s.nextCheck);
    DecodeAppend(s.checks, row.(id := s.nextCheck));
    hide FromStorage;
    hide ToStorage;
    hide Normalize;
    hide Keeps;
  }

  lemma UpdatedIs(c: Check)
    requires Acceptable(Normalize(c))
    ensures Normalize(c).id == c.id && FromStorage(ToStorage(Normalize(c))).id == c.id
    ensures (forall code :: code in c.accepted ==> InInt64(code)) ==> Keeps(c, FromStorage(ToStorage(Normalize(c))))
  {
    assert c.interval > 0;
    if forall code :: code in c.accepted ==> InInt64(code) {
      KeepsNormal(c);
    }
    hide Keeps;
  }

  /** Updating replaces what was kept under the id, and nothing else. */
  lemma UpdateChecks(s: Store, c: Check)
    requires Acceptable(Normalize(c))
    ensures var t := s.(checks := ReplaceCheck(s.checks, ToStorage(Normalize(c))));
            && t == Apply(s, UpdateCheck(c)) && Normalize(c).id == c.id
            && |Decode(t.checks)| == |Decode(s.checks)|
            && forall i :: 0 <= i < |Decode(s.checks)| ==>
                             if Decode(s.checks)[i].id != c.id then Decode(t.checks)[i] == Decode(s.checks)[i]
                             else Decode(t.checks)[i].id == c.id &&
                                  ((forall code :: code in c.accepted ==> InInt64(code)) ==> Keeps(c, Decode(t.checks)[i]))
  {
    UpdatedIs(c);
    hide FromStorage;
    hide ToStorage;
    hide Normalize;
    hide Keeps;
    hide Acceptable;
    var n := Normalize(c);
    forall i: nat | i < |s.checks|
      ensures Decode(s.checks)[i].id == s.checks[i].id
      ensures Decode(ReplaceCheck(s.checks, ToStorage(n)))[i] ==
              if s.checks[i].id == n.id then FromStorage(ToStorage(n)) else Decode(s.checks)[i]
    {
      DecodeReplaced(s.checks, n, i);
    }
  }

  /** Deleting a check takes exactly the checks with this id, and the status stored under its name. */
  lemma DeleteChecks(s: Store, id: int, node: string)
    ensures var t := Apply(s, DeleteCheck(id, node)); t.rules == s.rules
    ensures forall c :: c in Decode(Apply(s, DeleteCheck(id, node)).checks) <==> c in Decode(s.checks) && c.id != id
    ensures var name := NameOf(Decode(s.checks), id);
            Apply(s, DeleteCheck(id, node)) ==
            s.(checks := WithoutCheck(s.checks, id), statuses := if name == "" then s.statuses else s.statuses - {(node, name)})
  {
    forall c ensures c in Decode(WithoutCheck(s.checks, id)) <==> c in Decode(s.checks) && c.id != id {
      DecodeWithout(s.checks, id, c);
    }
  }

  lemma DeleteStatuses(s: Store, id: int, node: string)
    ensures var was, t := Decode(s.checks), Apply(s, DeleteCheck(id, node));
            && (forall i :: 0 <= i < |was| && was[i].id == id && (forall j :: 0 <= j < i ==> was[j].id != id) ==>
                              t.statuses == s.statuses - (if was[i].name == "" then {} else {(node, was[i].name)}))
            && ((forall c :: c in was ==> c.id != id) ==> t.statuses == s.statuses)
  {
    hide Decode;
    var was := Decode(s.checks);
    forall i: nat | i < |was| && was[i].id == id && (forall j :: 0 <= j < i ==> was[j].id != id)
      ensures NameOf(was, id) == was[i].name
    {
      NameOfFirst(was, id, i);
    }
    if forall c :: c in was ==> c.id != id {
      assert forall j :: 0 <= j < |was| ==> was[j] in was && was[j].id != id;
      NameOfFirst(was, id, |was|);
    }
  }

  datatype Outcome = Done | Invalid | NotFound

  class Service {
    var store: Store
    var checks: seq<Check>
    var alerts: seq<RuleRow>

    /** The copies in memory are what the store says. */
    ghost predicate Valid()
      reads this
    {
      checks == Decode(store.checks) && alerts == store.rules
    }

    /** A restarted program finds the store and starts with empty copies. */
    constructor (store: Store)
      ensures this.store == store
    {
      this.store, checks, alerts := store, [], [];
    }

    method Load(config: Config, now: int)
      modifies this
      ensures Valid() && store == Apply(old(store), Op.Load(config, now))
    {
      if !store.initialized {
        for i := 0 to |config.checks|
          invariant store == AddChecks(old(store), config.checks[..i])
        {
          assert config.checks[..i + 1][..i] == config.checks[..i];
          store := AddCheck(store, ToStorage(config.checks[i].(enabled := true)));
        }
        assert config.checks[..|config.checks|] == config.checks;
        store := store.(initialized := true);
      }
      SeedAlertRulesOnce(config, now);
      LoadChecks();
      alerts := store.rules;
    }

    method SeedAlertRulesOnce(config: Config, now: int)
      modifies this`store
      ensures store == SeedRules(old(store), config, now)
    {
      hide NormalizeRule;
      hide Defaults;
      if store.alertsSeeded {
        return;
      }
      var defaults := Defaults(config);
      for i := 0 to |defaults|
        invariant store == AddRules(old(store), defaults[..i], now)
      {
        assert defaults[..i + 1][..i] == defaults[..i];
        store := AddRule(store, NormalizeRule(defaults[i]), now);
      }
      assert defaults[..|defaults|] == defaults;
      store := store.(alertsSeeded := true);
    }

    method LoadChecks()
      modifies this`checks
      ensures checks == Decode(store.checks)
    {
      checks := [];
      for i := 0 to |store.checks|
        invariant checks == Decode(store.checks[..i])
      {
        checks := checks + [FromStorage(store.checks[i])];
      }
      assert store.checks[..|store.checks|] == store.checks;
    }

    /** The returned check is the one now in memory, under a new id. */
    method CreateCheck(c: Check) returns (outcome: Outcome, created: Check)
      requires Valid()
      modifies this
      ensures Valid() && store == Apply(old(store), Op.CreateCheck(c))
      ensures outcome == if Acceptable(Normalize(c)) then Done else Invalid
      ensures outcome == Done ==> checks == old(checks) + [created] && created.id == old(store).nextCheck
      ensures outcome == Done && (forall code :: code in c.accepted ==> InInt64(code)) ==> Keeps(c, created)
      ensures outcome != Done ==> checks == old(checks)
    {
      hide Normalize;
      hide Acceptable;
      hide ToStorage;
      hide Keeps;
      hide Decode;
      created := Normalize(c);
      if !Acceptable(created) {
        return Invalid, created;
      }
      CreateChecks(store, c);
      hide Apply;
      store := AddCheck(store, ToStorage(created));
      LoadChecks();
      created := checks[|checks| - 1];
      return Done, created;
    }

    method UpdateCheck(c: Check) returns (outcome: Outcome)
      requires Valid()
      modifies this
      ensures Valid() && store == Apply(old(store), Op.UpdateCheck(c))
      ensures outcome == if !Acceptable(Normalize(c)) then Invalid else if HasCheck(old(store), c.id) then Done else NotFound
      ensures outcome != Done ==> checks == old(checks)
      ensures |checks| == |old(checks)|
      ensures outcome == Done ==> forall i :: 0 <= i < |checks| ==>
                                                if old(checks)[i].id != c.id then checks[i] == old(checks)[i]
                                                else checks[i].id == c.id && ((forall code :: code in c.accepted ==> InInt64(code)) ==> Keeps(c, checks[i]))
    {
      var n := Normalize(c);
      if !Acceptable(n) {
        return Invalid;
      }
      UpdateChecks(store, c);
      if !HasCheck(store, n.id) {
        hide FromStorage;
        hide Normalize;
        hide Acceptable;
        assert ReplaceCheck(store.checks, ToStorage(n)) == store.checks;
        return NotFound;
      }
      hide *;
      store := store.(checks := ReplaceCheck(store.checks, ToStorage(n)));
      LoadChecks();
      return Done;
    }

    method DeleteCheck(id: int, node: string)
      requires Valid()
      modifies this
      ensures Valid() && store == Apply(old(store), Op.DeleteCheck(id, node))
      ensures forall c :: c in checks <==> c in old(checks) && c.id != id
      ensures forall i :: 0 <= i < |old(checks)| && old(checks)[i].id == id && (forall j :: 0 <= j < i ==> old(checks)[j].id != id) ==>
                            store.statuses == old(store).statuses - (if old(checks)[i].name == "" then {} else {(node, old(checks)[i].name)})
      ensures (forall c :: c in old(checks) ==> c.id != id) ==> store.statuses == old(store).statuses
    {
      var name := FindName(id);
      DeleteChecks(store, id, node);
      DeleteStatuses(store, id, node);
      hide Apply;
      hide Decode;
      hide NameOf;
      hide WithoutCheck;
      store := store.(checks := WithoutCheck(store.checks, id));
      if name != "" {
        store := store.(statuses := store.statuses - {(node, name)});
      }
      LoadChecks();
    }

    /** The name to clear the status of, found before the row is gone. */
    method FindName(id: int) returns (name: string)
      ensures name == NameOf(checks, id)
    {
      name := "";
      for i := 0 to |checks|
        invariant name == "" && NameOf(checks, id) == NameOf(checks[i..], id)
      {
        if checks[i].id == id {
          name := checks[i].name;
          break;
        }
      }
    }

    /** The returned rule is the one now in memory, under a new id. */
    method CreateAlertRule(rule: Runner.Rule, now: int) returns (outcome: Outcome, created: RuleRow)
      requires Valid()
      modifies this
      ensures Valid() && store == Apply(old(store), CreateRule(rule, now))
      ensures outcome == if AcceptableRule(NormalizeRule(rule)) then Done else Invalid
      ensures outcome == Done ==>
                alerts == old(alerts) + [created] && created == RuleRow(NormalizeRule(rule).(id := old(store).nextRule), now)
      ensures outcome != Done ==> alerts == old(alerts)
    {
      hide NormalizeRule;
      hide AcceptableRule;
      hide Decode;
      var n := NormalizeRule(rule);
      if !AcceptableRule(n) {
        return Invalid, RuleRow(n, now);
      }
      store := AddRule(store, n, now);
      alerts := store.rules;
      return Done, alerts[|alerts| - 1];
    }

    /** The rule with this id is replaced and keeps its creation time; the others stay as they are. */
    method UpdateAlertRule(rule: Runner.Rule) returns (outcome: Outcome)
      requires Valid()
      modifies this
      ensures Valid() && store == Apply(old(store), UpdateRule(rule))
      ensures outcome == if !AcceptableRule(NormalizeRule(rule)) then Invalid
                         else if HasRule(old(store), rule.id) then Done else NotFound
      ensures outcome != Done ==> alerts == old(alerts)
      ensures |alerts| == |old(alerts)|
      ensures outcome == Done ==> forall i :: 0 <= i < |alerts| ==>
                                                alerts[i] == if old(alerts)[i].rule.id == rule.id then RuleRow(NormalizeRule(rule), old(alerts)[i].createdAt)
                                                else old(alerts)[i]
    {
      NormalizeKeepsId(rule);
      hide NormalizeRule;
      hide AcceptableRule;
      hide Decode;
      var n := NormalizeRule(rule);
      if !AcceptableRule(n) {
        return Invalid;
      }
      if !HasRule(store, n.id) {
        assert ReplaceRule(store.rules, n) == store.rules;
        return NotFound;
      }
      store := store.(rules := ReplaceRule(store.rules, n));
      alerts := store.rules;
      return Done;
    }

    /** Exactly the rules with another id remain. */
    method DeleteAlertRule(id: int)
      requires Valid()
      modifies this
      ensures Valid() && store == Apply(old(store), DeleteRule(id))
      ensures forall row :: row in alerts <==> row in old(alerts) && row.rule.id != id
    {
      store := store.(rules := WithoutRule(store.rules, id));
      alerts := store.rules;
    }
  }
}
