/**
 The alert runner: each pass evaluates every enabled rule against the current tables and drives the
 engine. The first pass after a start only primes it.
 */
module Runner {
  import opened Options
  import opened Keys
  import opened AlertHistory
  import opened AlertEngine

  datatype Rule = Rule(
    id: int, name: string, enabled: bool, source: string, entity: string, comparator: string,
    threshold: real, forSec: int, recoverGrace: int, severity: string)

  datatype Metric = Metric(cpu: real, mem: real)
  datatype NetSample = NetSample(recvRate: real, sentRate: real)
  datatype Disk = Disk(mount: string, percent: real)
  datatype CheckStatus = CheckStatus(name: string, status: string, detail: string, latencyMs: int)
  datatype Peer = Peer(name: string, enabled: bool, status: string, lastError: string)

  /** What the runner reads: the newest samples and statuses, and the age of each peer's data. */
  datatype Tables = Tables(
    metric: Option<Metric>, net: Option<NetSample>, disks: seq<Disk>, checks: seq<CheckStatus>,
    peers: seq<Peer>, ages: map<string, real>)

  /** Each table's rows are unique in the column that names an entity. */
  ghost predicate UniqueRows(db: Tables) {
    && (forall i, j :: 0 <= i < j < |db.disks| ==> db.disks[i].mount != db.disks[j].mount)
    && (forall i, j :: 0 <= i < j < |db.checks| ==> db.checks[i].name != db.checks[j].name)
    && (forall i, j :: 0 <= i < j < |db.peers| ==> db.peers[i].name != db.peers[j].name)
  }

  ghost predicate UniqueIds(rules: seq<Rule>) {
    forall i, j :: 0 <= i < j < |rules| ==> rules[i].id != rules[j].id
  }

  function View(rule: Rule): RuleView {
    RuleView(rule.id, rule.name, rule.source, rule.severity, rule.forSec, rule.recoverGrace)
  }

  function CompareNum(value: real, comparator: string, threshold: real): bool {
    if comparator == ">" then value > threshold
    else if comparator == "<=" then value <= threshold
    else if comparator == "<" then value < threshold
    else value >= threshold
  }

  /** When a numeric condition holds: the value lies on the comparator's side of the threshold; anything
      that is not one of the other three means "at least". */
  ghost predicate Crosses(comparator: string, threshold: real, value: real, met: bool) {
    && (comparator == ">" ==> (met <==> threshold < value))
    && (comparator == "<" ==> (met <==> value < threshold))
    && (comparator == "<=" ==> (met <==> value < threshold || value == threshold))
    && (comparator !in {">", "<", "<="} ==> (met <==> threshold < value || value == threshold))
  }

  lemma ComparesExactly(value: real, comparator: string, threshold: real, met: bool)
    ensures met == CompareNum(value, comparator, threshold) <==> Crosses(comparator, threshold, value, met)
  {}

  /** An unknown comparator counts as ">=", and no comparator confuses the two sides. */
  lemma CompareSides(value: real, threshold: real, comparator: string)
    ensures value > threshold ==> (CompareNum(value, comparator, threshold) <==> comparator !in {"<", "<="})
    ensures value < threshold ==> (CompareNum(value, comparator, threshold) <==> comparator in {"<", "<="})
    ensures value == threshold ==> (CompareNum(value, comparator, threshold) <==> comparator !in {"<", ">"})
  {}

  /** Seconds since a node's newest sample; a billion if there is none. */
  function StaleSeconds(db: Tables, node: string): real {
    if node in db.ages then db.ages[node] else 1_000_000_000.0
  }

  function OrElse(detail: string, default: string): string {
    if detail == "" then default else detail
  }

  /** What one rule sees: (node, entity, detail, condition). */
  datatype Reading = Reading(node: string, entity: string, detail: string, met: bool)

  class Runner {
    const selfName: string
    const engine: Engine
    /** Renders a numeric reading for a person; the formatting itself is not modelled. */
    const describe: (Rule, real) -> string

    constructor (selfName: string, engine: Engine, describe: (Rule, real) -> string)
      ensures this.selfName == selfName && this.engine == engine && this.describe == describe
    {
      this.selfName, this.engine, this.describe := selfName, engine, describe;
    }

    function Numeric(rule: Rule, node: string, entity: string, value: real): Reading {
      Reading(node, entity, describe(rule, value), CompareNum(value, rule.comparator, rule.threshold))
    }

    function OfDisks(rule: Rule, disks: seq<Disk>): seq<Reading> {
      if disks == [] then []
      else
        var d := disks[|disks| - 1];
        OfDisks(rule, disks[..|disks| - 1]) +
        if rule.entity != "*" && rule.entity != d.mount then [] else [Numeric(rule, selfName, d.mount, d.percent)]
    }

    function OfChecks(rule: Rule, checks: seq<CheckStatus>): seq<Reading> {
      if checks == [] then []
      else
        var c := checks[|checks| - 1];
        OfChecks(rule, checks[..|checks| - 1]) +
        if rule.entity != "*" && rule.entity != c.name then []
        else [CheckReading(rule, c)]
    }

    function OfPeers(rule: Rule, db: Tables, peers: seq<Peer>): seq<Reading> {
      if peers == [] then []
      else
        var p := peers[|peers| - 1];
        OfPeers(rule, db, peers[..|peers| - 1]) +
        if !p.enabled || (rule.entity != "*" && rule.entity != p.name) then []
        else [PeerReading(rule, db, p)]
    }

    /** The readings of one rule, by its source. */
    function Readings(rule: Rule, db: Tables): seq<Reading> {
      match rule.source
      case "cpu" => if db.metric.Some? then [Numeric(rule, selfName, "", db.metric.value.cpu)] else []
      case "mem" => if db.metric.Some? then [Numeric(rule, selfName, "", db.metric.value.mem)] else []
      case "net_recv" => if db.net.Some? then [Numeric(rule, selfName, "", db.net.value.recvRate)] else []
      case "net_sent" => if db.net.Some? then [Numeric(rule, selfName, "", db.net.value.sentRate)] else []
      case "disk" => OfDisks(rule, db.disks)
      case "check_status" => OfChecks(rule, db.checks)
      case "check_latency" => OfChecks(rule, db.checks)
      case "peer" => OfPeers(rule, db, db.peers)
      case "nodata" => OfPeers(rule, db, db.peers)
      case _ => []
    }

    function CallOf(rule: Rule, x: Reading, seed: bool, now: int): Op {
      Op.Observe(x.node, x.entity, Observation(View(rule), x.detail, x.met, seed, now))
    }

    function AsCalls(rule: Rule, readings: seq<Reading>, seed: bool, now: int): (calls: seq<Op>)
      ensures |calls| == |readings|
    {
      seq(|readings|, i requires 0 <= i < |readings| => CallOf(rule, readings[i], seed, now))
    }

    /** The engine calls of one pass; dbs(i) are the tables as the i-th rule finds them. */
    function Pass(rules: seq<Rule>, dbs: nat -> Tables, seed: bool, now: int): seq<Op> {
      if rules == [] then []
      else
        var rule := rules[|rules| - 1];
        Pass(rules[..|rules| - 1], dbs, seed, now) +
        if rule.enabled then AsCalls(rule, Readings(rule, dbs(|rules| - 1)), seed, now) else []
    }

    /** One pass; a seed pass records nothing. */
    method Evaluate(rules: seq<Rule>, dbs: nat -> Tables, seed: bool, now: int)
      requires engine.Valid()
      modifies engine
      ensures engine.Valid()
      ensures engine.calls == old(engine.calls) + Pass(rules, dbs, seed, now)
      ensures seed ==> engine.recorded == old(engine.recorded)
    {
      hide Readings;
      hide AsCalls;
      hide StatesAfter;
      hide Recorded;
      for i := 0 to |rules|
        invariant engine.Valid()
        invariant engine.calls == old(engine.calls) + Pass(rules[..i], dbs, seed, now)
        invariant seed ==> engine.recorded == old(engine.recorded)
      {
        ghost var before := Pass(rules[..i], dbs, seed, now);
        assert rules[..i + 1][..i] == rules[..i];
        if rules[i].enabled {
          EvalRule(rules[i], dbs(i), seed, now);
          Append(old(engine.calls), before, AsCalls(rules[i], Readings(rules[i], dbs(i)), seed, now));
        } else {
          assert before + [] == before;
        }
      }
      assert rules[..|rules|] == rules;
    }

    method EvalRule(rule: Rule, db: Tables, seed: bool, now: int)
      requires engine.Valid()
      modifies engine
      ensures engine.Valid()
      ensures engine.calls == old(engine.calls) + AsCalls(rule, Readings(rule, db), seed, now)
      ensures forall op :: op in engine.calls[|old(engine.calls)|..] <==>
                           exists x :: Selects(rule, db, x) && Reports(op, rule, x, seed, now)
      ensures seed ==> engine.recorded == old(engine.recorded)
    {
      hide StatesAfter;
      hide Recorded;
      match rule.source {
        case "cpu" =>
          if db.metric.Some? { Drive(rule, Numeric(rule, selfName, "", db.metric.value.cpu), seed, now); }
        case "mem" =>
          if db.metric.Some? { Drive(rule, Numeric(rule, selfName, "", db.metric.value.mem), seed, now); }
        case "net_recv" =>
          if db.net.Some? { Drive(rule, Numeric(rule, selfName, "", db.net.value.recvRate), seed, now); }
        case "net_sent" =>
          if db.net.Some? { Drive(rule, Numeric(rule, selfName, "", db.net.value.sentRate), seed, now); }
        case "disk" => EvalDisks(rule, db.disks, seed, now);
        case "check_status" => EvalChecks(rule, db.checks, seed, now);
        case "check_latency" => EvalChecks(rule, db.checks, seed, now);
        case "peer" => EvalPeers(rule, db, seed, now);
        case "nodata" => EvalPeers(rule, db, seed, now);
        case _ =>
      }
      assert engine.calls == old(engine.calls) + AsCalls(rule, Readings(rule, db), seed, now);
      hide *;
      AllReports(rule, db, seed, now);
      assert engine.calls[|old(engine.calls)|..] == AsCalls(rule, Readings(rule, db), seed, now);
    }

    lemma AllReports(rule: Rule, db: Tables, seed: bool, now: int)
      ensures forall op :: op in AsCalls(rule, Readings(rule, db), seed, now) <==>
                           exists x :: Selects(rule, db, x) && Reports(op, rule, x, seed, now)
    {
      hide *;
      forall op ensures op in AsCalls(rule, Readings(rule, db), seed, now) <==>
                        exists x :: Selects(rule, db, x) && Reports(op, rule, x, seed, now)
      {
        RuleReports(rule, db, seed, now, op);
      }
    }

    method Drive(rule: Rule, x: Reading, seed: bool, now: int)
      requires engine.Valid()
      modifies engine
      ensures engine.Valid()
      ensures engine.calls == old(engine.calls) + [CallOf(rule, x, seed, now)]
      ensures seed ==> engine.recorded == old(engine.recorded)
    {
      engine.Observe(View(rule), x.node, x.entity, x.detail, x.met, seed, now);
    }

    lemma Append(a: seq<Op>, b: seq<Op>, c: seq<Op>)
      ensures a + b + c == a + (b + c)
    {}

    lemma AsCallsAppend(rule: Rule, readings: seq<Reading>, x: Reading, seed: bool, now: int)
      ensures AsCalls(rule, readings + [x], seed, now) == AsCalls(rule, readings, seed, now) + [CallOf(rule, x, seed, now)]
    {}

    method EvalDisks(rule: Rule, disks: seq<Disk>, seed: bool, now: int)
      requires engine.Valid()
      modifies engine
      ensures engine.Valid()
      ensures engine.calls == old(engine.calls) + AsCalls(rule, OfDisks(rule, disks), seed, now)
      ensures seed ==> engine.recorded == old(engine.recorded)
    {
      hide AsCalls;
      hide CallOf;
      hide StatesAfter;
      hide Recorded;
      assert engine.calls + AsCalls(rule, [], seed, now) == engine.calls;
      for i := 0 to |disks|
        invariant engine.Valid()
        invariant engine.calls == old(engine.calls) + AsCalls(rule, OfDisks(rule, disks[..i]), seed, now)
        invariant seed ==> engine.recorded == old(engine.recorded)
      {
        var d := disks[i];
        ghost var before := OfDisks(rule, disks[..i]);
        assert disks[..i + 1][..i] == disks[..i];
        if rule.entity == "*" || rule.entity == d.mount {
          AsCallsAppend(rule, before, Numeric(rule, selfName, d.mount, d.percent), seed, now);
          Drive(rule, Numeric(rule, selfName, d.mount, d.percent), seed, now);
          Append(old(engine.calls), AsCalls(rule, before, seed, now), [CallOf(rule, Numeric(rule, selfName, d.mount, d.percent), seed, now)]);
        } else {
          assert before + [] == before;
        }
      }
      assert disks[..|disks|] == disks;
    }

    function CheckReading(rule: Rule, c: CheckStatus): Reading {
      if rule.source == "check_status" then
        Reading(selfName, c.name, OrElse(c.detail, "check is failing"), c.status == "failing")
      else Numeric(rule, selfName, c.name, c.latencyMs as real)
    }

    method EvalChecks(rule: Rule, checks: seq<CheckStatus>, seed: bool, now: int)
      requires engine.Valid()
      modifies engine
      ensures engine.Valid()
      ensures engine.calls == old(engine.calls) + AsCalls(rule, OfChecks(rule, checks), seed, now)
      ensures seed ==> engine.recorded == old(engine.recorded)
    {
      hide AsCalls;
      hide CallOf;
      hide StatesAfter;
      hide Recorded;
      assert engine.calls + AsCalls(rule, [], seed, now) == engine.calls;
      for i := 0 to |checks|
        invariant engine.Valid()
        invariant engine.calls == old(engine.calls) + AsCalls(rule, OfChecks(rule, checks[..i]), seed, now)
        invariant seed ==> engine.recorded == old(engine.recorded)
      {
        ghost var before := OfChecks(rule, checks[..i]);
        assert checks[..i + 1][..i] == checks[..i];
        if rule.entity == "*" || rule.entity == checks[i].name {
          AsCallsAppend(rule, before, CheckReading(rule, checks[i]), seed, now);
          Drive(rule, CheckReading(rule, checks[i]), seed, now);
          Append(old(engine.calls), AsCalls(rule, before, seed, now), [CallOf(rule, CheckReading(rule, checks[i]), seed, now)]);
        } else {
          assert before + [] == before;
        }
      }
      assert checks[..|checks|] == checks;
    }

    function PeerReading(rule: Rule, db: Tables, p: Peer): Reading {
      if rule.source == "peer" then
        Reading(p.name, "", OrElse(p.lastError, "node is unreachable"), p.status == "down")
      else Numeric(rule, p.name, "", StaleSeconds(db, p.name))
    }

    method EvalPeers(rule: Rule, db: Tables, seed: bool, now: int)
      requires engine.Valid()
      modifies engine
      ensures engine.Valid()
      ensures engine.calls == old(engine.calls) + AsCalls(rule, OfPeers(rule, db, db.peers), seed, now)
      ensures forall op :: op in engine.calls[|old(engine.calls)|..] <==>
                           exists p, x :: p in db.peers && p.enabled && Wanted(rule, p.name) &&
                                          ReadsPeer(rule, db, p, x) && Reports(op, rule, x, seed, now)
      ensures seed ==> engine.recorded == old(engine.recorded)
    {
      var peers := db.peers;
      hide AsCalls;
      hide CallOf;
      hide StatesAfter;
      hide Recorded;
      assert engine.calls + AsCalls(rule, [], seed, now) == engine.calls;
      for i := 0 to |peers|
        invariant engine.Valid()
        invariant engine.calls == old(engine.calls) + AsCalls(rule, OfPeers(rule, db, peers[..i]), seed, now)
        invariant seed ==> engine.recorded == old(engine.recorded)
      {
        ghost var before := OfPeers(rule, db, peers[..i]);
        assert peers[..i + 1][..i] == peers[..i];
        if peers[i].enabled && (rule.entity == "*" || rule.entity == peers[i].name) {
          AsCallsAppend(rule, before, PeerReading(rule, db, peers[i]), seed, now);
          Drive(rule, PeerReading(rule, db, peers[i]), seed, now);
          Append(old(engine.calls), AsCalls(rule, before, seed, now), [CallOf(rule, PeerReading(rule, db, peers[i]), seed, now)]);
        } else {
          assert before + [] == before;
        }
      }
      assert peers[..|peers|] == peers;
      assert engine.calls[|old(engine.calls)|..] == AsCalls(rule, OfPeers(rule, db, peers), seed, now);
      forall op ensures op in AsCalls(rule, OfPeers(rule, db, peers), seed, now) <==>
                        exists p, x :: p in peers && p.enabled && Wanted(rule, p.name) &&
                                       ReadsPeer(rule, db, p, x) && Reports(op, rule, x, seed, now)
      {
        PeerCalls(rule, db, peers, seed, now, op);
      }
    }

    lemma PeerCalls(rule: Rule, db: Tables, peers: seq<Peer>, seed: bool, now: int, op: Op)
      ensures op in AsCalls(rule, OfPeers(rule, db, peers), seed, now) <==>
              exists p, x :: p in peers && p.enabled && Wanted(rule, p.name) &&
                             ReadsPeer(rule, db, p, x) && Reports(op, rule, x, seed, now)
    {
      hide ReadsPeer;
      hide Reports;
      hide CallOf;
      CallsOfReadings(rule, OfPeers(rule, db, peers), seed, now, op);
      forall x
        ensures x in OfPeers(rule, db, peers) <==>
                exists p :: p in peers && p.enabled && Wanted(rule, p.name) && ReadsPeer(rule, db, p, x)
        ensures op == CallOf(rule, x, seed, now) <==> Reports(op, rule, x, seed, now)
      {
        PeersSelected(rule, db, peers, x);
        CallReports(op, rule, x, seed, now);
      }
    }

    // ----- what a rule looks at -----

    predicate Wanted(rule: Rule, entity: string) {
      rule.entity == "*" || rule.entity == entity
    }

    /** x reports this value at this place, met exactly when the value crosses the rule's threshold. */
    ghost predicate Measures(x: Reading, node: string, entity: string, rule: Rule, value: real) {
      x.node == node && x.entity == entity && x.detail == describe(rule, value) &&
      Crosses(rule.comparator, rule.threshold, value, x.met)
    }

    /** x reports a status at this place, with a stock phrase if there is no detail. */
    ghost predicate Judges(x: Reading, node: string, entity: string, bad: bool, detail: string, phrase: string) {
      x.node == node && x.entity == entity && x.met == bad && x.detail == if detail != "" then detail else phrase
    }

    ghost predicate ReadsCheck(rule: Rule, c: CheckStatus, x: Reading) {
      if rule.source == "check_status"
      then Judges(x, selfName, c.name, c.status == "failing", c.detail, "check is failing")
      else Measures(x, selfName, c.name, rule, c.latencyMs as real)
    }

    ghost predicate ReadsPeer(rule: Rule, db: Tables, p: Peer, x: Reading) {
      if rule.source == "peer"
      then Judges(x, p.name, "", p.status == "down", p.lastError, "node is unreachable")
      else Measures(x, p.name, "", rule, if p.name !in db.ages then 1000000000.0 else db.ages[p.name])
    }

    /** What a rule of this source is meant to look at: this node's newest sample, each of its disks or
        checks that match, or each enabled peer that matches. */
    ghost predicate Selects(rule: Rule, db: Tables, x: Reading) {
      match rule.source
      case "cpu" => db.metric.Some? && Measures(x, selfName, "", rule, db.metric.value.cpu)
      case "mem" => db.metric.Some? && Measures(x, selfName, "", rule, db.metric.value.mem)
      case "net_recv" => db.net.Some? && Measures(x, selfName, "", rule, db.net.value.recvRate)
      case "net_sent" => db.net.Some? && Measures(x, selfName, "", rule, db.net.value.sentRate)
      case "disk" => exists d :: d in db.disks && Wanted(rule, d.mount) && Measures(x, selfName, d.mount, rule, d.percent)
      case "check_status" => exists c :: c in db.checks && Wanted(rule, c.name) && ReadsCheck(rule, c, x)
      case "check_latency" => exists c :: c in db.checks && Wanted(rule, c.name) && ReadsCheck(rule, c, x)
      case "peer" => exists p :: p in db.peers && p.enabled && Wanted(rule, p.name) && ReadsPeer(rule, db, p, x)
      case "nodata" => exists p :: p in db.peers && p.enabled && Wanted(rule, p.name) && ReadsPeer(rule, db, p, x)
      case _ => false
    }

    /** The engine is told of a reading as it is, under the rule's own parameters. */
    ghost predicate Reports(op: Op, rule: Rule, x: Reading, seed: bool, now: int) {
      && op.Observe? && op.node == x.node && op.entity == x.entity
      && op.obs.detail == x.detail && op.obs.met == x.met && op.obs.seed == seed && op.obs.now == now
      && op.obs.rule.id == rule.id && op.obs.rule.name == rule.name && op.obs.rule.source == rule.source
      && op.obs.rule.severity == rule.severity && op.obs.rule.forSec == rule.forSec
      && op.obs.rule.recoverGrace == rule.recoverGrace
    }

    lemma CallReports(op: Op, rule: Rule, x: Reading, seed: bool, now: int)
      ensures op == CallOf(rule, x, seed, now) <==> Reports(op, rule, x, seed, now)
    {}

    lemma NumericMeasures(x: Reading, rule: Rule, node: string, entity: string, value: real)
      ensures x == Numeric(rule, node, entity, value) <==> Measures(x, node, entity, rule, value)
    {
      ComparesExactly(value, rule.comparator, rule.threshold, x.met);
    }

    lemma CheckReads(rule: Rule, c: CheckStatus, x: Reading)
      ensures x == CheckReading(rule, c) <==> ReadsCheck(rule, c, x)
    {
      NumericMeasures(x, rule, selfName, c.name, c.latencyMs as real);
    }

    lemma PeerReads(rule: Rule, db: Tables, p: Peer, x: Reading)
      ensures x == PeerReading(rule, db, p) <==> ReadsPeer(rule, db, p, x)
    {
      NumericMeasures(x, rule, p.name, "", StaleSeconds(db, p.name));
    }

    lemma {:induction false} DisksSelected(rule: Rule, disks: seq<Disk>, x: Reading)
      ensures x in OfDisks(rule, disks) <==>
              exists d :: d in disks && Wanted(rule, d.mount) && Measures(x, selfName, d.mount, rule, d.percent)
    {
      hide Measures;
      hide Numeric;
      if disks != [] {
        var front, last := disks[..|disks| - 1], disks[|disks| - 1];
        assert disks == front + [last];
        DisksSelected(rule, front, x);
        NumericMeasures(x, rule, selfName, last.mount, last.percent);
      }
    }

    lemma {:induction false} ChecksSelected(rule: Rule, checks: seq<CheckStatus>, x: Reading)
      ensures x in OfChecks(rule, checks) <==>
              exists c :: c in checks && Wanted(rule, c.name) && ReadsCheck(rule, c, x)
    {
      hide ReadsCheck;
      hide CheckReading;
      if checks != [] {
        var front, last := checks[..|checks| - 1], checks[|checks| - 1];
        assert checks == front + [last];
        ChecksSelected(rule, front, x);
        CheckReads(rule, last, x);
      }
    }

    lemma {:induction false} PeersSelected(rule: Rule, db: Tables, peers: seq<Peer>, x: Reading)
      ensures x in OfPeers(rule, db, peers) <==>
              exists p :: p in peers && p.enabled && Wanted(rule, p.name) && ReadsPeer(rule, db, p, x)
    {
      hide ReadsPeer;
      hide PeerReading;
      if peers != [] {
        var front, last := peers[..|peers| - 1], peers[|peers| - 1];
        assert peers == front + [last];
        PeersSelected(rule, db, front, x);
        PeerReads(rule, db, last, x);
      }
    }

    /** A rule reads exactly what it is meant to. */
    lemma ReadingsSelected(rule: Rule, db: Tables, x: Reading)
      ensures x in Readings(rule, db) <==> Selects(rule, db, x)
    {
      hide OfDisks;
      hide OfChecks;
      hide OfPeers;
      hide Measures;
      hide Numeric;
      DisksSelected(rule, db.disks, x);
      ChecksSelected(rule, db.checks, x);
      PeersSelected(rule, db, db.peers, x);
      if db.metric.Some? {
        NumericMeasures(x, rule, selfName, "", db.metric.value.cpu);
        NumericMeasures(x, rule, selfName, "", db.metric.value.mem);
      }
      if db.net.Some? {
        NumericMeasures(x, rule, selfName, "", db.net.value.recvRate);
        NumericMeasures(x, rule, selfName, "", db.net.value.sentRate);
      }
    }

    /** The calls of one rule: one report for each thing it is meant to look at, and none else. */
    lemma RuleReports(rule: Rule, db: Tables, seed: bool, now: int, op: Op)
      ensures op in AsCalls(rule, Readings(rule, db), seed, now) <==>
              exists x :: Selects(rule, db, x) && Reports(op, rule, x, seed, now)
    {
      hide Readings;
      hide Selects;
      hide Reports;
      hide CallOf;
      CallsOfReadings(rule, Readings(rule, db), seed, now, op);
      forall x
        ensures x in Readings(rule, db) <==> Selects(rule, db, x)
        ensures op == CallOf(rule, x, seed, now) <==> Reports(op, rule, x, seed, now)
      {
        ReadingsSelected(rule, db, x);
        CallReports(op, rule, x, seed, now);
      }
    }

    /** The i-th rule is enabled and is meant to look at what this call reports. */
    ghost predicate Calls(rules: seq<Rule>, dbs: nat -> Tables, seed: bool, now: int, op: Op, i: nat) {
      i < |rules| && rules[i].enabled && exists x :: Selects(rules[i], dbs(i), x) && Reports(op, rules[i], x, seed, now)
    }

    /** So a pass makes a call exactly for each enabled rule and each thing it is meant to look at. */
    lemma {:induction false} PassSelected(rules: seq<Rule>, dbs: nat -> Tables, seed: bool, now: int, op: Op)
      ensures op in Pass(rules, dbs, seed, now) <==> exists i :: Calls(rules, dbs, seed, now, op, i)
    {
      hide Readings;
      hide Selects;
      hide Reports;
      if rules != [] {
        var n := |rules| - 1;
        var front, last := rules[..n], rules[n];
        PassSelected(front, dbs, seed, now, op);
        forall i: nat | i < n ensures Calls(front, dbs, seed, now, op, i) <==> Calls(rules, dbs, seed, now, op, i) {}
        RuleReports(last, dbs(n), seed, now, op);
        assert Calls(rules, dbs, seed, now, op, n) <==> last.enabled && op in AsCalls(last, Readings(last, dbs(n)), seed, now);
      }
    }

    lemma CallsOfReadings(rule: Rule, readings: seq<Reading>, seed: bool, now: int, op: Op)
      ensures op in AsCalls(rule, readings, seed, now) <==> exists x :: x in readings && op == CallOf(rule, x, seed, now)
    {
      var calls := AsCalls(rule, readings, seed, now);
      if x :| x in readings && op == CallOf(rule, x, seed, now) {
        var i :| 0 <= i < |readings| && readings[i] == x;
        assert calls[i] == op;
      }
    }

    // ----- each entity is observed at most once per pass -----

    ghost predicate DistinctReadings(readings: seq<Reading>) {
      forall i, j :: 0 <= i < j < |readings| ==>
                       readings[i].node != readings[j].node || readings[i].entity != readings[j].entity
    }

    lemma {:induction false} DisksDistinct(rule: Rule, disks: seq<Disk>)
      requires forall i, j :: 0 <= i < j < |disks| ==> disks[i].mount != disks[j].mount
      ensures DistinctReadings(OfDisks(rule, disks))
      ensures forall x :: x in OfDisks(rule, disks) ==> exists d :: d in disks && x.entity == d.mount
    {
      if disks != [] {
        DisksDistinct(rule, disks[..|disks| - 1]);
        assert forall d :: d in disks[..|disks| - 1] ==> d.mount != disks[|disks| - 1].mount;
      }
    }

    lemma {:induction false} ChecksDistinct(rule: Rule, checks: seq<CheckStatus>)
      requires forall i, j :: 0 <= i < j < |checks| ==> checks[i].name != checks[j].name
      ensures DistinctReadings(OfChecks(rule, checks))
      ensures forall x :: x in OfChecks(rule, checks) ==> exists c :: c in checks && x.entity == c.name
    {
      if checks != [] {
        ChecksDistinct(rule, checks[..|checks| - 1]);
        assert forall c :: c in checks[..|checks| - 1] ==> c.name != checks[|checks| - 1].name;
      }
    }

    lemma {:induction false} PeersDistinct(rule: Rule, db: Tables, peers: seq<Peer>)
      requires forall i, j :: 0 <= i < j < |peers| ==> peers[i].name != peers[j].name
      ensures DistinctReadings(OfPeers(rule, db, peers))
      ensures forall x :: x in OfPeers(rule, db, peers) ==> exists p :: p in peers && x.node == p.name && p.enabled
    {
      if peers != [] {
        PeersDistinct(rule, db, peers[..|peers| - 1]);
        assert forall p :: p in peers[..|peers| - 1] ==> p.name != peers[|peers| - 1].name;
      }
    }

    lemma ReadingsDistinct(rule: Rule, db: Tables)
      requires UniqueRows(db)
      ensures DistinctReadings(Readings(rule, db))
    {
      DisksDistinct(rule, db.disks);
      ChecksDistinct(rule, db.checks);
      PeersDistinct(rule, db, db.peers);
    }

    ghost predicate AreCallsOf(ops: seq<Op>, rules: seq<Rule>, seed: bool, now: int) {
      forall op | op in ops ::
        && op.Observe? && op.obs.seed == seed && op.obs.now == now
        && exists rule :: rule in rules && rule.enabled && op.obs.rule == View(rule)
    }

    ghost predicate DistinctEntities(ops: seq<Op>) {
      && (forall op :: op in ops ==> op.Observe?)
      && (forall i, j :: 0 <= i < j < |ops| ==> EntityOf(ops[i]) != EntityOf(ops[j]))
    }

    lemma RuleCalls(rule: Rule, readings: seq<Reading>, seed: bool, now: int)
      requires DistinctReadings(readings) && rule.enabled
      ensures DistinctEntities(AsCalls(rule, readings, seed, now))
      ensures AreCallsOf(AsCalls(rule, readings, seed, now), [rule], seed, now)
    {
      forall op | op in AsCalls(rule, readings, seed, now)
        ensures op.Observe? && op.obs.seed == seed && op.obs.now == now && op.obs.rule == View(rule)
      {}
      assert rule in [rule];
    }

    /** With unique rule ids and table keys, a pass observes each entity at most once, so it can
        announce at most one transition for it; every call of a seed pass is a seed. */
    lemma {:induction false} PassObservesOnce(rules: seq<Rule>, dbs: nat -> Tables, seed: bool, now: int)
      requires UniqueIds(rules) && (forall i: nat :: i < |rules| ==> UniqueRows(dbs(i)))
      ensures AreCallsOf(Pass(rules, dbs, seed, now), rules, seed, now)
      ensures DistinctEntities(Pass(rules, dbs, seed, now))
    {
      if rules != [] {
        var front, rule := rules[..|rules| - 1], rules[|rules| - 1];
        PassObservesOnce(front, dbs, seed, now);
        if rule.enabled {
          ReadingsDistinct(rule, dbs(|rules| - 1));
          RuleCalls(rule, Readings(rule, dbs(|rules| - 1)), seed, now);
          var before, own := Pass(front, dbs, seed, now), AsCalls(rule, Readings(rule, dbs(|rules| - 1)), seed, now);
          assert rule in rules;
          forall i, j | 0 <= i < |before| && 0 <= j < |own| ensures EntityOf(before[i]) != EntityOf(own[j]) {
            assert before[i] in before && own[j] in own;
            var r :| r in front && r.enabled && before[i].obs.rule == View(r);
            assert r.id != rule.id;
          }
        }
      }
    }

    // ----- a restart does not repeat alerts -----

    /** The passes after the seed pass, each with the rules and tables of its moment. */
    function LaterPasses(passes: seq<(seq<Rule>, nat -> Tables, int)>): seq<Op> {
      if passes == [] then []
      else
        var (rules, dbs, now) := passes[|passes| - 1];
        LaterPasses(passes[..|passes| - 1]) + Pass(rules, dbs, false, now)
    }

    lemma {:induction false} OneObservationPerPass(ops: seq<Op>, t: Triple)
      requires DistinctEntities(ops)
      ensures |HistoryOf(ops, t)| <= 1
    {
      if ops != [] {
        var front, last := ops[..|ops| - 1], ops[|ops| - 1];
        assert forall op :: op in front ==> op in ops;
        OneObservationPerPass(front, t);
        assert last in ops;
        if HistoryOf(front, t) != [] {
          HistoryIsObserved(front, t);
          var o := HistoryOf(front, t)[0];
          assert o in HistoryOf(front, t);
          var i :| 0 <= i < |front| && front[i].Observe? && front[i].obs == o && EntityOf(front[i]) == t;
          assert EntityOf(ops[i]) != EntityOf(last);
        }
      }
    }

    lemma {:induction false} PassShape(rules: seq<Rule>, dbs: nat -> Tables, seed: bool, now: int)
      ensures forall op :: op in Pass(rules, dbs, seed, now) ==> op.Observe? && op.obs.seed == seed
    {
      if rules != [] {
        var rule := rules[|rules| - 1];
        PassShape(rules[..|rules| - 1], dbs, seed, now);
        forall op | op in AsCalls(rule, Readings(rule, dbs(|rules| - 1)), seed, now) ensures op.Observe? && op.obs.seed == seed {}
      }
    }

    /** Passes after the first one leave every entity in place. */
    lemma {:induction false} PassesLeave(passes: seq<(seq<Rule>, nat -> Tables, int)>, t: Triple)
      ensures Leaves(LaterPasses(passes), t)
    {
      if passes != [] {
        var (rules, dbs, now) := passes[|passes| - 1];
        PassesLeave(passes[..|passes| - 1], t);
        PassShape(rules, dbs, false, now);
      }
    }

    /** After a restart, an entity the seed pass found breaching is observed once by that pass and primed
        silently; as long as it is neither seeded again nor forgotten it is next announced, if ever, as
        recovered. */
    lemma RestartSafety(rules: seq<Rule>, dbs: nat -> Tables, now: int, later: seq<Op>, t: Triple)
      requires UniqueIds(rules) && (forall i: nat :: i < |rules| ==> UniqueRows(dbs(i))) && Leaves(later, t)
      requires HistoryOf(Pass(rules, dbs, true, now), t) != []
      requires AlertHistory.Last(HistoryOf(Pass(rules, dbs, true, now), t)).met
      ensures var primed, after := HistoryOf(Pass(rules, dbs, true, now), t), HistoryOf(later, t);
              && HistoryOf(Pass(rules, dbs, true, now) + later, t) == primed + after
              && |primed| == 1 && Edges([], primed) == []
              && FiringAfter(primed) && Alternate(Edges(primed, after), Recovered)
    {
      var seeded := Pass(rules, dbs, true, now);
      PassObservesOnce(rules, dbs, true, now);
      OneObservationPerPass(seeded, t);
      PassShape(rules, dbs, true, now);
      HistoryConcat(seeded, later, t);
      HistoryIsObserved(seeded, t);
      LeavesUnseeded(later, t);
      var primed, after := HistoryOf(seeded, t), HistoryOf(later, t);
      assert primed[0] in primed && primed[0].seed;
      assert [] + primed == primed && Front(primed) == [];
      EdgesAlternate(primed, after);
    }

    /** In the engine's log: the seed pass records nothing, and what is recorded of that entity afterwards
        begins with a recovery and alternates. */
    lemma RestartLog(observer: string, rules: seq<Rule>, dbs: nat -> Tables, now: int, later: seq<Op>, t: Triple)
      requires UniqueIds(rules) && (forall i: nat :: i < |rules| ==> UniqueRows(dbs(i))) && Leaves(later, t)
      requires HistoryOf(Pass(rules, dbs, true, now), t) != []
      requires AlertHistory.Last(HistoryOf(Pass(rules, dbs, true, now), t)).met
      requires WellNamed(Pass(rules, dbs, true, now) + later)
      ensures Recorded(observer, Pass(rules, dbs, true, now)) == []
      ensures Alternate(TransitionsOf(Recorded(observer, Pass(rules, dbs, true, now) + later), t), Recovered)
    {
      var seeded := Pass(rules, dbs, true, now);
      RestartSafety(rules, dbs, now, later, t);
      PassShape(rules, dbs, true, now);
      SeedsRecordNothing(observer, seeded);
      LogAlternates(observer, seeded, later, t);
    }
  }
}
