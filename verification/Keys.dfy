/** The concatenated keys: one per (rule, node, entity) in the alert engine, one per incident in
    the election. */
module Keys {
  import opened Text

  /** What a key of the engine's state map stands for. */
  datatype Triple = Triple(rule: int, node: string, entity: string)

  function RuleKey(t: Triple): string {
    Itoa(t.rule) + "|" + t.node + "|" + t.entity
  }

  /** The condition under which the keys are faithful: node names without the separator. */
  predicate Plain(t: Triple) {
    '|' !in t.node
  }

  // What the three Forget operations look for in a key.

  predicate HasRulePrefix(k: string, rule: int) {
    var prefix := Itoa(rule) + "|";
    |k| >= |prefix| && k[..|prefix|] == prefix
  }

  predicate HasNodeEntity(k: string, node: string, entity: string) {
    var parts := SplitN(k, '|', 3);
    |parts| == 3 && parts[1] == node && parts[2] == entity
  }

  predicate HasNode(k: string, node: string) {
    var parts := SplitN(k, '|', 3);
    |parts| == 3 && parts[1] == node
  }

  lemma Regroup(a: string, b: string, c: string)
    ensures a + "|" + b + "|" + c == a + ['|'] + (b + ['|'] + c)
  {}

  /** The three-way split inverts the key, whatever the entity contains. */
  lemma SplitInvertsRuleKey(t: Triple)
    requires Plain(t)
    ensures SplitN(RuleKey(t), '|', 3) == [Itoa(t.rule), t.node, t.entity]
  {
    Regroup(Itoa(t.rule), t.node, t.entity);
    SplitHead(Itoa(t.rule), '|', t.node + ['|'] + t.entity, 3);
    SplitHead(t.node, '|', t.entity, 2);
  }

  lemma RuleKeyInjective(t: Triple, u: Triple)
    requires Plain(t) && Plain(u) && RuleKey(t) == RuleKey(u)
    ensures t == u
  {
    SplitInvertsRuleKey(t);
    SplitInvertsRuleKey(u);
    var parts := SplitN(RuleKey(t), '|', 3);
    assert parts[0] == Itoa(u.rule) && parts[1] == u.node && parts[2] == u.entity;
    ItoaInjective(t.rule, u.rule);
  }

  /** Each Forget operation picks exactly the keys of the triples it is about: rule 1 is not rule 12. */
  lemma MatchesExactly(t: Triple, rule: int, node: string, entity: string)
    requires Plain(t)
    ensures HasRulePrefix(RuleKey(t), rule) <==> t.rule == rule
    ensures HasNodeEntity(RuleKey(t), node, entity) <==> t.node == node && t.entity == entity
    ensures HasNode(RuleKey(t), node) <==> t.node == node
  {
    SplitInvertsRuleKey(t);
    PrefixExact(t, rule);
  }

  lemma PrefixExact(t: Triple, rule: int)
    ensures HasRulePrefix(RuleKey(t), rule) <==> t.rule == rule
  {
    hide Itoa;
    var k, prefix, rest := RuleKey(t), Itoa(rule) + "|", t.node + ['|'] + t.entity;
    Regroup(Itoa(t.rule), t.node, t.entity);
    if HasRulePrefix(k, rule) {
      assert k == Itoa(rule) + ['|'] + k[|prefix|..];
      FirstSeparator(Itoa(t.rule), '|', rest, Itoa(rule), k[|prefix|..]);
      ItoaInjective(t.rule, rule);
    }
  }

  // ----- exactly when the keys are faithful -----

  /** What the code takes for the node and the entity when it parses a key again. */
  function ParsedNode(t: Triple): string {
    t.node[..Index(t.node, '|')]
  }

  function ParsedEntity(t: Triple): string {
    var i := Index(t.node, '|');
    if i == |t.node| then t.entity else t.node[i + 1..] + "|" + t.entity
  }

  lemma ParsedJoins(t: Triple)
    ensures t.node + ['|'] + t.entity == ParsedNode(t) + ['|'] + ParsedEntity(t)
  {
    var i := Index(t.node, '|');
    if i < |t.node| {
      assert t.node == t.node[..i] + ['|'] + t.node[i + 1..];
    } else {
      assert t.node[..i] == t.node;
    }
  }

  lemma SplitOfAny(t: Triple)
    ensures SplitN(RuleKey(t), '|', 3) == [Itoa(t.rule), ParsedNode(t), ParsedEntity(t)]
  {
    hide Itoa;
    hide ParsedEntity;
    assert '|' !in ParsedNode(t);
    hide ParsedNode;
    hide SplitN;
    Regroup(Itoa(t.rule), t.node, t.entity);
    ParsedJoins(t);
    SplitHead(Itoa(t.rule), '|', t.node + ['|'] + t.entity, 3);
    SplitHead(ParsedNode(t), '|', ParsedEntity(t), 2);
    SplitOne(ParsedEntity(t));
  }

  lemma SplitOne(s: string)
    ensures SplitN(s, '|', 1) == [s]
  {}

  /** The split inverts the key exactly if the node has no separator. */
  lemma SplitInvertsExactly(t: Triple)
    ensures SplitN(RuleKey(t), '|', 3) == [Itoa(t.rule), t.node, t.entity] <==> Plain(t)
  {
    SplitOfAny(t);
    assert SplitN(RuleKey(t), '|', 3)[1] == ParsedNode(t);
    if Plain(t) { SplitInvertsRuleKey(t); }
  }

  /** Whatever the node is called, forgetting a node or an entity hits a key exactly by the node as
      parsed; so it finds its own key exactly if the node has no separator. Forgetting a rule always
      finds its own. */
  lemma ForgetFindsExactly(t: Triple, node: string, entity: string)
    ensures HasNode(RuleKey(t), node) <==> node == ParsedNode(t)
    ensures HasNodeEntity(RuleKey(t), node, entity) <==> node == ParsedNode(t) && entity == ParsedEntity(t)
    ensures HasNode(RuleKey(t), t.node) <==> Plain(t)
    ensures HasNodeEntity(RuleKey(t), t.node, t.entity) <==> Plain(t)
    ensures HasRulePrefix(RuleKey(t), t.rule)
  {
    SplitOfAny(t);
    PrefixExact(t, t.rule);
    if Plain(t) { SplitInvertsRuleKey(t); }
  }

  /** b is a, a separator, and possibly more. */
  predicate Continues(a: string, b: string) {
    |a| < |b| && b[..|a|] == a && b[|a|] == '|'
  }

  lemma SameOrContinues(a: string, x: string, b: string, y: string)
    requires a + "|" + x == b + "|" + y
    ensures (a == b && x == y) || Continues(a, b) || Continues(b, a)
  {
    var s := a + "|" + x;
    assert s[..|a|] == a && s[|a|] == '|' && s[|a| + 1..] == x;
    assert s == b + "|" + y;
    assert s[..|b|] == b && s[|b|] == '|' && s[|b| + 1..] == y;
    if |a| < |b| { assert b[..|a|] == a && b[|a|] == '|'; }
    if |b| < |a| { assert a[..|b|] == b && a[|b|] == '|'; }
  }

  ghost predicate Faithful(nodes: set<string>) {
    forall t: Triple, u: Triple | t.node in nodes && u.node in nodes && RuleKey(t) == RuleKey(u) :: t == u
  }

  /** Over a set of nodes the keys of all rules and entities are distinct exactly if no node's name
      continues another one's behind a separator. */
  lemma FaithfulExactly(nodes: set<string>)
    ensures Faithful(nodes) <==> forall a, b :: a in nodes && b in nodes ==> !Continues(a, b)
  {
    hide Itoa;
    if a, b :| a in nodes && b in nodes && Continues(a, b) {
      var rest := b[|a| + 1..];
      var t, u := Triple(1, b, "c"), Triple(1, a, rest + "|c");
      assert b == a + "|" + rest;
      assert RuleKey(t) == RuleKey(u);
      assert !Faithful(nodes);
    } else {
      forall t: Triple, u: Triple | t.node in nodes && u.node in nodes && RuleKey(t) == RuleKey(u) ensures t == u {
        Regroup(Itoa(t.rule), t.node, t.entity);
        Regroup(Itoa(u.rule), u.node, u.entity);
        FirstSeparator(Itoa(t.rule), '|', t.node + ['|'] + t.entity, Itoa(u.rule), u.node + ['|'] + u.entity);
        SameOrContinues(t.node, t.entity, u.node, u.entity);
        ItoaInjective(t.rule, u.rule);
      }
    }
  }

  /** A separator inside a node name makes two different triples share a key. */
  lemma SeparatorInNodeCollides()
    ensures exists t, u :: t != u && RuleKey(t) == RuleKey(u)
  {
    var t, u := Triple(1, "a|b", "c"), Triple(1, "a", "b|c");
    assert RuleKey(t) == RuleKey(u) == Itoa(1) + "|a|b|c";
  }

  // ----- incidents -----

  function Status(firing: bool): string {
    if firing then "firing" else "recovered"
  }

  function IncidentKey(source: string, node: string, entity: string, firing: bool): string {
    source + "|" + node + "|" + entity + "|" + Status(firing)
  }

  /** Distinct alert sources, nodes, entities or states never share an incident. */
  lemma IncidentKeyInjective(source: string, node: string, entity: string, firing: bool,
                             source': string, node': string, entity': string, firing': bool)
    requires '|' !in source && '|' !in node && '|' !in source' && '|' !in node'
    requires IncidentKey(source, node, entity, firing) == IncidentKey(source', node', entity', firing')
    ensures source == source' && node == node' && entity == entity' && firing == firing'
  {
    hide Status;
    Regroup(source, node, entity + "|" + Status(firing));
    Regroup(source', node', entity' + "|" + Status(firing'));
    var tail, tail' := entity + "|" + Status(firing), entity' + "|" + Status(firing');
    assert IncidentKey(source, node, entity, firing) == source + "|" + node + "|" + tail;
    assert IncidentKey(source', node', entity', firing') == source' + "|" + node' + "|" + tail';
    FirstSeparator(source, '|', node + ['|'] + tail, source', node' + ['|'] + tail');
    FirstSeparator(node, '|', tail, node', tail');
    StatusSuffix(entity, firing, entity', firing');
  }

  lemma StatusSuffix(entity: string, firing: bool, entity': string, firing': bool)
    requires entity + "|" + Status(firing) == entity' + "|" + Status(firing')
    ensures entity == entity' && firing == firing'
  {
    var s, s' := entity + "|" + Status(firing), entity' + "|" + Status(firing');
    assert s[|s| - 1] == Status(firing)[|Status(firing)| - 1] == if firing then 'g' else 'd';
    assert s'[|s'| - 1] == Status(firing')[|Status(firing')| - 1] == if firing' then 'g' else 'd';
    assert entity == s[..|entity|] && entity' == s'[..|entity'|];
  }

  ghost predicate FaithfulIncidents(nodes: set<string>) {
    forall source, node, entity, firing, source', node', entity', firing' |
      && '|' !in source && '|' !in source' && node in nodes && node' in nodes
      && IncidentKey(source, node, entity, firing) == IncidentKey(source', node', entity', firing') ::
      source == source' && node == node' && entity == entity' && firing == firing'
  }

  /** Over a set of nodes, incidents of sources without a separator have distinct keys under the very
      same condition. */
  lemma FaithfulIncidentsExactly(nodes: set<string>)
    ensures FaithfulIncidents(nodes) <==> forall a, b :: a in nodes && b in nodes ==> !Continues(a, b)
  {
    hide Status;
    if a, b :| a in nodes && b in nodes && Continues(a, b) {
      var rest := b[|a| + 1..];
      assert b == a + "|" + rest;
      assert IncidentKey("", b, "c", true) == IncidentKey("", a, rest + "|c", true);
      assert !FaithfulIncidents(nodes);
    } else {
      forall source, node, entity, firing, source', node', entity', firing' |
        && '|' !in source && '|' !in source' && node in nodes && node' in nodes
        && IncidentKey(source, node, entity, firing) == IncidentKey(source', node', entity', firing')
        ensures source == source' && node == node' && entity == entity' && firing == firing'
      {
        var tail, tail' := entity + "|" + Status(firing), entity' + "|" + Status(firing');
        assert IncidentKey(source, node, entity, firing) == source + ['|'] + (node + "|" + tail);
        assert IncidentKey(source', node', entity', firing') == source' + ['|'] + (node' + "|" + tail');
        FirstSeparator(source, '|', node + "|" + tail, source', node' + "|" + tail');
        SameOrContinues(node, tail, node', tail');
        StatusSuffix(entity, firing, entity', firing');
      }
    }
  }
}
