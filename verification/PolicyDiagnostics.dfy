/** Every value of an accepted policy is located under its own path, and so is everything that
    validation can report. */
module PolicyDiagnostics {
  import opened Common
  import opened FieldPaths
  import opened YamlEvents
  import opened YamlReader
  import opened PolicySyntax
  import opened PolicyLocations
  import opened Validation
  import NetworkHost

  // Accepted policies have only schema keys

  lemma {:induction false} KeysAreAllowed(fields: seq<Field>, allowed: seq<string>)
    requires CheckKeys(fields, allowed).Ok?
    ensures forall i :: 0 <= i < |fields| ==> fields[i].key in allowed
  {
    if fields != [] {
      KeysAreAllowed(fields[1..], allowed);
      forall i | 0 <= i < |fields| ensures fields[i].key in allowed {
        if i > 0 { assert fields[i] == fields[1..][i - 1]; }
      }
    }
  }

  /** A mapping with allowed keys is simple when what stands under each allowed key is. */
  lemma MappingIsSimple(node: Node, allowed: seq<string>)
    requires CheckFields(node, allowed).Ok? && Distinct(node)
    requires forall key :: key in allowed ==> SimpleKey(key)
    requires forall key :: key in allowed && Optional(node, key).Some? ==> Simple(Optional(node, key).value)
    ensures Simple(node)
  {
    hide Distinct;
    var fields := node.value.fields;
    KeysAreAllowed(fields, allowed);
    FieldsAreParts(node);
    forall i | 0 <= i < |fields| ensures SimpleKey(fields[i].key) && Simple(fields[i].node) {
      assert Optional(node, fields[i].key) == Some(fields[i].node);
    }
  }

  lemma FieldsAreParts(node: Node)
    requires Distinct(node) && node.value.Mapping?
    ensures forall i :: 0 <= i < |node.value.fields| ==>
              Optional(node, node.value.fields[i].key) == Some(node.value.fields[i].node)
  {
    forall i | 0 <= i < |node.value.fields|
      ensures Optional(node, node.value.fields[i].key) == Some(node.value.fields[i].node)
    {
      FindDistinct(node.value.fields, i);
    }
  }

  lemma PartIsDistinct(node: Node, key: string)
    requires Distinct(node) && Optional(node, key).Some?
    ensures Distinct(Optional(node, key).value)
  {
    FindIsField(node.value.fields, key);
  }

  lemma SchemaKeysAreSimple()
    ensures forall key :: key in POLICY_KEYS ==> SimpleKey(key)
    ensures forall key :: key in DEFAULT_KEYS ==> SimpleKey(key)
    ensures forall key :: key in RULE_KEYS ==> SimpleKey(key)
    ensures forall key :: key in FILE_KEYS ==> SimpleKey(key)
    ensures forall key :: key in COMMAND_KEYS ==> SimpleKey(key)
    ensures forall key :: key in GIT_KEYS ==> SimpleKey(key)
    ensures forall key :: key in NETWORK_KEYS ==> SimpleKey(key)
  {
  }

  /** A decoded text, number, effect or action is a scalar. */
  lemma ScalarIsSimple(node: Node)
    requires TextOf(node).Ok?
    ensures Simple(node)
  {
  }

  lemma TextsAreSimple(node: Node)
    requires TextsOf(node).Ok?
    ensures Simple(node)
  {
    var texts := TextsOf(node).value;
    forall i | 0 <= i < |node.value.items| ensures Simple(node.value.items[i]) {
      assert TextOf(node.value.items[i]) == Ok(texts[i]);
    }
  }

  lemma ActionsAreSimple(node: Node)
    requires ActionsOf(node).Ok?
    ensures Simple(node)
  {
    hide NamedAction;
    var actions := ActionsOf(node).value;
    forall i | 0 <= i < |node.value.items| ensures Simple(node.value.items[i]) {
      assert ActionOf(node.value.items[i]) == Ok(actions[i]);
    }
  }

  lemma DefaultsAreSimple(node: Node)
    requires DefaultsOf(node).Ok? && Distinct(node)
    ensures Simple(node)
  {
    hide Distinct, SimpleKey, CheckFields;
    SchemaKeysAreSimple();
    MappingIsSimple(node, DEFAULT_KEYS);
  }

  lemma SelectorIsSimple(node: Node)
    requires SelectorOf(node).Ok? && Distinct(node)
    ensures Simple(node)
  {
    hide Distinct, SimpleKey, CheckFields, Simple;
    SchemaKeysAreSimple();
    forall part: Node | TextOf(part).Ok? ensures Simple(part) { ScalarIsSimple(part); }
    var name := TextOf(Required(node, "kind").value).value;
    if name == "file" {
      MappingIsSimple(node, FILE_KEYS);
    } else if name == "command" {
      if Optional(node, "arguments").Some? { TextsAreSimple(Optional(node, "arguments").value); }
      MappingIsSimple(node, COMMAND_KEYS);
    } else if name == "git" {
      MappingIsSimple(node, GIT_KEYS);
    } else {
      MappingIsSimple(node, NETWORK_KEYS);
    }
  }

  lemma RuleIsSimple(node: Node)
    requires RuleOf(node).Ok? && Distinct(node)
    ensures Simple(node)
  {
    hide Distinct, SimpleKey, CheckFields, Simple, ActionsOf, SelectorOf;
    SchemaKeysAreSimple();
    forall part: Node | TextOf(part).Ok? ensures Simple(part) { ScalarIsSimple(part); }
    PartIsDistinct(node, "resource");
    ActionsAreSimple(Optional(node, "actions").value);
    SelectorIsSimple(Optional(node, "resource").value);
    MappingIsSimple(node, RULE_KEYS);
  }

  lemma RulesAreSimple(node: Node)
    requires RulesOf(node).Ok? && Distinct(node)
    ensures Simple(node)
  {
    hide RuleOf;
    var rules := RulesOf(node).value;
    forall i | 0 <= i < |node.value.items| ensures Simple(node.value.items[i]) {
      assert RuleOf(node.value.items[i]) == Ok(rules[i]);
      RuleIsSimple(node.value.items[i]);
    }
  }

  /** All keys of an accepted policy are schema keys. */
  lemma PolicyIsSimple(root: Node, locations: Locations)
    requires PolicyOf(root, locations).Ok? && Distinct(root)
    ensures Simple(root)
  {
    hide Distinct, SimpleKey, CheckFields, Simple, RulesOf, DefaultsOf;
    SchemaKeysAreSimple();
    forall part: Node | TextOf(part).Ok? ensures Simple(part) { ScalarIsSimple(part); }
    PartIsDistinct(root, "rules");
    RulesAreSimple(Optional(root, "rules").value);
    if Optional(root, "defaults").Some? {
      PartIsDistinct(root, "defaults");
      DefaultsAreSimple(Optional(root, "defaults").value);
    }
    MappingIsSimple(root, POLICY_KEYS);
  }

  // Where decoded values come from

  lemma {:induction false} NodeAtConcat(node: Node, a: seq<Step>, b: seq<Step>)
    requires NodeAt(node, a).Some?
    ensures NodeAt(node, a + b) == NodeAt(NodeAt(node, a).value, b)
    decreases |a|
  {
    if a == [] {
      assert a + b == b;
    } else {
      assert (a + b)[0] == a[0] && (a + b)[1..] == a[1..] + b;
      match a[0]
      case Key(key) => NodeAtConcat(Optional(node, key).value, a[1..], b);
      case Index(i) => NodeAtConcat(node.value.items[i], a[1..], b);
    }
  }

  /** One step further. */
  lemma NodeAtPush(root: Node, at: seq<Step>, step: Step, part: Node)
    requires NodeAt(root, at).Some?
    requires match step
             case Key(key) => Optional(NodeAt(root, at).value, key) == Some(part)
             case Index(i) =>
               var value := NodeAt(root, at).value.value;
               value.Sequence? && i < |value.items| && value.items[i] == part
    ensures NodeAt(root, at + [step]) == Some(part)
  {
    hide Optional;
    NodeAtConcat(root, at, [step]);
    assert NodeAt(part, []) == Some(part);
    assert [step][1..] == [];
  }

  function RuleSteps(i: nat): seq<Step> {
    [Key("rules"), Index(i)]
  }

  function ResourceSteps(i: nat): seq<Step> {
    RuleSteps(i) + [Key("resource")]
  }

  /** The position of the value a check is about. */
  function StepsOf(rules: seq<PolicyRule>, check: Check): seq<Step>
    requires !check.VersionCheck? ==> check.rule < |rules|
  {
    match check
    case VersionCheck => [Key("version")]
    case IdCheck(i) => RuleSteps(i) + [Key("id")]
    case UniqueCheck(i) => RuleSteps(i) + [Key("id")]
    case ActionsCheck(i) => RuleSteps(i) + [Key("actions")]
    case ActionCheck(i, j) => RuleSteps(i) + [Key("actions")] + [Index(j)]
    case SelectorCheck(i) => ResourceSteps(i) + [Key(FirstField(rules[i].resource))]
    case ArgumentCheck(i, j) => ResourceSteps(i) + [Key("arguments")] + [Index(j)]
    case PortCheck(i) => ResourceSteps(i) + [Key("port")]
  }

  lemma RuleAt(root: Node, locations: Locations, i: nat) returns (node: Node)
    requires PolicyOf(root, locations).Ok? && i < |PolicyOf(root, locations).value.rules|
    ensures NodeAt(root, RuleSteps(i)) == Some(node)
    ensures RuleOf(node) == Ok(PolicyOf(root, locations).value.rules[i])
  {
    hide RuleOf, NodeAt, CheckFields, IntegerOf, DefaultsOf;
    var rulesNode := Optional(root, "rules").value;
    node := rulesNode.value.items[i];
    assert NodeAt(root, []) == Some(root) by { RootAt(root); }
    NodeAtPush(root, [], Key("rules"), rulesNode);
    NodeAtPush(root, [] + [Key("rules")], Index(i), node);
    assert [] + [Key("rules")] + [Index(i)] == RuleSteps(i);
  }

  lemma RootAt(root: Node)
    ensures NodeAt(root, []) == Some(root)
  {
  }

  /** Where the parts of a rule are. */
  lemma RuleParts(root: Node, i: nat, rule: Node) returns (actions: Node, resource: Node)
    requires NodeAt(root, RuleSteps(i)) == Some(rule) && RuleOf(rule).Ok?
    ensures NodeAt(root, RuleSteps(i) + [Key("id")]).Some?
    ensures NodeAt(root, RuleSteps(i) + [Key("actions")]) == Some(actions)
    ensures ActionsOf(actions) == Ok(RuleOf(rule).value.actions)
    ensures actions.value.Sequence? && |actions.value.items| == |RuleOf(rule).value.actions|
    ensures NodeAt(root, ResourceSteps(i)) == Some(resource)
    ensures SelectorOf(resource) == Ok(RuleOf(rule).value.resource)
  {
    hide NodeAt, CheckFields, SelectorOf, ActionOf, EffectOf;
    NodeAtPush(root, RuleSteps(i), Key("id"), Optional(rule, "id").value);
    actions := Optional(rule, "actions").value;
    NodeAtPush(root, RuleSteps(i), Key("actions"), actions);
    resource := Optional(rule, "resource").value;
    NodeAtPush(root, RuleSteps(i), Key("resource"), resource);
  }

  /** The values of a selector's fields. */
  lemma SelectorFields(node: Node)
    requires SelectorOf(node).Ok?
    ensures var selector := SelectorOf(node).value;
            && Optional(node, FirstField(selector)).Some?
            && (selector.CommandSelector? && selector.arguments.Some? ==>
                  && Optional(node, "arguments").Some?
                  && TextsOf(Optional(node, "arguments").value) == Ok(selector.arguments.value))
            && (selector.NetworkSelector? && selector.port.Some? ==> Optional(node, "port").Some?)
  {
    hide CheckFields, Find, TextsOf, IntegerOf;
  }

  /** Every violated condition is about a value of the document. */
  lemma ViolationAt<I>(root: Node, locations: Locations, check: Check, ip: NetworkHost.IpReader<I>)
    requires PolicyOf(root, locations).Ok? && Violates(PolicyOf(root, locations).value, check, ip)
    ensures !check.VersionCheck? ==> check.rule < |PolicyOf(root, locations).value.rules|
    ensures NodeAt(root, StepsOf(PolicyOf(root, locations).value.rules, check)).Some?
  {
    if check.VersionCheck? {
      VersionAt(root, locations);
    } else {
      hide NodeAt, PolicyOf, RuleOf, SelectorFails, ActionsOf;
      var rule := RuleAt(root, locations, check.rule);
      var actions, resource := RuleParts(root, check.rule, rule);
      if check.ActionCheck? {
        var j := check.index;
        NodeAtPush(root, RuleSteps(check.rule) + [Key("actions")], Index(j), actions.value.items[j]);
      } else if check.SelectorCheck? || check.ArgumentCheck? || check.PortCheck? {
        SelectorPartAt(root, PolicyOf(root, locations).value.rules, check, resource, ip);
      }
    }
  }

  lemma VersionAt(root: Node, locations: Locations)
    requires PolicyOf(root, locations).Ok?
    ensures NodeAt(root, [Key("version")]).Some?
  {
    hide NodeAt, CheckFields, RulesOf, IntegerOf, DefaultsOf;
    RootAt(root);
    NodeAtPush(root, [], Key("version"), Optional(root, "version").value);
    assert [] + [Key("version")] == [Key("version")];
  }

  lemma SelectorPartAt<I>(
    root: Node, rules: seq<PolicyRule>, check: Check, node: Node, ip: NetworkHost.IpReader<I>)
    requires check.SelectorCheck? || check.ArgumentCheck? || check.PortCheck?
    requires RuleViolates(rules, check, ip)
    requires NodeAt(root, ResourceSteps(check.rule)) == Some(node)
    requires SelectorOf(node) == Ok(rules[check.rule].resource)
    ensures NodeAt(root, StepsOf(rules, check)).Some?
  {
    hide NodeAt, SelectorOf, SelectorFails, TextOf, Optional;
    var at := ResourceSteps(check.rule);
    SelectorFields(node);
    match check
    case SelectorCheck(i) =>
      var field := FirstField(SelectorOf(node).value);
      NodeAtPush(root, at, Key(field), Optional(node, field).value);
    case ArgumentCheck(i, j) =>
      var arguments := Optional(node, "arguments").value;
      NodeAtPush(root, at, Key("arguments"), arguments);
      NodeAtPush(root, at + [Key("arguments")], Index(j), arguments.value.items[j]);
    case PortCheck(_) =>
      NodeAtPush(root, at, Key("port"), Optional(node, "port").value);
  }

  // The paths validation writes are the paths of those positions

  lemma RulePathIsPosition(i: nat)
    ensures RenderPath(RuleSteps(i)) == RulePath(i) && |RulePath(i)| > 1
  {
    hide RenderPath, ItemPath;
    StepPathPush([], Key("rules"));
    StepPathPush([Key("rules")], Index(i));
    assert [] + [Key("rules")] == [Key("rules")] && [Key("rules")] + [Index(i)] == RuleSteps(i);
    ItemPathIsLong("rules", i);
  }

  lemma ItemPathIsLong(parent: string, i: nat)
    ensures |ItemPath(parent, i)| > |parent| + 1
  {
  }

  lemma ResourcePathIsPosition(i: nat)
    ensures RenderPath(ResourceSteps(i)) == ResourcePath(i) && |ResourcePath(i)| > 1
  {
    hide RenderPath, ItemPath, RulePath, RuleSteps;
    RulePathIsPosition(i);
    FieldPath(RuleSteps(i), "resource");
    assert "." + "resource" == ".resource";
    Associative(RulePath(i), ".", "resource");
  }

  lemma FieldPath(at: seq<Step>, key: string)
    requires |RenderPath(at)| > 1
    ensures RenderPath(at + [Key(key)]) == RenderPath(at) + "." + key
  {
    hide RenderPath;
    StepPathPush(at, Key(key));
  }

  lemma ItemOfFieldPath(at: seq<Step>, key: string, j: nat)
    requires |RenderPath(at)| > 1
    ensures RenderPath(at + [Key(key)] + [Index(j)]) == RenderPath(at) + "." + ItemPath(key, j)
    ensures RenderPath(at + [Key(key)] + [Index(j)]) == ItemPath(RenderPath(at) + "." + key, j)
  {
    hide RenderPath, Decimal;
    FieldPath(at, key);
    StepPathPush(at + [Key(key)], Index(j));
    var path := RenderPath(at) + ".";
    assert path + key + "[" + Decimal(j) + "]" == path + (key + "[" + Decimal(j) + "]");
  }

  /** Validation writes the path of the value it complains about. */
  lemma PathIsPosition(rules: seq<PolicyRule>, check: Check)
    requires !check.VersionCheck? ==> check.rule < |rules|
    ensures PathOf(rules, check) == RenderPath(StepsOf(rules, check))
  {
    hide RenderPath, RulePath, RuleSteps, ItemPath, ResourcePath, ResourceSteps, FirstField;
    match check {
      case VersionCheck =>
        StepPathPush([], Key("version"));
        assert [] + [Key("version")] == [Key("version")];
      case IdCheck(i) => IdPath(i);
      case UniqueCheck(i) => IdPath(i);
      case ActionsCheck(i) => ActionsPath(i);
      case ActionCheck(i, j) =>
        ActionsPath(i);
        StepPathPush(RuleSteps(i) + [Key("actions")], Index(j));
      case SelectorCheck(i) =>
        ResourcePathIsPosition(i);
        FieldPath(ResourceSteps(i), FirstField(rules[i].resource));
      case ArgumentCheck(i, j) =>
        ResourcePathIsPosition(i);
        ItemOfFieldPath(ResourceSteps(i), "arguments", j);
      case PortCheck(i) =>
        ResourcePathIsPosition(i);
        FieldPath(ResourceSteps(i), "port");
    }
  }

  lemma IdPath(i: nat)
    ensures RenderPath(RuleSteps(i) + [Key("id")]) == RulePath(i) + ".id"
  {
    hide RenderPath, RulePath, RuleSteps;
    RulePathIsPosition(i);
    FieldPath(RuleSteps(i), "id");
    assert "." + "id" == ".id";
    Associative(RulePath(i), ".", "id");
  }

  lemma ActionsPath(i: nat)
    ensures RenderPath(RuleSteps(i) + [Key("actions")]) == RulePath(i) + ".actions"
  {
    hide RenderPath, RulePath, RuleSteps;
    RulePathIsPosition(i);
    FieldPath(RuleSteps(i), "actions");
    assert "." + "actions" == ".actions";
    Associative(RulePath(i), ".", "actions");
  }

  // The theorems

  /** Every value of an accepted policy is located under its own path. */
  lemma LocationsAreFaithful(s: Stream, steps: seq<Step>)
    requires ParsedFrom(s).Ok? && NodeAt(ReadDocument(s).value, steps).Some?
    ensures var node := NodeAt(ReadDocument(s).value, steps).value;
            var locations := ParsedFrom(s).value.locations;
            node.path == RenderPath(steps) && node.path in locations && locations[node.path] == node.location
  {
    hide ReadDocument, PolicyOf, RenderPath, NodeAt;
    var root := ReadDocument(s).value;
    ParsedParts(s);
    assert [] + steps == steps;
    PathOfPosition(root, [], steps);
    RecordIsFaithful(root, [], map[]);
  }

  /** Only values of the document are located. */
  lemma LocationsAreValues(s: Stream, path: string)
    requires ParsedFrom(s).Ok? && path in ParsedFrom(s).value.locations
    ensures exists steps :: NodeAt(ReadDocument(s).value, steps).Some? && path == RenderPath(steps)
  {
    hide ReadDocument, PolicyOf, RenderPath, NodeAt;
    var root := ReadDocument(s).value;
    ParsedParts(s);
    var steps := RecordAddsPart(root, map[], path);
    LocationsAreFaithful(s, steps);
  }

  lemma ParsedParts(s: Stream)
    requires ParsedFrom(s).Ok?
    ensures var root := ReadDocument(s).value;
            && WellPathed(root, []) && Distinct(root) && Simple(root)
            && PolicyOf(root, Record(root, map[])) == ParsedFrom(s)
            && ParsedFrom(s).value.locations == Record(root, map[])
  {
    hide ReadDocument, WellPathed, Distinct, Simple, Record;
    var root := ReadDocument(s).value;
    DocumentIsWellPathed(s);
    PolicyIsSimple(root, Record(root, map[]));
  }

  /** Distinct values of an accepted policy have distinct paths. */
  lemma PathsAreDistinct(s: Stream, a: seq<Step>, b: seq<Step>)
    requires ParsedFrom(s).Ok?
    requires NodeAt(ReadDocument(s).value, a).Some? && NodeAt(ReadDocument(s).value, b).Some?
    ensures NodeAt(ReadDocument(s).value, a).value.path == NodeAt(ReadDocument(s).value, b).value.path <==> a == b
  {
    hide ReadDocument, PolicyOf, RenderPath, NodeAt;
    ParsedParts(s);
    var root := ReadDocument(s).value;
    StepsAreSimple(root, a);
    StepsAreSimple(root, b);
    LocationsAreFaithful(s, a);
    LocationsAreFaithful(s, b);
    if RenderPath(a) == RenderPath(b) { RenderPathIsInjective(a, b); }
  }

  /** Validation of a parsed policy reports the location of the offending value itself, and
      for a duplicate also that of the identifier it repeats; the start of the document is
      never reported for want of a location. */
  lemma ReportsAreLocated<I>(s: Stream, check: Check, ip: NetworkHost.IpReader<I>)
    requires ParsedFrom(s).Ok? && FirstViolation(ParsedFrom(s).value, check, ip)
    ensures var root := ReadDocument(s).value;
            var policy := ParsedFrom(s).value;
            var report := Report(policy, check);
            && NodeAt(root, StepsOf(policy.rules, check)).Some?
            && report.path in policy.locations
            && report.location == NodeAt(root, StepsOf(policy.rules, check)).value.location
            && (check.UniqueCheck? ==>
                  exists k ::
                    && 0 <= k < check.rule && policy.rules[k].id == policy.rules[check.rule].id
                    && NodeAt(root, RuleSteps(k) + [Key("id")]).Some?
                    && report.original == Some(NodeAt(root, RuleSteps(k) + [Key("id")]).value.location))
  {
    hide ReadDocument, PolicyOf, RenderPath, NodeAt, Violates, PathOf, StepsOf, RulePath, RuleSteps, EarliestWith;
    var root := ReadDocument(s).value;
    var policy := ParsedFrom(s).value;
    ParsedParts(s);
    ViolationAt(root, policy.locations, check, ip);
    PathIsPosition(policy.rules, check);
    LocationsAreFaithful(s, StepsOf(policy.rules, check));
    if check.UniqueCheck? {
      DuplicateHasOneOriginal(policy, check.rule, ip);
      var k := EarliestWith(policy.rules, policy.rules[check.rule].id);
      var rule := RuleAt(root, policy.locations, k);
      var _, _ := RuleParts(root, k, rule);
      IdPath(k);
      LocationsAreFaithful(s, RuleSteps(k) + [Key("id")]);
    }
  }
}
