/** Writing policies as documents, and reading them back. */
module PolicyDocuments {
  import opened Common
  import opened Actions
  import opened FieldPaths
  import opened YamlEvents
  import opened YamlReader
  import opened YamlTheorems
  import opened PolicySyntax

  // Trees of policies

  function TextTree(text: string, m: Mark): Tree {
    Leaf(text, DoubleQuoted, m)
  }

  function OptionalText(text: Option<string>, m: Mark): Option<Tree> {
    match text case None => None case Some(present) => Some(TextTree(present, m))
  }

  function TextTrees(texts: seq<string>, m: Mark): (trees: seq<Tree>)
    ensures |trees| == |texts| && forall i :: 0 <= i < |trees| ==> trees[i] == TextTree(texts[i], m)
  {
    seq(|texts|, i requires 0 <= i < |texts| => TextTree(texts[i], m))
  }

  /** The present fields of a table. */
  function Entries(keys: seq<string>, values: seq<Option<Tree>>, m: Mark): seq<TableEntry>
    requires |keys| == |values|
  {
    if keys == [] then []
    else
      (match values[0] case None => [] case Some(value) => [TableEntry(keys[0], Plain, m, value)])
      + Entries(keys[1..], values[1..], m)
  }

  function TableTree(keys: seq<string>, values: seq<Option<Tree>>, m: Mark): Tree
    requires |keys| == |values|
  {
    Table(Entries(keys, values, m), m, m)
  }

  function EffectText(effect: Effect): string {
    match effect
    case Allow => "allow"
    case Deny => "deny"
    case Ask => "ask"
  }

  function EffectTree(effect: Option<Effect>, m: Mark): Option<Tree> {
    match effect case None => None case Some(present) => Some(TextTree(EffectText(present), m))
  }

  function ActionText(action: Action): string {
    match action
    case File(Read) => "file.read"
    case File(Write) => "file.write"
    case File(Delete) => "file.delete"
    case File(Rename) => "file.rename"
    case Execute => "command.execute"
    case Git(Commit) => "git.commit"
    case Git(Checkout) => "git.checkout"
    case Git(Reset) => "git.reset"
    case Git(Push) => "git.push"
    case Git(ResetHard) => "git.reset-hard"
    case Git(ForcePush) => "git.force-push"
    case Connect => "network.connect"
  }

  function ActionTexts(actions: seq<Action>): (texts: seq<string>)
    ensures |texts| == |actions| && forall i :: 0 <= i < |texts| ==> texts[i] == ActionText(actions[i])
  {
    seq(|actions|, i requires 0 <= i < |actions| => ActionText(actions[i]))
  }

  function DefaultsTree(defaults: PolicyDefaults, m: Mark): Tree {
    TableTree(
      DEFAULT_KEYS,
      [EffectTree(defaults.file, m), EffectTree(defaults.command, m),
       EffectTree(defaults.git, m), EffectTree(defaults.network, m)],
      m)
  }

  function SelectorTree(selector: ResourceSelector, m: Mark): Tree {
    match selector
    case FileSelector(pattern) =>
      TableTree(FILE_KEYS, [Some(TextTree("file", m)), Some(TextTree(pattern, m))], m)
    case CommandSelector(executable, arguments) =>
      TableTree(
        COMMAND_KEYS,
        [Some(TextTree("command", m)), Some(TextTree(executable, m)),
         match arguments case None => None case Some(texts) => Some(List(TextTrees(texts, m), m, m))],
        m)
    case GitSelector(repository) =>
      TableTree(GIT_KEYS, [Some(TextTree("git", m)), Some(TextTree(repository, m))], m)
    case NetworkSelector(host, port) =>
      TableTree(
        NETWORK_KEYS,
        [Some(TextTree("network", m)), Some(TextTree(host, m)),
         match port case None => None case Some(n) => Some(TextTree(Decimal(n), m))],
        m)
  }

  function RuleTree(rule: PolicyRule, m: Mark): Tree {
    TableTree(
      RULE_KEYS,
      [Some(TextTree(rule.id, m)), OptionalText(rule.description, m), EffectTree(Some(rule.effect), m),
       Some(List(TextTrees(ActionTexts(rule.actions), m), m, m)), Some(SelectorTree(rule.resource, m))],
      m)
  }

  function RuleTrees(rules: seq<PolicyRule>, m: Mark): (trees: seq<Tree>)
    ensures |trees| == |rules| && forall i :: 0 <= i < |trees| ==> trees[i] == RuleTree(rules[i], m)
  {
    seq(|rules|, i requires 0 <= i < |rules| => RuleTree(rules[i], m))
  }

  function PolicyTree(policy: ParsedPolicy, m: Mark): Tree {
    TableTree(
      POLICY_KEYS,
      [Some(TextTree(Decimal(policy.version), m)),
       match policy.defaults case None => None case Some(defaults) => Some(DefaultsTree(defaults, m)),
       Some(List(RuleTrees(policy.rules, m), m, m))],
      m)
  }

  function Document(policy: ParsedPolicy, m: Mark): seq<Marked> {
    [Marked(StreamStart, m), Marked(DocumentStart, m)] + Emit(PolicyTree(policy, m))
    + [Marked(DocumentEnd, m), Marked(StreamEnd, m)]
  }

  predicate FitsPort(selector: ResourceSelector) {
    selector.NetworkSelector? && selector.port.Some? ==> selector.port.value <= 65535
  }

  /** Numbers must fit their types. */
  predicate Representable(policy: ParsedPolicy) {
    && policy.version <= 18_446_744_073_709_551_615
    && forall rule :: rule in policy.rules ==> FitsPort(rule.resource)
  }

  // Reading a table

  predicate DistinctTexts(keys: seq<string>) {
    forall i, j :: 0 <= i < j < |keys| ==> keys[i] != keys[j]
  }

  /** Keys that may stand plainly in a mapping. */
  predicate GoodKeys(keys: seq<string>) {
    DistinctTexts(keys) && forall i :: 0 <= i < |keys| ==> !IsNull(keys[i], Plain) && keys[i] != "<<"
  }

  lemma SchemaKeysAreGood()
    ensures GoodKeys(POLICY_KEYS) && GoodKeys(DEFAULT_KEYS) && GoodKeys(RULE_KEYS)
    ensures GoodKeys(FILE_KEYS) && GoodKeys(COMMAND_KEYS) && GoodKeys(GIT_KEYS) && GoodKeys(NETWORK_KEYS)
  {
    hide GoodKeys;
    DocumentKeysAreGood();
    SelectorKeysAreGood();
  }

  lemma DocumentKeysAreGood()
    ensures GoodKeys(POLICY_KEYS) && GoodKeys(DEFAULT_KEYS) && GoodKeys(RULE_KEYS)
  {
  }

  lemma SelectorKeysAreGood()
    ensures GoodKeys(FILE_KEYS) && GoodKeys(COMMAND_KEYS) && GoodKeys(GIT_KEYS) && GoodKeys(NETWORK_KEYS)
  {
  }

  function Placed(tree: Option<Tree>, path: string): Option<Node> {
    match tree case None => None case Some(present) => Some(NodeOf(present, path))
  }

  lemma {:induction false} FindInEntries(
    keys: seq<string>, values: seq<Option<Tree>>, m: Mark, path: string, key: string)
    requires |keys| == |values| && DistinctTexts(keys)
    ensures key !in keys ==> Find(YamlEvents.FieldsOf(Entries(keys, values, m), path), key) == None
    ensures forall i :: 0 <= i < |keys| && keys[i] == key ==>
              Find(YamlEvents.FieldsOf(Entries(keys, values, m), path), key) ==
              Placed(values[i], ChildPath(path, key))
  {
    hide NodeOf, ChildPath;
    if keys != [] {
      var rest := Entries(keys[1..], values[1..], m);
      FindInEntries(keys[1..], values[1..], m, path, key);
      assert forall i :: 0 < i < |keys| ==> keys[i] == keys[1..][i - 1] && values[i] == values[1..][i - 1];
      if values[0].None? {
        assert Entries(keys, values, m) == rest;
      } else {
        assert Entries(keys, values, m)[0].key == keys[0] && Entries(keys, values, m)[1..] == rest;
      }
    }
  }

  lemma {:induction false} EntriesAreAllowed(
    keys: seq<string>, values: seq<Option<Tree>>, m: Mark, path: string, allowed: seq<string>)
    requires |keys| == |values| && forall key :: key in keys ==> key in allowed
    ensures CheckKeys(YamlEvents.FieldsOf(Entries(keys, values, m), path), allowed) == Ok(())
  {
    hide NodeOf, ChildPath;
    if keys != [] {
      EntriesAreAllowed(keys[1..], values[1..], m, path, allowed);
      assert keys[0] in keys && forall key :: key in keys[1..] ==> key in keys;
      if values[0].Some? {
        assert Entries(keys, values, m)[1..] == Entries(keys[1..], values[1..], m);
      } else {
        assert Entries(keys, values, m) == Entries(keys[1..], values[1..], m);
      }
    }
  }

  /** A table has exactly its present fields. */
  lemma TableReads(keys: seq<string>, values: seq<Option<Tree>>, m: Mark, path: string)
    requires |keys| == |values| && GoodKeys(keys)
    ensures var node := NodeOf(TableTree(keys, values, m), path);
            && node.value.Mapping? && CheckFields(node, keys) == Ok(())
            && forall i :: 0 <= i < |keys| ==> Optional(node, keys[i]) == Placed(values[i], ChildPath(path, keys[i]))
  {
    hide Entries, YamlEvents.FieldsOf, ChildPath, Placed, Find, CheckKeys;
    EntriesAreAllowed(keys, values, m, path, keys);
    var node := NodeOf(TableTree(keys, values, m), path);
    forall i | 0 <= i < |keys| ensures Optional(node, keys[i]) == Placed(values[i], ChildPath(path, keys[i])) {
      FindInEntries(keys, values, m, path, keys[i]);
    }
  }

  lemma {:induction false} EachReads<T>(
    trees: seq<Tree>, values: seq<T>, path: string, index: nat, decode: Node -> Decoded<T>)
    requires |trees| == |values|
    requires forall i, at: string :: 0 <= i < |trees| ==> decode(NodeOf(trees[i], at)) == Ok(values[i])
    ensures Each(NodesOf(trees, path, index), decode) == Ok(values)
  {
    hide NodeOf, ItemPath;
    if trees != [] {
      forall i, at: string | 0 <= i < |trees[1..]| ensures decode(NodeOf(trees[1..][i], at)) == Ok(values[1..][i]) {
        assert trees[1..][i] == trees[i + 1] && values[1..][i] == values[i + 1];
      }
      EachReads(trees[1..], values[1..], path, index + 1, decode);
      var nodes := NodesOf(trees, path, index);
      assert nodes[0] == NodeOf(trees[0], ItemPath(path, index)) && nodes[1..] == NodesOf(trees[1..], path, index + 1);
      assert [values[0]] + values[1..] == values;
    }
  }

  // Reading what was written

  lemma TextReads(text: string, m: Mark, path: string)
    ensures TextOf(NodeOf(TextTree(text, m), path)) == Ok(text)
  {
  }

  lemma NumberReads(n: nat, max: nat, m: Mark, path: string)
    requires n <= max
    ensures IntegerOf(NodeOf(TextTree(Decimal(n), m), path), max) == Ok(n)
  {
    hide Decimal, ValueOf;
    DecimalHasValue(n);
  }

  lemma EffectReads(effect: Effect, m: Mark, path: string)
    ensures EffectOf(NodeOf(TextTree(EffectText(effect), m), path)) == Ok(effect)
  {
  }

  lemma ActionHasName(action: Action)
    ensures NamedAction(ActionText(action)) == Some(action)
  {
  }

  lemma TextsRead(texts: seq<string>, m: Mark, path: string)
    ensures TextsOf(NodeOf(List(TextTrees(texts, m), m, m), path)) == Ok(texts)
  {
    EachReads(TextTrees(texts, m), texts, path, 0, TextOf);
  }

  lemma ActionsRead(actions: seq<Action>, m: Mark, path: string)
    ensures ActionsOf(NodeOf(List(TextTrees(ActionTexts(actions), m), m, m), path)) == Ok(actions)
  {
    hide ActionText, NamedAction;
    var trees := TextTrees(ActionTexts(actions), m);
    forall i, at: string | 0 <= i < |trees| ensures ActionOf(NodeOf(trees[i], at)) == Ok(actions[i]) {
      ActionHasName(actions[i]);
    }
    EachReads(trees, actions, path, 0, ActionOf);
  }

  lemma DefaultsRead(defaults: PolicyDefaults, m: Mark, path: string)
    ensures DefaultsOf(NodeOf(DefaultsTree(defaults, m), path)) == Ok(defaults)
  {
    hide NodeOf, CheckFields, Optional, EffectOf, EffectText, TableTree, ChildPath, TextTree, GoodKeys;
    var values :=
      [EffectTree(defaults.file, m), EffectTree(defaults.command, m),
       EffectTree(defaults.git, m), EffectTree(defaults.network, m)];
    SchemaKeysAreGood();
    TableReads(DEFAULT_KEYS, values, m, path);
    var node := NodeOf(TableTree(DEFAULT_KEYS, values, m), path);
    assert DEFAULT_KEYS[0] == "file" && DEFAULT_KEYS[1] == "command";
    assert DEFAULT_KEYS[2] == "git" && DEFAULT_KEYS[3] == "network";
    OptionalEffectReads(node, "file", defaults.file, m, path);
    OptionalEffectReads(node, "command", defaults.command, m, path);
    OptionalEffectReads(node, "git", defaults.git, m, path);
    OptionalEffectReads(node, "network", defaults.network, m, path);
  }

  lemma OptionalEffectReads(node: Node, key: string, effect: Option<Effect>, m: Mark, path: string)
    requires Optional(node, key) == Placed(EffectTree(effect, m), ChildPath(path, key))
    ensures Maybe(Optional(node, key), EffectOf) == Ok(effect)
  {
    hide NodeOf, EffectOf, EffectText, ChildPath, TextTree, Optional;
    if effect.Some? { EffectReads(effect.value, m, ChildPath(path, key)); }
  }

  lemma FileSelectorReads(pattern: string, m: Mark, path: string)
    ensures SelectorOf(NodeOf(SelectorTree(FileSelector(pattern), m), path)) == Ok(FileSelector(pattern))
  {
    hide NodeOf, CheckFields, Optional, TableTree, ChildPath, TextTree, TextOf, GoodKeys;
    var values := [Some(TextTree("file", m)), Some(TextTree(pattern, m))];
    SchemaKeysAreGood();
    TableReads(FILE_KEYS, values, m, path);
    assert FILE_KEYS[0] == "kind" && FILE_KEYS[1] == "pattern";
    TextReads("file", m, ChildPath(path, "kind"));
    TextReads(pattern, m, ChildPath(path, "pattern"));
  }

  lemma CommandSelectorReads(executable: string, arguments: Option<seq<string>>, m: Mark, path: string)
    ensures SelectorOf(NodeOf(SelectorTree(CommandSelector(executable, arguments), m), path)) ==
            Ok(CommandSelector(executable, arguments))
  {
    hide NodeOf, CheckFields, Optional, TableTree, ChildPath, TextTree, TextOf, TextsOf, GoodKeys;
    var list := match arguments case None => None case Some(texts) => Some(List(TextTrees(texts, m), m, m));
    var values := [Some(TextTree("command", m)), Some(TextTree(executable, m)), list];
    SchemaKeysAreGood();
    TableReads(COMMAND_KEYS, values, m, path);
    assert COMMAND_KEYS[0] == "kind" && COMMAND_KEYS[1] == "executable" && COMMAND_KEYS[2] == "arguments";
    TextReads("command", m, ChildPath(path, "kind"));
    TextReads(executable, m, ChildPath(path, "executable"));
    if arguments.Some? { TextsRead(arguments.value, m, ChildPath(path, "arguments")); }
  }

  lemma GitSelectorReads(repository: string, m: Mark, path: string)
    ensures SelectorOf(NodeOf(SelectorTree(GitSelector(repository), m), path)) == Ok(GitSelector(repository))
  {
    hide NodeOf, CheckFields, Optional, TableTree, ChildPath, TextTree, TextOf, GoodKeys;
    var values := [Some(TextTree("git", m)), Some(TextTree(repository, m))];
    SchemaKeysAreGood();
    TableReads(GIT_KEYS, values, m, path);
    assert GIT_KEYS[0] == "kind" && GIT_KEYS[1] == "repository";
    TextReads("git", m, ChildPath(path, "kind"));
    TextReads(repository, m, ChildPath(path, "repository"));
  }

  lemma NetworkSelectorReads(host: string, port: Option<nat>, m: Mark, path: string)
    requires port.Some? ==> port.value <= 65535
    ensures SelectorOf(NodeOf(SelectorTree(NetworkSelector(host, port), m), path)) == Ok(NetworkSelector(host, port))
  {
    hide NodeOf, CheckFields, Optional, TableTree, ChildPath, TextTree, TextOf, IntegerOf, GoodKeys;
    var number := match port case None => None case Some(n) => Some(TextTree(Decimal(n), m));
    var values := [Some(TextTree("network", m)), Some(TextTree(host, m)), number];
    SchemaKeysAreGood();
    TableReads(NETWORK_KEYS, values, m, path);
    assert NETWORK_KEYS[0] == "kind" && NETWORK_KEYS[1] == "host" && NETWORK_KEYS[2] == "port";
    TextReads("network", m, ChildPath(path, "kind"));
    TextReads(host, m, ChildPath(path, "host"));
    if port.Some? { NumberReads(port.value, 65535, m, ChildPath(path, "port")); }
  }

  lemma SelectorReads(selector: ResourceSelector, m: Mark, path: string)
    requires FitsPort(selector)
    ensures SelectorOf(NodeOf(SelectorTree(selector, m), path)) == Ok(selector)
  {
    hide SelectorOf, NodeOf, SelectorTree;
    match selector
    case FileSelector(pattern) => FileSelectorReads(pattern, m, path);
    case CommandSelector(executable, arguments) => CommandSelectorReads(executable, arguments, m, path);
    case GitSelector(repository) => GitSelectorReads(repository, m, path);
    case NetworkSelector(host, port) => NetworkSelectorReads(host, port, m, path);
  }

  lemma RuleReads(rule: PolicyRule, m: Mark, path: string)
    requires FitsPort(rule.resource)
    ensures RuleOf(NodeOf(RuleTree(rule, m), path)) == Ok(rule)
  {
    hide NodeOf, CheckFields, Optional, TableTree, ChildPath, TextTree, TextOf, EffectOf, EffectText, ActionsOf;
    hide SelectorOf, SelectorTree, GoodKeys, FitsPort;
    var list := List(TextTrees(ActionTexts(rule.actions), m), m, m);
    var values :=
      [Some(TextTree(rule.id, m)), OptionalText(rule.description, m), EffectTree(Some(rule.effect), m),
       Some(list), Some(SelectorTree(rule.resource, m))];
    SchemaKeysAreGood();
    TableReads(RULE_KEYS, values, m, path);
    assert RULE_KEYS[0] == "id" && RULE_KEYS[1] == "description" && RULE_KEYS[2] == "effect";
    assert RULE_KEYS[3] == "actions" && RULE_KEYS[4] == "resource";
    TextReads(rule.id, m, ChildPath(path, "id"));
    if rule.description.Some? { TextReads(rule.description.value, m, ChildPath(path, "description")); }
    EffectReads(rule.effect, m, ChildPath(path, "effect"));
    ActionsRead(rule.actions, m, ChildPath(path, "actions"));
    SelectorReads(rule.resource, m, ChildPath(path, "resource"));
  }

  lemma RulesRead(rules: seq<PolicyRule>, m: Mark, path: string)
    requires forall rule :: rule in rules ==> FitsPort(rule.resource)
    ensures RulesOf(NodeOf(List(RuleTrees(rules, m), m, m), path)) == Ok(rules)
  {
    hide RuleOf, RuleTree, FitsPort;
    var trees := RuleTrees(rules, m);
    forall i, at: string | 0 <= i < |trees| ensures RuleOf(NodeOf(trees[i], at)) == Ok(rules[i]) {
      assert rules[i] in rules;
      RuleReads(rules[i], m, at);
    }
    EachReads(trees, rules, path, 0, RuleOf);
  }

  lemma PolicyReads(policy: ParsedPolicy, m: Mark, path: string)
    requires Representable(policy)
    ensures NodeOf(PolicyTree(policy, m), path).value.Mapping?
    ensures PolicyOf(NodeOf(PolicyTree(policy, m), path), policy.locations) == Ok(policy)
  {
    hide NodeOf, CheckFields, Optional, TableTree, ChildPath, TextTree, IntegerOf, DefaultsOf, DefaultsTree, RulesOf;
    hide GoodKeys;
    var table := match policy.defaults case None => None case Some(defaults) => Some(DefaultsTree(defaults, m));
    var values := [Some(TextTree(Decimal(policy.version), m)), table, Some(List(RuleTrees(policy.rules, m), m, m))];
    SchemaKeysAreGood();
    TableReads(POLICY_KEYS, values, m, path);
    assert POLICY_KEYS[0] == "version" && POLICY_KEYS[1] == "defaults" && POLICY_KEYS[2] == "rules";
    NumberReads(policy.version, 18_446_744_073_709_551_615, m, ChildPath(path, "version"));
    if policy.defaults.Some? { DefaultsRead(policy.defaults.value, m, ChildPath(path, "defaults")); }
    RulesRead(policy.rules, m, ChildPath(path, "rules"));
  }

  // Written policies are valid documents

  predicate ValidValues(values: seq<Option<Tree>>, depth: nat) {
    forall i :: 0 <= i < |values| && values[i].Some? ==> ValidTree(values[i].value, depth)
  }

  lemma {:induction false} EntriesAreValid(
    keys: seq<string>, values: seq<Option<Tree>>, m: Mark, used: set<string>, depth: nat)
    requires |keys| == |values| && GoodKeys(keys) && ValidValues(values, depth)
    requires forall key :: key in keys ==> key !in used
    ensures ValidEntries(Entries(keys, values, m), used, depth)
  {
    hide IsNull, ValidTree;
    if keys != [] {
      var rest := Entries(keys[1..], values[1..], m);
      assert keys[0] in keys && forall key :: key in keys[1..] ==> key in keys;
      TailIsGood(keys);
      assert ValidValues(values[1..], depth);
      if values[0].None? {
        assert Entries(keys, values, m) == rest;
        EntriesAreValid(keys[1..], values[1..], m, used, depth);
      } else {
        assert Entries(keys, values, m)[0] == TableEntry(keys[0], Plain, m, values[0].value);
        assert Entries(keys, values, m)[1..] == rest;
        EntriesAreValid(keys[1..], values[1..], m, used + {keys[0]}, depth);
      }
    }
  }

  lemma TailIsGood(keys: seq<string>)
    requires GoodKeys(keys) && keys != []
    ensures GoodKeys(keys[1..]) && keys[0] !in keys[1..]
  {
    hide IsNull;
    forall i | 0 <= i < |keys[1..]|
      ensures !IsNull(keys[1..][i], Plain) && keys[1..][i] != "<<" && keys[1..][i] != keys[0]
    {
      assert keys[1..][i] == keys[i + 1];
    }
    forall i, j | 0 <= i < j < |keys[1..]| ensures keys[1..][i] != keys[1..][j] {
      assert keys[1..][i] == keys[i + 1] && keys[1..][j] == keys[j + 1];
    }
  }

  lemma TableIsValid(keys: seq<string>, values: seq<Option<Tree>>, m: Mark, depth: nat)
    requires |keys| == |values| && GoodKeys(keys) && ValidValues(values, depth + 1) && depth < MAX_NESTING_DEPTH
    ensures ValidTree(TableTree(keys, values, m), depth)
  {
    hide GoodKeys, ValidValues;
    EntriesAreValid(keys, values, m, {}, depth + 1);
  }

  lemma {:induction false} ItemsAreValid(trees: seq<Tree>, depth: nat)
    requires forall i :: 0 <= i < |trees| ==> ValidTree(trees[i], depth)
    ensures ValidItems(trees, depth)
  {
    if trees != [] {
      assert ValidTree(trees[0], depth);
      ItemsAreValid(trees[1..], depth);
    }
  }

  lemma ListIsValid(trees: seq<Tree>, m: Mark, depth: nat)
    requires depth < MAX_NESTING_DEPTH && forall i :: 0 <= i < |trees| ==> ValidTree(trees[i], depth + 1)
    ensures ValidTree(List(trees, m, m), depth)
  {
    ItemsAreValid(trees, depth + 1);
  }

  lemma SelectorIsValid(selector: ResourceSelector, m: Mark, depth: nat)
    requires depth < MAX_NESTING_DEPTH - 1
    ensures ValidTree(SelectorTree(selector, m), depth)
  {
    hide GoodKeys, TableTree;
    SchemaKeysAreGood();
    match selector
    case FileSelector(pattern) =>
      TableIsValid(FILE_KEYS, [Some(TextTree("file", m)), Some(TextTree(pattern, m))], m, depth);
    case CommandSelector(executable, arguments) =>
      var list := match arguments case None => None case Some(texts) => Some(List(TextTrees(texts, m), m, m));
      if arguments.Some? { ListIsValid(TextTrees(arguments.value, m), m, depth + 1); }
      TableIsValid(COMMAND_KEYS, [Some(TextTree("command", m)), Some(TextTree(executable, m)), list], m, depth);
    case GitSelector(repository) =>
      TableIsValid(GIT_KEYS, [Some(TextTree("git", m)), Some(TextTree(repository, m))], m, depth);
    case NetworkSelector(host, port) =>
      var number := match port case None => None case Some(n) => Some(TextTree(Decimal(n), m));
      TableIsValid(NETWORK_KEYS, [Some(TextTree("network", m)), Some(TextTree(host, m)), number], m, depth);
  }

  lemma RuleIsValid(rule: PolicyRule, m: Mark, depth: nat)
    requires depth < MAX_NESTING_DEPTH - 2
    ensures ValidTree(RuleTree(rule, m), depth)
  {
    hide GoodKeys, TableTree, SelectorTree, EffectText;
    SchemaKeysAreGood();
    var list := List(TextTrees(ActionTexts(rule.actions), m), m, m);
    ListIsValid(TextTrees(ActionTexts(rule.actions), m), m, depth + 1);
    SelectorIsValid(rule.resource, m, depth + 1);
    var values :=
      [Some(TextTree(rule.id, m)), OptionalText(rule.description, m), EffectTree(Some(rule.effect), m),
       Some(list), Some(SelectorTree(rule.resource, m))];
    TableIsValid(RULE_KEYS, values, m, depth);
  }

  lemma PolicyIsValid(policy: ParsedPolicy, m: Mark)
    ensures ValidTree(PolicyTree(policy, m), 0)
  {
    hide GoodKeys, TableTree, RuleTree, EffectText, Decimal;
    SchemaKeysAreGood();
    forall i | 0 <= i < |policy.rules| ensures ValidTree(RuleTrees(policy.rules, m)[i], 2) {
      RuleIsValid(policy.rules[i], m, 2);
    }
    ListIsValid(RuleTrees(policy.rules, m), m, 1);
    var table := match policy.defaults case None => None case Some(defaults) => Some(DefaultsTree(defaults, m));
    if policy.defaults.Some? { DefaultsAreValid(policy.defaults.value, m, 1); }
    var values := [Some(TextTree(Decimal(policy.version), m)), table, Some(List(RuleTrees(policy.rules, m), m, m))];
    TableIsValid(POLICY_KEYS, values, m, 0);
  }

  lemma DefaultsAreValid(defaults: PolicyDefaults, m: Mark, depth: nat)
    requires depth < MAX_NESTING_DEPTH
    ensures ValidTree(DefaultsTree(defaults, m), depth)
  {
    hide GoodKeys, TableTree, EffectText;
    SchemaKeysAreGood();
    var values :=
      [EffectTree(defaults.file, m), EffectTree(defaults.command, m),
       EffectTree(defaults.git, m), EffectTree(defaults.network, m)];
    TableIsValid(DEFAULT_KEYS, values, m, depth);
  }

  // The theorems

  /** Every policy whose numbers fit is what its written document parses to. */
  lemma DocumentsReadBack(policy: ParsedPolicy, m: Mark, s: Stream)
    requires Representable(policy) && s.events == Document(policy, m)
    ensures ParsedFrom(s).Ok? && SamePolicy(ParsedFrom(s).value, policy)
  {
    hide ReadDocument, PolicyOf, NodeOf, Record, FitsPort;
    var tree := PolicyTree(policy, m);
    var root := NodeOf(tree, "$");
    var tail := [Marked(DocumentEnd, m), Marked(StreamEnd, m)];
    assert s.events[2..] == Emit(tree) + tail;
    PolicyIsValid(policy, m);
    PolicyReads(policy.(locations := Record(root, map[])), m, "$");
    assert IsDocument(s.events, tree, root, tail);
    ReadTreeDocument(s, tree, root, tail);
  }

  /** A policy can be parsed from some document exactly when its numbers fit. */
  lemma ParsedPoliciesAreRepresentable(policy: ParsedPolicy)
    ensures Representable(policy) <==> exists s :: ParsedFrom(s).Ok? && SamePolicy(ParsedFrom(s).value, policy)
  {
    hide ParsedFrom, Document, FitsPort;
    if Representable(policy) {
      var m := Mark(1, 0);
      var s := Stream(Document(policy, m), false, m);
      DocumentsReadBack(policy, m, s);
    }
    if s :| ParsedFrom(s).Ok? && SamePolicy(ParsedFrom(s).value, policy) {
      ParsedIsRepresentable(s);
    }
  }

  lemma ParsedIsRepresentable(s: Stream)
    requires ParsedFrom(s).Ok?
    ensures Representable(ParsedFrom(s).value)
  {
    hide ReadDocument, Record, CheckFields, Optional, DefaultsOf, RuleOf, FitsPort, ValueOf;
    var root := ReadDocument(s).value;
    var policy := ParsedFrom(s).value;
    var items := Required(root, "rules").value.value.items;
    forall rule | rule in policy.rules ensures FitsPort(rule.resource) {
      var i :| 0 <= i < |policy.rules| && policy.rules[i] == rule;
      assert RuleOf(items[i]) == Ok(rule);
      RulePortFits(items[i]);
    }
  }

  lemma RulePortFits(node: Node)
    requires RuleOf(node).Ok?
    ensures FitsPort(RuleOf(node).value.resource)
  {
    hide CheckFields, Optional, ActionsOf, EffectOf, SelectorOf, FitsPort;
    SelectorPortFits(Required(node, "resource").value);
  }

  lemma SelectorPortFits(node: Node)
    requires SelectorOf(node).Ok?
    ensures FitsPort(SelectorOf(node).value)
  {
    hide CheckFields, Optional, TextsOf, ValueOf;
  }
}
