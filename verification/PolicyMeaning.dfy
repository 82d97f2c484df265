/** What an accepted document says, with the words written out. */
module PolicyMeaning {
  import opened Common
  import opened Actions
  import opened FieldPaths
  import opened YamlEvents
  import opened YamlReader
  import opened PolicySyntax
  import opened PolicyFaults

  /** What stands in the first field with a key. */
  function Below(node: Node, key: string): Option<Node> {
    if !node.value.Mapping? then None
    else
      match FieldWith(node.value.fields, key)
      case Some(i) => Some(node.value.fields[i].node)
      case None => None
  }

  function Under(node: Node, key: string): Option<Value> {
    match Below(node, key)
    case Some(found) => Some(found.value)
    case None => None
  }

  predicate SaysEffect(value: Value, effect: Effect) {
    || (value == Scalar("allow") && effect == Allow)
    || (value == Scalar("deny") && effect == Deny)
    || (value == Scalar("ask") && effect == Ask)
  }

  predicate SaysAction(value: Value, action: Action) {
    || (value == Scalar("file.read") && action == File(Read))
    || (value == Scalar("file.write") && action == File(Write))
    || (value == Scalar("file.delete") && action == File(Delete))
    || (value == Scalar("file.rename") && action == File(Rename))
    || (value == Scalar("command.execute") && action == Execute)
    || (value == Scalar("git.commit") && action == Git(Commit))
    || (value == Scalar("git.checkout") && action == Git(Checkout))
    || (value == Scalar("git.reset") && action == Git(Reset))
    || (value == Scalar("git.push") && action == Git(Push))
    || (value == Scalar("git.reset-hard") && action == Git(ResetHard))
    || (value == Scalar("git.force-push") && action == Git(ForcePush))
    || (value == Scalar("network.connect") && action == Connect)
  }

  /** A numeral of decimal digits. */
  predicate SaysNumber(value: Value, n: nat) {
    && value.Scalar? && value.text != "" && (forall i :: 0 <= i < |value.text| ==> '0' <= value.text[i] <= '9')
    && ValueOf(value.text) == n
  }

  predicate SaysDefault(value: Option<Value>, effect: Option<Effect>) {
    if value.None? then effect.None? else effect.Some? && SaysEffect(value.value, effect.value)
  }

  predicate SaysOptionalText(value: Option<Value>, text: Option<string>) {
    if value.None? then text.None? else text.Some? && value.value == Scalar(text.value)
  }

  predicate SaysTexts(value: Value, texts: seq<string>) {
    && value.Sequence? && |value.items| == |texts|
    && forall i :: 0 <= i < |texts| ==> value.items[i].value == Scalar(texts[i])
  }

  predicate SaysSelector(node: Node, selector: ResourceSelector) {
    match selector
    case FileSelector(pattern) =>
      Under(node, "kind") == Some(Scalar("file")) && Under(node, "pattern") == Some(Scalar(pattern))
    case CommandSelector(executable, arguments) =>
      && Under(node, "kind") == Some(Scalar("command")) && Under(node, "executable") == Some(Scalar(executable))
      && var list := Under(node, "arguments");
         if list.None? then arguments.None? else arguments.Some? && SaysTexts(list.value, arguments.value)
    case GitSelector(repository) =>
      Under(node, "kind") == Some(Scalar("git")) && Under(node, "repository") == Some(Scalar(repository))
    case NetworkSelector(host, port) =>
      && Under(node, "kind") == Some(Scalar("network")) && Under(node, "host") == Some(Scalar(host))
      && var number := Under(node, "port");
         if number.None? then port.None? else port.Some? && SaysNumber(number.value, port.value)
  }

  predicate SaysActions(value: Value, actions: seq<Action>) {
    && value.Sequence? && |value.items| == |actions|
    && forall i :: 0 <= i < |actions| ==> SaysAction(value.items[i].value, actions[i])
  }

  predicate SaysRule(node: Node, rule: PolicyRule) {
    && Under(node, "id") == Some(Scalar(rule.id))
    && SaysOptionalText(Under(node, "description"), rule.description)
    && Under(node, "effect").Some? && SaysEffect(Under(node, "effect").value, rule.effect)
    && Under(node, "actions").Some? && SaysActions(Under(node, "actions").value, rule.actions)
    && Below(node, "resource").Some? && SaysSelector(Below(node, "resource").value, rule.resource)
  }

  predicate SaysDefaults(node: Node, defaults: PolicyDefaults) {
    && SaysDefault(Under(node, "file"), defaults.file)
    && SaysDefault(Under(node, "command"), defaults.command)
    && SaysDefault(Under(node, "git"), defaults.git)
    && SaysDefault(Under(node, "network"), defaults.network)
  }

  predicate SaysRules(value: Value, rules: seq<PolicyRule>) {
    && value.Sequence? && |value.items| == |rules|
    && forall i :: 0 <= i < |rules| ==> SaysRule(value.items[i], rules[i])
  }

  predicate SaysPolicy(node: Node, policy: ParsedPolicy) {
    && Under(node, "version").Some? && SaysNumber(Under(node, "version").value, policy.version)
    && (if Below(node, "defaults").None? then policy.defaults.None?
        else policy.defaults.Some? && SaysDefaults(Below(node, "defaults").value, policy.defaults.value))
    && Under(node, "rules").Some? && SaysRules(Under(node, "rules").value, policy.rules)
  }

  // What is decoded is what is said

  lemma OptionalIsBelow(node: Node, key: string)
    ensures Optional(node, key) == Below(node, key)
    ensures Under(node, key) == if Optional(node, key).Some? then Some(Optional(node, key).value.value) else None
  {
    if node.value.Mapping? { FindByIndex(node.value.fields, key); }
  }

  lemma EffectSaid(node: Node)
    requires EffectOf(node).Ok?
    ensures SaysEffect(node.value, EffectOf(node).value)
  {
  }

  lemma ActionSaid(node: Node)
    requires ActionOf(node).Ok?
    ensures SaysAction(node.value, ActionOf(node).value)
  {
  }

  lemma NumberSaid(node: Node, max: nat)
    requires IntegerOf(node, max).Ok?
    ensures SaysNumber(node.value, IntegerOf(node, max).value)
  {
  }

  lemma TextsSaid(node: Node)
    requires TextsOf(node).Ok?
    ensures SaysTexts(node.value, TextsOf(node).value)
  {
    var texts := TextsOf(node).value;
    forall i | 0 <= i < |texts| ensures node.value.items[i].value == Scalar(texts[i]) {
      assert TextOf(node.value.items[i]) == Ok(texts[i]);
    }
  }

  lemma ActionsSaid(node: Node)
    requires ActionsOf(node).Ok?
    ensures SaysActions(node.value, ActionsOf(node).value)
  {
    hide ActionOf, SaysAction;
    var actions := ActionsOf(node).value;
    forall i | 0 <= i < |actions| ensures SaysAction(node.value.items[i].value, actions[i]) {
      assert ActionOf(node.value.items[i]) == Ok(actions[i]);
      ActionSaid(node.value.items[i]);
    }
  }

  lemma DefaultSaid(node: Node, key: string)
    requires Maybe(Optional(node, key), EffectOf).Ok?
    ensures SaysDefault(Under(node, key), Maybe(Optional(node, key), EffectOf).value)
  {
    hide EffectOf, SaysEffect, Optional, Under, Below;
    OptionalIsBelow(node, key);
    if Optional(node, key).Some? { EffectSaid(Optional(node, key).value); }
  }

  lemma DefaultsSaid(node: Node)
    requires DefaultsOf(node).Ok?
    ensures SaysDefaults(node, DefaultsOf(node).value)
  {
    hide EffectOf, SaysDefault, Optional, Under, CheckFields, Maybe;
    DefaultSaid(node, "file");
    DefaultSaid(node, "command");
    DefaultSaid(node, "git");
    DefaultSaid(node, "network");
  }

  lemma TextSaid(node: Node, key: string)
    requires TextField(node, key).Ok?
    ensures Under(node, key) == Some(Scalar(TextField(node, key).value))
  {
    hide Optional, Under, Below;
    OptionalIsBelow(node, key);
  }

  lemma SelectorSaid(node: Node)
    requires SelectorOf(node).Ok?
    ensures SaysSelector(node, SelectorOf(node).value)
  {
    hide Optional, Under, Below, CheckFields, TextField, TextsOf, PortOf, SaysTexts, SaysNumber;
    OptionalIsBelow(node, "kind");
    match SelectorOf(node).value
    case FileSelector(_) => TextSaid(node, "pattern");
    case GitSelector(_) => TextSaid(node, "repository");
    case CommandSelector(_, arguments) =>
      TextSaid(node, "executable");
      OptionalIsBelow(node, "arguments");
      if arguments.Some? { TextsSaid(Optional(node, "arguments").value); }
    case NetworkSelector(_, port) =>
      TextSaid(node, "host");
      OptionalIsBelow(node, "port");
      if port.Some? { PortSaid(Optional(node, "port").value); }
  }

  lemma PortSaid(node: Node)
    requires PortOf(node).Ok?
    ensures SaysNumber(node.value, PortOf(node).value)
  {
    hide IntegerOf, SaysNumber;
    NumberSaid(node, MAX_U16);
  }

  lemma RuleSaid(node: Node)
    requires RuleOf(node).Ok?
    ensures SaysRule(node, RuleOf(node).value)
  {
    hide Optional, Under, Below, CheckFields, TextField, EffectOf, ActionsOf, SelectorOf;
    hide SaysEffect, SaysActions, SaysSelector;
    TextSaid(node, "id");
    OptionalIsBelow(node, "description");
    OptionalIsBelow(node, "effect");
    OptionalIsBelow(node, "actions");
    OptionalIsBelow(node, "resource");
    EffectSaid(Optional(node, "effect").value);
    ActionsSaid(Optional(node, "actions").value);
    SelectorSaid(Optional(node, "resource").value);
  }

  lemma RulesSaid(node: Node)
    requires RulesOf(node).Ok?
    ensures SaysRules(node.value, RulesOf(node).value)
  {
    hide RuleOf, SaysRule;
    var rules := RulesOf(node).value;
    forall i | 0 <= i < |rules| ensures SaysRule(node.value.items[i], rules[i]) {
      assert RuleOf(node.value.items[i]) == Ok(rules[i]);
      RuleSaid(node.value.items[i]);
    }
  }

  /** An accepted policy is what its document says. */
  lemma PoliciesAreSaid(root: Node, locations: Locations)
    requires PolicyOf(root, locations).Ok?
    ensures SaysPolicy(root, PolicyOf(root, locations).value)
  {
    hide Optional, Under, Below, CheckFields, IntegerOf, DefaultsOf, RulesOf, SaysNumber, SaysDefaults, SaysRules;
    OptionalIsBelow(root, "version");
    OptionalIsBelow(root, "defaults");
    OptionalIsBelow(root, "rules");
    NumberSaid(Optional(root, "version").value, MAX_U64);
    if Optional(root, "defaults").Some? { DefaultsSaid(Optional(root, "defaults").value); }
    RulesSaid(Optional(root, "rules").value);
  }
}
