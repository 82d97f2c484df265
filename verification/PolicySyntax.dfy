/** Parsed policies, and decoding a located tree into one. */
module PolicySyntax {
  import opened Common
  import opened Actions
  import opened FieldPaths
  import opened YamlEvents
  import opened YamlReader

  datatype Effect = Allow | Deny | Ask

  datatype PolicyDefaults = PolicyDefaults(
    file: Option<Effect>,
    command: Option<Effect>,
    git: Option<Effect>,
    network: Option<Effect>)

  datatype ResourceSelector =
    | FileSelector(pattern: string)
    | CommandSelector(executable: string, arguments: Option<seq<string>>)
    | GitSelector(repository: string)
    | NetworkSelector(host: string, port: Option<nat>)

  datatype PolicyRule = PolicyRule(
    id: string,
    description: Option<string>,
    effect: Effect,
    actions: seq<Action>,
    resource: ResourceSelector)

  datatype ParsedPolicy = ParsedPolicy(
    version: nat,
    defaults: Option<PolicyDefaults>,
    rules: seq<PolicyRule>,
    locations: Locations)

  /** Equal up to where the parts were written. */
  predicate SamePolicy(a: ParsedPolicy, b: ParsedPolicy) {
    a.version == b.version && a.defaults == b.defaults && a.rules == b.rules
  }

  const MAX_U64: nat := 0xFFFF_FFFF_FFFF_FFFF
  const MAX_U16: nat := 0xFFFF

  type Decoded<+T> = Result<T, ParseError>

  function Refuse<T>(node: Node, kind: ParseErrorKind): Decoded<T> {
    Error(kind, node.location, node.path)
  }

  function FieldsOf(node: Node): Decoded<seq<Field>> {
    if node.value.Mapping? then Ok(node.value.fields) else Refuse(node, InvalidType)
  }

  /** The first field with a key outside the allowed ones is an error. */
  function CheckKeys(fields: seq<Field>, allowed: seq<string>): Decoded<()> {
    if fields == [] then Ok(())
    else if fields[0].key !in allowed then Error(UnknownField, fields[0].location, fields[0].node.path)
    else CheckKeys(fields[1..], allowed)
  }

  function CheckFields(node: Node, allowed: seq<string>): Decoded<()> {
    var fields :- FieldsOf(node);
    CheckKeys(fields, allowed)
  }

  function Find(fields: seq<Field>, key: string): Option<Node> {
    if fields == [] then None else if fields[0].key == key then Some(fields[0].node) else Find(fields[1..], key)
  }

  function Optional(node: Node, key: string): Option<Node> {
    if node.value.Mapping? then Find(node.value.fields, key) else None
  }

  function Required(node: Node, key: string): Decoded<Node> {
    match Optional(node, key)
    case Some(field) => Ok(field)
    case None => Error(MissingField, node.location, ChildPath(node.path, key))
  }

  function TextOf(node: Node): Decoded<string> {
    if node.value.Scalar? then Ok(node.value.text) else Refuse(node, InvalidType)
  }

  function ItemsOf(node: Node): Decoded<seq<Node>> {
    if node.value.Sequence? then Ok(node.value.items) else Refuse(node, InvalidType)
  }

  /** An unsigned decimal number that fits. */
  function IntegerOf(node: Node, max: nat): Decoded<nat> {
    var text :- TextOf(node);
    if text == "" || !AllDigits(text) || ValueOf(text) > max then Refuse(node, InvalidType) else Ok(ValueOf(text))
  }

  function EffectOf(node: Node): Decoded<Effect> {
    var text :- TextOf(node);
    if text == "allow" then Ok(Allow)
    else if text == "deny" then Ok(Deny)
    else if text == "ask" then Ok(Ask)
    else Refuse(node, UnknownEffect)
  }

  function NamedAction(name: string): Option<Action> {
    if name == "file.read" then Some(File(Read))
    else if name == "file.write" then Some(File(Write))
    else if name == "file.delete" then Some(File(Delete))
    else if name == "file.rename" then Some(File(Rename))
    else if name == "command.execute" then Some(Execute)
    else if name == "git.commit" then Some(Git(Commit))
    else if name == "git.checkout" then Some(Git(Checkout))
    else if name == "git.reset" then Some(Git(Reset))
    else if name == "git.push" then Some(Git(Push))
    else if name == "git.reset-hard" then Some(Git(ResetHard))
    else if name == "git.force-push" then Some(Git(ForcePush))
    else if name == "network.connect" then Some(Connect)
    else None
  }

  function ActionOf(node: Node): Decoded<Action> {
    var text :- TextOf(node);
    match NamedAction(text)
    case Some(action) => Ok(action)
    case None => Refuse(node, UnknownAction)
  }

  /** Decode an optional part. */
  function Maybe<T>(node: Option<Node>, decode: Node -> Decoded<T>): Decoded<Option<T>> {
    match node
    case None => Ok(None)
    case Some(present) =>
      var value :- decode(present);
      Ok(Some(value))
  }

  /** Decode every item; the first failure wins. */
  function Each<T>(items: seq<Node>, decode: Node -> Decoded<T>): (r: Decoded<seq<T>>)
    ensures r.Ok? ==> |r.value| == |items| && forall i :: 0 <= i < |items| ==> decode(items[i]) == Ok(r.value[i])
  {
    if items == [] then Ok([])
    else
      var first :- decode(items[0]);
      var rest :- Each(items[1..], decode);
      Ok([first] + rest)
  }

  function TextField(node: Node, key: string): Decoded<string> {
    var field :- Required(node, key);
    TextOf(field)
  }

  function TextsOf(node: Node): Decoded<seq<string>> {
    var items :- ItemsOf(node);
    Each(items, TextOf)
  }

  function ActionsOf(node: Node): Decoded<seq<Action>> {
    var items :- ItemsOf(node);
    Each(items, ActionOf)
  }

  function PortOf(node: Node): Decoded<nat> {
    IntegerOf(node, MAX_U16)
  }

  const DEFAULT_KEYS := ["file", "command", "git", "network"]

  function DefaultsOf(node: Node): Decoded<PolicyDefaults> {
    var _ :- CheckFields(node, DEFAULT_KEYS);
    var file :- Maybe(Optional(node, "file"), EffectOf);
    var command :- Maybe(Optional(node, "command"), EffectOf);
    var git :- Maybe(Optional(node, "git"), EffectOf);
    var network :- Maybe(Optional(node, "network"), EffectOf);
    Ok(PolicyDefaults(file, command, git, network))
  }

  const FILE_KEYS := ["kind", "pattern"]
  const COMMAND_KEYS := ["kind", "executable", "arguments"]
  const GIT_KEYS := ["kind", "repository"]
  const NETWORK_KEYS := ["kind", "host", "port"]

  function FileSelectorOf(node: Node): Decoded<ResourceSelector> {
    var _ :- CheckFields(node, FILE_KEYS);
    var pattern :- TextField(node, "pattern");
    Ok(FileSelector(pattern))
  }

  function CommandSelectorOf(node: Node): Decoded<ResourceSelector> {
    var _ :- CheckFields(node, COMMAND_KEYS);
    var executable :- TextField(node, "executable");
    var arguments :- Maybe(Optional(node, "arguments"), TextsOf);
    Ok(CommandSelector(executable, arguments))
  }

  function GitSelectorOf(node: Node): Decoded<ResourceSelector> {
    var _ :- CheckFields(node, GIT_KEYS);
    var repository :- TextField(node, "repository");
    Ok(GitSelector(repository))
  }

  function NetworkSelectorOf(node: Node): Decoded<ResourceSelector> {
    var _ :- CheckFields(node, NETWORK_KEYS);
    var host :- TextField(node, "host");
    var port :- Maybe(Optional(node, "port"), PortOf);
    Ok(NetworkSelector(host, port))
  }

  function SelectorOf(node: Node): Decoded<ResourceSelector> {
    var _ :- FieldsOf(node);
    var kind :- Required(node, "kind");
    var name :- TextOf(kind);
    if name == "file" then FileSelectorOf(node)
    else if name == "command" then CommandSelectorOf(node)
    else if name == "git" then GitSelectorOf(node)
    else if name == "network" then NetworkSelectorOf(node)
    else Refuse(kind, UnknownResourceKind)
  }

  const RULE_KEYS := ["id", "description", "effect", "actions", "resource"]

  function RuleOf(node: Node): Decoded<PolicyRule> {
    var _ :- CheckFields(node, RULE_KEYS);
    var id :- TextField(node, "id");
    var description :- Maybe(Optional(node, "description"), TextOf);
    var effectNode :- Required(node, "effect");
    var effect :- EffectOf(effectNode);
    var actionsNode :- Required(node, "actions");
    var actions :- ActionsOf(actionsNode);
    var resourceNode :- Required(node, "resource");
    var resource :- SelectorOf(resourceNode);
    Ok(PolicyRule(id, description, effect, actions, resource))
  }

  function RulesOf(node: Node): Decoded<seq<PolicyRule>> {
    var items :- ItemsOf(node);
    Each(items, RuleOf)
  }

  const POLICY_KEYS := ["version", "defaults", "rules"]

  function PolicyOf(root: Node, locations: Locations): Decoded<ParsedPolicy> {
    var _ :- CheckFields(root, POLICY_KEYS);
    var versionNode :- Required(root, "version");
    var version :- IntegerOf(versionNode, MAX_U64);
    var defaults :- Maybe(Optional(root, "defaults"), DefaultsOf);
    var rulesNode :- Required(root, "rules");
    var rules :- RulesOf(rulesNode);
    Ok(ParsedPolicy(version, defaults, rules, locations))
  }

  /** Parsing a policy from its events. */
  function ParsedFrom(s: Stream): Decoded<ParsedPolicy> {
    var root :- ReadDocument(s);
    PolicyOf(root, Record(root, map[]))
  }

  method ParsePolicy(s: Stream) returns (r: Decoded<ParsedPolicy>)
    ensures r == ParsedFrom(s)
  {
    var reader := new Reader(s);
    var document :- reader.ReadWhole();
    return PolicyOf(document, reader.locations);
  }
}
