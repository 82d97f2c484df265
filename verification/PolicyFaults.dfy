/** Every error of the decoder, from the schema: the first value in schema order that does not
    conform. */
module PolicyFaults {
  import opened Common
  import opened Actions
  import opened FieldPaths
  import opened YamlEvents
  import opened YamlReader
  import opened PolicySyntax
  import opened PolicySchema

  // What is wrong with a value

  function About(node: Node, kind: ParseErrorKind): ParseError {
    ParseError(kind, node.location, node.path, None)
  }

  /** The first field with a key. */
  function FieldWith(fields: seq<Field>, key: string): (r: Option<nat>)
    ensures r.Some? ==> r.value < |fields| && fields[r.value].key == key
  {
    if fields == [] then None
    else if fields[0].key == key then Some(0)
    else
      match FieldWith(fields[1..], key)
      case Some(i) => Some(i + 1)
      case None => None
  }

  predicate IsPart(parts: seq<Part>, key: string) {
    exists p :: 0 <= p < |parts| && parts[p].key == key
  }

  /** The first field that is no part. */
  function StrangeField(fields: seq<Field>, parts: seq<Part>): Option<ParseError> {
    if fields == [] then None
    else if !IsPart(parts, fields[0].key) then
      Some(ParseError(UnknownField, fields[0].location, fields[0].node.path, None))
    else StrangeField(fields[1..], parts)
  }

  function KindWith(kinds: seq<Kind>, name: string): (r: Option<nat>)
    ensures r.Some? ==> r.value < |kinds| && kinds[r.value].name == name
  {
    if kinds == [] then None
    else if kinds[0].name == name then Some(0)
    else
      match KindWith(kinds[1..], name)
      case Some(k) => Some(k + 1)
      case None => None
  }

  function FaultOf(node: Node, schema: Schema): Option<ParseError>
    decreases node, 2, 0
  {
    match schema
    case Text => if node.value.Scalar? then None else Some(About(node, InvalidType))
    case OneOf(texts) =>
      if !node.value.Scalar? then Some(About(node, InvalidType))
      else if node.value.text in texts then None
      else Some(About(node, if texts == ["allow", "deny", "ask"] then UnknownEffect else UnknownAction))
    case Number(max) =>
      if node.value.Scalar? && IsNumber(node.value.text, max) then None else Some(About(node, InvalidType))
    case ListOf(item) =>
      if !node.value.Sequence? then Some(About(node, InvalidType)) else ItemFault(node, item, 0)
    case Fields(parts) => FieldsFault(node, parts)
    case ByKind(kinds) =>
      if !node.value.Mapping? then Some(About(node, InvalidType))
      else
        match FieldWith(node.value.fields, "kind")
        case None => Some(About(node, MissingField).(path := ChildPath(node.path, "kind")))
        case Some(i) =>
          var kind := node.value.fields[i].node;
          if !kind.value.Scalar? then Some(About(kind, InvalidType))
          else
            match KindWith(kinds, kind.value.text)
            case None => Some(About(kind, UnknownResourceKind))
            case Some(k) => FieldsFault(node, kinds[k].parts)
  }

  /** The first item that does not conform, from one on. */
  function ItemFault(node: Node, item: Schema, i: nat): Option<ParseError>
    requires node.value.Sequence?
    decreases node, 0, |node.value.items| - i
  {
    if i >= |node.value.items| then None
    else
      var fault := FaultOf(node.value.items[i], item);
      if fault.Some? then fault else ItemFault(node, item, i + 1)
  }

  function FieldsFault(node: Node, parts: seq<Part>): Option<ParseError>
    decreases node, 1, 0
  {
    if !node.value.Mapping? then Some(About(node, InvalidType))
    else
      var strange := StrangeField(node.value.fields, parts);
      if strange.Some? then strange else PartFault(node, parts, 0)
  }

  /** The first part that is missing or does not conform, from one on. */
  function PartFault(node: Node, parts: seq<Part>, p: nat): Option<ParseError>
    requires node.value.Mapping?
    decreases node, 0, |parts| - p
  {
    if p >= |parts| then None
    else
      var fault :=
        match FieldWith(node.value.fields, parts[p].key)
        case Some(i) => FaultOf(node.value.fields[i].node, parts[p].schema)
        case None =>
          if parts[p].required then Some(About(node, MissingField).(path := ChildPath(node.path, parts[p].key)))
          else None;
      if fault.Some? then fault else PartFault(node, parts, p + 1)
  }

  // The decoders report these faults

  /** A result is an error exactly when there is a fault, and that is the error. */
  predicate Agrees<T>(r: Decoded<T>, fault: Option<ParseError>) {
    match r
    case Ok(_) => fault.None?
    case Err(error) => fault == Some(error)
  }

  ghost predicate Reports<T(!new)>(decode: Node -> Decoded<T>, schema: Schema) {
    forall node :: Agrees(decode(node), FaultOf(node, schema))
  }

  lemma TextReports()
    ensures Reports(TextOf, Text)
  {
  }

  lemma NumberAgrees(node: Node, max: nat)
    ensures Agrees(IntegerOf(node, max), FaultOf(node, Number(max)))
  {
  }

  lemma PortReports()
    ensures Reports(PortOf, PORT)
  {
    forall node ensures Agrees(PortOf(node), FaultOf(node, PORT)) { NumberAgrees(node, PORT.max); }
  }

  lemma EffectReports()
    ensures Reports(EffectOf, EFFECT)
  {
  }

  lemma NamedActions(name: string)
    ensures NamedAction(name).Some? <==> name in ACTION.texts
  {
  }

  lemma ActionReports()
    ensures Reports(ActionOf, ACTION)
  {
    hide NamedAction;
    forall node ensures Agrees(ActionOf(node), FaultOf(node, ACTION)) {
      if node.value.Scalar? { NamedActions(node.value.text); }
      assert |ACTION.texts| != |["allow", "deny", "ask"]|;
    }
  }

  lemma {:induction false} EachAgrees<T(!new)>(node: Node, decode: Node -> Decoded<T>, item: Schema, i: nat)
    requires Reports(decode, item) && node.value.Sequence? && i <= |node.value.items|
    ensures Agrees(Each(node.value.items[i..], decode), ItemFault(node, item, i))
    decreases |node.value.items| - i
  {
    hide FaultOf;
    if i < |node.value.items| {
      EachAgrees(node, decode, item, i + 1);
      assert node.value.items[i..][1..] == node.value.items[i + 1..];
      assert Agrees(decode(node.value.items[i]), FaultOf(node.value.items[i], item));
    }
  }

  lemma ListAgrees<T(!new)>(node: Node, decode: Node -> Decoded<T>, item: Schema)
    requires Reports(decode, item)
    ensures ItemsOf(node).Err? ==> Agrees(ItemsOf(node), FaultOf(node, ListOf(item)))
    ensures ItemsOf(node).Ok? ==> Agrees(Each(ItemsOf(node).value, decode), FaultOf(node, ListOf(item)))
  {
    if node.value.Sequence? {
      EachAgrees(node, decode, item, 0);
      assert node.value.items[0..] == node.value.items;
    }
  }

  lemma TextsReport()
    ensures Reports(TextsOf, ListOf(Text))
  {
    hide FaultOf, Each;
    TextReports();
    forall node ensures Agrees(TextsOf(node), FaultOf(node, ListOf(Text))) { ListAgrees(node, TextOf, Text); }
  }

  lemma ActionsReport()
    ensures Reports(ActionsOf, ListOf(ACTION))
  {
    hide FaultOf, Each;
    ActionReports();
    forall node ensures Agrees(ActionsOf(node), FaultOf(node, ListOf(ACTION))) { ListAgrees(node, ActionOf, ACTION); }
  }

  lemma {:induction false} FindByIndex(fields: seq<Field>, key: string)
    ensures Find(fields, key) == match FieldWith(fields, key)
                                 case Some(i) => Some(fields[i].node)
                                 case None => None
  {
    if fields != [] { FindByIndex(fields[1..], key); }
  }

  lemma {:induction false} KeysAgree(fields: seq<Field>, parts: seq<Part>)
    ensures Agrees(CheckKeys(fields, KeysOf(parts)), StrangeField(fields, parts))
  {
    if fields != [] {
      KeysAgree(fields[1..], parts);
      var key, keys := fields[0].key, KeysOf(parts);
      assert key in keys <==> IsPart(parts, key) by {
        if key in keys {
          var p :| 0 <= p < |keys| && keys[p] == key;
          assert parts[p].key == key;
        }
        if IsPart(parts, key) {
          var p :| 0 <= p < |parts| && parts[p].key == key;
          assert keys[p] == key;
        }
      }
    }
  }

  // Records, part by part

  lemma RequiredAgrees<T(!new)>(node: Node, parts: seq<Part>, p: nat, decode: Node -> Decoded<T>)
    requires node.value.Mapping? && p < |parts| && parts[p].required && Reports(decode, parts[p].schema)
    ensures var found := Required(node, parts[p].key);
            var fault := PartFault(node, parts, p);
            if found.Err? then fault == Some(found.error)
            else
              var r := decode(found.value);
              if r.Err? then fault == Some(r.error) else fault == PartFault(node, parts, p + 1)
  {
    hide FaultOf, Find;
    FindByIndex(node.value.fields, parts[p].key);
    if Required(node, parts[p].key).Ok? {
      var found := Required(node, parts[p].key).value;
      assert Agrees(decode(found), FaultOf(found, parts[p].schema));
    }
  }

  lemma OptionalAgrees<T(!new)>(node: Node, parts: seq<Part>, p: nat, decode: Node -> Decoded<T>)
    requires node.value.Mapping? && p < |parts| && !parts[p].required && Reports(decode, parts[p].schema)
    ensures var r := Maybe(Optional(node, parts[p].key), decode);
            var fault := PartFault(node, parts, p);
            if r.Err? then fault == Some(r.error) else fault == PartFault(node, parts, p + 1)
  {
    hide FaultOf, Find;
    FindByIndex(node.value.fields, parts[p].key);
    var found := Optional(node, parts[p].key);
    if found.Some? {
      assert Agrees(decode(found.value), FaultOf(found.value, parts[p].schema));
    }
  }

  lemma PartsEnd(node: Node, parts: seq<Part>)
    requires node.value.Mapping?
    ensures PartFault(node, parts, |parts|) == None
  {
  }

  /** The check of the keys, and what is left when it succeeds. */
  lemma KeysFirst(node: Node, parts: seq<Part>)
    ensures var r := CheckFields(node, KeysOf(parts));
            var fault := FieldsFault(node, parts);
            if r.Err? then fault == Some(r.error) else node.value.Mapping? && fault == PartFault(node, parts, 0)
  {
    hide PartFault;
    if node.value.Mapping? { KeysAgree(node.value.fields, parts); }
  }

  lemma DefaultsAgree(node: Node)
    ensures Agrees(DefaultsOf(node), FieldsFault(node, DEFAULT_PARTS))
  {
    hide FieldsFault, PartFault, Maybe, EffectOf, CheckFields, Reports, Optional;
    EffectReports();
    KeysFirst(node, DEFAULT_PARTS);
    assert KeysOf(DEFAULT_PARTS) == DEFAULT_KEYS;
    if CheckFields(node, DEFAULT_KEYS).Ok? {
      OptionalAgrees(node, DEFAULT_PARTS, 0, EffectOf);
      OptionalAgrees(node, DEFAULT_PARTS, 1, EffectOf);
      OptionalAgrees(node, DEFAULT_PARTS, 2, EffectOf);
      OptionalAgrees(node, DEFAULT_PARTS, 3, EffectOf);
      PartsEnd(node, DEFAULT_PARTS);
    }
  }

  /** The kind of a selector is a text whenever its other parts are read. */
  predicate KindIsText(node: Node) {
    && node.value.Mapping? && FieldWith(node.value.fields, "kind").Some?
    && node.value.fields[FieldWith(node.value.fields, "kind").value].node.value.Scalar?
  }

  lemma KindPasses(node: Node, parts: seq<Part>)
    requires KindIsText(node) && parts != [] && parts[0] == Part("kind", true, Text)
    ensures PartFault(node, parts, 0) == PartFault(node, parts, 1)
  {
  }

  lemma FileAgrees(node: Node)
    requires KindIsText(node)
    ensures Agrees(FileSelectorOf(node), FieldsFault(node, FILE_PARTS))
  {
    hide FieldsFault, PartFault, CheckFields, Reports, Required, TextOf, KindIsText;
    TextReports();
    SelectorPartsAreDistinct();
    KeysFirst(node, FILE_PARTS);
    if CheckFields(node, FILE_KEYS).Ok? {
      KindPasses(node, FILE_PARTS);
      RequiredAgrees(node, FILE_PARTS, 1, TextOf);
      PartsEnd(node, FILE_PARTS);
    }
  }

  lemma CommandAgrees(node: Node)
    requires KindIsText(node)
    ensures Agrees(CommandSelectorOf(node), FieldsFault(node, COMMAND_PARTS))
  {
    hide FieldsFault, PartFault, CheckFields, Reports, Required, Optional, Maybe, TextOf, TextsOf, KindIsText;
    TextReports();
    TextsReport();
    SelectorPartsAreDistinct();
    KeysFirst(node, COMMAND_PARTS);
    if CheckFields(node, COMMAND_KEYS).Ok? {
      KindPasses(node, COMMAND_PARTS);
      RequiredAgrees(node, COMMAND_PARTS, 1, TextOf);
      OptionalAgrees(node, COMMAND_PARTS, 2, TextsOf);
      PartsEnd(node, COMMAND_PARTS);
    }
  }

  lemma GitAgrees(node: Node)
    requires KindIsText(node)
    ensures Agrees(GitSelectorOf(node), FieldsFault(node, GIT_PARTS))
  {
    hide FieldsFault, PartFault, CheckFields, Reports, Required, TextOf, KindIsText;
    TextReports();
    SelectorPartsAreDistinct();
    KeysFirst(node, GIT_PARTS);
    if CheckFields(node, GIT_KEYS).Ok? {
      KindPasses(node, GIT_PARTS);
      RequiredAgrees(node, GIT_PARTS, 1, TextOf);
      PartsEnd(node, GIT_PARTS);
    }
  }

  lemma NetworkAgrees(node: Node)
    requires KindIsText(node)
    ensures Agrees(NetworkSelectorOf(node), FieldsFault(node, NETWORK_PARTS))
  {
    hide FieldsFault, PartFault, CheckFields, Reports, Required, Optional, Maybe, TextOf, PortOf, KindIsText;
    TextReports();
    PortReports();
    SelectorPartsAreDistinct();
    KeysFirst(node, NETWORK_PARTS);
    if CheckFields(node, NETWORK_KEYS).Ok? {
      KindPasses(node, NETWORK_PARTS);
      RequiredAgrees(node, NETWORK_PARTS, 1, TextOf);
      OptionalAgrees(node, NETWORK_PARTS, 2, PortOf);
      PartsEnd(node, NETWORK_PARTS);
    }
  }

  /** The kinds of a selector by name. */
  lemma KindsByName(name: string)
    ensures KindWith(SELECTOR.kinds, name) ==
            if name == "file" then Some(0) else if name == "command" then Some(1)
            else if name == "git" then Some(2) else if name == "network" then Some(3) else None
  {
    var kinds := SELECTOR.kinds;
    assert kinds[1..][1..] == kinds[2..] && kinds[2..][1..] == kinds[3..] && kinds[3..][1..] == [];
    assert KindWith(kinds[3..], name) == if name == "network" then Some(0) else None;
    assert KindWith(kinds[2..], name) ==
           if name == "git" then Some(0) else if name == "network" then Some(1) else None;
  }

  lemma SelectorReports()
    ensures Reports(SelectorOf, SELECTOR)
  {
    forall node ensures Agrees(SelectorOf(node), FaultOf(node, SELECTOR)) { SelectorAgrees(node); }
  }

  lemma SelectorAgrees(node: Node)
    ensures Agrees(SelectorOf(node), FaultOf(node, SELECTOR))
  {
    hide FieldsFault, FileSelectorOf, CommandSelectorOf, GitSelectorOf, NetworkSelectorOf, KindWith, Find, FieldWith;
    if node.value.Mapping? {
      FindByIndex(node.value.fields, "kind");
      if KindIsText(node) {
        var i := FieldWith(node.value.fields, "kind").value;
        KindsByName(node.value.fields[i].node.value.text);
        FileAgrees(node);
        CommandAgrees(node);
        GitAgrees(node);
        NetworkAgrees(node);
      }
    }
  }

  lemma RuleAgrees(node: Node)
    ensures Agrees(RuleOf(node), FieldsFault(node, RULE_PARTS))
  {
    hide FieldsFault, PartFault, CheckFields, Reports, Required, Optional, Maybe;
    hide TextOf, EffectOf, ActionsOf, SelectorOf;
    TextReports();
    EffectReports();
    ActionsReport();
    SelectorReports();
    KeysFirst(node, RULE_PARTS);
    RulePartsAreDistinct();
    if CheckFields(node, RULE_KEYS).Ok? {
      RequiredAgrees(node, RULE_PARTS, 0, TextOf);
      OptionalAgrees(node, RULE_PARTS, 1, TextOf);
      RequiredAgrees(node, RULE_PARTS, 2, EffectOf);
      RequiredAgrees(node, RULE_PARTS, 3, ActionsOf);
      RequiredAgrees(node, RULE_PARTS, 4, SelectorOf);
      PartsEnd(node, RULE_PARTS);
    }
  }

  lemma RulesReport()
    ensures Reports(RulesOf, ListOf(RULE))
  {
    hide FaultOf, Each, RuleOf;
    forall node ensures Agrees(RuleOf(node), FaultOf(node, RULE)) {
      RuleAgrees(node);
      FieldsFaultOf(node, RULE_PARTS);
    }
    forall node ensures Agrees(RulesOf(node), FaultOf(node, ListOf(RULE))) { ListAgrees(node, RuleOf, RULE); }
  }

  lemma FieldsFaultOf(node: Node, parts: seq<Part>)
    ensures FaultOf(node, Fields(parts)) == FieldsFault(node, parts)
  {
  }

  lemma DefaultsReport()
    ensures Reports(DefaultsOf, DEFAULTS)
  {
    hide FaultOf, DefaultsOf;
    forall node ensures Agrees(DefaultsOf(node), FaultOf(node, DEFAULTS)) {
      DefaultsAgree(node);
      FieldsFaultOf(node, DEFAULT_PARTS);
    }
  }

  lemma VersionReports()
    ensures Reports(VersionOf, VERSION)
  {
    forall node ensures Agrees(VersionOf(node), FaultOf(node, VERSION)) { NumberAgrees(node, VERSION.max); }
  }

  /** A value that is no policy is refused for the first fault in the order of the schema: a wrong
      type, an unknown field, a missing part or an unknown name, at the value it is about. */
  lemma RefusalsAreFaults(root: Node, locations: Locations)
    ensures Agrees(PolicyOf(root, locations), FaultOf(root, POLICY))
  {
    hide FaultOf, FieldsFault, PartFault, CheckFields, Reports, Required, Optional, Maybe;
    hide IntegerOf, DefaultsOf, RulesOf;
    VersionReports();
    DefaultsReport();
    RulesReport();
    FieldsFaultOf(root, POLICY_PARTS);
    KeysFirst(root, POLICY_PARTS);
    PolicyPartsAreDistinct();
    if CheckFields(root, POLICY_KEYS).Ok? {
      RequiredAgrees(root, POLICY_PARTS, 0, VersionOf);
      OptionalAgrees(root, POLICY_PARTS, 1, DefaultsOf);
      RequiredAgrees(root, POLICY_PARTS, 2, RulesOf);
      PartsEnd(root, POLICY_PARTS);
    }
  }
}
