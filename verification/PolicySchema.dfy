/** The schema of policy documents: which documents decode, and which decode alike whatever
    their order of fields, scalar styles, places and spelling of numbers. */
module PolicySchema {
  import opened Common
  import opened Actions
  import opened FieldPaths
  import opened YamlEvents
  import opened YamlReader
  import opened YamlTheorems
  import opened PolicySyntax
  import opened PolicyDocuments
  import opened PolicyLocations

  datatype Schema =
    | Text
    | OneOf(texts: seq<string>)
    | Number(max: nat)
    | ListOf(item: Schema)
    | Fields(parts: seq<Part>)
    | ByKind(kinds: seq<Kind>)

  datatype Part = Part(key: string, required: bool, schema: Schema)

  /** The parts of a mapping whose `kind` is `name`. */
  datatype Kind = Kind(name: string, parts: seq<Part>)

  // The schema

  const EFFECT := OneOf(["allow", "deny", "ask"])

  const ACTION := OneOf([
    "file.read", "file.write", "file.delete", "file.rename", "command.execute", "git.commit", "git.checkout",
    "git.reset", "git.push", "git.reset-hard", "git.force-push", "network.connect"])

  const PORT := Number(65535)
  const VERSION := Number(18_446_744_073_709_551_615)

  const FILE_PARTS := [Part("kind", true, Text), Part("pattern", true, Text)]

  const COMMAND_PARTS :=
    [Part("kind", true, Text), Part("executable", true, Text), Part("arguments", false, ListOf(Text))]

  const GIT_PARTS := [Part("kind", true, Text), Part("repository", true, Text)]

  const NETWORK_PARTS := [Part("kind", true, Text), Part("host", true, Text), Part("port", false, PORT)]

  const SELECTOR := ByKind([
    Kind("file", FILE_PARTS), Kind("command", COMMAND_PARTS), Kind("git", GIT_PARTS), Kind("network", NETWORK_PARTS)])

  const RULE_PARTS := [
    Part("id", true, Text), Part("description", false, Text), Part("effect", true, EFFECT),
    Part("actions", true, ListOf(ACTION)), Part("resource", true, SELECTOR)]

  const RULE := Fields(RULE_PARTS)

  const DEFAULT_PARTS := [
    Part("file", false, EFFECT), Part("command", false, EFFECT), Part("git", false, EFFECT),
    Part("network", false, EFFECT)]

  const DEFAULTS := Fields(DEFAULT_PARTS)

  const POLICY_PARTS := [
    Part("version", true, VERSION), Part("defaults", false, DEFAULTS), Part("rules", true, ListOf(RULE))]

  const POLICY := Fields(POLICY_PARTS)

  // Conforming to a schema

  predicate IsNumber(text: string, max: nat) {
    text != "" && AllDigits(text) && ValueOf(text) <= max
  }

  predicate IsKind(node: Node, name: string) {
    node.value.Mapping? &&
    exists i :: 0 <= i < |node.value.fields| && node.value.fields[i].key == "kind"
                && node.value.fields[i].node.value == Scalar(name)
  }

  predicate Conforms(node: Node, schema: Schema)
    decreases node, 1
  {
    match schema
    case Text => node.value.Scalar?
    case OneOf(texts) => node.value.Scalar? && node.value.text in texts
    case Number(max) => node.value.Scalar? && IsNumber(node.value.text, max)
    case ListOf(item) =>
      node.value.Sequence? && forall i :: 0 <= i < |node.value.items| ==> Conforms(node.value.items[i], item)
    case Fields(parts) => HasParts(node, parts)
    case ByKind(kinds) =>
      exists k :: 0 <= k < |kinds| && IsKind(node, kinds[k].name) && HasParts(node, kinds[k].parts)
  }

  /** Every field is one of the parts, and every required part is there. */
  predicate HasParts(node: Node, parts: seq<Part>)
    decreases node, 0
  {
    && node.value.Mapping?
    && (forall i :: 0 <= i < |node.value.fields| ==>
          exists p :: 0 <= p < |parts| && parts[p].key == node.value.fields[i].key
                      && Conforms(node.value.fields[i].node, parts[p].schema))
    && (forall p :: 0 <= p < |parts| && parts[p].required ==> HasKey(node, parts[p].key))
  }

  predicate HasKey(node: Node, key: string) {
    node.value.Mapping? && exists i :: 0 <= i < |node.value.fields| && node.value.fields[i].key == key
  }

  // Meaning the same under a schema

  /** Two values mean the same: equal texts, numbers of equal value, lists that agree item by
      item, mappings with the same keys that agree under each, in whatever order. */
  predicate Same(schema: Schema, a: Node, b: Node)
    decreases a, 1
  {
    match schema
    case Text => a.value.Scalar? && a.value == b.value
    case OneOf(_) => a.value.Scalar? && a.value == b.value
    case Number(max) =>
      && a.value.Scalar? && b.value.Scalar? && IsNumber(a.value.text, max) && IsNumber(b.value.text, max)
      && ValueOf(a.value.text) == ValueOf(b.value.text)
    case ListOf(item) =>
      && a.value.Sequence? && b.value.Sequence? && |a.value.items| == |b.value.items|
      && forall i :: 0 <= i < |a.value.items| ==> Same(item, a.value.items[i], b.value.items[i])
    case Fields(parts) => SameParts(parts, a, b)
    case ByKind(kinds) =>
      forall k :: 0 <= k < |kinds| ==>
        && (IsKind(a, kinds[k].name) <==> IsKind(b, kinds[k].name))
        && (IsKind(a, kinds[k].name) ==> SameParts(kinds[k].parts, a, b))
  }

  predicate SameParts(parts: seq<Part>, a: Node, b: Node)
    decreases a, 0
  {
    && a.value.Mapping? && b.value.Mapping?
    && (forall i :: 0 <= i < |a.value.fields| ==> HasKey(b, a.value.fields[i].key))
    && (forall j :: 0 <= j < |b.value.fields| ==> HasKey(a, b.value.fields[j].key))
    && (forall i, j, p ::
          0 <= i < |a.value.fields| && 0 <= j < |b.value.fields| && 0 <= p < |parts|
          && a.value.fields[i].key == parts[p].key && b.value.fields[j].key == parts[p].key ==>
            Same(parts[p].schema, a.value.fields[i].node, b.value.fields[j].node))
  }

  lemma {:induction false} SameConforms(schema: Schema, a: Node, b: Node)
    requires Same(schema, a, b) && Conforms(a, schema)
    ensures Conforms(b, schema)
    decreases a, 2
  {
    match schema {
      case Text =>
      case OneOf(_) =>
      case Number(_) =>
      case ListOf(item) =>
        forall i | 0 <= i < |b.value.items| ensures Conforms(b.value.items[i], item) {
          SameConforms(item, a.value.items[i], b.value.items[i]);
        }
      case Fields(parts) => SameHasParts(parts, a, b);
      case ByKind(kinds) =>
        var k :| 0 <= k < |kinds| && IsKind(a, kinds[k].name) && HasParts(a, kinds[k].parts);
        SameHasParts(kinds[k].parts, a, b);
    }
  }

  lemma {:induction false} SameHasParts(parts: seq<Part>, a: Node, b: Node)
    requires SameParts(parts, a, b) && HasParts(a, parts)
    ensures HasParts(b, parts)
    decreases a, 1
  {
    hide Conforms, Same;
    forall j | 0 <= j < |b.value.fields|
      ensures exists p :: 0 <= p < |parts| && parts[p].key == b.value.fields[j].key
                          && Conforms(b.value.fields[j].node, parts[p].schema)
    {
      var p := SameField(parts, a, b, j);
    }
    forall p | 0 <= p < |parts| && parts[p].required ensures HasKey(b, parts[p].key) {
      assert HasKey(a, parts[p].key);
      var i :| 0 <= i < |a.value.fields| && a.value.fields[i].key == parts[p].key;
      assert HasKey(b, a.value.fields[i].key);
    }
    assert forall j :: 0 <= j < |b.value.fields| ==>
                         exists p :: 0 <= p < |parts| && parts[p].key == b.value.fields[j].key
                                     && Conforms(b.value.fields[j].node, parts[p].schema);
  }

  lemma {:induction false} SameField(parts: seq<Part>, a: Node, b: Node, j: nat) returns (p: nat)
    requires SameParts(parts, a, b) && HasParts(a, parts) && j < |b.value.fields|
    ensures p < |parts| && parts[p].key == b.value.fields[j].key
    ensures Conforms(b.value.fields[j].node, parts[p].schema)
    decreases a, 0
  {
    hide Conforms, Same;
    assert HasKey(a, b.value.fields[j].key);
    var i :| 0 <= i < |a.value.fields| && a.value.fields[i].key == b.value.fields[j].key;
    p :| 0 <= p < |parts| && parts[p].key == a.value.fields[i].key
         && Conforms(a.value.fields[i].node, parts[p].schema);
    SameConforms(parts[p].schema, a.value.fields[i].node, b.value.fields[j].node);
  }

  // Parts by lookup

  predicate DistinctParts(parts: seq<Part>) {
    forall p, q :: 0 <= p < q < |parts| ==> parts[p].key != parts[q].key
  }

  function KeysOf(parts: seq<Part>): (keys: seq<string>)
    ensures |keys| == |parts| && forall p :: 0 <= p < |keys| ==> keys[p] == parts[p].key
  {
    seq(|parts|, p requires 0 <= p < |parts| => parts[p].key)
  }

  /** What stands under the key of a part conforms, and stands there if required. */
  predicate PartConforms(node: Node, part: Part) {
    match Optional(node, part.key)
    case None => !part.required
    case Some(found) => Conforms(found, part.schema)
  }

  predicate SameOption(schema: Schema, a: Option<Node>, b: Option<Node>) {
    (a.None? && b.None?) || (a.Some? && b.Some? && Same(schema, a.value, b.value))
  }

  lemma {:induction false} KeysChecked(fields: seq<Field>, allowed: seq<string>)
    ensures CheckKeys(fields, allowed).Ok? <==> forall i :: 0 <= i < |fields| ==> fields[i].key in allowed
  {
    if fields != [] {
      KeysChecked(fields[1..], allowed);
      assert forall i :: 0 < i < |fields| ==> fields[i] == fields[1..][i - 1];
    }
  }

  /** In a mapping with distinct keys, the value under a key is that of the field with it. */
  lemma OptionalIsField(node: Node, key: string)
    requires Distinct(node) && node.value.Mapping?
    ensures Optional(node, key).Some? <==> HasKey(node, key)
    ensures forall i :: 0 <= i < |node.value.fields| && node.value.fields[i].key == key ==>
              Optional(node, key) == Some(node.value.fields[i].node)
    ensures Optional(node, key).Some? ==> Distinct(Optional(node, key).value)
  {
    hide Find;
    FindIsField(node.value.fields, key);
    forall i | 0 <= i < |node.value.fields| && node.value.fields[i].key == key
      ensures Optional(node, key) == Some(node.value.fields[i].node)
    {
      FindDistinct(node.value.fields, i);
    }
  }

  lemma PartIsFound(node: Node, parts: seq<Part>, p: nat)
    requires Distinct(node) && DistinctParts(parts) && HasParts(node, parts) && p < |parts|
    ensures PartConforms(node, parts[p])
  {
    hide Conforms, Find, Distinct, Optional;
    OptionalIsField(node, parts[p].key);
    if HasKey(node, parts[p].key) {
      var i :| 0 <= i < |node.value.fields| && node.value.fields[i].key == parts[p].key;
      var q :| 0 <= q < |parts| && parts[q].key == node.value.fields[i].key
               && Conforms(node.value.fields[i].node, parts[q].schema);
      assert q == p;
    }
  }

  /** A mapping has the parts exactly when its keys are allowed and each part conforms. */
  lemma PartsByLookup(node: Node, parts: seq<Part>)
    requires Distinct(node) && DistinctParts(parts)
    ensures HasParts(node, parts) <==>
            CheckFields(node, KeysOf(parts)).Ok? && forall p :: 0 <= p < |parts| ==> PartConforms(node, parts[p])
  {
    hide Conforms, CheckKeys, Distinct, PartConforms;
    if HasParts(node, parts) {
      KeysChecked(node.value.fields, KeysOf(parts));
      forall p | 0 <= p < |parts| ensures PartConforms(node, parts[p]) { PartIsFound(node, parts, p); }
      assert forall p :: 0 <= p < |parts| ==> KeysOf(parts)[p] == parts[p].key;
    }
    if CheckFields(node, KeysOf(parts)).Ok? && forall p :: 0 <= p < |parts| ==> PartConforms(node, parts[p]) {
      FoundParts(node, parts);
    }
  }

  lemma FoundParts(node: Node, parts: seq<Part>)
    requires Distinct(node) && DistinctParts(parts)
    requires CheckFields(node, KeysOf(parts)).Ok? && forall p :: 0 <= p < |parts| ==> PartConforms(node, parts[p])
    ensures HasParts(node, parts)
  {
    hide Conforms, CheckKeys, Find, Distinct, Optional;
    assert node.value.Mapping?;
    var fields := node.value.fields;
    KeysChecked(fields, KeysOf(parts));
    assert forall i :: 0 <= i < |fields| ==> fields[i].key in KeysOf(parts);
    forall i | 0 <= i < |fields|
      ensures exists p :: 0 <= p < |parts| && parts[p].key == fields[i].key
                          && Conforms(fields[i].node, parts[p].schema)
    {
      var p :| 0 <= p < |parts| && KeysOf(parts)[p] == fields[i].key;
      OptionalIsField(node, fields[i].key);
      assert PartConforms(node, parts[p]);
    }
    forall p | 0 <= p < |parts| && parts[p].required ensures HasKey(node, parts[p].key) {
      OptionalIsField(node, parts[p].key);
      assert PartConforms(node, parts[p]);
    }
  }

  lemma KeysAreShared(parts: seq<Part>, a: Node, b: Node)
    requires Distinct(a) && Distinct(b) && HasParts(a, parts) && b.value.Mapping?
    requires forall p :: 0 <= p < |parts| ==>
               (Optional(a, parts[p].key).Some? <==> Optional(b, parts[p].key).Some?)
    ensures forall i :: 0 <= i < |a.value.fields| ==> HasKey(b, a.value.fields[i].key)
  {
    hide Conforms, Distinct, Optional;
    forall i | 0 <= i < |a.value.fields| ensures HasKey(b, a.value.fields[i].key) {
      var p :| 0 <= p < |parts| && parts[p].key == a.value.fields[i].key
               && Conforms(a.value.fields[i].node, parts[p].schema);
      OptionalIsField(a, parts[p].key);
      OptionalIsField(b, parts[p].key);
    }
  }

  /** Mappings with the parts mean the same exactly when they do part by part. */
  lemma SameByLookup(parts: seq<Part>, a: Node, b: Node)
    requires Distinct(a) && Distinct(b) && HasParts(a, parts) && HasParts(b, parts)
    ensures SameParts(parts, a, b) <==>
            forall p :: 0 <= p < |parts| ==>
              SameOption(parts[p].schema, Optional(a, parts[p].key), Optional(b, parts[p].key))
  {
    hide Conforms, Same, Distinct, Optional;
    if SameParts(parts, a, b) {
      forall p | 0 <= p < |parts|
        ensures SameOption(parts[p].schema, Optional(a, parts[p].key), Optional(b, parts[p].key))
      {
        OptionalIsField(a, parts[p].key);
        OptionalIsField(b, parts[p].key);
      }
    } else if forall p :: 0 <= p < |parts| ==>
                SameOption(parts[p].schema, Optional(a, parts[p].key), Optional(b, parts[p].key)) {
      KeysAreShared(parts, a, b);
      KeysAreShared(parts, b, a);
      forall i, j, p |
        0 <= i < |a.value.fields| && 0 <= j < |b.value.fields| && 0 <= p < |parts|
        && a.value.fields[i].key == parts[p].key && b.value.fields[j].key == parts[p].key
        ensures Same(parts[p].schema, a.value.fields[i].node, b.value.fields[j].node)
      {
        OptionalIsField(a, parts[p].key);
        OptionalIsField(b, parts[p].key);
      }
    }
  }

  // Decoders

  /** A decoder accepts what conforms to the schema, and decodes two values to the same result
      exactly when they mean the same. */
  ghost predicate Decodes<T>(decode: Node -> Decoded<T>, schema: Schema, a: Node, b: Node) {
    && (decode(a).Ok? <==> Conforms(a, schema))
    && (decode(b).Ok? <==> Conforms(b, schema))
    && (decode(a).Ok? && decode(b).Ok? ==> (decode(a).value == decode(b).value <==> Same(schema, a, b)))
  }

  ghost predicate Exact<T(!new)>(decode: Node -> Decoded<T>, schema: Schema) {
    forall a, b :: Distinct(a) && Distinct(b) ==> Decodes(decode, schema, a, b)
  }

  lemma TextIsExact()
    ensures Exact(TextOf, Text)
  {
    hide Distinct;
  }

  lemma NumberDecodes(max: nat, a: Node, b: Node)
    ensures IntegerOf(a, max).Ok? <==> Conforms(a, Number(max))
    ensures IntegerOf(a, max).Ok? && IntegerOf(b, max).Ok? ==>
              (IntegerOf(a, max).value == IntegerOf(b, max).value <==> Same(Number(max), a, b))
  {
    hide ValueOf, AllDigits;
  }

  lemma PortIsExact()
    ensures Exact(PortOf, PORT)
  {
    hide Distinct, IntegerOf, Conforms, Same;
    forall a, b | Distinct(a) && Distinct(b) ensures Decodes(PortOf, PORT, a, b) {
      NumberDecodes(PORT.max, a, b);
      NumberDecodes(PORT.max, b, a);
    }
  }

  lemma EffectIsExact()
    ensures Exact(EffectOf, EFFECT)
  {
    hide Distinct;
  }

  /** The names of actions are those of the schema. */
  lemma ActionNames(name: string)
    ensures NamedAction(name).Some? <==> name in ACTION.texts
  {
  }

  /** Each action is written in one way. */
  lemma ActionIsWritten(name: string)
    ensures NamedAction(name).Some? ==> name == ActionText(NamedAction(name).value)
  {
  }

  lemma ActionIsExact()
    ensures Exact(ActionOf, ACTION)
  {
    hide Distinct, NamedAction, ActionText;
    forall a, b | Distinct(a) && Distinct(b) ensures Decodes(ActionOf, ACTION, a, b) {
      if a.value.Scalar? {
        ActionNames(a.value.text);
        ActionIsWritten(a.value.text);
      }
      if b.value.Scalar? {
        ActionNames(b.value.text);
        ActionIsWritten(b.value.text);
      }
    }
  }

  // Lists and optional parts

  function DecodeList<T>(node: Node, decode: Node -> Decoded<T>): Decoded<seq<T>> {
    var items :- ItemsOf(node);
    Each(items, decode)
  }

  lemma {:induction false} EachConforms<T(!new)>(decode: Node -> Decoded<T>, item: Schema, nodes: seq<Node>)
    requires Exact(decode, item) && forall i :: 0 <= i < |nodes| ==> Distinct(nodes[i])
    ensures Each(nodes, decode).Ok? <==> forall i :: 0 <= i < |nodes| ==> Conforms(nodes[i], item)
  {
    hide Conforms, Distinct;
    if nodes != [] {
      EachConforms(decode, item, nodes[1..]);
      assert Decodes(decode, item, nodes[0], nodes[0]);
      assert forall i :: 0 < i < |nodes| ==> nodes[i] == nodes[1..][i - 1];
    }
  }

  lemma EachSame<T(!new)>(decode: Node -> Decoded<T>, item: Schema, xs: seq<Node>, ys: seq<Node>)
    requires Exact(decode, item) && Each(xs, decode).Ok? && Each(ys, decode).Ok?
    requires forall i :: 0 <= i < |xs| ==> Distinct(xs[i])
    requires forall i :: 0 <= i < |ys| ==> Distinct(ys[i])
    ensures Each(xs, decode) == Each(ys, decode) <==>
            |xs| == |ys| && forall i :: 0 <= i < |xs| ==> Same(item, xs[i], ys[i])
  {
    hide Conforms, Same, Distinct, Each;
    var x, y := Each(xs, decode).value, Each(ys, decode).value;
    if |xs| == |ys| {
      forall i | 0 <= i < |xs| ensures x[i] == y[i] <==> Same(item, xs[i], ys[i]) {
        assert Decodes(decode, item, xs[i], ys[i]);
        assert decode(xs[i]) == Ok(x[i]) && decode(ys[i]) == Ok(y[i]);
      }
      assert (forall i :: 0 <= i < |xs| ==> x[i] == y[i]) ==> x == y;
    }
  }

  lemma ListDecodes<T(!new)>(decode: Node -> Decoded<T>, item: Schema, a: Node, b: Node)
    requires Exact(decode, item) && Distinct(a) && Distinct(b)
    ensures DecodeList(a, decode).Ok? <==> Conforms(a, ListOf(item))
    ensures DecodeList(b, decode).Ok? <==> Conforms(b, ListOf(item))
    ensures DecodeList(a, decode).Ok? && DecodeList(b, decode).Ok? ==>
              (DecodeList(a, decode) == DecodeList(b, decode) <==> Same(ListOf(item), a, b))
  {
    hide Each, Exact;
    if a.value.Sequence? { EachConforms(decode, item, a.value.items); }
    if b.value.Sequence? { EachConforms(decode, item, b.value.items); }
    if DecodeList(a, decode).Ok? && DecodeList(b, decode).Ok? {
      EachSame(decode, item, a.value.items, b.value.items);
    }
  }

  lemma TextsAreExact()
    ensures Exact(TextsOf, ListOf(Text))
  {
    TextIsExact();
    hide Distinct, Conforms, Same, Exact, Each;
    forall a, b | Distinct(a) && Distinct(b) ensures Decodes(TextsOf, ListOf(Text), a, b) {
      ListDecodes(TextOf, Text, a, b);
    }
    ExactBy(TextsOf, ListOf(Text));
  }

  lemma ExactBy<T(!new)>(decode: Node -> Decoded<T>, schema: Schema)
    requires forall a, b :: Distinct(a) && Distinct(b) ==> Decodes(decode, schema, a, b)
    ensures Exact(decode, schema)
  {
  }

  lemma ActionsAreExact()
    ensures Exact(ActionsOf, ListOf(ACTION))
  {
    ActionIsExact();
    hide Distinct, Conforms, Same, Exact, Each;
    forall a, b | Distinct(a) && Distinct(b) ensures Decodes(ActionsOf, ListOf(ACTION), a, b) {
      ListDecodes(ActionOf, ACTION, a, b);
    }
    ExactBy(ActionsOf, ListOf(ACTION));
  }

  predicate OptionConforms(schema: Schema, node: Option<Node>) {
    node.Some? ==> Conforms(node.value, schema)
  }

  lemma MaybeDecodes<T(!new)>(decode: Node -> Decoded<T>, schema: Schema, a: Option<Node>, b: Option<Node>)
    requires Exact(decode, schema)
    requires (a.Some? ==> Distinct(a.value)) && (b.Some? ==> Distinct(b.value))
    ensures Maybe(a, decode).Ok? <==> OptionConforms(schema, a)
    ensures Maybe(b, decode).Ok? <==> OptionConforms(schema, b)
    ensures Maybe(a, decode).Ok? && Maybe(b, decode).Ok? ==>
              (Maybe(a, decode) == Maybe(b, decode) <==> SameOption(schema, a, b))
  {
    hide Conforms, Same, Distinct;
    if a.Some? { assert Decodes(decode, schema, a.value, a.value); }
    if b.Some? { assert Decodes(decode, schema, b.value, b.value); }
    if a.Some? && b.Some? { assert Decodes(decode, schema, a.value, b.value); }
  }

  /** An optional part of two mappings. */
  lemma OptionalDecodes<T(!new)>(decode: Node -> Decoded<T>, schema: Schema, a: Node, b: Node, key: string)
    requires Exact(decode, schema) && Distinct(a) && Distinct(b) && a.value.Mapping? && b.value.Mapping?
    ensures Maybe(Optional(a, key), decode).Ok? <==> PartConforms(a, Part(key, false, schema))
    ensures Maybe(Optional(b, key), decode).Ok? <==> PartConforms(b, Part(key, false, schema))
    ensures Maybe(Optional(a, key), decode).Ok? && Maybe(Optional(b, key), decode).Ok? ==>
              (Maybe(Optional(a, key), decode) == Maybe(Optional(b, key), decode) <==>
               SameOption(schema, Optional(a, key), Optional(b, key)))
  {
    hide Conforms, Same, Distinct, Optional, Maybe, Exact;
    OptionalIsField(a, key);
    OptionalIsField(b, key);
    MaybeDecodes(decode, schema, Optional(a, key), Optional(b, key));
  }

  function DecodeRequired<T>(node: Node, key: string, decode: Node -> Decoded<T>): Decoded<T> {
    var found :- Required(node, key);
    decode(found)
  }

  /** A required part of two mappings. */
  lemma RequiredDecodes<T(!new)>(decode: Node -> Decoded<T>, schema: Schema, a: Node, b: Node, key: string)
    requires Exact(decode, schema) && Distinct(a) && Distinct(b) && a.value.Mapping? && b.value.Mapping?
    ensures DecodeRequired(a, key, decode).Ok? <==> PartConforms(a, Part(key, true, schema))
    ensures DecodeRequired(b, key, decode).Ok? <==> PartConforms(b, Part(key, true, schema))
    ensures DecodeRequired(a, key, decode).Ok? && DecodeRequired(b, key, decode).Ok? ==>
              (DecodeRequired(a, key, decode) == DecodeRequired(b, key, decode) <==>
               SameOption(schema, Optional(a, key), Optional(b, key)))
  {
    hide Conforms, Same, Distinct, Optional, Exact;
    OptionalIsField(a, key);
    OptionalIsField(b, key);
    MaybeDecodes(decode, schema, Optional(a, key), Optional(b, key));
  }

  lemma PartsAreInMappings(node: Node, parts: seq<Part>)
    ensures HasParts(node, parts) ==> node.value.Mapping?
  {
    hide Conforms;
  }

  // Defaults

  lemma DefaultParts(node: Node)
    requires Distinct(node)
    ensures Conforms(node, DEFAULTS) <==>
            && CheckFields(node, DEFAULT_KEYS).Ok?
            && PartConforms(node, DEFAULT_PARTS[0]) && PartConforms(node, DEFAULT_PARTS[1])
            && PartConforms(node, DEFAULT_PARTS[2]) && PartConforms(node, DEFAULT_PARTS[3])
  {
    hide PartConforms, HasParts, CheckFields, Distinct;
    assert DistinctParts(DEFAULT_PARTS) && KeysOf(DEFAULT_PARTS) == DEFAULT_KEYS;
    PartsByLookup(node, DEFAULT_PARTS);
  }

  lemma SameDefaultParts(a: Node, b: Node)
    requires Distinct(a) && Distinct(b) && Conforms(a, DEFAULTS) && Conforms(b, DEFAULTS)
    ensures Same(DEFAULTS, a, b) <==>
            && SameOption(EFFECT, Optional(a, "file"), Optional(b, "file"))
            && SameOption(EFFECT, Optional(a, "command"), Optional(b, "command"))
            && SameOption(EFFECT, Optional(a, "git"), Optional(b, "git"))
            && SameOption(EFFECT, Optional(a, "network"), Optional(b, "network"))
  {
    hide HasParts, SameParts, SameOption, Optional, Distinct;
    SameByLookup(DEFAULT_PARTS, a, b);
    assert DEFAULT_PARTS[0].key == "file" && DEFAULT_PARTS[1].key == "command";
    assert DEFAULT_PARTS[2].key == "git" && DEFAULT_PARTS[3].key == "network";
  }

  lemma DefaultsDecode(a: Node, b: Node)
    requires Distinct(a) && Distinct(b) && a.value.Mapping? && b.value.Mapping?
    ensures DefaultsOf(a).Ok? <==> Conforms(a, DEFAULTS)
    ensures DefaultsOf(b).Ok? <==> Conforms(b, DEFAULTS)
    ensures DefaultsOf(a).Ok? && DefaultsOf(b).Ok? ==> (DefaultsOf(a) == DefaultsOf(b) <==> Same(DEFAULTS, a, b))
  {
    hide Distinct, Conforms, Same, Exact, PartConforms, SameOption, Optional, CheckFields, Maybe;
    EffectIsExact();
    DefaultParts(a);
    DefaultParts(b);
    OptionalDecodes(EffectOf, EFFECT, a, b, "file");
    OptionalDecodes(EffectOf, EFFECT, a, b, "command");
    OptionalDecodes(EffectOf, EFFECT, a, b, "git");
    OptionalDecodes(EffectOf, EFFECT, a, b, "network");
    if Conforms(a, DEFAULTS) && Conforms(b, DEFAULTS) { SameDefaultParts(a, b); }
  }

  lemma DefaultsAreExact()
    ensures Exact(DefaultsOf, DEFAULTS)
  {
    hide Distinct, Same, Exact, HasParts;
    forall a, b | Distinct(a) && Distinct(b) ensures Decodes(DefaultsOf, DEFAULTS, a, b) {
      PartsAreInMappings(a, DEFAULT_PARTS);
      PartsAreInMappings(b, DEFAULT_PARTS);
      if a.value.Mapping? { DefaultsDecode(a, a); }
      if b.value.Mapping? { DefaultsDecode(b, b); }
      if a.value.Mapping? && b.value.Mapping? { DefaultsDecode(a, b); }
    }
    ExactBy(DefaultsOf, DEFAULTS);
  }

  // Selectors

  lemma SelectorPartsAreDistinct()
    ensures DistinctParts(FILE_PARTS) && KeysOf(FILE_PARTS) == FILE_KEYS
    ensures DistinctParts(COMMAND_PARTS) && KeysOf(COMMAND_PARTS) == COMMAND_KEYS
    ensures DistinctParts(GIT_PARTS) && KeysOf(GIT_PARTS) == GIT_KEYS
    ensures DistinctParts(NETWORK_PARTS) && KeysOf(NETWORK_PARTS) == NETWORK_KEYS
  {
  }

  lemma KindByLookup(node: Node, name: string)
    requires Distinct(node)
    ensures IsKind(node, name) <==> Optional(node, "kind").Some? && Optional(node, "kind").value.value == Scalar(name)
    ensures IsKind(node, name) ==> node.value.Mapping? && PartConforms(node, Part("kind", true, Text))
  {
    hide Distinct, Find;
    if node.value.Mapping? {
      OptionalIsField(node, "kind");
      if Optional(node, "kind").Some? {
        var i :| 0 <= i < |node.value.fields| && node.value.fields[i].key == "kind";
        assert Optional(node, "kind") == Some(node.value.fields[i].node);
      }
    }
  }

  /** Selectors of the same kind agree on the kind. */
  lemma SameKind(a: Node, b: Node, name: string)
    requires Distinct(a) && Distinct(b) && IsKind(a, name) && IsKind(b, name)
    ensures SameOption(Text, Optional(a, "kind"), Optional(b, "kind"))
  {
    hide Distinct, IsKind, Optional;
    KindByLookup(a, name);
    KindByLookup(b, name);
  }

  lemma FileDecodes(a: Node, b: Node)
    requires Distinct(a) && Distinct(b) && IsKind(a, "file") && IsKind(b, "file")
    ensures FileSelectorOf(a).Ok? <==> HasParts(a, FILE_PARTS)
    ensures FileSelectorOf(b).Ok? <==> HasParts(b, FILE_PARTS)
    ensures FileSelectorOf(a).Ok? && FileSelectorOf(b).Ok? ==>
              (FileSelectorOf(a) == FileSelectorOf(b) <==> SameParts(FILE_PARTS, a, b))
  {
    hide Distinct, Conforms, Same, Exact, PartConforms, SameOption, Optional, CheckFields, HasParts, SameParts, TextOf;
    hide Required;
    TextIsExact();
    SelectorPartsAreDistinct();
    KindByLookup(a, "file");
    KindByLookup(b, "file");
    PartsByLookup(a, FILE_PARTS);
    PartsByLookup(b, FILE_PARTS);
    assert FILE_PARTS[0] == Part("kind", true, Text) && FILE_PARTS[1] == Part("pattern", true, Text);
    RequiredDecodes(TextOf, Text, a, b, "pattern");
    if HasParts(a, FILE_PARTS) && HasParts(b, FILE_PARTS) {
      SameKind(a, b, "file");
      SameByLookup(FILE_PARTS, a, b);
    }
  }

  lemma CommandDecodes(a: Node, b: Node)
    requires Distinct(a) && Distinct(b) && IsKind(a, "command") && IsKind(b, "command")
    ensures CommandSelectorOf(a).Ok? <==> HasParts(a, COMMAND_PARTS)
    ensures CommandSelectorOf(b).Ok? <==> HasParts(b, COMMAND_PARTS)
    ensures CommandSelectorOf(a).Ok? && CommandSelectorOf(b).Ok? ==>
              (CommandSelectorOf(a) == CommandSelectorOf(b) <==> SameParts(COMMAND_PARTS, a, b))
  {
    hide Distinct, Conforms, Same, Exact, PartConforms, SameOption, Optional, CheckFields, HasParts, SameParts, TextOf;
    hide Required, Maybe, TextsOf;
    TextIsExact();
    TextsAreExact();
    SelectorPartsAreDistinct();
    KindByLookup(a, "command");
    KindByLookup(b, "command");
    PartsByLookup(a, COMMAND_PARTS);
    PartsByLookup(b, COMMAND_PARTS);
    assert COMMAND_PARTS[0] == Part("kind", true, Text) && COMMAND_PARTS[1] == Part("executable", true, Text);
    assert COMMAND_PARTS[2] == Part("arguments", false, ListOf(Text));
    RequiredDecodes(TextOf, Text, a, b, "executable");
    OptionalDecodes(TextsOf, ListOf(Text), a, b, "arguments");
    if HasParts(a, COMMAND_PARTS) && HasParts(b, COMMAND_PARTS) {
      SameKind(a, b, "command");
      SameByLookup(COMMAND_PARTS, a, b);
    }
  }

  lemma GitDecodes(a: Node, b: Node)
    requires Distinct(a) && Distinct(b) && IsKind(a, "git") && IsKind(b, "git")
    ensures GitSelectorOf(a).Ok? <==> HasParts(a, GIT_PARTS)
    ensures GitSelectorOf(b).Ok? <==> HasParts(b, GIT_PARTS)
    ensures GitSelectorOf(a).Ok? && GitSelectorOf(b).Ok? ==>
              (GitSelectorOf(a) == GitSelectorOf(b) <==> SameParts(GIT_PARTS, a, b))
  {
    hide Distinct, Conforms, Same, Exact, PartConforms, SameOption, Optional, CheckFields, HasParts, SameParts, TextOf;
    hide Required;
    TextIsExact();
    SelectorPartsAreDistinct();
    KindByLookup(a, "git");
    KindByLookup(b, "git");
    PartsByLookup(a, GIT_PARTS);
    PartsByLookup(b, GIT_PARTS);
    assert GIT_PARTS[0] == Part("kind", true, Text) && GIT_PARTS[1] == Part("repository", true, Text);
    RequiredDecodes(TextOf, Text, a, b, "repository");
    if HasParts(a, GIT_PARTS) && HasParts(b, GIT_PARTS) {
      SameKind(a, b, "git");
      SameByLookup(GIT_PARTS, a, b);
    }
  }

  lemma NetworkDecodes(a: Node, b: Node)
    requires Distinct(a) && Distinct(b) && IsKind(a, "network") && IsKind(b, "network")
    ensures NetworkSelectorOf(a).Ok? <==> HasParts(a, NETWORK_PARTS)
    ensures NetworkSelectorOf(b).Ok? <==> HasParts(b, NETWORK_PARTS)
    ensures NetworkSelectorOf(a).Ok? && NetworkSelectorOf(b).Ok? ==>
              (NetworkSelectorOf(a) == NetworkSelectorOf(b) <==> SameParts(NETWORK_PARTS, a, b))
  {
    hide Distinct, Conforms, Same, Exact, PartConforms, SameOption, Optional, CheckFields, HasParts, SameParts, TextOf;
    hide Required, Maybe, PortOf;
    TextIsExact();
    PortIsExact();
    SelectorPartsAreDistinct();
    KindByLookup(a, "network");
    KindByLookup(b, "network");
    PartsByLookup(a, NETWORK_PARTS);
    PartsByLookup(b, NETWORK_PARTS);
    assert NETWORK_PARTS[0] == Part("kind", true, Text) && NETWORK_PARTS[1] == Part("host", true, Text);
    assert NETWORK_PARTS[2] == Part("port", false, PORT);
    RequiredDecodes(TextOf, Text, a, b, "host");
    OptionalDecodes(PortOf, PORT, a, b, "port");
    if HasParts(a, NETWORK_PARTS) && HasParts(b, NETWORK_PARTS) {
      SameKind(a, b, "network");
      SameByLookup(NETWORK_PARTS, a, b);
    }
  }

  lemma SelectorKinds()
    ensures |SELECTOR.kinds| == 4
    ensures SELECTOR.kinds[0] == Kind("file", FILE_PARTS) && SELECTOR.kinds[1] == Kind("command", COMMAND_PARTS)
    ensures SELECTOR.kinds[2] == Kind("git", GIT_PARTS) && SELECTOR.kinds[3] == Kind("network", NETWORK_PARTS)
    ensures forall k, m :: 0 <= k < m < 4 ==> SELECTOR.kinds[k].name != SELECTOR.kinds[m].name
  {
  }

  /** The kind of a selector is one name at most. */
  lemma OneKind(node: Node, name: string, other: string)
    requires Distinct(node) && IsKind(node, name) && IsKind(node, other)
    ensures name == other
  {
    hide Distinct, IsKind, Optional;
    KindByLookup(node, name);
    KindByLookup(node, other);
  }

  /** Which of the four decoders reads a selector, and what the schema says of its kind. */
  lemma SelectorByKind(node: Node, k: nat)
    requires Distinct(node) && k < 4 && IsKind(node, SELECTOR.kinds[k].name)
    ensures Conforms(node, SELECTOR) <==> HasParts(node, SELECTOR.kinds[k].parts)
    ensures SelectorOf(node) == if k == 0 then FileSelectorOf(node) else if k == 1 then CommandSelectorOf(node)
                                else if k == 2 then GitSelectorOf(node) else NetworkSelectorOf(node)
  {
    hide Distinct, HasParts, Optional, FileSelectorOf, CommandSelectorOf, GitSelectorOf, NetworkSelectorOf, IsKind;
    SelectorKinds();
    KindByLookup(node, SELECTOR.kinds[k].name);
    if Conforms(node, SELECTOR) {
      var m :| 0 <= m < 4 && IsKind(node, SELECTOR.kinds[m].name) && HasParts(node, SELECTOR.kinds[m].parts);
      OneKind(node, SELECTOR.kinds[k].name, SELECTOR.kinds[m].name);
    }
  }

  lemma NoKind(node: Node)
    requires Distinct(node) && forall k :: 0 <= k < 4 ==> !IsKind(node, SELECTOR.kinds[k].name)
    ensures !Conforms(node, SELECTOR) && SelectorOf(node).Err?
  {
    hide Distinct, HasParts, Optional, IsKind;
    SelectorKinds();
    forall k | 0 <= k < 4 ensures !IsKind(node, SELECTOR.kinds[k].name) {}
    KindByLookup(node, "file");
    KindByLookup(node, "command");
    KindByLookup(node, "git");
    KindByLookup(node, "network");
  }

  /** Two selectors of the kind at position `k`. */
  lemma KindDecodes(a: Node, b: Node, k: nat)
    requires Distinct(a) && Distinct(b) && k < 4
    requires IsKind(a, SELECTOR.kinds[k].name) && IsKind(b, SELECTOR.kinds[k].name)
    ensures SelectorOf(a).Ok? <==> Conforms(a, SELECTOR)
    ensures SelectorOf(b).Ok? <==> Conforms(b, SELECTOR)
    ensures SelectorOf(a).Ok? && SelectorOf(b).Ok? ==>
              (SelectorOf(a) == SelectorOf(b) <==> SameParts(SELECTOR.kinds[k].parts, a, b))
  {
    hide Distinct, HasParts, SameParts, IsKind, Conforms, SelectorOf, FileSelectorOf, CommandSelectorOf, GitSelectorOf;
    hide NetworkSelectorOf;
    SelectorKinds();
    SelectorByKind(a, k);
    SelectorByKind(b, k);
    if k == 0 {
      FileDecodes(a, b);
    } else if k == 1 {
      CommandDecodes(a, b);
    } else if k == 2 {
      GitDecodes(a, b);
    } else {
      NetworkDecodes(a, b);
    }
  }

  /** Selectors of one kind mean the same exactly when their parts do. */
  lemma SameOfKind(a: Node, b: Node, k: nat)
    requires Distinct(a) && Distinct(b) && k < 4
    requires IsKind(a, SELECTOR.kinds[k].name) && IsKind(b, SELECTOR.kinds[k].name)
    ensures Same(SELECTOR, a, b) <==> SameParts(SELECTOR.kinds[k].parts, a, b)
  {
    hide Distinct, SameParts, IsKind;
    SelectorKinds();
    forall m | 0 <= m < 4 && m != k ensures !IsKind(a, SELECTOR.kinds[m].name) && !IsKind(b, SELECTOR.kinds[m].name) {
      if IsKind(a, SELECTOR.kinds[m].name) { OneKind(a, SELECTOR.kinds[k].name, SELECTOR.kinds[m].name); }
      if IsKind(b, SELECTOR.kinds[m].name) { OneKind(b, SELECTOR.kinds[k].name, SELECTOR.kinds[m].name); }
    }
  }

  /** Selectors of different kinds are different selectors. */
  lemma OtherKindsDiffer(a: Node, b: Node, k: nat, m: nat)
    requires Distinct(a) && Distinct(b) && k < 4 && m < 4 && k != m
    requires IsKind(a, SELECTOR.kinds[k].name) && IsKind(b, SELECTOR.kinds[m].name)
    ensures !Same(SELECTOR, a, b)
    ensures SelectorOf(a).Ok? && SelectorOf(b).Ok? ==> SelectorOf(a) != SelectorOf(b)
  {
    hide Distinct, SameParts, IsKind, CheckFields, TextField, Optional, Maybe;
    SelectorKinds();
    SelectorByKind(a, k);
    SelectorByKind(b, m);
    if IsKind(b, SELECTOR.kinds[k].name) { OneKind(b, SELECTOR.kinds[k].name, SELECTOR.kinds[m].name); }
  }

  lemma SelectorDecodes(a: Node, b: Node)
    requires Distinct(a) && Distinct(b)
    ensures Decodes(SelectorOf, SELECTOR, a, b)
  {
    hide Distinct, Conforms, Same, SelectorOf, IsKind, SameParts;
    if k: nat :| k < 4 && IsKind(a, SELECTOR.kinds[k].name) {
      KindDecodes(a, a, k);
      if m: nat :| m < 4 && IsKind(b, SELECTOR.kinds[m].name) {
        KindDecodes(b, b, m);
        if k == m {
          KindDecodes(a, b, k);
          SameOfKind(a, b, k);
        } else {
          OtherKindsDiffer(a, b, k, m);
        }
      } else {
        NoKind(b);
      }
    } else {
      NoKind(a);
      if m: nat :| m < 4 && IsKind(b, SELECTOR.kinds[m].name) {
        KindDecodes(b, b, m);
      } else {
        NoKind(b);
      }
    }
  }

  lemma SelectorIsExact()
    ensures Exact(SelectorOf, SELECTOR)
  {
    hide Distinct, Conforms, Same, Exact, SelectorOf, Decodes;
    forall a, b | Distinct(a) && Distinct(b) ensures Decodes(SelectorOf, SELECTOR, a, b) { SelectorDecodes(a, b); }
    ExactBy(SelectorOf, SELECTOR);
  }

  // Rules

  lemma RuleParts(node: Node)
    requires Distinct(node)
    ensures Conforms(node, RULE) <==>
            && CheckFields(node, RULE_KEYS).Ok?
            && PartConforms(node, Part("id", true, Text)) && PartConforms(node, Part("description", false, Text))
            && PartConforms(node, Part("effect", true, EFFECT))
            && PartConforms(node, Part("actions", true, ListOf(ACTION)))
            && PartConforms(node, Part("resource", true, SELECTOR))
  {
    hide PartConforms, HasParts, CheckFields, Distinct;
    RulePartsAreDistinct();
    PartsByLookup(node, RULE_PARTS);
  }

  lemma RulePartsAreDistinct()
    ensures DistinctParts(RULE_PARTS) && KeysOf(RULE_PARTS) == RULE_KEYS
    ensures |RULE_PARTS| == 5
    ensures RULE_PARTS[0] == Part("id", true, Text) && RULE_PARTS[1] == Part("description", false, Text)
    ensures RULE_PARTS[2] == Part("effect", true, EFFECT) && RULE_PARTS[3] == Part("actions", true, ListOf(ACTION))
    ensures RULE_PARTS[4] == Part("resource", true, SELECTOR)
  {
  }

  lemma SameRuleParts(a: Node, b: Node)
    requires Distinct(a) && Distinct(b) && Conforms(a, RULE) && Conforms(b, RULE)
    ensures Same(RULE, a, b) <==>
            && SameOption(Text, Optional(a, "id"), Optional(b, "id"))
            && SameOption(Text, Optional(a, "description"), Optional(b, "description"))
            && SameOption(EFFECT, Optional(a, "effect"), Optional(b, "effect"))
            && SameOption(ListOf(ACTION), Optional(a, "actions"), Optional(b, "actions"))
            && SameOption(SELECTOR, Optional(a, "resource"), Optional(b, "resource"))
  {
    hide HasParts, SameParts, SameOption, Optional, Distinct;
    RulePartsAreDistinct();
    SameByLookup(RULE_PARTS, a, b);
  }

  lemma RuleDecodes(a: Node, b: Node)
    requires Distinct(a) && Distinct(b) && a.value.Mapping? && b.value.Mapping?
    ensures RuleOf(a).Ok? <==> Conforms(a, RULE)
    ensures RuleOf(b).Ok? <==> Conforms(b, RULE)
    ensures RuleOf(a).Ok? && RuleOf(b).Ok? ==> (RuleOf(a) == RuleOf(b) <==> Same(RULE, a, b))
  {
    hide Distinct, Conforms, Same, Exact, PartConforms, SameOption, Optional, CheckFields, Maybe, Required;
    hide TextOf, EffectOf, ActionsOf, SelectorOf;
    TextIsExact();
    EffectIsExact();
    ActionsAreExact();
    SelectorIsExact();
    RuleParts(a);
    RuleParts(b);
    RequiredDecodes(TextOf, Text, a, b, "id");
    OptionalDecodes(TextOf, Text, a, b, "description");
    RequiredDecodes(EffectOf, EFFECT, a, b, "effect");
    RequiredDecodes(ActionsOf, ListOf(ACTION), a, b, "actions");
    RequiredDecodes(SelectorOf, SELECTOR, a, b, "resource");
    if Conforms(a, RULE) && Conforms(b, RULE) { SameRuleParts(a, b); }
  }

  lemma RuleIsExact()
    ensures Exact(RuleOf, RULE)
  {
    hide Distinct, Same, Exact, HasParts;
    forall a, b | Distinct(a) && Distinct(b) ensures Decodes(RuleOf, RULE, a, b) {
      PartsAreInMappings(a, RULE_PARTS);
      PartsAreInMappings(b, RULE_PARTS);
      if a.value.Mapping? { RuleDecodes(a, a); }
      if b.value.Mapping? { RuleDecodes(b, b); }
      if a.value.Mapping? && b.value.Mapping? { RuleDecodes(a, b); }
    }
    ExactBy(RuleOf, RULE);
  }

  lemma RulesAreExact()
    ensures Exact(RulesOf, ListOf(RULE))
  {
    RuleIsExact();
    hide Distinct, Conforms, Same, Exact, Each;
    forall a, b | Distinct(a) && Distinct(b) ensures Decodes(RulesOf, ListOf(RULE), a, b) {
      ListDecodes(RuleOf, RULE, a, b);
    }
    ExactBy(RulesOf, ListOf(RULE));
  }

  // Policies

  function VersionOf(node: Node): Decoded<nat> {
    IntegerOf(node, VERSION.max)
  }

  lemma VersionIsExact()
    ensures Exact(VersionOf, VERSION)
  {
    hide Distinct, IntegerOf, Conforms, Same;
    forall a, b | Distinct(a) && Distinct(b) ensures Decodes(VersionOf, VERSION, a, b) {
      NumberDecodes(VERSION.max, a, b);
      NumberDecodes(VERSION.max, b, a);
    }
  }

  lemma PolicyPartsAreDistinct()
    ensures DistinctParts(POLICY_PARTS) && KeysOf(POLICY_PARTS) == POLICY_KEYS
    ensures |POLICY_PARTS| == 3 && POLICY_PARTS[0] == Part("version", true, VERSION)
    ensures POLICY_PARTS[1] == Part("defaults", false, DEFAULTS) && POLICY_PARTS[2] == Part("rules", true, ListOf(RULE))
  {
  }

  lemma PolicyParts(node: Node)
    requires Distinct(node)
    ensures Conforms(node, POLICY) <==>
            && CheckFields(node, POLICY_KEYS).Ok?
            && PartConforms(node, Part("version", true, VERSION))
            && PartConforms(node, Part("defaults", false, DEFAULTS))
            && PartConforms(node, Part("rules", true, ListOf(RULE)))
  {
    hide PartConforms, HasParts, CheckFields, Distinct;
    PolicyPartsAreDistinct();
    PartsByLookup(node, POLICY_PARTS);
  }

  lemma SamePolicyParts(a: Node, b: Node)
    requires Distinct(a) && Distinct(b) && Conforms(a, POLICY) && Conforms(b, POLICY)
    ensures Same(POLICY, a, b) <==>
            && SameOption(VERSION, Optional(a, "version"), Optional(b, "version"))
            && SameOption(DEFAULTS, Optional(a, "defaults"), Optional(b, "defaults"))
            && SameOption(ListOf(RULE), Optional(a, "rules"), Optional(b, "rules"))
  {
    hide HasParts, SameParts, SameOption, Optional, Distinct;
    PolicyPartsAreDistinct();
    SameByLookup(POLICY_PARTS, a, b);
  }

  lemma PolicyOfMappings(a: Node, b: Node, la: Locations, lb: Locations)
    requires Distinct(a) && Distinct(b) && a.value.Mapping? && b.value.Mapping?
    ensures PolicyOf(a, la).Ok? <==> Conforms(a, POLICY)
    ensures PolicyOf(b, lb).Ok? <==> Conforms(b, POLICY)
    ensures PolicyOf(a, la).Ok? && PolicyOf(b, lb).Ok? ==>
              (SamePolicy(PolicyOf(a, la).value, PolicyOf(b, lb).value) <==> Same(POLICY, a, b))
  {
    hide Distinct, Conforms, Same, Exact, PartConforms, SameOption, Optional, CheckFields, Maybe, Required;
    hide IntegerOf, DefaultsOf, RulesOf;
    VersionIsExact();
    DefaultsAreExact();
    RulesAreExact();
    PolicyParts(a);
    PolicyParts(b);
    RequiredDecodes(VersionOf, VERSION, a, b, "version");
    OptionalDecodes(DefaultsOf, DEFAULTS, a, b, "defaults");
    RequiredDecodes(RulesOf, ListOf(RULE), a, b, "rules");
    if Conforms(a, POLICY) && Conforms(b, POLICY) { SamePolicyParts(a, b); }
  }

  /** A value decodes to a policy exactly when it conforms to the schema. */
  lemma PolicyConforms(node: Node, locations: Locations)
    requires Distinct(node)
    ensures PolicyOf(node, locations).Ok? <==> Conforms(node, POLICY)
  {
    hide Distinct, HasParts;
    PartsAreInMappings(node, POLICY_PARTS);
    if node.value.Mapping? { PolicyOfMappings(node, node, locations, locations); }
  }

  /** A document is accepted exactly when it is one well-formed value that conforms to the
      schema. */
  lemma DocumentsConform(s: Stream)
    ensures ParsedFrom(s).Ok? <==> ReadDocument(s).Ok? && Conforms(ReadDocument(s).value, POLICY)
  {
    hide ReadDocument, Conforms, PolicyOf, Distinct, Record;
    if ReadDocument(s).Ok? {
      var root := ReadDocument(s).value;
      DocumentIsWellPathed(s);
      PolicyConforms(root, Record(root, map[]));
    }
  }

  /** Two documents, the first of which is accepted, parse to the same policy exactly when they
      mean the same under the schema. */
  lemma MeaningIsExact(s: Stream, t: Stream)
    requires ParsedFrom(s).Ok? && ReadDocument(t).Ok?
    ensures ParsedFrom(t).Ok? && SamePolicy(ParsedFrom(s).value, ParsedFrom(t).value) <==>
            Same(POLICY, ReadDocument(s).value, ReadDocument(t).value)
  {
    hide ReadDocument, Conforms, Same, PolicyOf, Distinct, Record, HasParts;
    var a, b := ReadDocument(s).value, ReadDocument(t).value;
    DocumentIsWellPathed(s);
    DocumentIsWellPathed(t);
    DocumentsConform(s);
    DocumentsConform(t);
    if Same(POLICY, a, b) { SameConforms(POLICY, a, b); }
    if Conforms(b, POLICY) {
      PolicyIsMapping(a);
      PolicyIsMapping(b);
      PolicyOfMappings(a, b, Record(a, map[]), Record(b, map[]));
    }
  }

  lemma PolicyIsMapping(node: Node)
    ensures Conforms(node, POLICY) ==> node.value.Mapping?
  {
    PartsAreInMappings(node, POLICY_PARTS);
    hide HasParts;
  }

  // Rewriting a document

  /** The same tree with other scalar styles, marks and orders of fields. */
  predicate Rewritten(a: Tree, b: Tree) {
    match a
    case Leaf(text, style, _) => b.Leaf? && b.text == text && IsNull(b.text, b.style) == IsNull(text, style)
    case List(items, _, _) =>
      b.List? && |b.items| == |items| && forall i :: 0 <= i < |items| ==> Rewritten(items[i], b.items[i])
    case Table(entries, _, _) =>
      && b.Table?
      && (forall i :: 0 <= i < |entries| ==> HasEntry(b, entries[i].key))
      && (forall j :: 0 <= j < |b.entries| ==> HasEntry(a, b.entries[j].key))
      && (forall i, j :: 0 <= i < |entries| && 0 <= j < |b.entries| && entries[i].key == b.entries[j].key ==>
            Rewritten(entries[i].value, b.entries[j].value))
  }

  predicate HasEntry(tree: Tree, key: string) {
    tree.Table? && exists i :: 0 <= i < |tree.entries| && tree.entries[i].key == key
  }

  /** Parts have distinct keys, kinds distinct names, and so have the parts of parts. */
  predicate Proper(schema: Schema) {
    match schema
    case ListOf(item) => Proper(item)
    case Fields(parts) => DistinctParts(parts) && forall p :: 0 <= p < |parts| ==> Proper(parts[p].schema)
    case ByKind(kinds) =>
      && (forall k, m :: 0 <= k < m < |kinds| ==> kinds[k].name != kinds[m].name)
      && forall k :: 0 <= k < |kinds| ==>
           && DistinctParts(kinds[k].parts)
           && forall p :: 0 <= p < |kinds[k].parts| ==> Proper(kinds[k].parts[p].schema)
    case _ => true
  }

  predicate ProperParts(parts: seq<Part>) {
    DistinctParts(parts) && forall p :: 0 <= p < |parts| ==> Proper(parts[p].schema)
  }

  lemma SelectorIsProper()
    ensures Proper(SELECTOR)
  {
    SelectorPartsAreDistinct();
    SelectorKinds();
    assert ProperParts(FILE_PARTS) && ProperParts(COMMAND_PARTS) && ProperParts(GIT_PARTS);
    assert ProperParts(NETWORK_PARTS);
  }

  lemma PolicyIsProper()
    ensures Proper(POLICY)
  {
    SelectorIsProper();
    RulePartsAreDistinct();
    PolicyPartsAreDistinct();
    assert Proper(RULE);
    assert Proper(DEFAULTS) by { assert DistinctParts(DEFAULT_PARTS); }
    assert Proper(ListOf(RULE));
  }

  /** The fields of a table are its entries. */
  lemma TableNode(tree: Tree, path: string)
    requires tree.Table?
    ensures var node := NodeOf(tree, path);
            && node.value.Mapping? && |node.value.fields| == |tree.entries|
            && (forall i :: 0 <= i < |tree.entries| ==>
                  && node.value.fields[i].key == tree.entries[i].key
                  && node.value.fields[i].node ==
                     NodeOf(tree.entries[i].value, ChildPath(path, tree.entries[i].key)))
            && (forall key :: HasKey(node, key) <==> HasEntry(tree, key))
  {
    hide YamlEvents.FieldsOf, ChildPath, NodeLocation;
    FieldsByIndex(tree.entries, path);
  }

  lemma RewrittenKind(a: Tree, b: Tree, pa: string, pb: string, name: string)
    requires Rewritten(a, b) && a.Table?
    ensures IsKind(NodeOf(a, pa), name) <==> IsKind(NodeOf(b, pb), name)
  {
    hide NodeOf, IsNull, ChildPath;
    TableNode(a, pa);
    TableNode(b, pb);
    var x, y := NodeOf(a, pa).value.fields, NodeOf(b, pb).value.fields;
    if IsKind(NodeOf(a, pa), name) {
      var i :| 0 <= i < |x| && x[i].key == "kind" && x[i].node.value == Scalar(name);
      assert HasEntry(b, a.entries[i].key);
      var j :| 0 <= j < |b.entries| && b.entries[j].key == "kind";
      RewrittenText(a.entries[i].value, b.entries[j].value, ChildPath(pa, "kind"), ChildPath(pb, "kind"), name);
      assert y[j].node.value == Scalar(name);
    }
    if IsKind(NodeOf(b, pb), name) {
      var j :| 0 <= j < |y| && y[j].key == "kind" && y[j].node.value == Scalar(name);
      assert HasEntry(a, b.entries[j].key);
      var i :| 0 <= i < |a.entries| && a.entries[i].key == "kind";
      RewrittenText(a.entries[i].value, b.entries[j].value, ChildPath(pa, "kind"), ChildPath(pb, "kind"), name);
      assert x[i].node.value == Scalar(name);
    }
  }

  lemma RewrittenText(a: Tree, b: Tree, pa: string, pb: string, name: string)
    requires Rewritten(a, b)
    ensures NodeOf(a, pa).value == Scalar(name) <==> NodeOf(b, pb).value == Scalar(name)
  {
    hide IsNull;
  }

  /** Only tables are read as mappings, lists as sequences and other leaves as texts. */
  lemma NodeShape(tree: Tree, path: string)
    ensures NodeOf(tree, path).value.Mapping? <==> tree.Table?
    ensures NodeOf(tree, path).value.Sequence? <==> tree.List?
    ensures NodeOf(tree, path).value.Scalar? ==> tree.Leaf?
  {
    hide NodesOf, YamlEvents.FieldsOf, IsNull;
  }

  lemma RewrittenLeaf(a: Tree, b: Tree, pa: string, pb: string)
    requires Rewritten(a, b) && a.Leaf?
    ensures NodeOf(a, pa).value == NodeOf(b, pb).value
  {
    hide IsNull;
  }

  /** Rewriting a value that conforms to a schema does not change what it means. */
  lemma {:induction false} RewrittenMeansSame(schema: Schema, a: Tree, b: Tree, pa: string, pb: string)
    requires Proper(schema) && Rewritten(a, b)
    requires Distinct(NodeOf(a, pa)) && Conforms(NodeOf(a, pa), schema)
    ensures Same(schema, NodeOf(a, pa), NodeOf(b, pb))
    decreases a, 2
  {
    hide NodeOf, HasParts, SameParts, IsKind, IsNull, Rewritten, Distinct;
    NodeShape(a, pa);
    NodeShape(b, pb);
    match schema {
      case Text => RewrittenLeaf(a, b, pa, pb);
      case OneOf(_) => RewrittenLeaf(a, b, pa, pb);
      case Number(_) => RewrittenLeaf(a, b, pa, pb);
      case ListOf(item) => RewrittenItems(item, a, b, pa, pb);
      case Fields(parts) => RewrittenParts(parts, a, b, pa, pb);
      case ByKind(kinds) => RewrittenKinds(kinds, a, b, pa, pb);
    }
  }

  lemma {:induction false} RewrittenItems(item: Schema, a: Tree, b: Tree, pa: string, pb: string)
    requires Proper(item) && Rewritten(a, b)
    requires Distinct(NodeOf(a, pa)) && Conforms(NodeOf(a, pa), ListOf(item))
    ensures Same(ListOf(item), NodeOf(a, pa), NodeOf(b, pb))
    decreases a, 1
  {
    hide HasParts, SameParts, IsKind, IsNull, ItemPath, NodesOf, Proper, YamlEvents.FieldsOf;
    NodeShape(a, pa);
    NodesByIndex(a.items, pa, 0);
    NodesByIndex(b.items, pb, 0);
    forall i | 0 <= i < |a.items|
      ensures Same(item, NodeOf(a, pa).value.items[i], NodeOf(b, pb).value.items[i])
    {
      RewrittenMeansSame(item, a.items[i], b.items[i], ItemPath(pa, i), ItemPath(pb, i));
    }
  }

  lemma {:induction false} RewrittenKinds(kinds: seq<Kind>, a: Tree, b: Tree, pa: string, pb: string)
    requires Proper(ByKind(kinds)) && Rewritten(a, b)
    requires Distinct(NodeOf(a, pa)) && Conforms(NodeOf(a, pa), ByKind(kinds))
    ensures Same(ByKind(kinds), NodeOf(a, pa), NodeOf(b, pb))
    decreases a, 1
  {
    hide NodeOf, HasParts, SameParts, IsKind, Rewritten, Distinct;
    var x, y := NodeOf(a, pa), NodeOf(b, pb);
    var m :| 0 <= m < |kinds| && IsKind(x, kinds[m].name) && HasParts(x, kinds[m].parts);
    PartsAreInMappings(x, kinds[m].parts);
    NodeShape(a, pa);
    forall k | 0 <= k < |kinds|
      ensures IsKind(x, kinds[k].name) <==> IsKind(y, kinds[k].name)
      ensures IsKind(x, kinds[k].name) ==> SameParts(kinds[k].parts, x, y)
    {
      RewrittenKind(a, b, pa, pb, kinds[k].name);
      if IsKind(x, kinds[k].name) {
        OneKind(x, kinds[k].name, kinds[m].name);
        assert ProperParts(kinds[k].parts);
        RewrittenParts(kinds[k].parts, a, b, pa, pb);
      }
    }
  }

  lemma {:induction false} RewrittenParts(parts: seq<Part>, a: Tree, b: Tree, pa: string, pb: string)
    requires ProperParts(parts) && Rewritten(a, b)
    requires Distinct(NodeOf(a, pa)) && HasParts(NodeOf(a, pa), parts)
    ensures SameParts(parts, NodeOf(a, pa), NodeOf(b, pb))
    decreases a, 0
  {
    hide NodeOf, Conforms, Same, IsNull, ChildPath, Proper;
    NodeShape(a, pa);
    TableNode(a, pa);
    TableNode(b, pb);
    var x, y := NodeOf(a, pa).value.fields, NodeOf(b, pb).value.fields;
    forall i, j, p |
      0 <= i < |x| && 0 <= j < |y| && 0 <= p < |parts| && x[i].key == parts[p].key && y[j].key == parts[p].key
      ensures Same(parts[p].schema, x[i].node, y[j].node)
    {
      var q :| 0 <= q < |parts| && parts[q].key == x[i].key && Conforms(x[i].node, parts[q].schema);
      assert q == p;
      var key := parts[p].key;
      RewrittenMeansSame(
        parts[p].schema, a.entries[i].value, b.entries[j].value, ChildPath(pa, key), ChildPath(pb, key));
    }
  }

  /** Field order, scalar styles and marks do not matter: rewriting the tree of an accepted
      document in any such way gives a document that parses to the same policy. */
  lemma RewritingKeepsPolicy(s: Stream, t: Stream, a: Tree, b: Tree, x: Node, y: Node, restA: seq<Marked>,
                             restB: seq<Marked>)
    requires IsDocument(s.events, a, x, restA) && IsDocument(t.events, b, y, restB) && Rewritten(a, b)
    requires ParsedFrom(s).Ok?
    ensures ParsedFrom(t).Ok? && SamePolicy(ParsedFrom(s).value, ParsedFrom(t).value)
  {
    hide ReadDocument, Conforms, Same, Distinct, Proper, Rewritten, NodeOf, ValidTree, Emit, PolicyOf;
    ReadTreeDocument(s, a, x, restA);
    ReadTreeDocument(t, b, y, restB);
    DocumentIsWellPathed(s);
    DocumentsConform(s);
    PolicyIsProper();
    RewrittenMeansSame(POLICY, a, b, "$", "$");
    MeaningIsExact(s, t);
  }

  /** The documents of a policy are exactly those that mean the same as the one written for it. */
  lemma DocumentsOfPolicy(policy: ParsedPolicy, m: Mark, written: Stream, s: Stream)
    requires Representable(policy) && written.events == Document(policy, m) && ReadDocument(s).Ok?
    ensures ReadDocument(written).Ok?
    ensures ParsedFrom(s).Ok? && SamePolicy(ParsedFrom(s).value, policy) <==>
            Same(POLICY, ReadDocument(written).value, ReadDocument(s).value)
  {
    hide Same, Document, Representable, PolicyOf;
    DocumentsReadBack(policy, m, written);
    hide ReadDocument;
    MeaningIsExact(written, s);
  }
}
