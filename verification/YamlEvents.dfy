/** Marked YAML events, the located tree they are read into, and reading one value. */
module YamlEvents {
  import opened Common
  import opened FieldPaths

  const MAX_NESTING_DEPTH: nat := 64

  /** A one-based line and column. */
  datatype SourceLocation = SourceLocation(line: nat, column: nat)

  /** A scanner position: lines count from one and columns from zero. */
  datatype Mark = Mark(line: nat, col: nat)

  datatype Style = Plain | SingleQuoted | DoubleQuoted | Literal | Folded

  datatype Event =
    | StreamStart
    | StreamEnd
    | DocumentStart
    | DocumentEnd
    | Alias
    | ScalarEvent(text: string, style: Style, anchor: nat, tagged: bool)
    | SequenceStart(anchor: nat, tagged: bool)
    | SequenceEnd
    | MappingStart(anchor: nat, tagged: bool)
    | MappingEnd

  datatype Marked = Marked(event: Event, mark: Mark)

  /** The events the scanner yields before it fails, and how it fails. */
  datatype Stream = Stream(events: seq<Marked>, recursionLimit: bool, failure: Mark)

  datatype ParseErrorKind =
    | NestingTooDeep
    | InvalidYaml
    | EmptyDocument
    | MultipleDocuments
    | ExplicitTag
    | AnchorOrAlias
    | MergeKey
    | InvalidMappingKey
    | DuplicateKey
    | UnknownField
    | MissingField
    | InvalidType
    | UnknownEffect
    | UnknownAction
    | UnknownResourceKind

  datatype ParseError = ParseError(
    kind: ParseErrorKind,
    location: SourceLocation,
    path: string,
    original: Option<SourceLocation>)

  datatype Node = Node(location: SourceLocation, path: string, value: Value)

  datatype Value = Null | Scalar(text: string) | Sequence(items: seq<Node>) | Mapping(fields: seq<Field>)

  datatype Field = Field(key: string, location: SourceLocation, node: Node)

  function Located(mark: Mark): SourceLocation {
    SourceLocation(mark.line, mark.col + 1)
  }

  function Error<T>(kind: ParseErrorKind, location: SourceLocation, path: string): Result<T, ParseError> {
    Err(ParseError(kind, location, path, None))
  }

  predicate IsNull(text: string, style: Style) {
    style.Plain? && text in ["", "~", "null", "Null", "NULL"]
  }

  predicate Before(a: SourceLocation, b: SourceLocation) {
    a.line < b.line || (a.line == b.line && a.column < b.column)
  }

  /** A block mapping is marked after its first key, so the key's location counts. */
  function NodeLocation(value: Value, start: SourceLocation): SourceLocation {
    if value.Mapping? && value.fields != [] && Before(value.fields[0].location, start)
    then value.fields[0].location
    else start
  }

  predicate Tagged(event: Event) {
    (event.ScalarEvent? || event.SequenceStart? || event.MappingStart?) && event.tagged
  }

  predicate Anchored(event: Event) {
    event.Alias? || ((event.ScalarEvent? || event.SequenceStart? || event.MappingStart?) && event.anchor != 0)
  }

  /** The next event, its location, and the rest of the stream. */
  function Next(s: Stream, path: string): (r: Result<(Event, SourceLocation, Stream), ParseError>)
    ensures r.Ok? ==> |r.value.2.events| < |s.events|
  {
    if s.events == [] then
      Error(if s.recursionLimit then NestingTooDeep else InvalidYaml, Located(s.failure), path)
    else
      var head := s.events[0];
      if Tagged(head.event) then Error(ExplicitTag, Located(head.mark), path)
      else if Anchored(head.event) then Error(AnchorOrAlias, Located(head.mark), path)
      else Ok((head.event, Located(head.mark), s.(events := s.events[1..])))
  }

  /** Read the value that starts with `event`, whose children follow in the stream. */
  function ReadNode(event: Event, start: SourceLocation, s: Stream, path: string, depth: nat):
    (r: Result<(Node, Stream), ParseError>)
    ensures r.Ok? ==> |r.value.1.events| <= |s.events|
    decreases |s.events|, 2
  {
    if (event.MappingStart? || event.SequenceStart?) && depth >= MAX_NESTING_DEPTH then
      Error(NestingTooDeep, start, path)
    else
      match event
      case ScalarEvent(text, style, _, _) =>
        Ok((Node(start, path, if IsNull(text, style) then Null else Scalar(text)), s))
      case SequenceStart(_, _) =>
        var (items, rest) :- ReadItems(s, path, 0, depth);
        Ok((Node(start, path, Sequence(items)), rest))
      case MappingStart(_, _) =>
        var (fields, rest) :- ReadFields(s, path, map[], depth);
        Ok((Node(NodeLocation(Mapping(fields), start), path, Mapping(fields)), rest))
      case _ => Error(InvalidYaml, start, path)
  }

  /** Read the items of a sequence from `index` on, and its end. */
  function ReadItems(s: Stream, path: string, index: nat, depth: nat):
    (r: Result<(seq<Node>, Stream), ParseError>)
    ensures r.Ok? ==> |r.value.1.events| < |s.events|
    decreases |s.events|, 1
  {
    var item := ItemPath(path, index);
    var (event, start, after) :- Next(s, item);
    if event.SequenceEnd? then Ok(([], after))
    else
      var (node, then') :- ReadNode(event, start, after, item, depth + 1);
      var (nodes, rest) :- ReadItems(then', path, index + 1, depth);
      Ok(([node] + nodes, rest))
  }

  /** Read the remaining fields of a mapping, and its end; `keys` are those already read. */
  function ReadFields(s: Stream, path: string, keys: map<string, SourceLocation>, depth: nat):
    (r: Result<(seq<Field>, Stream), ParseError>)
    ensures r.Ok? ==> |r.value.1.events| < |s.events|
    decreases |s.events|, 1
  {
    var (event, at, after) :- Next(s, path);
    if event.MappingEnd? then Ok(([], after))
    else if !event.ScalarEvent? || IsNull(event.text, event.style) then Error(InvalidMappingKey, at, path)
    else
      var key := event.text;
      var child := ChildPath(path, key);
      if key == "<<" then Error(MergeKey, at, child)
      else if key in keys then Err(ParseError(DuplicateKey, at, child, Some(keys[key])))
      else
        var (first, start, inner) :- Next(after, child);
        var (node, then') :- ReadNode(first, start, inner, child, depth + 1);
        var (fields, rest) :- ReadFields(then', path, keys[key := at], depth);
        Ok(([Field(key, at, node)] + fields, rest))
  }

  /** Read the one document of a stream. */
  function ReadDocument(s: Stream): Result<Node, ParseError> {
    var (_, _, s1) :- Next(s, "$");
    var (event, at, s2) :- Next(s1, "$");
    if event.StreamEnd? then Error(EmptyDocument, at, "$")
    else
      var (first, start, s3) :- Next(s2, "$");
      var (node, s4) :- ReadNode(first, start, s3, "$", 0);
      if node.value.Null? then Error(EmptyDocument, start, "$")
      else
        var (_, _, s5) :- Next(s4, "$");
        var (last, end, _) :- Next(s5, "$");
        if !last.StreamEnd? then Error(MultipleDocuments, end, "$") else Ok(node)
  }

  // Trees and their events

  /** A value as it is written, with styles and marks. */
  datatype Tree =
    | Leaf(text: string, style: Style, mark: Mark)
    | List(items: seq<Tree>, open: Mark, close: Mark)
    | Table(entries: seq<TableEntry>, open: Mark, close: Mark)

  datatype TableEntry = TableEntry(key: string, style: Style, mark: Mark, value: Tree)

  function Emit(tree: Tree): seq<Marked> {
    match tree
    case Leaf(text, style, mark) => [Marked(ScalarEvent(text, style, 0, false), mark)]
    case List(items, open, close) =>
      [Marked(SequenceStart(0, false), open)] + EmitAll(items) + [Marked(SequenceEnd, close)]
    case Table(entries, open, close) =>
      [Marked(MappingStart(0, false), open)] + EmitEntries(entries) + [Marked(MappingEnd, close)]
  }

  function EmitAll(items: seq<Tree>): seq<Marked> {
    if items == [] then [] else Emit(items[0]) + EmitAll(items[1..])
  }

  function EmitEntries(entries: seq<TableEntry>): seq<Marked> {
    if entries == [] then []
    else
      [Marked(ScalarEvent(entries[0].key, entries[0].style, 0, false), entries[0].mark)]
      + Emit(entries[0].value) + EmitEntries(entries[1..])
  }

  /** At most 64 collections nest, and in every mapping the keys are distinct texts that are
      neither plain nulls nor the merge key. */
  predicate ValidTree(tree: Tree, depth: nat) {
    match tree
    case Leaf(_, _, _) => true
    case List(items, _, _) => depth < MAX_NESTING_DEPTH && ValidItems(items, depth + 1)
    case Table(entries, _, _) => depth < MAX_NESTING_DEPTH && ValidEntries(entries, {}, depth + 1)
  }

  predicate ValidItems(items: seq<Tree>, depth: nat) {
    items == [] || (ValidTree(items[0], depth) && ValidItems(items[1..], depth))
  }

  predicate ValidEntries(entries: seq<TableEntry>, keys: set<string>, depth: nat) {
    entries == []
    || (&& !IsNull(entries[0].key, entries[0].style) && entries[0].key != "<<" && entries[0].key !in keys
        && ValidTree(entries[0].value, depth)
        && ValidEntries(entries[1..], keys + {entries[0].key}, depth))
  }

  /** The located value a tree is read as: styles are forgotten, except that plain nulls are
      null. */
  function NodeOf(tree: Tree, path: string): Node {
    match tree
    case Leaf(text, style, mark) => Node(Located(mark), path, if IsNull(text, style) then Null else Scalar(text))
    case List(items, open, _) => Node(Located(open), path, Sequence(NodesOf(items, path, 0)))
    case Table(entries, open, _) =>
      var value := Mapping(FieldsOf(entries, path));
      Node(NodeLocation(value, Located(open)), path, value)
  }

  function NodesOf(items: seq<Tree>, path: string, index: nat): seq<Node> {
    if items == [] then [] else [NodeOf(items[0], ItemPath(path, index))] + NodesOf(items[1..], path, index + 1)
  }

  function FieldsOf(entries: seq<TableEntry>, path: string): seq<Field> {
    if entries == [] then []
    else
      [Field(entries[0].key, Located(entries[0].mark), NodeOf(entries[0].value, ChildPath(path, entries[0].key)))]
      + FieldsOf(entries[1..], path)
  }
}
