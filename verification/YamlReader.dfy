/** The event reader as it runs: it consumes the stream, grows its lists in loops and records
    the location of every value under its field path. */
module YamlReader {
  import opened Common
  import opened FieldPaths
  import opened YamlEvents

  type Locations = map<string, SourceLocation>

  /** Recording a value after its parts. */
  function Record(node: Node, locations: Locations): Locations {
    var inner := match node.value
      case Sequence(items) => RecordAll(items, locations)
      case Mapping(fields) => RecordFields(fields, locations)
      case _ => locations;
    inner[node.path := node.location]
  }

  function RecordAll(items: seq<Node>, locations: Locations): Locations {
    if items == [] then locations else RecordAll(items[1..], Record(items[0], locations))
  }

  function RecordFields(fields: seq<Field>, locations: Locations): Locations {
    if fields == [] then locations else RecordFields(fields[1..], Record(fields[0].node, locations))
  }

  lemma {:induction false} RecordAllPush(items: seq<Node>, item: Node, locations: Locations)
    ensures RecordAll(items + [item], locations) == Record(item, RecordAll(items, locations))
    decreases |items|
  {
    if items == [] {
      assert [item][1..] == [];
      assert items + [item] == [item];
    } else {
      assert (items + [item])[0] == items[0] && (items + [item])[1..] == items[1..] + [item];
      RecordAllPush(items[1..], item, Record(items[0], locations));
    }
  }

  lemma {:induction false} RecordFieldsPush(fields: seq<Field>, field: Field, locations: Locations)
    ensures RecordFields(fields + [field], locations) == Record(field.node, RecordFields(fields, locations))
    decreases |fields|
  {
    if fields == [] {
      assert [field][1..] == [];
      assert fields + [field] == [field];
    } else {
      assert (fields + [field])[0] == fields[0] && (fields + [field])[1..] == fields[1..] + [field];
      RecordFieldsPush(fields[1..], field, Record(fields[0].node, locations));
    }
  }

  // The loops, one turn at a time

  function Behind<T>(done: seq<T>, r: Result<(seq<T>, Stream), ParseError>): Result<(seq<T>, Stream), ParseError> {
    if r.Ok? then Ok((done + r.value.0, r.value.1)) else r
  }

  lemma BehindNothing<T>(r: Result<(seq<T>, Stream), ParseError>)
    ensures Behind([], r) == r
  {
    assert r.Ok? ==> [] + r.value.0 == r.value.0;
  }

  /** One turn of the sequence loop. */
  lemma ItemTurn(done: seq<Node>, s: Stream, path: string, depth: nat)
    ensures var all := Behind(done, ReadItems(s, path, |done|, depth));
            var item := ItemPath(path, |done|);
            match Next(s, item)
            case Err(e) => all == Err(e)
            case Ok((event, start, after)) =>
              if event.SequenceEnd? then all == Ok((done, after))
              else
                match ReadNode(event, start, after, item, depth + 1)
                case Err(e) => all == Err(e)
                case Ok((node, rest)) => all == Behind(done + [node], ReadItems(rest, path, |done| + 1, depth))
  {
    hide Next, ReadNode, ItemPath;
    var item := ItemPath(path, |done|);
    if Next(s, item).Ok? {
      var (event, start, after) := Next(s, item).value;
      if event.SequenceEnd? {
        assert done + [] == done;
      } else if ReadNode(event, start, after, item, depth + 1).Ok? {
        var (node, rest) := ReadNode(event, start, after, item, depth + 1).value;
        var more := ReadItems(rest, path, |done| + 1, depth);
        assert more.Ok? ==> done + ([node] + more.value.0) == done + [node] + more.value.0;
      }
    }
  }

  /** One turn of the mapping loop. */
  lemma FieldTurn(done: seq<Field>, s: Stream, path: string, keys: Locations, depth: nat)
    ensures var all := Behind(done, ReadFields(s, path, keys, depth));
            match Next(s, path)
            case Err(e) => all == Err(e)
            case Ok((event, at, after)) =>
              if event.MappingEnd? then all == Ok((done, after))
              else if !event.ScalarEvent? || IsNull(event.text, event.style) then
                all == Error(InvalidMappingKey, at, path)
              else
                var key := event.text;
                var child := ChildPath(path, key);
                if key == "<<" then all == Error(MergeKey, at, child)
                else if key in keys then all == Err(ParseError(DuplicateKey, at, child, Some(keys[key])))
                else
                  match Next(after, child)
                  case Err(e) => all == Err(e)
                  case Ok((first, start, inner)) =>
                    match ReadNode(first, start, inner, child, depth + 1)
                    case Err(e) => all == Err(e)
                    case Ok((node, rest)) =>
                      all == Behind(done + [Field(key, at, node)], ReadFields(rest, path, keys[key := at], depth))
  {
    hide Next, ReadNode, ChildPath, IsNull;
    var head := Next(s, path);
    if head.Ok? && head.value.0.MappingEnd? {
      assert done + [] == done;
    } else if head.Ok? && head.value.0.ScalarEvent? {
      var (event, at, after) := head.value;
      var child := ChildPath(path, event.text);
      var next := Next(after, child);
      if next.Ok? && ReadNode(next.value.0, next.value.1, next.value.2, child, depth + 1).Ok? {
        var (node, rest) := ReadNode(next.value.0, next.value.1, next.value.2, child, depth + 1).value;
        var more := ReadFields(rest, path, keys[event.text := at], depth);
        var field := Field(event.text, at, node);
        assert more.Ok? ==> done + ([field] + more.value.0) == done + [field] + more.value.0;
      }
    }
  }

  /** The reader: the rest of the stream and the locations recorded so far. */
  class Reader {
    var stream: Stream
    var locations: Locations

    constructor (stream: Stream)
      ensures this.stream == stream && locations == map[]
    {
      this.stream := stream;
      locations := map[];
    }

    method ReadEvent(path: string) returns (r: Result<(Event, SourceLocation), ParseError>)
      modifies this
      ensures locations == old(locations)
      ensures match Next(old(stream), path)
              case Ok((event, at, rest)) => r == Ok((event, at)) && stream == rest
              case Err(e) => r == Err(e) && stream == old(stream)
    {
      if stream.events == [] {
        return Error(if stream.recursionLimit then NestingTooDeep else InvalidYaml, Located(stream.failure), path);
      }
      var head := stream.events[0];
      var at := Located(head.mark);
      if Tagged(head.event) {
        return Error(ExplicitTag, at, path);
      }
      if Anchored(head.event) {
        return Error(AnchorOrAlias, at, path);
      }
      stream := stream.(events := stream.events[1..]);
      return Ok((head.event, at));
    }

    method ReadSequence(path: string, depth: nat) returns (r: Result<seq<Node>, ParseError>)
      modifies this
      ensures match ReadItems(old(stream), path, 0, depth)
              case Ok((items, rest)) =>
                r == Ok(items) && stream == rest && locations == RecordAll(items, old(locations))
              case Err(e) => r == Err(e)
      decreases |stream.events|, 1
    {
      var values: seq<Node> := [];
      ghost var goal := ReadItems(stream, path, 0, depth);
      BehindNothing(goal);
      hide Next, ReadNode, ReadItems, ItemPath, Record;
      while true
        invariant goal == Behind(values, ReadItems(stream, path, |values|, depth))
        invariant locations == RecordAll(values, old(locations))
        invariant |stream.events| <= |old(stream).events|
        decreases |stream.events|
      {
        ItemTurn(values, stream, path, depth);
        var item := ItemPath(path, |values|);
        var head :- ReadEvent(item);
        var (event, at) := head;
        if event.SequenceEnd? {
          return Ok(values);
        }
        var node :- ReadValue(event, at, item, depth + 1);
        RecordAllPush(values, node, old(locations));
        values := values + [node];
      }
    }

    method ReadMapping(path: string, depth: nat) returns (r: Result<seq<Field>, ParseError>)
      modifies this
      ensures match ReadFields(old(stream), path, map[], depth)
              case Ok((fields, rest)) =>
                r == Ok(fields) && stream == rest && locations == RecordFields(fields, old(locations))
              case Err(e) => r == Err(e)
      decreases |stream.events|, 1
    {
      var fields: seq<Field> := [];
      var keys: Locations := map[];
      ghost var goal := ReadFields(stream, path, map[], depth);
      BehindNothing(goal);
      hide Next, ReadNode, ReadFields, ChildPath, Record, IsNull;
      while true
        invariant goal == Behind(fields, ReadFields(stream, path, keys, depth))
        invariant locations == RecordFields(fields, old(locations))
        invariant |stream.events| <= |old(stream).events|
        decreases |stream.events|
      {
        FieldTurn(fields, stream, path, keys, depth);
        var head :- ReadEvent(path);
        var (event, at) := head;
        if event.MappingEnd? {
          return Ok(fields);
        }
        if !event.ScalarEvent? || IsNull(event.text, event.style) {
          return Error(InvalidMappingKey, at, path);
        }
        var key := event.text;
        var child := ChildPath(path, key);
        if key == "<<" {
          return Error(MergeKey, at, child);
        }
        if key in keys {
          return Err(ParseError(DuplicateKey, at, child, Some(keys[key])));
        }
        keys := keys[key := at];
        var valueHead :- ReadEvent(child);
        var (first, start) := valueHead;
        var node :- ReadValue(first, start, child, depth + 1);
        RecordFieldsPush(fields, Field(key, at, node), old(locations));
        fields := fields + [Field(key, at, node)];
      }
    }

    method ReadValue(event: Event, start: SourceLocation, path: string, depth: nat)
      returns (r: Result<Node, ParseError>)
      modifies this
      ensures match ReadNode(event, start, old(stream), path, depth)
              case Ok((node, rest)) =>
                r == Ok(node) && stream == rest && locations == Record(node, old(locations))
              case Err(e) => r == Err(e)
      decreases |stream.events|, 2
    {
      if (event.MappingStart? || event.SequenceStart?) && depth >= MAX_NESTING_DEPTH {
        return Error(NestingTooDeep, start, path);
      }
      var value;
      match event {
        case ScalarEvent(text, style, _, _) =>
          value := if IsNull(text, style) then Null else Scalar(text);
        case SequenceStart(_, _) =>
          var items :- ReadSequence(path, depth);
          value := Sequence(items);
        case MappingStart(_, _) =>
          var fields :- ReadMapping(path, depth);
          value := Mapping(fields);
        case _ =>
          return Error(InvalidYaml, start, path);
      }
      var location := NodeLocation(value, start);
      locations := locations[path := location];
      return Ok(Node(location, path, value));
    }

    method ReadWhole() returns (r: Result<Node, ParseError>)
      requires locations == map[]
      modifies this
      ensures r == ReadDocument(old(stream))
      ensures r.Ok? ==> locations == Record(r.value, map[])
    {
      var _ :- ReadEvent("$");
      var second :- ReadEvent("$");
      var (event, at) := second;
      if event.StreamEnd? {
        return Error(EmptyDocument, at, "$");
      }
      var third :- ReadEvent("$");
      var (first, start) := third;
      var node :- ReadValue(first, start, "$", 0);
      if node.value.Null? {
        return Error(EmptyDocument, start, "$");
      }
      var _ :- ReadEvent("$");
      var final :- ReadEvent("$");
      var (last, end) := final;
      if !last.StreamEnd? {
        return Error(MultipleDocuments, end, "$");
      }
      return Ok(node);
    }
  }
}
