/** Where and what the values of a document are, from the marks and texts of its events. */
module YamlMarks {
  import opened Common
  import opened FieldPaths
  import opened YamlEvents
  import opened YamlReader
  import opened YamlTheorems
  import YamlFaults
  import opened PolicySyntax
  import opened PolicyLocations
  import opened PolicyDiagnostics

  // Positions in a tree

  function EntryWith(entries: seq<TableEntry>, key: string): Option<TableEntry> {
    if entries == [] then None
    else if entries[0].key == key then Some(entries[0])
    else EntryWith(entries[1..], key)
  }

  /** The part of a tree reached by steps. */
  function TreeAt(tree: Tree, steps: seq<Step>): Option<Tree>
    decreases |steps|
  {
    if steps == [] then Some(tree)
    else
      match steps[0]
      case Key(key) =>
        if tree.Table? && EntryWith(tree.entries, key).Some?
        then TreeAt(EntryWith(tree.entries, key).value.value, steps[1..]) else None
      case Index(i) =>
        if tree.List? && i < |tree.items| then TreeAt(tree.items[i], steps[1..]) else None
  }

  /** The location of a scalar or a sequence is the mark of its event, with columns from one. The
      location of a mapping is the earlier of its own mark and that of its first key. */
  predicate MarkedAt(location: SourceLocation, tree: Tree) {
    match tree
    case Leaf(_, _, mark) => location.line == mark.line && location.column == mark.col + 1
    case List(_, open, _) => location.line == open.line && location.column == open.col + 1
    case Table(entries, open, _) =>
      if entries != []
         && (entries[0].mark.line < open.line
             || (entries[0].mark.line == open.line && entries[0].mark.col < open.col))
      then location.line == entries[0].mark.line && location.column == entries[0].mark.col + 1
      else location.line == open.line && location.column == open.col + 1
  }

  /** Scalars are their texts, whatever their style, except for the plain nulls; sequences have as
      many items and mappings the same keys, in order and marked at their own events. */
  predicate Reads(value: Value, tree: Tree) {
    match tree
    case Leaf(text, style, _) => value == if YamlFaults.PlainNull(text, style) then Null else Scalar(text)
    case List(items, _, _) => value.Sequence? && |value.items| == |items|
    case Table(entries, _, _) =>
      && value.Mapping? && |value.fields| == |entries|
      && forall i :: 0 <= i < |entries| ==>
           && value.fields[i].key == entries[i].key
           && value.fields[i].location == SourceLocation(entries[i].mark.line, entries[i].mark.col + 1)
  }

  lemma {:induction false} FieldsByKey(entries: seq<TableEntry>, path: string, key: string)
    ensures Find(YamlEvents.FieldsOf(entries, path), key) ==
            match EntryWith(entries, key)
            case Some(entry) => Some(NodeOf(entry.value, ChildPath(path, key)))
            case None => None
  {
    hide NodeOf, ChildPath;
    if entries != [] { FieldsByKey(entries[1..], path, key); }
  }

  lemma NodeReads(tree: Tree, path: string)
    ensures Reads(NodeOf(tree, path).value, tree) && MarkedAt(NodeOf(tree, path).location, tree)
  {
    hide ItemPath, ChildPath;
    match tree
    case Leaf(_, _, _) =>
    case List(items, _, _) => NodesByIndex(items, path, 0);
    case Table(entries, _, _) => FieldsByIndex(entries, path);
  }

  /** A located tree has the positions of the tree it was read from. */
  lemma {:induction false} SamePositions(tree: Tree, path: string, steps: seq<Step>)
    ensures NodeAt(NodeOf(tree, path), steps).Some? <==> TreeAt(tree, steps).Some?
    ensures TreeAt(tree, steps).Some? ==>
              var node := NodeAt(NodeOf(tree, path), steps).value;
              Reads(node.value, TreeAt(tree, steps).value) && MarkedAt(node.location, TreeAt(tree, steps).value)
    decreases |steps|
  {
    hide ItemPath, ChildPath, Reads, MarkedAt, NodeLocation, IsNull;
    if steps == [] {
      NodeReads(tree, path);
    } else {
      match tree
      case Leaf(_, _, _) =>
      case List(items, _, _) =>
        NodesByIndex(items, path, 0);
        if steps[0].Index? && steps[0].index < |items| {
          SamePositions(items[steps[0].index], ItemPath(path, steps[0].index), steps[1..]);
        }
      case Table(entries, _, _) =>
        if steps[0].Key? {
          FieldsByKey(entries, path, steps[0].key);
          if EntryWith(entries, steps[0].key).Some? {
            SamePositions(EntryWith(entries, steps[0].key).value.value, ChildPath(path, steps[0].key), steps[1..]);
          }
        }
    }
  }

  /** The tree whose events the third and the following events of a document are. */
  ghost predicate Writes(s: Stream, tree: Tree) {
    |s.events| >= 2 && ValidTree(tree, 0) && Emit(tree) <= s.events[2..]
  }

  lemma DocumentIsWritten(s: Stream) returns (tree: Tree)
    requires ReadDocument(s).Ok?
    ensures Writes(s, tree)
  {
    var tail;
    tree, tail := TreeOfDocument(s, ReadDocument(s).value);
  }

  lemma WrittenIsRead(s: Stream, tree: Tree)
    requires ReadDocument(s).Ok? && Writes(s, tree)
    ensures ReadDocument(s).value == NodeOf(tree, "$")
  {
    hide ReadNode, Emit, NodeOf, ValidTree, Next;
    var events := s.events[2..];
    var tail := events[|Emit(tree)|..];
    var s1 := s.(events := s.events[1..]);
    var s2 := s.(events := s.events[2..]);
    NextIsClean(s, "$");
    assert s1.events[1..] == s2.events;
    NextIsClean(s1, "$");
    NextIsClean(s2, "$");
    assert events == Emit(tree) + tail;
    EmitHead(tree);
    assert events[0] == Emit(tree)[0] && events[1..] == Emit(tree)[1..] + tail;
    ReadEmitted(tree, tail, s, "$", 0);
  }

  /** Every value of a document is what the events at its position say, and is located at their
      marks. */
  lemma ValuesAreMarked(s: Stream, tree: Tree, steps: seq<Step>)
    requires ReadDocument(s).Ok? && Writes(s, tree)
    ensures NodeAt(ReadDocument(s).value, steps).Some? <==> TreeAt(tree, steps).Some?
    ensures TreeAt(tree, steps).Some? ==>
              var node := NodeAt(ReadDocument(s).value, steps).value;
              Reads(node.value, TreeAt(tree, steps).value) && MarkedAt(node.location, TreeAt(tree, steps).value)
  {
    hide ReadDocument, NodeAt, TreeAt, Reads, MarkedAt, NodeOf, Writes;
    WrittenIsRead(s, tree);
    SamePositions(tree, "$", steps);
  }

  /** The recorded locations of an accepted policy are the marks of its events, under the texts of
      their positions. */
  lemma LocationsAreMarks(s: Stream, tree: Tree, path: string)
    requires ParsedFrom(s).Ok? && ReadDocument(s).Ok? && Writes(s, tree)
    ensures var locations := ParsedFrom(s).value.locations;
            && (path in locations <==> exists steps :: TreeAt(tree, steps).Some? && path == RenderPath(steps))
            && forall steps :: TreeAt(tree, steps).Some? && path == RenderPath(steps) ==>
                 MarkedAt(locations[path], TreeAt(tree, steps).value)
  {
    hide ReadDocument, ParsedFrom, NodeAt, TreeAt, Reads, MarkedAt, NodeOf, Writes, RenderPath;
    forall steps | TreeAt(tree, steps).Some? && path == RenderPath(steps)
      ensures path in ParsedFrom(s).value.locations
      ensures MarkedAt(ParsedFrom(s).value.locations[path], TreeAt(tree, steps).value)
    {
      ValuesAreMarked(s, tree, steps);
      LocationsAreFaithful(s, steps);
    }
    if path in ParsedFrom(s).value.locations {
      LocationsAreValues(s, path);
      var steps :| NodeAt(ReadDocument(s).value, steps).Some? && path == RenderPath(steps);
      ValuesAreMarked(s, tree, steps);
    }
  }

  // What a document may hold

  function Child(tree: Tree, i: nat): Option<Tree> {
    match tree
    case Leaf(_, _, _) => None
    case List(items, _, _) => if i < |items| then Some(items[i]) else None
    case Table(entries, _, _) => if i < |entries| then Some(entries[i].value) else None
  }

  /** The part of a tree reached by counting. */
  function Part(tree: Tree, at: seq<nat>): Option<Tree>
    decreases |at|
  {
    if at == [] then Some(tree)
    else
      match Child(tree, at[0])
      case Some(child) => Part(child, at[1..])
      case None => None
  }

  /** The keys are distinct, and none is a plain null or the merge key. */
  predicate SoundKeys(entries: seq<TableEntry>) {
    && (forall i :: 0 <= i < |entries| ==>
          !YamlFaults.PlainNull(entries[i].key, entries[i].style) && entries[i].key != "<<")
    && (forall i, j :: 0 <= i < j < |entries| ==> entries[i].key != entries[j].key)
  }

  /** A collection `outer` levels deep has fewer than 64 around it, and its keys are sound. */
  predicate SoundAt(tree: Tree, outer: nat) {
    match tree
    case Leaf(_, _, _) => true
    case List(_, _, _) => outer < 64
    case Table(entries, _, _) => outer < 64 && SoundKeys(entries)
  }

  ghost predicate SoundParts(tree: Tree, outer: nat) {
    forall at: seq<nat> :: Part(tree, at).Some? ==> SoundAt(Part(tree, at).value, outer + |at|)
  }

  lemma SoundChild(tree: Tree, outer: nat, i: nat)
    requires SoundParts(tree, outer) && Child(tree, i).Some?
    ensures SoundParts(Child(tree, i).value, outer + 1)
  {
    hide SoundAt, Child;
    var child := Child(tree, i).value;
    forall at: seq<nat> | Part(child, at).Some? ensures SoundAt(Part(child, at).value, outer + 1 + |at|) {
      var longer := [i] + at;
      assert longer[1..] == at && Part(tree, longer) == Part(child, at);
    }
  }

  lemma SoundFromChildren(tree: Tree, outer: nat)
    requires SoundAt(tree, outer)
    requires forall i: nat :: Child(tree, i).Some? ==> SoundParts(Child(tree, i).value, outer + 1)
    ensures SoundParts(tree, outer)
  {
    hide SoundAt, Child;
    forall at: seq<nat> | Part(tree, at).Some? ensures SoundAt(Part(tree, at).value, outer + |at|) {
      if at != [] {
        var child := Child(tree, at[0]).value;
        assert SoundParts(child, outer + 1) && Part(child, at[1..]).Some?;
      }
    }
  }

  lemma SoundBelow(tree: Tree, outer: nat)
    ensures SoundParts(tree, outer) <==>
            && SoundAt(tree, outer)
            && forall i: nat :: Child(tree, i).Some? ==> SoundParts(Child(tree, i).value, outer + 1)
  {
    if SoundParts(tree, outer) {
      assert Part(tree, []) == Some(tree);
      hide SoundParts, SoundAt;
      forall i: nat | Child(tree, i).Some? ensures SoundParts(Child(tree, i).value, outer + 1) {
        SoundChild(tree, outer, i);
      }
    } else if SoundAt(tree, outer)
              && forall i: nat :: Child(tree, i).Some? ==> SoundParts(Child(tree, i).value, outer + 1) {
      SoundFromChildren(tree, outer);
    }
  }

  /** A tree is valid exactly when all its parts are sound. */
  lemma {:induction false} ValidInFull(tree: Tree, depth: nat)
    ensures ValidTree(tree, depth) <==> SoundParts(tree, depth)
    decreases tree, 0
  {
    hide SoundParts, SoundKeys;
    SoundBelow(tree, depth);
    match tree
    case Leaf(_, _, _) =>
    case List(items, _, _) =>
      ItemsInFull(tree, items, depth + 1);
      assert forall i: nat :: i < |items| ==> Child(tree, i) == Some(items[i]);
    case Table(entries, _, _) =>
      assert forall i: nat :: i < |entries| ==> Child(tree, i) == Some(entries[i].value);
      EntriesInFull(tree, entries, {}, depth + 1);
      KeysInFull(entries);
  }

  lemma {:induction false} ItemsInFull(owner: Tree, items: seq<Tree>, depth: nat)
    requires forall item :: item in items ==> item < owner
    ensures ValidItems(items, depth) <==> forall i :: 0 <= i < |items| ==> SoundParts(items[i], depth)
    decreases owner, 0, |items|
  {
    hide SoundParts, ValidTree;
    if items != [] {
      assert items[0] in items && forall item :: item in items[1..] ==> item in items;
      ValidInFull(items[0], depth);
      ItemsInFull(owner, items[1..], depth);
      assert forall i :: 0 < i < |items| ==> items[i] == items[1..][i - 1];
    }
  }

  /** The keys of the entries are sound and none is among others. */
  predicate KeysBeside(entries: seq<TableEntry>, keys: set<string>) {
    SoundKeys(entries) && forall i :: 0 <= i < |entries| ==> entries[i].key !in keys
  }

  lemma KeysInFull(entries: seq<TableEntry>)
    ensures KeysBeside(entries, {}) <==> SoundKeys(entries)
  {
  }

  lemma KeysBesideFirst(entries: seq<TableEntry>, keys: set<string>)
    requires entries != []
    ensures KeysBeside(entries, keys) <==>
            && !IsNull(entries[0].key, entries[0].style) && entries[0].key != "<<" && entries[0].key !in keys
            && KeysBeside(entries[1..], keys + {entries[0].key})
  {
    var first, rest := entries[0], entries[1..];
    assert forall i :: 0 < i < |entries| ==> entries[i] == rest[i - 1];
    assert IsNull(first.key, first.style) <==> YamlFaults.PlainNull(first.key, first.style);
    hide IsNull, YamlFaults.PlainNull;
    if KeysBeside(rest, keys + {first.key}) {
      assert forall i :: 0 <= i < |rest| ==> rest[i].key !in keys + {first.key};
    }
  }

  lemma {:induction false} EntriesInFull(owner: Tree, entries: seq<TableEntry>, keys: set<string>, depth: nat)
    requires forall entry :: entry in entries ==> entry.value < owner
    ensures ValidEntries(entries, keys, depth) <==>
            KeysBeside(entries, keys) && forall i :: 0 <= i < |entries| ==> SoundParts(entries[i].value, depth)
    decreases owner, 0, |entries|
  {
    hide SoundParts, ValidTree, KeysBeside, IsNull;
    if entries == [] {
      NoKeys(keys);
    } else {
      assert entries[0] in entries && forall entry :: entry in entries[1..] ==> entry in entries;
      ValidInFull(entries[0].value, depth);
      EntriesInFull(owner, entries[1..], keys + {entries[0].key}, depth);
      KeysBesideFirst(entries, keys);
      assert forall i :: 0 < i < |entries| ==> entries[i] == entries[1..][i - 1];
    }
  }

  lemma NoKeys(keys: set<string>)
    ensures KeysBeside([], keys)
  {
  }
}
