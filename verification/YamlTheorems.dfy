/** The event reader is sound and complete. */
module YamlTheorems {
  import opened Common
  import opened FieldPaths
  import opened YamlEvents

  predicate Clean(event: Event) {
    !Tagged(event) && !Anchored(event)
  }

  lemma NextOfClean(s: Stream, path: string)
    requires s.events != [] && Clean(s.events[0].event)
    ensures Next(s, path) == Ok((s.events[0].event, Located(s.events[0].mark), s.(events := s.events[1..])))
  {
  }

  lemma NextIsClean(s: Stream, path: string)
    requires Next(s, path).Ok?
    ensures s.events != [] && Clean(s.events[0].event)
    ensures Next(s, path).value == (s.events[0].event, Located(s.events[0].mark), s.(events := s.events[1..]))
  {
  }

  lemma EmitHead(tree: Tree)
    ensures Emit(tree) != [] && Clean(Emit(tree)[0].event)
    ensures !Emit(tree)[0].event.SequenceEnd? && !Emit(tree)[0].event.MappingEnd?
  {
  }

  function KeyEvent(entry: TableEntry): Marked {
    Marked(ScalarEvent(entry.key, entry.style, 0, false), entry.mark)
  }

  lemma NoEntries()
    ensures EmitEntries([]) == []
  {
  }

  /** The events of an entry in front of those of the others. */
  lemma EntryFirst(first: TableEntry, rest: seq<TableEntry>, close: Marked, tail: seq<Marked>)
    ensures EmitEntries([first] + rest) + [close] + tail ==
            [KeyEvent(first)] + (Emit(first.value) + (EmitEntries(rest) + [close] + tail))
  {
    assert ([first] + rest)[1..] == rest;
    assert EmitEntries([first] + rest) == [KeyEvent(first)] + Emit(first.value) + EmitEntries(rest);
    hide EmitEntries, Emit;
    var key, value, more := [KeyEvent(first)], Emit(first.value), EmitEntries(rest);
    Associative(key + value, more, [close]);
    Associative(key + value, more + [close], tail);
    Associative(key, value, more + [close] + tail);
  }

  /** The parts of a located tree, one by one. */
  lemma {:induction false} NodesByIndex(items: seq<Tree>, path: string, index: nat)
    ensures var nodes := NodesOf(items, path, index);
            && |nodes| == |items|
            && forall i :: 0 <= i < |items| ==> nodes[i] == NodeOf(items[i], ItemPath(path, index + i))
  {
    hide NodeOf, ItemPath;
    if items != [] { NodesByIndex(items[1..], path, index + 1); }
  }

  lemma {:induction false} FieldsByIndex(entries: seq<TableEntry>, path: string)
    ensures var fields := FieldsOf(entries, path);
            && |fields| == |entries|
            && forall i :: 0 <= i < |entries| ==>
                 && fields[i].key == entries[i].key
                 && fields[i].location == SourceLocation(entries[i].mark.line, entries[i].mark.col + 1)
                 && fields[i].node == NodeOf(entries[i].value, ChildPath(path, entries[i].key))
  {
    hide NodeOf, ChildPath;
    if entries != [] { FieldsByIndex(entries[1..], path); }
  }

  // Completeness: what a valid tree emits is read as that tree

  lemma {:induction false} ReadEmitted(tree: Tree, tail: seq<Marked>, s: Stream, path: string, depth: nat)
    requires ValidTree(tree, depth)
    ensures var head := Emit(tree)[0];
            ReadNode(head.event, Located(head.mark), s.(events := Emit(tree)[1..] + tail), path, depth) ==
            Ok((NodeOf(tree, path), s.(events := tail)))
    decreases tree, 0
  {
    hide Next, ReadItems, ReadFields, EmitAll, EmitEntries, NodesOf, FieldsOf, NodeLocation, IsNull;
    match tree
    case Leaf(_, _, _) =>
      assert Emit(tree)[1..] + tail == tail;
    case List(items, open, close) =>
      var body := EmitAll(items) + [Marked(SequenceEnd, close)];
      assert Emit(tree) == [Marked(SequenceStart(0, false), open)] + body;
      assert Emit(tree)[1..] == body;
      ReadEmittedItems(tree, items, close, tail, s, path, 0, depth);
    case Table(entries, open, close) =>
      var body := EmitEntries(entries) + [Marked(MappingEnd, close)];
      assert Emit(tree) == [Marked(MappingStart(0, false), open)] + body;
      assert Emit(tree)[1..] == body;
      var none: map<string, SourceLocation> := map[];
      assert none.Keys == {};
      ReadEmittedFields(tree, entries, close, tail, s, path, none, depth);
  }

  lemma {:induction false} ReadEmittedItems(
    owner: Tree, items: seq<Tree>, close: Mark, tail: seq<Marked>, s: Stream, path: string, index: nat, depth: nat)
    requires forall item :: item in items ==> item < owner
    requires ValidItems(items, depth + 1)
    ensures ReadItems(s.(events := EmitAll(items) + [Marked(SequenceEnd, close)] + tail), path, index, depth) ==
            Ok((NodesOf(items, path, index), s.(events := tail)))
    decreases owner, 0, |items|
  {
    hide ReadNode, ItemPath, Next, Emit, ValidTree, NodeOf;
    var all := s.(events := EmitAll(items) + [Marked(SequenceEnd, close)] + tail);
    var item := ItemPath(path, index);
    if items == [] {
      assert all.events == [Marked(SequenceEnd, close)] + tail;
      assert all.events[1..] == tail;
      NextOfClean(all, item);
    } else {
      var first := items[0];
      assert first in items && forall item :: item in items[1..] ==> item in items;
      var after := EmitAll(items[1..]) + [Marked(SequenceEnd, close)] + tail;
      EmitHead(first);
      assert all.events == Emit(first) + after;
      assert all.events[0] == Emit(first)[0] && all.events[1..] == Emit(first)[1..] + after;
      NextOfClean(all, item);
      ReadEmitted(first, after, s, item, depth + 1);
      ReadEmittedItems(owner, items[1..], close, tail, s, path, index + 1, depth);
    }
  }

  lemma {:induction false} ReadEmittedFields(
    owner: Tree, entries: seq<TableEntry>, close: Mark, tail: seq<Marked>, s: Stream, path: string,
    keys: map<string, SourceLocation>, depth: nat)
    requires forall entry :: entry in entries ==> entry.value < owner
    requires ValidEntries(entries, keys.Keys, depth + 1)
    ensures ReadFields(s.(events := EmitEntries(entries) + [Marked(MappingEnd, close)] + tail), path, keys, depth) ==
            Ok((FieldsOf(entries, path), s.(events := tail)))
    decreases owner, 0, |entries|
  {
    hide ReadNode, ChildPath, Next, Emit, EmitEntries, ValidTree, NodeOf, IsNull;
    NoEntries();
    var all := s.(events := EmitEntries(entries) + [Marked(MappingEnd, close)] + tail);
    if entries == [] {
      assert all.events == [Marked(MappingEnd, close)] + tail;
      assert all.events[1..] == tail;
      NextOfClean(all, path);
    } else {
      var first := entries[0];
      assert first in entries && forall entry :: entry in entries[1..] ==> entry in entries;
      var child := ChildPath(path, first.key);
      var after := EmitEntries(entries[1..]) + [Marked(MappingEnd, close)] + tail;
      var inner := s.(events := Emit(first.value) + after);
      EmitHead(first.value);
      assert entries == [first] + entries[1..];
      EntryFirst(first, entries[1..], Marked(MappingEnd, close), tail);
      assert all.events[0] == KeyEvent(first) && all.events[1..] == inner.events;
      NextOfClean(all, path);
      assert inner.events[0] == Emit(first.value)[0] && inner.events[1..] == Emit(first.value)[1..] + after;
      NextOfClean(inner, child);
      ReadEmitted(first.value, after, s, child, depth + 1);
      var keys' := keys[first.key := Located(first.mark)];
      assert keys'.Keys == keys.Keys + {first.key};
      ReadEmittedFields(owner, entries[1..], close, tail, s, path, keys', depth);
    }
  }

  // Soundness: whatever is read was emitted by a valid tree

  ghost predicate ReadAs(before: seq<Marked>, tree: Tree, node: Node, after: seq<Marked>, path: string, depth: nat) {
    ValidTree(tree, depth) && before == Emit(tree) + after && node == NodeOf(tree, path)
  }

  lemma {:induction false} TreeOfRead(event: Event, mark: Mark, s: Stream, path: string, depth: nat)
    returns (tree: Tree)
    requires Clean(event) && ReadNode(event, Located(mark), s, path, depth).Ok?
    ensures var (node, rest) := ReadNode(event, Located(mark), s, path, depth).value;
            && rest == s.(events := rest.events)
            && ReadAs([Marked(event, mark)] + s.events, tree, node, rest.events, path, depth)
    decreases |s.events|, 2
  {
    hide Next, ReadItems, ReadFields, EmitAll, EmitEntries, NodesOf, FieldsOf, NodeLocation, IsNull;
    var (node, rest) := ReadNode(event, Located(mark), s, path, depth).value;
    match event
    case ScalarEvent(text, style, _, _) =>
      tree := Leaf(text, style, mark);
    case SequenceStart(_, _) =>
      var items, close := ItemsOfRead(s, path, 0, depth);
      tree := List(items, mark, close);
      var body := EmitAll(items) + [Marked(SequenceEnd, close)];
      assert Emit(tree) + rest.events == [Marked(event, mark)] + (body + rest.events);
    case MappingStart(_, _) =>
      var none: map<string, SourceLocation> := map[];
      assert none.Keys == {};
      var entries, close := EntriesOfRead(s, path, none, depth);
      tree := Table(entries, mark, close);
      var body := EmitEntries(entries) + [Marked(MappingEnd, close)];
      assert Emit(tree) + rest.events == [Marked(event, mark)] + (body + rest.events);
  }

  lemma {:induction false} ItemsOfRead(s: Stream, path: string, index: nat, depth: nat)
    returns (items: seq<Tree>, close: Mark)
    requires ReadItems(s, path, index, depth).Ok?
    ensures var (nodes, rest) := ReadItems(s, path, index, depth).value;
            && rest == s.(events := rest.events)
            && ValidItems(items, depth + 1)
            && s.events == EmitAll(items) + [Marked(SequenceEnd, close)] + rest.events
            && nodes == NodesOf(items, path, index)
    decreases |s.events|, 1
  {
    hide ReadNode, ItemPath, Next, Emit, ValidTree, NodeOf;
    var item := ItemPath(path, index);
    NextIsClean(s, item);
    var head := s.events[0];
    var after := s.(events := s.events[1..]);
    var rest := ReadItems(s, path, index, depth).value.1;
    if head.event.SequenceEnd? {
      items, close := [], head.mark;
      assert s.events == [head] + rest.events;
      assert EmitAll(items) + [head] == [head];
    } else {
      var first := TreeOfRead(head.event, head.mark, after, item, depth + 1);
      var then' := ReadNode(head.event, Located(head.mark), after, item, depth + 1).value.1;
      var more, end := ItemsOfRead(then', path, index + 1, depth);
      items, close := [first] + more, end;
      assert items[1..] == more;
      assert [head] + after.events == s.events;
      var tail := [Marked(SequenceEnd, close)] + rest.events;
      assert EmitAll(more) + [Marked(SequenceEnd, close)] + rest.events == EmitAll(more) + tail;
      assert Emit(first) + (EmitAll(more) + tail) == EmitAll(items) + tail;
      assert EmitAll(items) + tail == EmitAll(items) + [Marked(SequenceEnd, close)] + rest.events;
    }
  }

  lemma {:induction false} EntriesOfRead(s: Stream, path: string, keys: map<string, SourceLocation>, depth: nat)
    returns (entries: seq<TableEntry>, close: Mark)
    requires ReadFields(s, path, keys, depth).Ok?
    ensures var (fields, rest) := ReadFields(s, path, keys, depth).value;
            && rest == s.(events := rest.events)
            && ValidEntries(entries, keys.Keys, depth + 1)
            && s.events == EmitEntries(entries) + [Marked(MappingEnd, close)] + rest.events
            && fields == FieldsOf(entries, path)
    decreases |s.events|, 1
  {
    hide ReadNode, ChildPath, Next, Emit, EmitEntries, ValidTree, NodeOf, IsNull;
    NoEntries();
    NextIsClean(s, path);
    var head := s.events[0];
    var after := s.(events := s.events[1..]);
    var rest := ReadFields(s, path, keys, depth).value.1;
    if head.event.MappingEnd? {
      entries, close := [], head.mark;
      assert s.events == [head] + rest.events;
      assert EmitEntries(entries) + [head] == [head];
    } else {
      var key := head.event.text;
      var child := ChildPath(path, key);
      NextIsClean(after, child);
      var start := after.events[0];
      var inner := after.(events := after.events[1..]);
      var value := TreeOfRead(start.event, start.mark, inner, child, depth + 1);
      var then' := ReadNode(start.event, Located(start.mark), inner, child, depth + 1).value.1;
      var keys' := keys[key := Located(head.mark)];
      assert keys'.Keys == keys.Keys + {key};
      var more, end := EntriesOfRead(then', path, keys', depth);
      var entry := TableEntry(key, head.event.style, head.mark, value);
      entries, close := [entry] + more, end;
      assert entries[1..] == more;
      assert Clean(head.event);
      assert head == KeyEvent(entry);
      assert s.events == [head] + ([start] + inner.events);
      EntryFirst(entry, more, Marked(MappingEnd, close), rest.events);
    }
  }

  // Documents

  /** Two opening events that are not the end of the stream, one valid tree that is not null,
      a closing event, and the end of the stream. */
  ghost predicate IsDocument(events: seq<Marked>, tree: Tree, node: Node, tail: seq<Marked>) {
    && |events| >= 2 && Clean(events[0].event) && Clean(events[1].event) && !events[1].event.StreamEnd?
    && |tail| >= 2 && Clean(tail[0].event) && tail[1].event.StreamEnd?
    && ReadAs(events[2..], tree, node, tail, "$", 0)
    && !node.value.Null?
  }

  /** The reader accepts a stream exactly when it is one document: a single value that is not
      null and free of tags, anchors and aliases, with at most 64 nested collections and, in
      each mapping, distinct textual keys other than plain nulls and the merge key. What it
      returns is that value. */
  lemma DocumentsAreTrees(s: Stream, node: Node)
    ensures ReadDocument(s) == Ok(node) <==> exists tree, tail :: IsDocument(s.events, tree, node, tail)
  {
    if ReadDocument(s) == Ok(node) {
      var tree, tail := TreeOfDocument(s, node);
    }
    if tree, tail :| IsDocument(s.events, tree, node, tail) {
      ReadTreeDocument(s, tree, node, tail);
    }
  }

  lemma TreeOfDocument(s: Stream, node: Node) returns (tree: Tree, tail: seq<Marked>)
    requires ReadDocument(s) == Ok(node)
    ensures IsDocument(s.events, tree, node, tail)
  {
    hide ReadNode, Next, ReadAs;
    NextIsClean(s, "$");
    var s1 := s.(events := s.events[1..]);
    NextIsClean(s1, "$");
    var s2 := s.(events := s.events[2..]);
    assert s1.events[1..] == s.events[2..];
    NextIsClean(s2, "$");
    var first := s2.events[0];
    var s3 := s2.(events := s2.events[1..]);
    tree := TreeOfRead(first.event, first.mark, s3, "$", 0);
    var s4 := ReadNode(first.event, Located(first.mark), s3, "$", 0).value.1;
    tail := s4.events;
    assert [first] + s3.events == s2.events;
    NextIsClean(s4, "$");
    NextIsClean(s4.(events := s4.events[1..]), "$");
  }

  lemma ReadTreeDocument(s: Stream, tree: Tree, node: Node, tail: seq<Marked>)
    requires IsDocument(s.events, tree, node, tail)
    ensures ReadDocument(s) == Ok(node)
  {
    hide ReadNode, Next, Emit, NodeOf, ValidTree;
    var s1 := s.(events := s.events[1..]);
    var s2 := s.(events := s.events[2..]);
    assert s1.events[1..] == s2.events;
    NextOfClean(s, "$");
    NextOfClean(s1, "$");
    EmitHead(tree);
    assert s2.events[0] == Emit(tree)[0] && s2.events[1..] == Emit(tree)[1..] + tail;
    NextOfClean(s2, "$");
    ReadEmitted(tree, tail, s, "$", 0);
    var s4 := s.(events := tail);
    NextOfClean(s4, "$");
    NextOfClean(s4.(events := tail[1..]), "$");
  }
}
