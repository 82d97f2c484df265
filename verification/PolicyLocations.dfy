/** Why the string-keyed location map of an accepted policy is faithful. */
module PolicyLocations {
  import opened Common
  import opened FieldPaths
  import opened YamlEvents
  import opened YamlReader
  import opened YamlTheorems
  import opened PolicySyntax

  // Positions in a located tree

  /** The part of a value reached by steps. */
  function NodeAt(node: Node, steps: seq<Step>): Option<Node>
    decreases |steps|
  {
    if steps == [] then Some(node)
    else
      match steps[0]
      case Key(key) =>
        (match Optional(node, key)
         case Some(child) => NodeAt(child, steps[1..])
         case None => None)
      case Index(i) =>
        if node.value.Sequence? && i < |node.value.items| then NodeAt(node.value.items[i], steps[1..]) else None
  }

  /** Every value carries the text of its own position. */
  predicate WellPathed(node: Node, at: seq<Step>) {
    && node.path == RenderPath(at)
    && match node.value
       case Sequence(items) => forall i :: 0 <= i < |items| ==> WellPathed(items[i], at + [Index(i)])
       case Mapping(fields) => forall i :: 0 <= i < |fields| ==> WellPathed(fields[i].node, at + [Key(fields[i].key)])
       case _ => true
  }

  predicate DistinctKeys(fields: seq<Field>) {
    forall i, j :: 0 <= i < j < |fields| ==> fields[i].key != fields[j].key
  }

  /** In every mapping the keys are distinct. */
  predicate Distinct(node: Node) {
    match node.value
    case Sequence(items) => forall i :: 0 <= i < |items| ==> Distinct(items[i])
    case Mapping(fields) => DistinctKeys(fields) && forall i :: 0 <= i < |fields| ==> Distinct(fields[i].node)
    case _ => true
  }

  /** Every key anywhere is a simple one. */
  predicate Simple(node: Node) {
    match node.value
    case Sequence(items) => forall i :: 0 <= i < |items| ==> Simple(items[i])
    case Mapping(fields) => forall i :: 0 <= i < |fields| ==> SimpleKey(fields[i].key) && Simple(fields[i].node)
    case _ => true
  }

  lemma StepPathPush(at: seq<Step>, step: Step)
    ensures RenderPath(at + [step]) == StepPath(RenderPath(at), step)
    ensures RenderPath([]) == "$"
  {
    assert Init(at + [step]) == at && Last(at + [step]) == step;
  }

  // What reading produces

  lemma {:induction false} TreesAreWellPathed(tree: Tree, at: seq<Step>, depth: nat)
    requires ValidTree(tree, depth)
    ensures WellPathed(NodeOf(tree, RenderPath(at)), at) && Distinct(NodeOf(tree, RenderPath(at)))
    decreases tree, 0
  {
    hide RenderPath, NodeLocation, IsNull;
    match tree
    case Leaf(_, _, _) =>
    case List(items, _, _) => ItemsAreWellPathed(tree, items, at, 0, depth + 1);
    case Table(entries, _, _) => EntriesAreWellPathed(tree, entries, at, {}, depth + 1);
  }

  lemma {:induction false} ItemsAreWellPathed(owner: Tree, items: seq<Tree>, at: seq<Step>, index: nat, depth: nat)
    requires forall item :: item in items ==> item < owner
    requires ValidItems(items, depth)
    ensures var nodes := NodesOf(items, RenderPath(at), index);
            |nodes| == |items| && forall i :: 0 <= i < |nodes| ==>
                                     WellPathed(nodes[i], at + [Index(index + i)]) && Distinct(nodes[i])
    decreases owner, 0, |items|
  {
    hide RenderPath, WellPathed, Distinct, NodeOf, ValidTree, ItemPath;
    if items != [] {
      assert items[0] in items && forall item :: item in items[1..] ==> item in items;
      StepPathPush(at, Index(index));
      TreesAreWellPathed(items[0], at + [Index(index)], depth);
      ItemsAreWellPathed(owner, items[1..], at, index + 1, depth);
    }
  }

  lemma {:induction false} EntriesAreWellPathed(
    owner: Tree, entries: seq<TableEntry>, at: seq<Step>, keys: set<string>, depth: nat)
    requires forall entry :: entry in entries ==> entry.value < owner
    requires ValidEntries(entries, keys, depth)
    ensures var fields := YamlEvents.FieldsOf(entries, RenderPath(at));
            && |fields| == |entries|
            && (forall i :: 0 <= i < |fields| ==>
                  && WellPathed(fields[i].node, at + [Key(fields[i].key)]) && Distinct(fields[i].node)
                  && fields[i].key !in keys)
            && DistinctKeys(fields)
    decreases owner, 0, |entries|
  {
    hide RenderPath, WellPathed, Distinct, NodeOf, ValidTree, ChildPath, IsNull;
    if entries != [] {
      var first := entries[0];
      assert first in entries && forall entry :: entry in entries[1..] ==> entry in entries;
      StepPathPush(at, Key(first.key));
      TreesAreWellPathed(first.value, at + [Key(first.key)], depth);
      EntriesAreWellPathed(owner, entries[1..], at, keys + {first.key}, depth);
    }
  }

  /** A read document is well pathed and has distinct keys. */
  lemma DocumentIsWellPathed(s: Stream)
    requires ReadDocument(s).Ok?
    ensures WellPathed(ReadDocument(s).value, []) && Distinct(ReadDocument(s).value)
  {
    hide ReadDocument;
    var tree, tail := TreeOfDocument(s, ReadDocument(s).value);
    hide WellPathed, Distinct;
    TreesAreWellPathed(tree, [], 0);
  }

  lemma {:induction false} FindIsField(fields: seq<Field>, key: string)
    ensures Find(fields, key).Some? ==>
              exists i :: 0 <= i < |fields| && fields[i].key == key && fields[i].node == Find(fields, key).value
    ensures Find(fields, key).None? ==> forall i :: 0 <= i < |fields| ==> fields[i].key != key
  {
    if fields != [] && fields[0].key != key {
      FindIsField(fields[1..], key);
      if Find(fields[1..], key).Some? {
        var i :| 0 <= i < |fields[1..]| && fields[1..][i].key == key && fields[1..][i].node == Find(fields, key).value;
        assert fields[i + 1].key == key;
      }
    } else if fields != [] {
      assert fields[0].node == Find(fields, key).value;
    }
  }

  lemma {:induction false} FindDistinct(fields: seq<Field>, i: nat)
    requires i < |fields| && DistinctKeys(fields)
    ensures Find(fields, fields[i].key) == Some(fields[i].node)
  {
    if i > 0 {
      assert fields[0].key != fields[i].key;
      FindDistinct(fields[1..], i - 1);
    }
  }

  /** Every position below a well-pathed value carries the text of that position. */
  lemma {:induction false} PathOfPosition(node: Node, at: seq<Step>, steps: seq<Step>)
    requires WellPathed(node, at) && NodeAt(node, steps).Some?
    ensures NodeAt(node, steps).value.path == RenderPath(at + steps)
    decreases |steps|
  {
    hide RenderPath;
    if steps == [] {
      assert at + steps == at;
    } else {
      assert at + steps == at + [steps[0]] + steps[1..];
      match steps[0]
      case Key(key) =>
        FindIsField(node.value.fields, key);
        PathOfPosition(Optional(node, key).value, at + [steps[0]], steps[1..]);
      case Index(i) =>
        PathOfPosition(node.value.items[i], at + [steps[0]], steps[1..]);
    }
  }

  lemma {:induction false} StepsAreSimple(node: Node, steps: seq<Step>)
    requires Simple(node) && NodeAt(node, steps).Some?
    ensures SimpleSteps(steps)
    decreases |steps|
  {
    if steps != [] {
      match steps[0] {
        case Key(key) =>
          FindIsField(node.value.fields, key);
          StepsAreSimple(Optional(node, key).value, steps[1..]);
        case Index(i) =>
          StepsAreSimple(node.value.items[i], steps[1..]);
      }
      forall i | 0 <= i < |steps| ensures SimpleStep(steps[i]) {
        if i > 0 { assert steps[i] == steps[1..][i - 1]; }
      }
    }
  }

  // What is recorded

  predicate Recorded(locations: Locations, node: Node) {
    node.path in locations && locations[node.path] == node.location
  }

  predicate Kept(before: Locations, after: Locations, path: string) {
    path in before ==> path in after && after[path] == before[path]
  }

  /** Whether `q` lies below `at` and continues there with an index of at least `index`. */
  predicate UnderItem(q: seq<Step>, at: seq<Step>, index: nat) {
    at < q && q[|at|].Index? && q[|at|].index >= index
  }

  predicate UnderField(q: seq<Step>, at: seq<Step>, fields: seq<Field>) {
    at < q && q[|at|].Key? && exists i :: 0 <= i < |fields| && fields[i].key == q[|at|].key
  }

  /** Everything at or below a value is recorded with its own location. */
  ghost predicate AllRecorded(locations: Locations, node: Node) {
    forall steps :: NodeAt(node, steps).Some? ==> Recorded(locations, NodeAt(node, steps).value)
  }

  /** Recording a value touches no position outside it. */
  ghost predicate OthersKept(before: Locations, after: Locations, at: seq<Step>) {
    forall q :: SimpleSteps(q) && !(at <= q) ==> Kept(before, after, RenderPath(q))
  }

  ghost predicate ItemsRecorded(locations: Locations, items: seq<Node>) {
    forall i :: 0 <= i < |items| ==> AllRecorded(locations, items[i])
  }

  ghost predicate OutsideItemsKept(before: Locations, after: Locations, at: seq<Step>, index: nat) {
    forall q :: SimpleSteps(q) && !UnderItem(q, at, index) ==> Kept(before, after, RenderPath(q))
  }

  ghost predicate FieldsRecorded(locations: Locations, fields: seq<Field>) {
    forall i :: 0 <= i < |fields| ==> AllRecorded(locations, fields[i].node)
  }

  ghost predicate OutsideFieldsKept(before: Locations, after: Locations, at: seq<Step>, fields: seq<Field>) {
    forall q :: SimpleSteps(q) && !UnderField(q, at, fields) ==> Kept(before, after, RenderPath(q))
  }

  /** Later records leave what was recorded at a position alone, when they keep that position. */
  lemma RecordedStays(before: Locations, after: Locations, node: Node, at: seq<Step>)
    requires WellPathed(node, at) && Simple(node) && SimpleSteps(at) && AllRecorded(before, node)
    requires forall q :: SimpleSteps(q) && at <= q ==> Kept(before, after, RenderPath(q))
    ensures AllRecorded(after, node)
  {
    hide RenderPath, WellPathed, Simple, SimpleSteps;
    forall steps | NodeAt(node, steps).Some? ensures Recorded(after, NodeAt(node, steps).value) {
      var part := NodeAt(node, steps).value;
      PathOfPosition(node, at, steps);
      StepsAreSimple(node, steps);
      SimpleConcat(at, steps);
      assert at <= at + steps;
      assert Recorded(before, part) && Kept(before, after, RenderPath(at + steps));
    }
  }

  lemma DeeperPathsDiffer(at: seq<Step>, steps: seq<Step>)
    requires SimpleSteps(at + steps) && SimpleSteps(at) && steps != []
    ensures RenderPath(at + steps) != RenderPath(at)
  {
    hide RenderPath, SimpleSteps;
    assert |at + steps| != |at|;
    if at + steps != at && RenderPath(at + steps) == RenderPath(at) { RenderPathIsInjective(at + steps, at); }
  }

  lemma SimpleConcat(a: seq<Step>, b: seq<Step>)
    requires SimpleSteps(a) && SimpleSteps(b)
    ensures SimpleSteps(a + b)
  {
  }

  lemma BelowItem(q: seq<Step>, at: seq<Step>, index: nat)
    ensures at + [Index(index)] <= q ==> UnderItem(q, at, index)
    ensures UnderItem(q, at, index + 1) ==> UnderItem(q, at, index)
  {
    var here := at + [Index(index)];
    if here <= q {
      assert q[|at|] == here[|at|];
      assert forall i :: 0 <= i < |at| ==> q[i] == here[i];
    }
  }

  lemma BelowField(q: seq<Step>, at: seq<Step>, fields: seq<Field>)
    requires fields != []
    ensures at + [Key(fields[0].key)] <= q ==> UnderField(q, at, fields)
    ensures UnderField(q, at, fields[1..]) ==> UnderField(q, at, fields)
  {
    var here := at + [Key(fields[0].key)];
    if here <= q {
      assert q[|at|] == here[|at|];
      assert forall i :: 0 <= i < |at| ==> q[i] == here[i];
    }
    if UnderField(q, at, fields[1..]) {
      var i :| 0 <= i < |fields[1..]| && fields[1..][i].key == q[|at|].key;
      assert fields[i + 1].key == q[|at|].key;
    }
  }

  lemma {:induction false} RecordIsFaithful(node: Node, at: seq<Step>, before: Locations)
    requires WellPathed(node, at) && Distinct(node) && Simple(node) && SimpleSteps(at)
    ensures AllRecorded(Record(node, before), node)
    ensures OthersKept(before, Record(node, before), at)
    decreases node, 0
  {
    hide RenderPath, SimpleSteps, Recorded, AllRecorded;
    var inner := match node.value
      case Sequence(items) => RecordAll(items, before)
      case Mapping(fields) => RecordFields(fields, before)
      case _ => before;
    var after := Record(node, before);
    assert after == inner[node.path := node.location];
    match node.value {
      case Sequence(items) =>
        RecordAllIsFaithful(node, items, at, 0, before);
      case Mapping(fields) =>
        RecordFieldsIsFaithful(node, fields, at, before);
      case _ =>
    }
    forall q | SimpleSteps(q) && !(at <= q) ensures Kept(before, after, RenderPath(q)) {
      if RenderPath(q) == RenderPath(at) { RenderPathIsInjective(q, at); }
      assert Kept(before, inner, RenderPath(q));
    }
    SelfRecorded(node, at, inner);
  }

  /** Recording the value itself last completes the record. */
  lemma SelfRecorded(node: Node, at: seq<Step>, inner: Locations)
    requires WellPathed(node, at) && Distinct(node) && Simple(node) && SimpleSteps(at)
    requires node.value.Sequence? ==> ItemsRecorded(inner, node.value.items)
    requires node.value.Mapping? ==> FieldsRecorded(inner, node.value.fields)
    ensures AllRecorded(inner[node.path := node.location], node)
  {
    hide RenderPath, SimpleSteps;
    var after := inner[node.path := node.location];
    forall steps | NodeAt(node, steps).Some? ensures Recorded(after, NodeAt(node, steps).value) {
      if steps != [] {
        PathOfPosition(node, at, steps);
        StepsAreSimple(node, steps);
        SimpleConcat(at, steps);
        assert RenderPath(at + steps) != RenderPath(at) by { DeeperPathsDiffer(at, steps); }
        match steps[0]
        case Key(key) =>
          FindIsField(node.value.fields, key);
          var i :| 0 <= i < |node.value.fields| && node.value.fields[i].node == Optional(node, key).value;
          assert AllRecorded(inner, node.value.fields[i].node);
          assert Recorded(inner, NodeAt(node.value.fields[i].node, steps[1..]).value);
        case Index(i) =>
          assert AllRecorded(inner, node.value.items[i]);
          assert Recorded(inner, NodeAt(node.value.items[i], steps[1..]).value);
      }
    }
  }

  lemma {:induction false} RecordAllIsFaithful(
    owner: Node, items: seq<Node>, at: seq<Step>, index: nat, before: Locations)
    requires forall item :: item in items ==> item < owner
    requires SimpleSteps(at)
    requires forall i :: 0 <= i < |items| ==>
               WellPathed(items[i], at + [Index(index + i)]) && Distinct(items[i]) && Simple(items[i])
    ensures ItemsRecorded(RecordAll(items, before), items)
    ensures OutsideItemsKept(before, RecordAll(items, before), at, index)
    decreases owner, 0, |items|
  {
    hide RenderPath, WellPathed, Distinct, Simple, AllRecorded, Record;
    if items != [] {
      var first, here := items[0], at + [Index(index)];
      assert first in items && forall item :: item in items[1..] ==> item in items;
      var mid := Record(first, before);
      RecordIsFaithful(first, here, before);
      forall i | 0 <= i < |items[1..]|
        ensures WellPathed(items[1..][i], at + [Index(index + 1 + i)])
        ensures Distinct(items[1..][i]) && Simple(items[1..][i])
      {
        assert items[1..][i] == items[i + 1];
      }
      RecordAllIsFaithful(owner, items[1..], at, index + 1, mid);
      var after := RecordAll(items, before);
      RecordedStays(mid, after, first, here);
      forall i | 0 <= i < |items| ensures AllRecorded(after, items[i]) {
        if i > 0 { assert items[i] == items[1..][i - 1]; }
      }
      forall q | SimpleSteps(q) && !UnderItem(q, at, index) ensures Kept(before, after, RenderPath(q)) {
        BelowItem(q, at, index);
        assert Kept(before, mid, RenderPath(q)) && Kept(mid, after, RenderPath(q));
      }
    }
  }

  lemma {:induction false} RecordFieldsIsFaithful(
    owner: Node, fields: seq<Field>, at: seq<Step>, before: Locations)
    requires forall field :: field in fields ==> field.node < owner
    requires SimpleSteps(at) && DistinctKeys(fields)
    requires forall i :: 0 <= i < |fields| ==>
               && SimpleKey(fields[i].key)
               && WellPathed(fields[i].node, at + [Key(fields[i].key)])
               && Distinct(fields[i].node) && Simple(fields[i].node)
    ensures FieldsRecorded(RecordFields(fields, before), fields)
    ensures OutsideFieldsKept(before, RecordFields(fields, before), at, fields)
    decreases owner, 0, |fields|
  {
    hide RenderPath, WellPathed, Distinct, Simple, AllRecorded, Record, SimpleKey;
    if fields != [] {
      var first, here := fields[0], at + [Key(fields[0].key)];
      assert first in fields && forall field :: field in fields[1..] ==> field in fields;
      var mid := Record(first.node, before);
      RecordIsFaithful(first.node, here, before);
      RecordFieldsIsFaithful(owner, fields[1..], at, mid);
      var after := RecordFields(fields, before);
      RecordedStays(mid, after, first.node, here);
      forall i | 0 <= i < |fields| ensures AllRecorded(after, fields[i].node) {
        if i > 0 { assert fields[i] == fields[1..][i - 1]; }
      }
      forall q | SimpleSteps(q) && !UnderField(q, at, fields) ensures Kept(before, after, RenderPath(q)) {
        BelowField(q, at, fields);
        assert Kept(before, mid, RenderPath(q)) && Kept(mid, after, RenderPath(q));
      }
    }
  }

  // Nothing else is recorded

  /** A newly recorded path belongs to a value. */
  lemma {:induction false} RecordAddsPart(node: Node, before: Locations, path: string) returns (steps: seq<Step>)
    requires Distinct(node) && path in Record(node, before) && path !in before
    ensures NodeAt(node, steps).Some? && NodeAt(node, steps).value.path == path
    decreases node, 0
  {
    if path == node.path {
      steps := [];
    } else {
      match node.value {
        case Sequence(items) =>
          hide Record, Distinct;
          var i, below := RecordAllAddsPart(node, items, before, path);
          steps := [Index(i)] + below;
          assert steps[1..] == below;
        case Mapping(fields) =>
          hide Record, Distinct;
          var i, below := RecordFieldsAddsPart(node, fields, before, path);
          FindDistinct(fields, i);
          steps := [Key(fields[i].key)] + below;
          assert steps[1..] == below;
        case _ => steps := [];
      }
    }
  }

  lemma {:induction false} RecordAllAddsPart(owner: Node, items: seq<Node>, before: Locations, path: string)
    returns (i: nat, steps: seq<Step>)
    requires forall item :: item in items ==> item < owner && Distinct(item)
    requires path in RecordAll(items, before) && path !in before
    ensures i < |items| && NodeAt(items[i], steps).Some? && NodeAt(items[i], steps).value.path == path
    decreases owner, 0, |items|
  {
    hide Record, Distinct, NodeAt;
    assert items[0] in items && forall item :: item in items[1..] ==> item in items;
    var mid := Record(items[0], before);
    if path in mid {
      i := 0;
      steps := RecordAddsPart(items[0], before, path);
    } else {
      i, steps := RecordAllAddsPart(owner, items[1..], mid, path);
      i := i + 1;
    }
  }

  lemma {:induction false} RecordFieldsAddsPart(owner: Node, fields: seq<Field>, before: Locations, path: string)
    returns (i: nat, steps: seq<Step>)
    requires forall field :: field in fields ==> field.node < owner && Distinct(field.node)
    requires path in RecordFields(fields, before) && path !in before
    ensures i < |fields| && NodeAt(fields[i].node, steps).Some? && NodeAt(fields[i].node, steps).value.path == path
    decreases owner, 0, |fields|
  {
    hide Record, Distinct, NodeAt;
    assert fields[0] in fields && forall field :: field in fields[1..] ==> field in fields;
    var mid := Record(fields[0].node, before);
    if path in mid {
      i := 0;
      steps := RecordAddsPart(fields[0].node, before, path);
    } else {
      i, steps := RecordFieldsAddsPart(owner, fields[1..], mid, path);
      i := i + 1;
    }
  }
}
