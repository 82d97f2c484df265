/** Every error of the event reader, from the marks of the events: an explicit stack in place of
    the reader's recursion. */
module YamlFaults {
  import opened Common
  import opened FieldPaths
  import opened YamlEvents
  import opened YamlTheorems

  // The stack of open collections

  /** A key with its mark. */
  datatype Keyed = Keyed(text: string, mark: Mark)

  /** An open sequence with the number of its finished items, or an open mapping with the keys so
      far, the last of which may still wait for its value. */
  datatype Frame = InList(done: nat) | InTable(keys: seq<Keyed>, waiting: bool)

  type Stack = seq<Frame>

  function StepOf(frame: Frame): seq<Step> {
    match frame
    case InList(n) => [Index(n)]
    case InTable(keys, waiting) => if waiting && keys != [] then [Key(Last(keys).text)] else []
  }

  /** The position that the next event is about. */
  function Steps(stack: Stack): seq<Step> {
    if stack == [] then [] else Steps(Init(stack)) + StepOf(Last(stack))
  }

  /** A value is finished. */
  function Filled(stack: Stack): Stack {
    if stack == [] then []
    else
      match Last(stack)
      case InList(n) => Init(stack) + [InList(n + 1)]
      case InTable(keys, _) => Init(stack) + [InTable(keys, false)]
  }

  /** Whether the next event is a key or the end of a mapping. */
  predicate AwaitsKey(stack: Stack) {
    stack != [] && Last(stack).InTable? && !Last(stack).waiting
  }

  /** The stack behind an event. */
  function Behind(stack: Stack, next: Marked): Stack {
    match next.event
    case ScalarEvent(text, _, _, _) =>
      if AwaitsKey(stack) then Init(stack) + [InTable(Last(stack).keys + [Keyed(text, next.mark)], true)]
      else Filled(stack)
    case SequenceStart(_, _) => stack + [InList(0)]
    case MappingStart(_, _) => stack + [InTable([], false)]
    case SequenceEnd => Filled(Init(stack))
    case MappingEnd => Filled(Init(stack))
    case _ => stack
  }

  // What is wrong with an event

  function At(kind: ParseErrorKind, mark: Mark, path: string): ParseError {
    ParseError(kind, SourceLocation(mark.line, mark.col + 1), path, None)
  }

  predicate WithTag(event: Event) {
    match event
    case ScalarEvent(_, _, _, tagged) => tagged
    case SequenceStart(_, tagged) => tagged
    case MappingStart(_, tagged) => tagged
    case _ => false
  }

  predicate WithAnchor(event: Event) {
    match event
    case Alias => true
    case ScalarEvent(_, _, anchor, _) => anchor > 0
    case SequenceStart(anchor, _) => anchor > 0
    case MappingStart(anchor, _) => anchor > 0
    case _ => false
  }

  predicate PlainNull(text: string, style: Style) {
    style == Plain && (text == "" || text == "~" || text == "null" || text == "Null" || text == "NULL")
  }

  predicate IsNullEvent(event: Event) {
    event.ScalarEvent? && PlainNull(event.text, event.style)
  }

  /** No event at all, a tag, an anchor or an alias. */
  function Unreadable(s: Stream, path: string): Option<ParseError> {
    if s.events == [] then Some(At(if s.recursionLimit then NestingTooDeep else InvalidYaml, s.failure, path))
    else if WithTag(s.events[0].event) then Some(At(ExplicitTag, s.events[0].mark, path))
    else if WithAnchor(s.events[0].event) then Some(At(AnchorOrAlias, s.events[0].mark, path))
    else None
  }

  predicate KeyAt(keys: seq<Keyed>, text: string, k: nat) {
    k < |keys| && keys[k].text == text && forall m :: 0 <= m < k ==> keys[m].text != text
  }

  function FindKey(keys: seq<Keyed>, text: string): (r: Option<nat>)
    ensures r.Some? ==> KeyAt(keys, text, r.value)
    ensures r.None? ==> forall m :: 0 <= m < |keys| ==> keys[m].text != text
  {
    if keys == [] then None
    else if keys[0].text == text then Some(0)
    else
      match FindKey(keys[1..], text)
      case Some(k) => Some(k + 1)
      case None => None
  }

  function KeyFault(stack: Stack, next: Marked): Option<ParseError>
    requires AwaitsKey(stack)
  {
    var path := RenderPath(Steps(stack));
    if next.event.MappingEnd? then None
    else if !next.event.ScalarEvent? || IsNullEvent(next.event) then Some(At(InvalidMappingKey, next.mark, path))
    else
      var text := next.event.text;
      var child := RenderPath(Steps(stack) + [Key(text)]);
      if text == "<<" then Some(At(MergeKey, next.mark, child))
      else
        match FindKey(Last(stack).keys, text)
        case Some(k) =>
          var original := Last(stack).keys[k].mark;
          Some(At(DuplicateKey, next.mark, child).(original := Some(SourceLocation(original.line, original.col + 1))))
        case None => None
  }

  function ValueFault(stack: Stack, next: Marked): Option<ParseError> {
    match next.event
    case ScalarEvent(_, _, _, _) => None
    case SequenceStart(_, _) =>
      if |stack| < 64 then None else Some(At(NestingTooDeep, next.mark, RenderPath(Steps(stack))))
    case MappingStart(_, _) =>
      if |stack| < 64 then None else Some(At(NestingTooDeep, next.mark, RenderPath(Steps(stack))))
    case SequenceEnd =>
      if stack != [] && Last(stack).InList? then None
      else Some(At(InvalidYaml, next.mark, RenderPath(Steps(stack))))
    case _ => Some(At(InvalidYaml, next.mark, RenderPath(Steps(stack))))
  }

  function Fault(stack: Stack, s: Stream): Option<ParseError> {
    var unreadable := Unreadable(s, RenderPath(Steps(stack)));
    if unreadable.Some? then unreadable
    else if AwaitsKey(stack) then KeyFault(stack, s.events[0])
    else ValueFault(stack, s.events[0])
  }

  function Rest(s: Stream, n: nat): Stream
    requires n <= |s.events|
  {
    s.(events := s.events[n..])
  }

  /** Read events until the value that is begun is finished. */
  function Loop(s: Stream, stack: Stack): Result<Stream, ParseError>
    decreases |s.events|
  {
    var fault := Fault(stack, s);
    if fault.Some? then Err(fault.value)
    else
      var next := Behind(stack, s.events[0]);
      if next == [] then Ok(Rest(s, 1)) else Loop(Rest(s, 1), next)
  }

  /** Go on, unless the value is finished. */
  function Onward(s: Stream, stack: Stack): Result<Stream, ParseError> {
    if stack == [] then Ok(s) else Loop(s, stack)
  }

  // The reader is that loop

  lemma NextIsReadable(s: Stream, path: string)
    ensures Next(s, path) == match Unreadable(s, path)
                             case Some(error) => Err(error)
                             case None => Ok((s.events[0].event, Located(s.events[0].mark), Rest(s, 1)))
    ensures Unreadable(s, path).None? ==> Clean(s.events[0].event)
  {
  }

  lemma StepsPush(stack: Stack, frame: Frame)
    ensures Steps(stack + [frame]) == Steps(stack) + StepOf(frame)
    ensures Init(stack + [frame]) == stack && Last(stack + [frame]) == frame
  {
    assert Init(stack + [frame]) == stack;
  }

  lemma RenderPush(steps: seq<Step>, step: Step)
    ensures RenderPath(steps + [step]) == StepPath(RenderPath(steps), step)
  {
    assert Init(steps + [step]) == steps && Last(steps + [step]) == step;
  }

  lemma NothingOpen()
    ensures RenderPath(Steps([])) == "$"
  {
  }

  /** Reading a value that starts with an event, and the loop from that event on, agree. */
  lemma {:induction false} NodeIsLoop(s: Stream, stack: Stack)
    requires s.events != [] && Clean(s.events[0].event) && !AwaitsKey(stack)
    requires !(s.events[0].event.SequenceEnd? && stack != [] && Last(stack).InList?)
    ensures var path := RenderPath(Steps(stack));
            match ReadNode(s.events[0].event, Located(s.events[0].mark), Rest(s, 1), path, |stack|)
            case Err(e) => Loop(s, stack) == Err(e)
            case Ok((_, rest)) => Loop(s, stack) == Onward(rest, Filled(stack))
    decreases |s.events|, 0
  {
    hide Next, ReadItems, ReadFields, RenderPath, Steps, NodeLocation, IsNull, Filled;
    var head := s.events[0];
    var path := RenderPath(Steps(stack));
    assert Unreadable(s, path).None?;
    match head.event
    case SequenceStart(_, _) =>
      if |stack| < 64 {
        ItemsAreLoop(Rest(s, 1), stack, 0);
      }
    case MappingStart(_, _) =>
      if |stack| < 64 {
        FieldsAreLoop(Rest(s, 1), stack, [], map[]);
      }
    case _ =>
  }

  lemma {:induction false} ItemsAreLoop(s: Stream, stack: Stack, index: nat)
    requires |stack| < 64
    ensures match ReadItems(s, RenderPath(Steps(stack)), index, |stack|)
            case Err(e) => Loop(s, stack + [InList(index)]) == Err(e)
            case Ok((_, rest)) => Loop(s, stack + [InList(index)]) == Onward(rest, Filled(stack))
    decreases |s.events|, 1
  {
    hide Next, ReadNode, RenderPath, Steps, Unreadable;
    var inner := stack + [InList(index)];
    StepsPush(stack, InList(index));
    RenderPush(Steps(stack), Index(index));
    var item := ItemPath(RenderPath(Steps(stack)), index);
    NextIsReadable(s, item);
    if Next(s, item).Ok? && !s.events[0].event.SequenceEnd? {
      NodeIsLoop(s, inner);
      var node := ReadNode(s.events[0].event, Located(s.events[0].mark), Rest(s, 1), item, |stack| + 1);
      if node.Ok? {
        ItemsAreLoop(node.value.1, stack, index + 1);
      }
    }
  }

  /** The map of the reader and the keys of the frame agree. */
  ghost predicate SameKeys(keys: seq<Keyed>, seen: map<string, SourceLocation>) {
    && (forall text :: text in seen <==> FindKey(keys, text).Some?)
    && (forall text :: text in seen ==>
          var mark := keys[FindKey(keys, text).value].mark;
          seen[text] == SourceLocation(mark.line, mark.col + 1))
  }

  lemma {:induction false} FindKeyPush(keys: seq<Keyed>, more: Keyed, text: string)
    ensures FindKey(keys + [more], text) ==
            if FindKey(keys, text).Some? then FindKey(keys, text)
            else if more.text == text then Some(|keys|) else None
  {
    if keys == [] {
      assert keys + [more] == [more];
    } else {
      assert (keys + [more])[1..] == keys[1..] + [more];
      FindKeyPush(keys[1..], more, text);
    }
  }

  lemma SameKeysPush(keys: seq<Keyed>, seen: map<string, SourceLocation>, text: string, mark: Mark)
    requires SameKeys(keys, seen) && text !in seen
    ensures SameKeys(keys + [Keyed(text, mark)], seen[text := SourceLocation(mark.line, mark.col + 1)])
  {
    hide FindKey;
    forall other ensures FindKey(keys + [Keyed(text, mark)], other) ==
                         if FindKey(keys, other).Some? then FindKey(keys, other)
                         else if text == other then Some(|keys|) else None
    {
      FindKeyPush(keys, Keyed(text, mark), other);
    }
  }

  lemma StepsOfTable(stack: Stack, keys: seq<Keyed>)
    ensures Steps(stack + [InTable(keys, false)]) == Steps(stack)
    ensures AwaitsKey(stack + [InTable(keys, false)])
  {
    StepsPush(stack, InTable(keys, false));
  }

  lemma StepsOfField(stack: Stack, keys: seq<Keyed>, key: Keyed)
    ensures var inner := stack + [InTable(keys + [key], true)];
            && RenderPath(Steps(inner)) == ChildPath(RenderPath(Steps(stack)), key.text)
            && Filled(inner) == stack + [InTable(keys + [key], false)]
            && !AwaitsKey(inner)
  {
    hide RenderPath, Steps;
    StepsPush(stack, InTable(keys + [key], true));
    RenderPush(Steps(stack), Key(key.text));
  }

  /** A key in front of its value. */
  lemma KeyTurn(s: Stream, stack: Stack, keys: seq<Keyed>, seen: map<string, SourceLocation>)
    requires |stack| < 64 && SameKeys(keys, seen)
    requires Unreadable(s, RenderPath(Steps(stack))).None?
    ensures var inner := stack + [InTable(keys, false)];
            var event := s.events[0].event;
            var at := Located(s.events[0].mark);
            var path := RenderPath(Steps(stack));
            if event.MappingEnd? then Loop(s, inner) == Onward(Rest(s, 1), Filled(stack))
            else if !event.ScalarEvent? || IsNull(event.text, event.style) then
              Loop(s, inner) == Error(InvalidMappingKey, at, path)
            else if event.text == "<<" then Loop(s, inner) == Error(MergeKey, at, ChildPath(path, event.text))
            else if event.text in seen then
              Loop(s, inner)
              == Err(ParseError(DuplicateKey, at, ChildPath(path, event.text), Some(seen[event.text])))
            else Loop(s, inner)
                 == Loop(Rest(s, 1), stack + [InTable(keys + [Keyed(event.text, s.events[0].mark)], true)])
  {
    hide RenderPath, Steps, FindKey, ChildPath, Filled;
    StepsOfTable(stack, keys);
    if s.events[0].event.ScalarEvent? { RenderPush(Steps(stack), Key(s.events[0].event.text)); }
  }

  lemma {:induction false} FieldsAreLoop(s: Stream, stack: Stack, keys: seq<Keyed>, seen: map<string, SourceLocation>)
    requires |stack| < 64 && SameKeys(keys, seen)
    ensures match ReadFields(s, RenderPath(Steps(stack)), seen, |stack|)
            case Err(e) => Loop(s, stack + [InTable(keys, false)]) == Err(e)
            case Ok((_, rest)) => Loop(s, stack + [InTable(keys, false)]) == Onward(rest, Filled(stack))
    decreases |s.events|, 1
  {
    hide Next, ReadNode, RenderPath, Steps, Unreadable, KeyFault, ChildPath, Filled, SameKeys, IsNull;
    var path := RenderPath(Steps(stack));
    NextIsReadable(s, path);
    StepsOfTable(stack, keys);
    if Next(s, path).Ok? {
      KeyTurn(s, stack, keys, seen);
      var event := s.events[0].event;
      if event.ScalarEvent? && !IsNull(event.text, event.style) && event.text != "<<" && event.text !in seen {
        FieldTurn(s, stack, keys, seen);
      }
    }
  }

  /** A value behind its key, and the fields behind the value. */
  lemma {:induction false} FieldTurn(s: Stream, stack: Stack, keys: seq<Keyed>, seen: map<string, SourceLocation>)
    requires |stack| < 64 && SameKeys(keys, seen)
    requires s.events != [] && s.events[0].event.ScalarEvent? && s.events[0].event.text !in seen
    ensures var key := Keyed(s.events[0].event.text, s.events[0].mark);
            var child := ChildPath(RenderPath(Steps(stack)), key.text);
            var all := Loop(Rest(s, 1), stack + [InTable(keys + [key], true)]);
            match Next(Rest(s, 1), child)
            case Err(e) => all == Err(e)
            case Ok((first, start, inner)) =>
              match ReadNode(first, start, inner, child, |stack| + 1)
              case Err(e) => all == Err(e)
              case Ok((_, rest)) =>
                match ReadFields(rest, RenderPath(Steps(stack)), seen[key.text := Located(key.mark)], |stack|)
                case Err(e) => all == Err(e)
                case Ok((_, rest)) => all == Onward(rest, Filled(stack))
    decreases |s.events|, 0
  {
    hide Next, ReadNode, RenderPath, Steps, Unreadable, ChildPath, Filled, ReadFields, SameKeys;
    var key := Keyed(s.events[0].event.text, s.events[0].mark);
    var child := ChildPath(RenderPath(Steps(stack)), key.text);
    var after := Rest(s, 1);
    var inner := stack + [InTable(keys + [key], true)];
    StepsOfField(stack, keys, key);
    NextIsReadable(after, child);
    if Next(after, child).Ok? {
      NodeIsLoop(after, inner);
      var node := ReadNode(after.events[0].event, Located(after.events[0].mark), Rest(after, 1), child, |stack| + 1);
      if node.Ok? {
        SameKeysPush(keys, seen, key.text, key.mark);
        FieldsAreLoop(node.value.1, stack, keys + [key], seen[key.text := Located(key.mark)]);
      }
    }
  }

  // Documents

  /** The stack behind events that begin with those of a value. */
  function StackAt(events: seq<Marked>): Stack {
    if events == [] then [] else Behind(StackAt(Init(events)), Last(events))
  }

  /** The value begun by the third event is not finished before event `n`, and nothing is wrong
      in it before. */
  ghost predicate InValue(s: Stream, n: nat) {
    && 2 <= n <= |s.events|
    && (forall k :: 2 < k < n ==> StackAt(s.events[2..k]) != [])
    && (forall k :: 2 <= k < n ==> Fault(StackAt(s.events[2..k]), Rest(s, k)).None?)
  }

  /** The value is finished just before event `n`. */
  ghost predicate ValueEnds(s: Stream, n: nat) {
    InValue(s, n) && n > 2 && StackAt(s.events[2..n]) == []
  }

  /** The event at `i` is what a document is refused for. */
  ghost predicate DocumentFault(s: Stream, i: nat, error: ParseError) {
    && i <= |s.events|
    && (forall k :: 0 <= k < i ==> !WithTag(s.events[k].event) && !WithAnchor(s.events[k].event))
    && (|| (i < 2 && Unreadable(Rest(s, i), "$") == Some(error))
        || (i == 1 && |s.events| > 1 && s.events[1].event.StreamEnd?
            && error == At(EmptyDocument, s.events[1].mark, "$"))
        || (|s.events| > i == 2 && IsNullEvent(s.events[2].event) && error == At(EmptyDocument, s.events[2].mark, "$"))
        || (InValue(s, i) && (i > 2 ==> StackAt(s.events[2..i]) != [])
            && Fault(StackAt(s.events[2..i]), Rest(s, i)) == Some(error))
        || (ValueEnds(s, i) && Unreadable(Rest(s, i), "$") == Some(error))
        || (i > 0 && ValueEnds(s, i - 1) && Unreadable(Rest(s, i), "$") == Some(error))
        || (i > 0 && ValueEnds(s, i - 1) && i < |s.events| && !s.events[i].event.StreamEnd?
            && error == At(MultipleDocuments, s.events[i].mark, "$")))
  }

  lemma StackPush(s: Stream, n: nat)
    requires 2 <= n < |s.events|
    ensures StackAt(s.events[2..n + 1]) == Behind(StackAt(s.events[2..n]), s.events[n])
  {
    assert Init(s.events[2..n + 1]) == s.events[2..n] && Last(s.events[2..n + 1]) == s.events[n];
  }

  lemma RestOfRest(s: Stream, n: nat)
    requires n < |s.events|
    ensures Rest(Rest(s, n), 1) == Rest(s, n + 1) && Rest(s, n).events[0] == s.events[n]
  {
  }

  /** Where the loop stops. */
  lemma {:induction false} LoopStops(s: Stream, n: nat) returns (i: nat)
    requires InValue(s, n) && (n > 2 ==> StackAt(s.events[2..n]) != [])
    ensures 2 <= i <= |s.events| && InValue(s, i)
    ensures match Loop(Rest(s, n), StackAt(s.events[2..n]))
            case Err(e) =>
              (i > 2 ==> StackAt(s.events[2..i]) != []) && Fault(StackAt(s.events[2..i]), Rest(s, i)) == Some(e)
            case Ok(rest) => ValueEnds(s, i) && rest == Rest(s, i)
    decreases |s.events| - n
  {
    hide Fault, StackAt, Behind;
    var stack := StackAt(s.events[2..n]);
    i := n;
    if Fault(stack, Rest(s, n)).None? {
      FaultWithoutEvents(stack, Rest(s, n));
      StackPush(s, n);
      RestOfRest(s, n);
      i := n + 1;
      if StackAt(s.events[2..i]) != [] { i := LoopStops(s, i); }
    }
  }

  lemma FaultWithoutEvents(stack: Stack, s: Stream)
    ensures Fault(stack, s).None? ==> s.events != [] && !WithTag(s.events[0].event) && !WithAnchor(s.events[0].event)
  {
  }

  lemma ReadableInValue(s: Stream, i: nat)
    requires InValue(s, i)
    ensures forall k :: 2 <= k < i ==> !WithTag(s.events[k].event) && !WithAnchor(s.events[k].event)
  {
    hide Fault, StackAt, WithTag, WithAnchor;
    forall k | 2 <= k < i ensures !WithTag(s.events[k].event) && !WithAnchor(s.events[k].event) {
      FaultWithoutEvents(StackAt(s.events[2..k]), Rest(s, k));
      RestOfRest(s, k);
    }
  }

  lemma NullByText(event: Event, start: SourceLocation, s: Stream, path: string, depth: nat)
    requires ReadNode(event, start, s, path, depth).Ok?
    ensures ReadNode(event, start, s, path, depth).value.0.value.Null? <==> IsNullEvent(event)
  {
    hide ReadItems, ReadFields;
  }

  /** What reading the value of a document comes to. */
  lemma DocumentValue(s: Stream) returns (i: nat)
    requires |s.events| > 2 && Unreadable(Rest(s, 2), "$").None?
    ensures 2 <= i <= |s.events| && InValue(s, i)
    ensures var head := s.events[2];
            match ReadNode(head.event, Located(head.mark), Rest(s, 3), "$", 0)
            case Err(e) =>
              (i > 2 ==> StackAt(s.events[2..i]) != []) && Fault(StackAt(s.events[2..i]), Rest(s, i)) == Some(e)
            case Ok((node, rest)) =>
              ValueEnds(s, i) && rest == Rest(s, i) && (node.value.Null? <==> IsNullEvent(head.event))
  {
    hide Fault, Behind, RenderPath, ReadNode, InValue, Next, IsNullEvent, Loop, Unreadable;
    var head := s.events[2];
    NothingOpen();
    NextIsReadable(Rest(s, 2), "$");
    RestOfRest(s, 2);
    assert s.events[2..2] == [];
    Begun(s);
    NodeIsLoop(Rest(s, 2), []);
    i := LoopStops(s, 2);
    if ReadNode(head.event, Located(head.mark), Rest(s, 3), "$", 0).Ok? {
      NullByText(head.event, Located(head.mark), Rest(s, 3), "$", 0);
    }
  }

  lemma Begun(s: Stream)
    requires |s.events| >= 2
    ensures InValue(s, 2)
  {
  }

  /** Every document that is not read is refused for one event: the first that cannot be read or
      has no place, with its kind, its mark and its position. */
  lemma ErrorsAreFaults(s: Stream) returns (i: nat)
    requires ReadDocument(s).Err?
    ensures DocumentFault(s, i, ReadDocument(s).error)
  {
    hide ReadNode, Fault, StackAt, IsNullEvent, InValue, Next;
    NextIsReadable(s, "$");
    assert Rest(s, 0) == s;
    if Unreadable(s, "$").Some? {
      i := 0;
    } else {
      NextIsReadable(Rest(s, 1), "$");
      if Unreadable(Rest(s, 1), "$").Some? || s.events[1].event.StreamEnd? {
        i := 1;
      } else {
        RestOfRest(s, 1);
        NextIsReadable(Rest(s, 2), "$");
        i := ValueFails(s);
      }
    }
  }

  lemma FaultAtRoot(s: Stream)
    requires Unreadable(s, "$").Some?
    ensures Fault(StackAt([]), s) == Unreadable(s, "$")
  {
    hide RenderPath;
    NothingOpen();
  }

  lemma ReadableHead(s: Stream, n: nat)
    requires n <= |s.events| && Unreadable(Rest(s, n), "$").None?
    ensures n < |s.events| && !WithTag(s.events[n].event) && !WithAnchor(s.events[n].event)
  {
    assert Rest(s, n).events != [] ==> Rest(s, n).events[0] == s.events[n];
  }

  /** The document as far as its value. */
  lemma UpToValue(s: Stream)
    requires |s.events| > 1 && !s.events[1].event.StreamEnd?
    requires Unreadable(s, "$").None? && Unreadable(Rest(s, 1), "$").None?
    ensures Unreadable(Rest(s, 2), "$").Some? ==> ReadDocument(s) == Err(Unreadable(Rest(s, 2), "$").value)
    ensures Unreadable(Rest(s, 2), "$").None? && |s.events| > 2 ==>
              var head := s.events[2];
              match ReadNode(head.event, Located(head.mark), Rest(s, 3), "$", 0)
              case Err(e) => ReadDocument(s) == Err(e)
              case Ok((node, rest)) =>
                ReadDocument(s) == if node.value.Null? then Error(EmptyDocument, Located(head.mark), "$")
                                   else ReadEnd(node, rest)
  {
    hide ReadNode, Next, Unreadable;
    NextIsReadable(s, "$");
    NextIsReadable(Rest(s, 1), "$");
    RestOfRest(s, 1);
    NextIsReadable(Rest(s, 2), "$");
    if |s.events| > 2 { RestOfRest(s, 2); }
  }

  /** What has to follow the value. */
  function ReadEnd(node: Node, s: Stream): Result<Node, ParseError> {
    var (_, _, rest) :- Next(s, "$");
    var (last, end, _) :- Next(rest, "$");
    if !last.StreamEnd? then Error(MultipleDocuments, end, "$") else Ok(node)
  }

  lemma ValueFails(s: Stream) returns (i: nat)
    requires ReadDocument(s).Err? && |s.events| > 1 && !s.events[1].event.StreamEnd?
    requires Unreadable(s, "$").None? && Unreadable(Rest(s, 1), "$").None?
    ensures DocumentFault(s, i, ReadDocument(s).error)
  {
    hide ReadDocument, ReadNode, ReadEnd, Fault, StackAt, IsNullEvent, InValue, Next, WithTag, WithAnchor, Unreadable;
    assert Rest(s, 0) == s;
    ReadableHead(s, 0);
    ReadableHead(s, 1);
    Begun(s);
    assert s.events[2..2] == [];
    UpToValue(s);
    i := 2;
    if Unreadable(Rest(s, 2), "$").Some? {
      FaultAtRoot(Rest(s, 2));
    } else {
      ReadableHead(s, 2);
      var m := DocumentValue(s);
      var node := ReadNode(s.events[2].event, Located(s.events[2].mark), Rest(s, 3), "$", 0);
      if node.Err? {
        i := m;
        ReadableInValue(s, m);
      } else if !IsNullEvent(s.events[2].event) {
        i := EndFails(s, m, node.value.0);
      }
    }
  }

  lemma EndFails(s: Stream, m: nat, node: Node) returns (i: nat)
    requires m <= |s.events| && ValueEnds(s, m) && ReadEnd(node, Rest(s, m)).Err?
    requires forall k :: 0 <= k < 2 ==> !WithTag(s.events[k].event) && !WithAnchor(s.events[k].event)
    ensures DocumentFault(s, i, ReadEnd(node, Rest(s, m)).error)
  {
    hide Fault, StackAt, IsNullEvent, InValue, Next, WithTag, WithAnchor, Unreadable;
    i := m;
    ReadableInValue(s, m);
    NextIsReadable(Rest(s, m), "$");
    if Unreadable(Rest(s, m), "$").None? {
      ReadableHead(s, m);
      RestOfRest(s, m);
      NextIsReadable(Rest(s, m + 1), "$");
      i := m + 1;
      assert ValueEnds(s, i - 1);
    }
  }
}
