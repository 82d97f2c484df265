/** The resolver as it runs: path buffers grow and shrink in place, and each link target is
    parsed against the canonical current directory and resolved again from the root. It is
    proved to return what the in-place walk returns. */
module Resolver {
  import opened Common
  import opened PathTypes
  import opened UnixPaths
  import opened Snapshot
  import opened InPlaceWalk

  const MAX_LINK_DEPTH: nat := 40

  datatype NamingComponent = NamingComponent(name: Bytes, semantics: NamingSemantics)

  datatype Resolved = Resolved(
    absolute: Bytes,
    root: Bytes,
    components: seq<NamingComponent>,
    directory: bool,
    present: bool)

  datatype PathIdentity = PathIdentity(root: Bytes, components: seq<(NamingSemantics, Bytes)>)

  /** Each name with the naming rules of the directory that holds it. */
  function Annotate(node: Node, names: seq<Bytes>): seq<NamingComponent> {
    if names == [] || !node.Directory? || !node.rule.Known? then []
    else
      [NamingComponent(names[0], node.rule.semantics)] +
      match Step(node, names[0])
      case Some(entry) => Annotate(entry.node, names[1..])
      case None => []
  }

  /** Everything the resolver reports about a place follows from the place and the tree. */
  function Report(tree: Tree, place: Place): Resolved {
    Resolved(
      Render(place.names),
      ROOT,
      Annotate(tree, place.names),
      place.present && Locate(tree, place.names).Some? && Locate(tree, place.names).value.Directory?,
      place.present)
  }

  function Reported(tree: Tree, r: Result<Place, NormalizationError>): Result<Resolved, NormalizationError> {
    match r
    case Ok(place) => Ok(Report(tree, place))
    case Err(e) => Err(e)
  }

  lemma ReportedInverse(tree: Tree, r: Result<Place, NormalizationError>)
    ensures Reported(tree, r).Ok? <==> r.Ok?
    ensures r.Ok? ==> Reported(tree, r).value == Report(tree, r.value)
    ensures r.Err? ==> Reported(tree, r).error == r.error
  {
  }

  lemma {:induction false} AnnotateConcat(node: Node, a: seq<Bytes>, b: seq<Bytes>)
    requires Canonical(node, a)
    ensures Locate(node, a).Some?
    ensures Annotate(node, a + b) == Annotate(node, a) + Annotate(Locate(node, a).value, b)
    ensures |Annotate(node, a)| == |a|
  {
    if a == [] {
      assert a + b == b;
    } else {
      assert (a + b)[0] == a[0] && (a + b)[1..] == a[1..] + b;
      hide Step;
      var entry := Step(node, a[0]).value;
      AnnotateConcat(entry.node, a[1..], b);
      Associative([NamingComponent(a[0], node.rule.semantics)], Annotate(entry.node, a[1..]),
                  Annotate(Locate(entry.node, a[1..]).value, b));
    }
  }

  /** Pushing a name with its semantics keeps the components of a canonical position exact. */
  lemma AnnotatePush(tree: Tree, at: seq<Bytes>, name: Bytes)
    requires Canonical(tree, at) && Locate(tree, at).Some?
    requires Locate(tree, at).value.Directory? && Locate(tree, at).value.rule.Known?
    ensures Annotate(tree, at + [name]) ==
            Annotate(tree, at) + [NamingComponent(name, Locate(tree, at).value.rule.semantics)]
  {
    AnnotateConcat(tree, at, [name]);
    var dir := Locate(tree, at).value;
    assert [name][1..] == [];
    assert Annotate(dir, [name]) == [NamingComponent(name, dir.rule.semantics)];
  }

  lemma AnnotatePop(tree: Tree, at: seq<Bytes>)
    requires Canonical(tree, at) && at != []
    ensures |Annotate(tree, at)| == |at|
    ensures Annotate(tree, Init(at)) == Init(Annotate(tree, at))
  {
    CanonicalParent(tree, at);
    AnnotateConcat(tree, Init(at), [Last(at)]);
    AnnotateConcat(tree, at, []);
    assert at + [] == at;
  }

  /** Where a path leads: its parts, walked from the root in place. */
  function Destination(tree: Tree, path: Bytes, cwd: Bytes, requirement: PathRequirement, depth: nat):
    Result<Place, NormalizationError>
  {
    if depth >= MAX_LINK_DEPTH then Err(UnresolvedLink)
    else
      var parts :- Parts(path, cwd);
      var _ :- RuleOf(tree.rule);
      Walk(tree, [], parts, requirement, MAX_LINK_DEPTH - 1 - depth)
  }

  /** What resolving a path means. */
  function Resolution(tree: Tree, path: Bytes, cwd: Bytes, requirement: PathRequirement, depth: nat):
    Result<Resolved, NormalizationError>
  {
    Reported(tree, Destination(tree, path, cwd, requirement, depth))
  }

  /** The questions about a canonical directory are answered by its node. */
  lemma CanonicalQuestions(tree: Tree, at: seq<Bytes>)
    requires Canonical(tree, at) && Locate(tree, at).Some?
    requires Locate(tree, at).value.Directory?
    ensures Naming(tree, Render(at)) == RuleOf(Locate(tree, at).value.rule)
    ensures Listing(tree, Render(at)) == Locate(tree, at).value.entries
  {
    CanonicalNames(tree, at);
    SegmentsOfRender(at);
  }

  /** Inspecting a name pushed onto a canonical directory looks the name up there. */
  lemma InspectChild(tree: Tree, at: seq<Bytes>, part: Bytes)
    requires Canonical(tree, at) && Locate(tree, at).Some?
    requires part != [] && SLASH !in part
    ensures Inspect(tree, Push(Render(at), part)) ==
            match Step(Locate(tree, at).value, part)
            case None => Err(MissingTarget)
            case Some(entry) => InspectNode(entry.node)
  {
    hide Segments, Push, Render, Canonical, InspectNode;
    CanonicalNames(tree, at);
    PushRender(at, part);
    SegmentsOfRender(at + [part]);
    LocateConcat(tree, at, [part]);
    LocateOne(Locate(tree, at).value, part);
  }

  lemma LocateOne(node: Node, part: Bytes)
    ensures Locate(node, [part]) == match Step(node, part) case None => None case Some(entry) => Some(entry.node)
  {
    hide Step;
    assert [part][1..] == [];
  }

  /** The parts of a target read against the canonical current directory, walked from the
      root, end where the target's own parts end when walked from where they start. */
  lemma TargetFromRoot(tree: Tree, at: seq<Bytes>, target: Bytes, links: nat)
    requires Canonical(tree, at) && ValidTarget(target)
    ensures Parts(target, Render(at)).Ok?
    ensures Walk(tree, [], Parts(target, Render(at)).value, Existing, links) ==
            Walk(tree, TargetStart(at, target), TargetParts(target), Existing, links)
  {
    if !IsAbsolute(target) {
      CanonicalNames(tree, at);
      SegmentsOfRender(at);
      assert [] + at == at;
      assert at + Segments(target) + TrailingMarker(target) == at + TargetParts(target);
      Rewalk(tree, [], at, TargetParts(target), Existing, links);
    }
  }

  /** What a failed or successful link target means for the path that led to it. */
  function LinkReport(r: Result<Resolved, NormalizationError>): Result<Resolved, NormalizationError> {
    match r
    case Ok(resolved) => Ok(resolved)
    case Err(e) => Err(LinkError(e))
  }

  lemma ReportedLink(tree: Tree, r: Result<Place, NormalizationError>)
    ensures Reported(tree, LinkResult(r)) == LinkReport(Reported(tree, r))
  {
  }

  /** Restarting at the root with the canonical current directory in front of a relative
      target is following the link in place. */
  lemma RestartIsInPlace(tree: Tree, at: seq<Bytes>, target: Bytes, depth: nat)
    requires Canonical(tree, at) && RuleOf(tree.rule).Ok? && depth < MAX_LINK_DEPTH
    ensures LinkReport(Resolution(tree, target, Render(at), Existing, depth)) ==
            Reported(tree, Follow(tree, at, target, MAX_LINK_DEPTH - 1 - depth))
  {
    hide Walk, Report, TargetParts, Segments;
    var links := MAX_LINK_DEPTH - 1 - depth;
    if ValidTarget(target) {
      TargetFromRoot(tree, at, target, links);
      ReportedLink(tree, Walk(tree, [], Parts(target, Render(at)).value, Existing, links));
    }
  }

  /** Where one part leads. */
  function Turn(tree: Tree, at: seq<Bytes>, part: Bytes, last: bool, requirement: PathRequirement, links: nat):
    Result<Place, NormalizationError>
  {
    match Meet(tree, at, part)
    case Refused(e) => Err(e)
    case Arrive(names) => Ok(Place(names, true))
    case Absent =>
      if !last then Err(MissingParent)
      else if requirement.AllowMissingLeaf? then Ok(Place(at + [part], false))
      else Err(MissingTarget)
    case Redirect(target) => if links == 0 then Err(UnresolvedLink) else Follow(tree, at, target, links - 1)
  }

  /** A walk is one turn after another. */
  lemma WalkByTurns(
    tree: Tree, at: seq<Bytes>, parts: seq<Bytes>, requirement: PathRequirement, links: nat)
    requires Canonical(tree, at) && parts != []
    ensures var turn := Turn(tree, at, parts[0], |parts| == 1, requirement, links);
            && (turn.Err? ==> Walk(tree, at, parts, requirement, links) == Err(turn.error))
            && (turn.Ok? && |parts| == 1 ==> Walk(tree, at, parts, requirement, links) == turn)
            && (turn.Ok? && |parts| > 1 ==>
                  && turn.value.present && Canonical(tree, turn.value.names)
                  && Walk(tree, at, parts, requirement, links) ==
                     Walk(tree, turn.value.names, parts[1..], requirement, links))
  {
    MeetIsSound(tree, at, parts[0]);
    if Meet(tree, at, parts[0]).Redirect? && links > 0 {
      FollowIsSound(tree, at, Meet(tree, at, parts[0]).target, links - 1);
    }
  }

  /** A part beneath something that is no directory fails; a dot segment stays; a double dot
      segment pops one component, and stays at the root. */
  lemma TurnAtDots(tree: Tree, at: seq<Bytes>, part: Bytes, last: bool, requirement: PathRequirement, links: nat)
    requires Canonical(tree, at)
    ensures var current := Report(tree, Place(at, true));
            var turn := Reported(tree, Turn(tree, at, part, last, requirement, links));
            && (!current.directory ==> turn == Err(NotDirectory))
            && (current.directory && part == DOT ==> turn == Ok(current))
            && (current.directory && part == DOTDOT ==>
                  turn == Ok(if current.components == [] then current
                             else current.(components := Init(current.components),
                                           absolute := Pop(current.absolute))))
  {
    hide Walk, Follow, Step, Canonical, Annotate, Render, Locate, NameKey, RuleOf, Pop;
    // Popping a component, or staying at the root, keeps the report exact.
    if Report(tree, Place(at, true)).directory && part == DOTDOT {
      CanonicalParent(tree, at);
      if at == [] {
        AnnotateConcat(tree, at, []);
      } else {
        CanonicalNames(tree, at);
        AnnotatePop(tree, at);
        PopRender(at);
      }
    }
  }

  /** A name that is a link leads where resolving the target again from the root leads. */
  lemma TurnAtLink(tree: Tree, at: seq<Bytes>, part: Bytes, target: Bytes, last: bool,
                   requirement: PathRequirement, depth: nat)
    requires Canonical(tree, at) && RuleOf(tree.rule).Ok? && depth < MAX_LINK_DEPTH
    requires Meet(tree, at, part) == Redirect(target)
    ensures Reported(tree, Turn(tree, at, part, last, requirement, MAX_LINK_DEPTH - 1 - depth)) ==
            LinkReport(Resolution(tree, target, Render(at), Existing, depth + 1))
  {
    hide Walk, Follow, Report, Meet, Segments, Canonical;
    if depth + 1 < MAX_LINK_DEPTH {
      RestartIsInPlace(tree, at, target, depth + 1);
    }
  }

  /** A name that is a file or directory is entered under its stored spelling. */
  lemma TurnAtEntry(tree: Tree, at: seq<Bytes>, part: Bytes, entry: Entry, last: bool,
                    requirement: PathRequirement, links: nat)
    requires Canonical(tree, at) && Locate(tree, at).Some? && PlainName(part)
    requires Step(Locate(tree, at).value, part) == Some(entry) && Settled(entry.node)
    ensures var current := Report(tree, Place(at, true));
            Reported(tree, Turn(tree, at, part, last, requirement, links)) == Ok(current.(
              absolute := Push(current.absolute, entry.name),
              components := current.components +
                            [NamingComponent(entry.name, Locate(tree, at).value.rule.semantics)],
              directory := entry.node.Directory?))
  {
    hide Walk, Follow, Segments, Canonical, Annotate, Render, Push, NameKey, Lookup;
    CanonicalPush(tree, at, part);
    AnnotatePush(tree, at, entry.name);
    CanonicalNames(tree, at);
    CanonicalNames(tree, at + [entry.name]);
    assert (at + [entry.name])[|at|] == entry.name;
    PushRender(at, entry.name);
  }

  /** A name without an entry ends the path or fails. */
  lemma TurnAtNothing(tree: Tree, at: seq<Bytes>, part: Bytes, last: bool,
                      requirement: PathRequirement, links: nat)
    requires Canonical(tree, at) && Locate(tree, at).Some? && PlainName(part)
    requires Meet(tree, at, part).Absent?
    ensures var current := Report(tree, Place(at, true));
            Reported(tree, Turn(tree, at, part, last, requirement, links)) ==
            if !last then Err(MissingParent)
            else if requirement.Existing? then Err(MissingTarget)
            else Ok(current.(
              absolute := Push(current.absolute, part),
              components := current.components +
                            [NamingComponent(part, Locate(tree, at).value.rule.semantics)],
              directory := false,
              present := false))
  {
    hide Walk, Follow, Segments, Canonical, Annotate, Render, Push, NameKey, Lookup;
    CanonicalNames(tree, at);
    AnnotatePush(tree, at, part);
    PushRender(at, part);
  }

  lemma TurnAtRefusal(tree: Tree, at: seq<Bytes>, part: Bytes, last: bool, requirement: PathRequirement, links: nat)
    ensures Meet(tree, at, part).Refused? ==>
              Reported(tree, Turn(tree, at, part, last, requirement, links)) == Err(Meet(tree, at, part).error)
  {
    hide Walk, Follow, Report, Meet;
  }

  /** What the encounter with a name is, in terms of the answers the resolver gets. */
  lemma MeetByQuestions(tree: Tree, at: seq<Bytes>, part: Bytes)
    requires Canonical(tree, at) && Locate(tree, at).Some? && Locate(tree, at).value.Directory?
    requires part != [] && SLASH !in part && part != DOT && part != DOTDOT
    ensures var rule := Naming(tree, Render(at));
            && rule == RuleOf(Locate(tree, at).value.rule)
            && (rule.Err? ==> Meet(tree, at, part) == Refused(rule.error))
            && (rule.Ok? && NameKey(rule.value, part).Err? ==>
                  Meet(tree, at, part) == Refused(NameKey(rule.value, part).error))
            && (rule.Ok? && NameKey(rule.value, part).Ok? ==>
                  && PlainName(part)
                  && Step(Locate(tree, at).value, part) ==
                     Lookup(Listing(tree, Render(at)), rule.value, NameKey(rule.value, part).value)
                  && match Inspect(tree, Push(Render(at), part))
                     case Ok(Inspection(_, Some(target))) => Meet(tree, at, part) == Redirect(target)
                     case Ok(Inspection(directory, None)) =>
                       && Step(Locate(tree, at).value, part).Some?
                       && Settled(Step(Locate(tree, at).value, part).value.node)
                       && directory == Step(Locate(tree, at).value, part).value.node.Directory?
                     case Err(e) =>
                       if e.MissingTarget? then Meet(tree, at, part).Absent?
                       else Meet(tree, at, part) == Refused(e))
  {
    CanonicalQuestions(tree, at);
    InspectChild(tree, at, part);
  }

  /** What a report says about the directory it is in. */
  lemma ReportOf(tree: Tree, at: seq<Bytes>)
    ensures var current := Report(tree, Place(at, true));
            && current.absolute == Render(at)
            && (current.directory ==> Locate(tree, at).Some? && Locate(tree, at).value.Directory?)
  {
  }

  /** A name that is a file or directory: the scan for its stored spelling finds the entry
      that the lookup just found. */
  method EnterName(tree: Tree, current: Resolved, part: Bytes, semantics: NamingSemantics, directory: bool,
                   ghost last: bool, ghost requirement: PathRequirement, ghost links: nat, ghost at: seq<Bytes>)
    returns (r: Result<Resolved, NormalizationError>)
    requires Canonical(tree, at) && current == Report(tree, Place(at, true)) && current.directory
    requires part != [] && SLASH !in part && part != DOT && part != DOTDOT
    requires Naming(tree, Render(at)) == Ok(semantics) && NameKey(semantics, part).Ok?
    requires Inspect(tree, Push(Render(at), part)) == Ok(Inspection(directory, None))
    ensures r == Reported(tree, Turn(tree, at, part, last, requirement, links))
  {
    hide Walk, Report, Meet, Segments, Canonical, Locate, Naming, Inspect, Listing, Render, Turn, Reported, Step;
    hide Lookup, NameKey, PlainName, Push, Annotate, Settled;
    ReportOf(tree, at);
    MeetByQuestions(tree, at, part);
    TurnAtEntry(tree, at, part, Step(Locate(tree, at).value, part).value, last, requirement, links);
    var stored := StoredName(tree, current.absolute, part, semantics);
    var name := stored.value;
    assert NameKey(semantics, name).Ok?;
    return Ok(current.(
      absolute := Push(current.absolute, name),
      components := current.components + [NamingComponent(name, semantics)],
      directory := directory));
  }

  /** A name without an entry ends the path, or fails. */
  method LeaveAbsent(tree: Tree, current: Resolved, part: Bytes, semantics: NamingSemantics, last: bool,
                     requirement: PathRequirement, ghost links: nat, ghost at: seq<Bytes>)
    returns (r: Result<Resolved, NormalizationError>)
    requires Canonical(tree, at) && current == Report(tree, Place(at, true)) && current.directory
    requires part != [] && SLASH !in part && part != DOT && part != DOTDOT
    requires Naming(tree, Render(at)) == Ok(semantics) && NameKey(semantics, part).Ok?
    requires Inspect(tree, Push(Render(at), part)) == Err(MissingTarget)
    ensures r == Reported(tree, Turn(tree, at, part, last, requirement, links))
  {
    hide Walk, Report, Meet, Segments, Canonical, Locate, Naming, Inspect, Listing, Render, Turn, Reported, Step;
    hide Lookup, NameKey, PlainName, Push, Annotate, Settled;
    ReportOf(tree, at);
    MeetByQuestions(tree, at, part);
    TurnAtNothing(tree, at, part, last, requirement, links);
    if !last {
      return Err(MissingParent);
    }
    if requirement.AllowMissingLeaf? {
      return Ok(current.(
        absolute := Push(current.absolute, part),
        components := current.components + [NamingComponent(part, semantics)],
        directory := false,
        present := false));
    }
    return Err(MissingTarget);
  }

  /** One turn of the loop for a name: look it up, then follow, enter or leave it absent. */
  method ResolveName(tree: Tree, current: Resolved, part: Bytes, last: bool, requirement: PathRequirement,
                     depth: nat, ghost at: seq<Bytes>)
    returns (r: Result<Resolved, NormalizationError>)
    requires depth < MAX_LINK_DEPTH && RuleOf(tree.rule).Ok?
    requires Canonical(tree, at) && current == Report(tree, Place(at, true)) && current.directory
    requires part != [] && SLASH !in part && part != DOT && part != DOTDOT
    ensures r == Reported(tree, Turn(tree, at, part, last, requirement, MAX_LINK_DEPTH - 1 - depth))
    decreases MAX_LINK_DEPTH - depth, 0
  {
    hide Walk, Report, Meet, Segments, Canonical, Locate, Naming, Inspect, Listing, Render, Turn, Reported, Step;
    hide Lookup, NameKey, PlainName, Push, Annotate, Settled, RuleOf, Resolution, LinkReport;
    ghost var links := MAX_LINK_DEPTH - 1 - depth;
    ReportOf(tree, at);
    MeetByQuestions(tree, at, part);
    TurnAtRefusal(tree, at, part, last, requirement, links);
    var semantics :- Naming(tree, current.absolute);
    var _ :- NameKey(semantics, part);
    match Inspect(tree, Push(current.absolute, part)) {
      case Ok(entry) =>
        if entry.redirect.Some? {
          TurnAtLink(tree, at, part, entry.redirect.value, last, requirement, depth);
          var target := Resolve(tree, entry.redirect.value, current.absolute, Existing, depth + 1);
          return LinkReport(target);
        }
        r := EnterName(tree, current, part, semantics, entry.directory, last, requirement, links, at);
      case Err(error) =>
        if !error.MissingTarget? {
          return Err(error);
        }
        r := LeaveAbsent(tree, current, part, semantics, last, requirement, links, at);
    }
  }

  /** One turn of the loop: move the canonical position `current` by one part. */
  method ResolvePart(tree: Tree, current: Resolved, part: Bytes, last: bool, requirement: PathRequirement,
                     depth: nat, ghost at: seq<Bytes>)
    returns (r: Result<Resolved, NormalizationError>)
    requires depth < MAX_LINK_DEPTH && RuleOf(tree.rule).Ok?
    requires Canonical(tree, at) && current == Report(tree, Place(at, true))
    requires part != [] && SLASH !in part
    ensures r == Reported(tree, Turn(tree, at, part, last, requirement, MAX_LINK_DEPTH - 1 - depth))
    decreases MAX_LINK_DEPTH - depth, 1
  {
    hide Walk, Follow, Report, Turn, Reported, Canonical, Segments;
    TurnAtDots(tree, at, part, last, requirement, MAX_LINK_DEPTH - 1 - depth);
    if !current.directory {
      return Err(NotDirectory);
    }
    if part == DOT {
      return Ok(current);
    }
    if part == DOTDOT {
      if current.components != [] {
        return Ok(current.(components := Init(current.components), absolute := Pop(current.absolute)));
      }
      return Ok(current);
    }
    r := ResolveName(tree, current, part, last, requirement, depth, at);
  }

  /** The loop over parts: from a canonical position, the report that walking them gives. */
  method ResolveParts(tree: Tree, start: Resolved, parts: seq<Bytes>, requirement: PathRequirement, depth: nat,
                      ghost at: seq<Bytes>)
    returns (r: Result<Resolved, NormalizationError>)
    requires depth < MAX_LINK_DEPTH && RuleOf(tree.rule).Ok? && ProperNames(parts)
    requires Canonical(tree, at) && start == Report(tree, Place(at, true))
    ensures r == Reported(tree, Walk(tree, at, parts, requirement, MAX_LINK_DEPTH - 1 - depth))
    decreases MAX_LINK_DEPTH - depth, 2
  {
    hide Turn, Reported, Report, Canonical, Meet, Follow;
    var current := start;
    ghost var links := MAX_LINK_DEPTH - 1 - depth;
    ghost var goal := Walk(tree, at, parts, requirement, links);
    ghost var place := Place(at, true);
    var index := 0;
    assert parts[0..] == parts;
    while index < |parts|
      invariant 0 <= index <= |parts|
      invariant current == Report(tree, place)
      invariant index < |parts| ==> place.present && Canonical(tree, place.names)
      invariant index < |parts| ==> goal == Walk(tree, place.names, parts[index..], requirement, links)
      invariant index == |parts| ==> goal == Ok(place)
    {
      var last := index + 1 == |parts|;
      ghost var here := place.names;
      assert parts[index..][0] == parts[index] && parts[index..][1..] == parts[index + 1..];
      WalkByTurns(tree, here, parts[index..], requirement, links);
      ReportedInverse(tree, Turn(tree, here, parts[index], last, requirement, links));
      ReportedInverse(tree, goal);
      current :- ResolvePart(tree, current, parts[index], last, requirement, depth, here);
      place := Turn(tree, here, parts[index], last, requirement, links).value;
      index := index + 1;
    }
    ReportedInverse(tree, goal);
    return Ok(current);
  }

  /** Resolving starts at the root, where the report and the naming rules are those of the tree. */
  lemma ResolutionStarts(tree: Tree, path: Bytes, cwd: Bytes, requirement: PathRequirement, depth: nat)
    ensures Report(tree, Place([], true)) == Resolved(ROOT, ROOT, [], true, true)
    ensures Canonical(tree, []) && Naming(tree, ROOT) == RuleOf(tree.rule)
    ensures forall links :: Walk(tree, [], [], requirement, links) == Ok(Place([], true))
    ensures Resolution(tree, path, cwd, requirement, depth) ==
            if depth >= MAX_LINK_DEPTH then Err(UnresolvedLink)
            else if Parts(path, cwd).Err? then Err(Parts(path, cwd).error)
            else if RuleOf(tree.rule).Err? then Err(RuleOf(tree.rule).error)
            else Reported(tree, Walk(tree, [], Parts(path, cwd).value, requirement, MAX_LINK_DEPTH - 1 - depth))
  {
    hide Parts, Segments;
    CanonicalQuestions(tree, []);
  }

  /** Resolve a path to its canonical report. The result is that of the in-place walk. */
  method Resolve(tree: Tree, path: Bytes, cwd: Bytes, requirement: PathRequirement, depth: nat)
    returns (r: Result<Resolved, NormalizationError>)
    ensures r == Resolution(tree, path, cwd, requirement, depth)
    decreases MAX_LINK_DEPTH - depth, 3
  {
    hide Walk, Turn, Reported, Report, Parts, Canonical, Naming, Locate, Destination, Resolution;
    ResolutionStarts(tree, path, cwd, requirement, depth);
    if depth >= MAX_LINK_DEPTH {
      return Err(UnresolvedLink);
    }
    var parsed :- Parse(path, cwd);
    var (root, parts) := parsed;
    PartsAreNames(path, cwd);
    var current := Resolved(root, root, [], true, true);
    var _ :- Naming(tree, current.absolute);
    r := ResolveParts(tree, current, parts, requirement, depth, []);
  }
}
