/** Pathname resolution as an in-place walk over a snapshot, in the manner of section 4.13
    of the Base Definitions of POSIX.1-2017. A position is the list of names from the root;
    a link is followed from the directory that holds it, never by starting over. */
module InPlaceWalk {
  import opened Common
  import opened PathTypes
  import opened UnixPaths
  import opened Snapshot

  /** Where a walk ends: canonical names, and whether the last of them exists. */
  datatype Place = Place(names: seq<Bytes>, present: bool)

  /** A link that leads nowhere is an unresolved link, not a missing path. */
  function LinkError(error: NormalizationError): NormalizationError {
    if error.MissingTarget? || error.MissingParent? || error.NotDirectory? then UnresolvedLink else error
  }

  function LinkResult(r: Result<Place, NormalizationError>): Result<Place, NormalizationError> {
    match r
    case Ok(place) => Ok(place)
    case Err(e) => Err(LinkError(e))
  }

  predicate ValidTarget(target: Bytes) {
    target != [] && NUL !in target
  }

  function TargetStart(at: seq<Bytes>, target: Bytes): seq<Bytes> {
    if IsAbsolute(target) then [] else at
  }

  function TargetParts(target: Bytes): seq<Bytes> {
    Segments(target) + TrailingMarker(target)
  }

  /** What one part means at a canonical position. */
  datatype Encounter =
    | Refused(error: NormalizationError)
    | Arrive(names: seq<Bytes>)
    | Absent
    | Redirect(target: Bytes)

  function Enter(at: seq<Bytes>, found: Option<Entry>): Encounter {
    match found
    case None => Absent
    case Some(entry) =>
      match entry.node
      case Opaque(failure) => Refused(FailureOf(failure))
      case Link(target) => Redirect(target)
      case _ => Arrive(at + [entry.name])
  }

  function Meet(tree: Tree, at: seq<Bytes>, part: Bytes): Encounter {
    var here := Locate(tree, at);
    if !(here.Some? && here.value.Directory?) then Refused(NotDirectory)
    else if part == DOT then Arrive(at)
    else if part == DOTDOT then Arrive(Init(at))
    else if RuleOf(here.value.rule).Err? then Refused(RuleOf(here.value.rule).error)
    else if NameKey(here.value.rule.semantics, part).Err? then
      Refused(NameKey(here.value.rule.semantics, part).error)
    else Enter(at, Step(here.value, part))
  }

  /** Walk `parts` from the canonical position `at`; `links` more levels of links may nest. */
  function Walk(tree: Tree, at: seq<Bytes>, parts: seq<Bytes>, requirement: PathRequirement, links: nat):
    Result<Place, NormalizationError>
    decreases links, |parts|
  {
    if parts == [] then Ok(Place(at, true))
    else
      match Meet(tree, at, parts[0])
      case Refused(e) => Err(e)
      case Arrive(names) => Walk(tree, names, parts[1..], requirement, links)
      case Absent =>
        if |parts| > 1 then Err(MissingParent)
        else if requirement.AllowMissingLeaf? then Ok(Place(at + [parts[0]], false))
        else Err(MissingTarget)
      case Redirect(target) =>
        if links == 0 then Err(UnresolvedLink)
        else
          var place :- Follow(tree, at, target, links - 1);
          Walk(tree, place.names, parts[1..], requirement, links)
  }

  /** The existing place a link in directory `at` leads to. */
  function Follow(tree: Tree, at: seq<Bytes>, target: Bytes, links: nat): Result<Place, NormalizationError>
    decreases links, |TargetParts(target)| + 1
  {
    if !ValidTarget(target) then Err(InvalidPath)
    else LinkResult(Walk(tree, TargetStart(at, target), TargetParts(target), Existing, links))
  }

  // Canonical positions

  predicate Settled(node: Node) {
    node.File? || node.Directory?
  }

  /** Every name is the stored spelling of an entry of a directory with known rules, and
      what the names lead to is a file or a directory, never a link. */
  predicate Canonical(node: Node, names: seq<Bytes>)
    decreases |names|
  {
    if names == [] then Settled(node)
    else
      match Step(node, names[0])
      case None => false
      case Some(entry) => entry.name == names[0] && Canonical(entry.node, names[1..])
  }

  lemma {:induction false} CanonicalConcat(node: Node, a: seq<Bytes>, b: seq<Bytes>)
    requires a + b != a
    ensures Canonical(node, a + b) ==>
              && Canonical(node, a) && Locate(node, a).Some? && Locate(node, a).value.Directory?
              && Canonical(Locate(node, a).value, b)
    ensures Canonical(node, a) && Locate(node, a).Some? && Canonical(Locate(node, a).value, b) ==>
              Canonical(node, a + b)
  {
    CanonicalLocates(node, a);
    if a == [] {
      assert a + b == b;
    } else {
      assert (a + b)[0] == a[0] && (a + b)[1..] == a[1..] + b;
      match Step(node, a[0])
      case None =>
      case Some(entry) =>
        CanonicalConcat(entry.node, a[1..], b);
    }
  }

  lemma {:induction false} CanonicalLocates(node: Node, names: seq<Bytes>)
    ensures Canonical(node, names) ==> Locate(node, names).Some? && Settled(Locate(node, names).value)
  {
    if names != [] && Step(node, names[0]).Some? {
      CanonicalLocates(Step(node, names[0]).value.node, names[1..]);
    }
  }

  /** Canonical names are plain, so their rendering is read back name by name. */
  lemma {:induction false} CanonicalNames(node: Node, names: seq<Bytes>)
    requires Canonical(node, names)
    ensures forall i :: 0 <= i < |names| ==> PlainName(names[i])
    ensures ProperNames(names)
  {
    if names != [] {
      CanonicalNames(Step(node, names[0]).value.node, names[1..]);
      forall i | 0 <= i < |names| ensures PlainName(names[i]) {
        if i > 0 { assert names[i] == names[1..][i - 1]; }
      }
    }
  }

  /** One stored name below a directory is canonical. */
  lemma CanonicalName(dir: Node, entry: Entry)
    requires Step(dir, entry.name) == Some(entry) && Settled(entry.node)
    ensures Canonical(dir, [entry.name]) && Locate(dir, [entry.name]) == Some(entry.node)
  {
    hide Step;
    assert [entry.name][1..] == [];
    assert Locate(entry.node, []) == Some(entry.node) && Canonical(entry.node, []);
  }

  /** Storing the spelling found by a lookup extends a canonical position. */
  lemma CanonicalPush(tree: Tree, at: seq<Bytes>, part: Bytes)
    requires Canonical(tree, at) && Locate(tree, at).Some?
    requires Step(Locate(tree, at).value, part).Some?
    requires Settled(Step(Locate(tree, at).value, part).value.node)
    ensures var entry := Step(Locate(tree, at).value, part).value;
            Canonical(tree, at + [entry.name]) && Locate(tree, at + [entry.name]) == Some(entry.node)
  {
    var dir := Locate(tree, at).value;
    var entry := Step(dir, part).value;
    assert Step(dir, entry.name) == Some(entry);
    CanonicalName(dir, entry);
    CanonicalConcat(tree, at, [entry.name]);
    LocateConcat(tree, at, [entry.name]);
  }

  /** The parent of a canonical position is a canonical directory; the root is its own parent. */
  lemma CanonicalParent(tree: Tree, at: seq<Bytes>)
    requires Canonical(tree, at)
    requires at == [] ==> Locate(tree, at).value.Directory?
    ensures Canonical(tree, Init(at))
    ensures Locate(tree, Init(at)).Some? && Locate(tree, Init(at)).value.Directory?
  {
    if at != [] {
      CanonicalConcat(tree, Init(at), [Last(at)]);
    }
  }

  /** What a successful walk returns: an existing canonical position, or one name without
      any matching entry beneath a canonical directory with known rules. */
  ghost predicate SoundPlace(tree: Tree, place: Place) {
    if place.present then Canonical(tree, place.names)
    else
      && place.names != []
      && Canonical(tree, Init(place.names))
      && Locate(tree, Init(place.names)).Some?
      && Locate(tree, Init(place.names)).value.Directory?
      && Locate(tree, Init(place.names)).value.rule.Known?
      && NameKey(Locate(tree, Init(place.names)).value.rule.semantics, Last(place.names)).Ok?
      && Step(Locate(tree, Init(place.names)).value, Last(place.names)).None?
  }

  /** Arriving keeps the position canonical; an absent name has a key but no entry. */
  lemma MeetIsSound(tree: Tree, at: seq<Bytes>, part: Bytes)
    requires Canonical(tree, at)
    ensures Meet(tree, at, part).Arrive? ==> Canonical(tree, Meet(tree, at, part).names)
    ensures Meet(tree, at, part).Absent? ==> SoundPlace(tree, Place(at + [part], false))
  {
    hide Canonical, Locate, Step, NameKey;
    var here := Locate(tree, at);
    if here.Some? && here.value.Directory? {
      CanonicalParent(tree, at);
      assert Init(at + [part]) == at;
      var found := Step(here.value, part);
      if found.Some? && Settled(found.value.node) {
        CanonicalPush(tree, at, part);
      }
    }
  }

  ghost predicate SoundResult(tree: Tree, r: Result<Place, NormalizationError>, missingAllowed: bool) {
    r.Ok? ==> SoundPlace(tree, r.value) && (!missingAllowed ==> r.value.present)
  }

  /** Every walk from a canonical position ends in a sound place, and only a walk that
      permits it ends in a missing one. */
  lemma {:induction false} WalkIsSound(
    tree: Tree, at: seq<Bytes>, parts: seq<Bytes>, requirement: PathRequirement, links: nat)
    requires Canonical(tree, at)
    ensures SoundResult(tree, Walk(tree, at, parts, requirement, links), requirement.AllowMissingLeaf?)
    decreases links, |parts|
  {
    if parts != [] {
      MeetIsSound(tree, at, parts[0]);
      match Meet(tree, at, parts[0])
      case Refused(_) =>
      case Absent =>
      case Arrive(names) =>
        WalkIsSound(tree, names, parts[1..], requirement, links);
      case Redirect(target) =>
        if links > 0 && Follow(tree, at, target, links - 1).Ok? {
          FollowIsSound(tree, at, target, links - 1);
          WalkIsSound(tree, Follow(tree, at, target, links - 1).value.names, parts[1..], requirement, links);
        }
    }
  }

  lemma {:induction false} FollowIsSound(tree: Tree, at: seq<Bytes>, target: Bytes, links: nat)
    requires Canonical(tree, at)
    ensures Follow(tree, at, target, links).Ok? ==>
              && Follow(tree, at, target, links).value.present
              && Canonical(tree, Follow(tree, at, target, links).value.names)
    decreases links, |TargetParts(target)| + 1
  {
    WalkIsSound(tree, TargetStart(at, target), TargetParts(target), Existing, links);
  }

  /** At the next name of a canonical stretch, the walk arrives there. */
  lemma MeetCanonical(tree: Tree, before: seq<Bytes>, stretch: seq<Bytes>)
    requires stretch != [] && Canonical(tree, before + stretch)
    ensures Meet(tree, before, stretch[0]) == Arrive(before + [stretch[0]])
  {
    CanonicalConcat(tree, before, stretch);
    var dir := Locate(tree, before).value;
    var entry := Step(dir, stretch[0]).value;
    CanonicalLocates(entry.node, stretch[1..]);
    assert Settled(entry.node) by {
      if stretch[1..] != [] { assert Step(entry.node, stretch[1..][0]).Some?; }
    }
  }

  /** Walking a canonical stretch again changes nothing but the position. */
  lemma {:induction false} Rewalk(
    tree: Tree, before: seq<Bytes>, stretch: seq<Bytes>, parts: seq<Bytes>, requirement: PathRequirement, links: nat)
    requires Canonical(tree, before + stretch)
    ensures Walk(tree, before, stretch + parts, requirement, links) ==
            Walk(tree, before + stretch, parts, requirement, links)
    decreases |stretch|
  {
    if stretch == [] {
      assert stretch + parts == parts && before + stretch == before;
    } else {
      assert (stretch + parts)[0] == stretch[0] && (stretch + parts)[1..] == stretch[1..] + parts;
      assert before + stretch == (before + [stretch[0]]) + stretch[1..];
      MeetCanonical(tree, before, stretch);
      Rewalk(tree, before + [stretch[0]], stretch[1..], parts, requirement, links);
    }
  }

  /** The error of a walk that was not at its last part. */
  function InnerError(error: NormalizationError): NormalizationError {
    if error.MissingTarget? then MissingParent else error
  }

  /** Walking two stretches is walking the first to an existing place, then the second. */
  lemma {:induction false} WalkConcat(
    tree: Tree, at: seq<Bytes>, a: seq<Bytes>, b: seq<Bytes>, requirement: PathRequirement, links: nat)
    requires b != []
    ensures Walk(tree, at, a + b, requirement, links) ==
            var first := Walk(tree, at, a, Existing, links);
            if first.Ok? then Walk(tree, first.value.names, b, requirement, links) else Err(InnerError(first.error))
    decreases |a|
  {
    if a == [] {
      assert a + b == b;
    } else {
      assert (a + b)[0] == a[0] && (a + b)[1..] == a[1..] + b;
      match Meet(tree, at, a[0])
      case Refused(_) =>
      case Absent =>
      case Arrive(names) =>
        WalkConcat(tree, names, a[1..], b, requirement, links);
      case Redirect(target) =>
        if links > 0 && Follow(tree, at, target, links - 1).Ok? {
          WalkConcat(tree, Follow(tree, at, target, links - 1).value.names, a[1..], b, requirement, links);
        }
    }
  }
}
