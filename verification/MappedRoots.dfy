/** A root that is itself a path below another root, such as a mapped drive: its path is
    resolved first, and the parts are read from there. */
module MappedRoots {
  import opened Common
  import opened PathTypes
  import opened UnixPaths
  import opened Snapshot
  import opened InPlaceWalk
  import opened Resolver
  import opened PathTheorems

  /** Whether the path of a root names something below the root of the snapshot. */
  predicate IsMapped(root: Bytes) {
    Parts(root, root).Ok? ==> exists i :: 0 <= i < |Parts(root, root).value| && Parts(root, root).value[i] != DOT
  }

  /** Where parts below a mapped root lead: resolving the root takes one level of links, and its
      directory must have known naming rules. */
  function MappedDestination(tree: Tree, root: Bytes, parts: seq<Bytes>, requirement: PathRequirement, depth: nat):
    Result<Place, NormalizationError>
  {
    if depth >= MAX_LINK_DEPTH then Err(UnresolvedLink)
    else
      var _ :- Parts(root, root);
      var base :- Destination(tree, root, root, Existing, depth + 1);
      var _ :- Naming(tree, Render(base.names));
      Walk(tree, base.names, parts, requirement, MAX_LINK_DEPTH - 1 - depth)
  }

  /** Resolving parts below a mapped root, as it runs. */
  method ResolveMapped(tree: Tree, root: Bytes, parts: seq<Bytes>, requirement: PathRequirement, depth: nat)
    returns (r: Result<Resolved, NormalizationError>)
    requires IsMapped(root) && ProperNames(parts)
    ensures r == Reported(tree, MappedDestination(tree, root, parts, requirement, depth))
  {
    hide Walk, Parts, Report, Segments, Naming, Canonical, Render;
    if depth >= MAX_LINK_DEPTH {
      return Err(UnresolvedLink);
    }
    var _ :- Parse(root, root);
    DestinationIsSound(tree, root, root, Existing, depth + 1);
    var current :- Resolve(tree, root, root, Existing, depth + 1);
    ghost var base := Destination(tree, root, root, Existing, depth + 1).value;
    ReportOf(tree, base.names);
    var _ :- Naming(tree, current.absolute);
    r := ResolveParts(tree, current, parts, requirement, depth, base.names);
  }

  /** The path of the root and the parts, written out. */
  function Direct(root: Bytes, parts: seq<Bytes>): Bytes {
    root + [SLASH] + RenderRelative(parts)
  }

  lemma {:induction false} RelativeIsClean(parts: seq<Bytes>)
    requires forall i :: 0 <= i < |parts| ==> NUL !in parts[i]
    ensures NUL !in RenderRelative(parts)
  {
    if |parts| > 1 { RelativeIsClean(Init(parts)); }
  }

  lemma PartsOfDirect(root: Bytes, parts: seq<Bytes>, cwd: Bytes)
    requires IsAbsolute(root) && NUL !in root && parts != [] && ProperNames(parts)
    requires forall i :: 0 <= i < |parts| ==> NUL !in parts[i]
    ensures Parts(Direct(root, parts), cwd) == Ok(Segments(root) + parts)
  {
    hide Segments, RenderRelative;
    SegmentsOfRelative(parts);
    RelativeIsClean(parts);
    SegmentsOfJoin(root, RenderRelative(parts));
    var direct := Direct(root, parts);
    assert Last(direct) == Last(RenderRelative(parts));
    assert Segments(root) + parts + [] == Segments(root) + parts;
  }

  /** A final separator behind the path of a directory changes nothing. */
  lemma MarkerStays(tree: Tree, segments: seq<Bytes>, marker: seq<Bytes>, links: nat)
    requires marker == [] || marker == [DOT]
    requires Walk(tree, [], segments + marker, Existing, links).Ok?
    ensures Walk(tree, [], segments, Existing, links) == Walk(tree, [], segments + marker, Existing, links)
  {
    hide Canonical;
    if marker == [] {
      assert segments + marker == segments;
    } else {
      assert Canonical(tree, []) by { ResolutionStarts(tree, ROOT, ROOT, Existing, 0); }
      WalkIsSound(tree, [], segments, Existing, links);
      WalkConcat(tree, [], segments, marker, Existing, links);
      assert marker[1..] == [];
    }
  }

  /** Walking from the directory of the root is walking the path written out. */
  lemma WalkedBelow(tree: Tree, root: Bytes, parts: seq<Bytes>, cwd: Bytes, requirement: PathRequirement, depth: nat)
    requires IsAbsolute(root) && NUL !in root && parts != [] && ProperNames(parts) && depth < MAX_LINK_DEPTH
    requires forall i :: 0 <= i < |parts| ==> NUL !in parts[i]
    requires Destination(tree, root, root, Existing, depth + 1).Ok?
    ensures var base := Destination(tree, root, root, Existing, depth + 1).value;
            Destination(tree, Direct(root, parts), cwd, requirement, depth) ==
            Walk(tree, base.names, parts, requirement, MAX_LINK_DEPTH - 1 - depth)
  {
    hide Walk, Segments, Direct;
    var links := MAX_LINK_DEPTH - 1 - depth;
    PartsOfDirect(root, parts, cwd);
    MarkerStays(tree, Segments(root), TrailingMarker(root), links - 1);
    MoreLinks(tree, [], Segments(root), Existing, links - 1, links);
    WalkConcat(tree, [], Segments(root), parts, requirement, links);
  }

  /** A path below a mapped root and the same path written out below the other root are the
      same: absolute path, components, identity and whether it exists. */
  lemma MappedIsDirect(tree: Tree, root: Bytes, parts: seq<Bytes>, cwd: Bytes, requirement: PathRequirement, depth: nat)
    requires IsAbsolute(root) && parts != [] && ProperNames(parts)
    requires forall i :: 0 <= i < |parts| ==> NUL !in parts[i]
    requires MappedDestination(tree, root, parts, requirement, depth).Ok?
    ensures Resolution(tree, Direct(root, parts), cwd, requirement, depth) ==
            Reported(tree, MappedDestination(tree, root, parts, requirement, depth))
  {
    hide Walk, Segments, Report, Naming, Direct, Destination;
    WalkedBelow(tree, root, parts, cwd, requirement, depth);
  }

  /** The naming rules of the directory that was resolved. */
  function RulesOf(tree: Tree, directory: Resolved): NamingRule {
    match Locate(tree, Segments(directory.absolute))
    case Some(Directory(rule, _)) => rule
    case _ => Unreadable
  }

  /** Every answer below a mapped root, in terms of direct resolution: the root must lead, within
      one level of links fewer, to a directory with known rules, and then the answer is that of
      the path written out. */
  lemma MappedInFull(tree: Tree, root: Bytes, parts: seq<Bytes>, cwd: Bytes, requirement: PathRequirement, depth: nat)
    requires IsAbsolute(root) && parts != [] && ProperNames(parts)
    requires forall i :: 0 <= i < |parts| ==> NUL !in parts[i]
    ensures Reported(tree, MappedDestination(tree, root, parts, requirement, depth)) ==
            var base := Resolution(tree, root, root, Existing, depth + 1);
            if depth >= 40 then Err(UnresolvedLink)
            else if 0 in root then Err(InvalidPath)
            else if base.Err? then Err(base.error)
            else if !base.value.directory then Err(NotDirectory)
            else
              match RulesOf(tree, base.value)
              case Unsupported => Err(UnsupportedNamingSemantics)
              case Unreadable => Err(Inaccessible)
              case Known(_) => Resolution(tree, Direct(root, parts), cwd, requirement, depth)
  {
    hide Walk, Segments, Direct, Render;
    if depth < 40 && NUL !in root && Destination(tree, root, root, Existing, depth + 1).Ok? {
      var base := Destination(tree, root, root, Existing, depth + 1).value;
      DestinationIsSound(tree, root, root, Existing, depth + 1);
      SoundNames(tree, base);
      SegmentsOfRender(base.names);
      CanonicalLocates(tree, base.names);
      hide Locate, Canonical, Destination;
      WalkedBelow(tree, root, parts, cwd, requirement, depth);
    }
  }
}
