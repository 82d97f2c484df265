/** What resolution promises over every snapshot, path and working directory. */
module PathTheorems {
  import opened Common
  import opened PathTypes
  import opened UnixPaths
  import opened Snapshot
  import opened InPlaceWalk
  import opened Resolver

  // Canonical results

  /** What a destination is, name by name: the names are the components, each proper prefix
      is an existing directory whose rules the components record, and each existing entry is
      named by its stored spelling. */
  ghost predicate Describes(tree: Tree, place: Place, resolved: Resolved) {
    && resolved.root == ROOT
    && resolved.absolute == Render(place.names)
    && resolved.present == place.present
    && |resolved.components| == |place.names|
    && (forall i :: 0 <= i < |place.names| ==> DescribesAt(tree, place, resolved.components, i))
    && (place.present ==>
          && Locate(tree, place.names).Some?
          && Settled(Locate(tree, place.names).value)
          && resolved.directory == Locate(tree, place.names).value.Directory?)
    && (!place.present ==> place.names != [] && !resolved.directory)
  }

  ghost predicate DescribesAt(tree: Tree, place: Place, components: seq<NamingComponent>, i: nat)
    requires |components| == |place.names| && i < |components|
  {
    var parent := Locate(tree, place.names[..i]);
    && components[i].name == place.names[i]
    && parent.Some? && parent.value.Directory?
    && parent.value.rule == Known(components[i].semantics)
    && NameKey(components[i].semantics, components[i].name).Ok?
    && (place.present || i < |place.names| - 1 ==>
          && Step(parent.value, place.names[i]).Some?
          && Step(parent.value, place.names[i]).value.name == place.names[i]
          && Settled(Step(parent.value, place.names[i]).value.node))
    && (!place.present && i == |place.names| - 1 ==> Step(parent.value, place.names[i]).None?)
  }

  lemma {:induction false} CanonicalAt(tree: Tree, names: seq<Bytes>, i: nat)
    requires Canonical(tree, names) && i < |names|
    ensures |Annotate(tree, names)| == |names|
    ensures DescribesAt(tree, Place(names, true), Annotate(tree, names), i)
  {
    var before, rest := names[..i], names[i..];
    assert names == before + rest;
    CanonicalConcat(tree, before, rest);
    AnnotateConcat(tree, before, rest);
    AnnotateConcat(tree, names, []);
    assert names + [] == names;
    var dir := Locate(tree, before).value;
    var entry := Step(dir, rest[0]).value;
    CanonicalLocates(entry.node, rest[1..]);
    assert Annotate(dir, rest)[0] == NamingComponent(rest[0], dir.rule.semantics);
    assert Annotate(tree, names)[i] == Annotate(dir, rest)[0];
    if rest[1..] != [] {
      assert Step(entry.node, rest[1..][0]).Some?;
    }
  }

  lemma PresentIsDescribed(tree: Tree, names: seq<Bytes>)
    requires Canonical(tree, names)
    ensures Describes(tree, Place(names, true), Report(tree, Place(names, true)))
  {
    hide Canonical, Locate, Annotate, DescribesAt, Render;
    CanonicalLocates(tree, names);
    AnnotateConcat(tree, names, []);
    assert names + [] == names;
    forall i | 0 <= i < |names| ensures DescribesAt(tree, Place(names, true), Annotate(tree, names), i) {
      CanonicalAt(tree, names, i);
    }
  }

  /** The components in front of an absent name are those of the directory it is in. */
  lemma AbsentIsDescribedAt(tree: Tree, place: Place, i: nat)
    requires SoundPlace(tree, place) && !place.present && i < |place.names|
    ensures |Annotate(tree, place.names)| == |place.names|
    ensures DescribesAt(tree, place, Annotate(tree, place.names), i)
  {
    hide Canonical, Locate, Annotate, Step, NameKey, Settled;
    var names := place.names;
    var parent := Init(names);
    AnnotatePush(tree, parent, Last(names));
    AnnotateConcat(tree, parent, []);
    assert parent + [] == parent;
    assert names[..i] == parent[..i];
    if i < |parent| {
      CanonicalAt(tree, parent, i);
      assert Annotate(tree, names)[i] == Annotate(tree, parent)[i];
    } else {
      assert names[..i] == parent;
    }
  }

  lemma SoundIsDescribed(tree: Tree, place: Place)
    requires SoundPlace(tree, place)
    ensures Describes(tree, place, Report(tree, place))
  {
    hide Canonical, Locate, Annotate, DescribesAt, Render;
    if place.present {
      PresentIsDescribed(tree, place.names);
    } else {
      AbsentIsDescribedAt(tree, place, |place.names| - 1);
      forall i | 0 <= i < |place.names| ensures DescribesAt(tree, place, Annotate(tree, place.names), i) {
        AbsentIsDescribedAt(tree, place, i);
      }
    }
  }

  /** Every destination from the root is sound. */
  lemma DestinationIsSound(tree: Tree, path: Bytes, cwd: Bytes, requirement: PathRequirement, depth: nat)
    ensures Destination(tree, path, cwd, requirement, depth).Ok? ==>
              var place := Destination(tree, path, cwd, requirement, depth).value;
              && SoundPlace(tree, place)
              && (requirement.Existing? ==> place.present)
  {
    if depth < MAX_LINK_DEPTH && Parts(path, cwd).Ok? {
      WalkIsSound(tree, [], Parts(path, cwd).value, requirement, MAX_LINK_DEPTH - 1 - depth);
    }
  }

  /** Results are canonical. */
  lemma ResultsAreCanonical(tree: Tree, path: Bytes, cwd: Bytes, requirement: PathRequirement, depth: nat)
    requires Resolution(tree, path, cwd, requirement, depth).Ok?
    ensures var place := Destination(tree, path, cwd, requirement, depth).value;
            var resolved := Resolution(tree, path, cwd, requirement, depth).value;
            && Describes(tree, place, resolved)
            && (requirement.Existing? ==> resolved.present)
  {
    DestinationIsSound(tree, path, cwd, requirement, depth);
    SoundIsDescribed(tree, Destination(tree, path, cwd, requirement, depth).value);
  }

  // Idempotence

  lemma SoundNames(tree: Tree, place: Place)
    requires SoundPlace(tree, place)
    ensures forall i :: 0 <= i < |place.names| ==> PlainName(place.names[i])
    ensures ProperNames(place.names)
  {
    if place.present {
      CanonicalNames(tree, place.names);
    } else {
      CanonicalNames(tree, Init(place.names));
      assert place.names == Init(place.names) + [Last(place.names)];
    }
  }

  /** A sound place is reached again by walking its own names, whatever the budget. */
  lemma WalkBack(tree: Tree, place: Place, requirement: PathRequirement, links: nat)
    requires SoundPlace(tree, place)
    ensures Walk(tree, [], place.names, requirement, links) ==
            if place.present || requirement.AllowMissingLeaf? then Ok(place) else Err(MissingTarget)
  {
    var names := place.names;
    if place.present {
      assert names + [] == names && [] + names == names;
      Rewalk(tree, [], names, [], requirement, links);
    } else {
      var parent, leaf := Init(names), Last(names);
      assert parent + [leaf] == names && [] + parent == parent;
      Rewalk(tree, [], parent, [leaf], requirement, links);
      assert Meet(tree, parent, leaf) == Absent;
    }
  }

  lemma {:induction false} ChainIsClean(names: seq<Bytes>)
    requires forall i :: 0 <= i < |names| ==> PlainName(names[i])
    ensures NUL !in Chain(names)
  {
    if names != [] {
      ChainIsClean(Init(names));
      assert PlainName(names[|names| - 1]);
      assert forall b :: b in Chain(names) ==> b in Chain(Init(names)) || b == SLASH || b in Last(names);
    }
  }

  /** Resolving a canonical absolute path: from any directory and at any permitted depth the
      same report comes back. */
  lemma ResolveRendered(
    tree: Tree, place: Place, cwd: Bytes, requirement: PathRequirement, depth: nat)
    requires SoundPlace(tree, place) && RuleOf(tree.rule).Ok? && depth < MAX_LINK_DEPTH
    ensures Destination(tree, Render(place.names), cwd, requirement, depth) ==
            if place.present || requirement.AllowMissingLeaf? then Ok(place) else Err(MissingTarget)
  {
    hide Walk, Parts, Render, SoundPlace, Meet;
    var links := MAX_LINK_DEPTH - 1 - depth;
    SoundNames(tree, place);
    WalkBack(tree, place, requirement, links);
    if place.names == [] {
      PartsOfRoot(cwd);
      WalkDotAtRoot(tree, place, requirement, links);
    } else {
      PartsOfRender(place.names, cwd);
    }
  }

  lemma PartsOfRoot(cwd: Bytes)
    ensures Render([]) == ROOT && Parts(Render([]), cwd) == Ok([DOT])
  {
    SegmentsOfRender([]);
    hide Segments;
    assert TrailingMarker(ROOT) == [DOT] && [] + [DOT] == [DOT];
  }

  lemma WalkDotAtRoot(tree: Tree, place: Place, requirement: PathRequirement, links: nat)
    requires SoundPlace(tree, place) && place.names == []
    ensures place.present && Walk(tree, [], [DOT], requirement, links) == Ok(place)
  {
    assert Meet(tree, [], DOT) == Arrive([]) && [DOT][1..] == [];
  }

  /** Resolution is idempotent: resolving the absolute path of a result, from anywhere and at
      any permitted depth, returns that result. */
  lemma ResolutionIsIdempotent(
    tree: Tree, path: Bytes, cwd: Bytes, requirement: PathRequirement, depth: nat, cwd': Bytes, depth': nat)
    requires Resolution(tree, path, cwd, requirement, depth).Ok? && depth' < MAX_LINK_DEPTH
    ensures var resolved := Resolution(tree, path, cwd, requirement, depth);
            Resolution(tree, resolved.value.absolute, cwd', requirement, depth') == resolved
  {
    DestinationIsSound(tree, path, cwd, requirement, depth);
    var place := Destination(tree, path, cwd, requirement, depth).value;
    hide Walk;
    ResolveRendered(tree, place, cwd', requirement, depth');
  }

  // Existing targets and missing leaves

  lemma {:induction false} WalkRequirement(tree: Tree, at: seq<Bytes>, parts: seq<Bytes>, links: nat)
    ensures var strict := Walk(tree, at, parts, Existing, links);
            var lenient := Walk(tree, at, parts, AllowMissingLeaf, links);
            && (strict == Err(MissingTarget) <==> lenient.Ok? && !lenient.value.present)
            && (strict != Err(MissingTarget) ==> lenient == strict)
    decreases |parts|
  {
    if parts != [] {
      match Meet(tree, at, parts[0])
      case Refused(e) =>
      case Absent =>
      case Arrive(names) => WalkRequirement(tree, names, parts[1..], links);
      case Redirect(target) =>
        if links > 0 && Follow(tree, at, target, links - 1).Ok? {
          WalkRequirement(tree, Follow(tree, at, target, links - 1).value.names, parts[1..], links);
        }
    }
  }

  /** The two requirements differ on absent leaves and on nothing else. */
  lemma RequirementsDifferOnAbsentLeaves(tree: Tree, path: Bytes, cwd: Bytes, depth: nat)
    ensures var strict := Resolution(tree, path, cwd, Existing, depth);
            var lenient := Resolution(tree, path, cwd, AllowMissingLeaf, depth);
            && (strict == Err(MissingTarget) <==> lenient.Ok? && !lenient.value.present)
            && (strict != Err(MissingTarget) ==> lenient == strict)
  {
    hide Walk, Segments, Render, Annotate;
    if depth < MAX_LINK_DEPTH && Parts(path, cwd).Ok? {
      WalkRequirement(tree, [], Parts(path, cwd).value, MAX_LINK_DEPTH - 1 - depth);
    }
  }

  /** A walk that ends in a dot segment ends in an existing directory. */
  lemma {:induction false} DotEndsInDirectory(
    tree: Tree, at: seq<Bytes>, parts: seq<Bytes>, requirement: PathRequirement, links: nat)
    requires Canonical(tree, at) && parts != [] && (Last(parts) == DOT || Last(parts) == DOTDOT)
    ensures Walk(tree, at, parts, requirement, links).Ok? ==>
              var place := Walk(tree, at, parts, requirement, links).value;
              place.present && Locate(tree, place.names).Some? && Locate(tree, place.names).value.Directory?
  {
    var before, last := Init(parts), Last(parts);
    WalkConcat(tree, at, before, [last], requirement, links);
    WalkIsSound(tree, at, before, Existing, links);
    var there := Walk(tree, at, before, Existing, links);
    if there.Ok? {
      var names := there.value.names;
      if Locate(tree, names).Some? && Locate(tree, names).value.Directory? {
        CanonicalParent(tree, names);
      }
    }
  }

  predicate EndsWith(path: Bytes, end: Bytes) {
    |path| >= |end| && path[|path| - |end|..] == end
  }

  /** A path written with a final separator, or with `.` or `..` as its last name. */
  predicate EndsInDots(path: Bytes) {
    || (path != [] && Last(path) == SLASH)
    || path == DOT || path == DOTDOT
    || EndsWith(path, [SLASH] + DOT) || EndsWith(path, [SLASH] + DOTDOT)
  }

  /** The last part of such a path is a dot segment. */
  lemma LastPartIsDots(path: Bytes, cwd: Bytes)
    requires Parts(path, cwd).Ok? && EndsInDots(path)
    ensures var parts := Parts(path, cwd).value; parts != [] && (Last(parts) == DOT || Last(parts) == DOTDOT)
  {
    hide Segments;
    if Last(path) != SLASH {
      var name := if path == DOT || EndsWith(path, [SLASH] + DOT) then DOT else DOTDOT;
      SegmentsOfName(name);
      if path != name {
        var front := path[..|path| - |name| - 1];
        assert path == front + [SLASH] + name;
        SegmentsOfJoin(front, name);
      }
      assert Last(Segments(path)) == name;
    }
  }

  /** Such a path names an existing directory or fails. */
  lemma TrailingDotsNeedDirectories(tree: Tree, path: Bytes, cwd: Bytes, requirement: PathRequirement, depth: nat)
    requires EndsInDots(path)
    ensures Resolution(tree, path, cwd, requirement, depth).Ok? ==>
              var resolved := Resolution(tree, path, cwd, requirement, depth).value;
              resolved.present && resolved.directory
  {
    hide Walk, Parts, Render, Annotate, EndsInDots;
    if depth < MAX_LINK_DEPTH && Parts(path, cwd).Ok? {
      LastPartIsDots(path, cwd);
      DotEndsInDirectory(tree, [], Parts(path, cwd).value, requirement, MAX_LINK_DEPTH - 1 - depth);
    }
  }

  // The link budget

  /** With more links allowed, a walk that did not run out of them returns the same. */
  lemma {:induction false} MoreLinks(
    tree: Tree, at: seq<Bytes>, parts: seq<Bytes>, requirement: PathRequirement, links: nat, more: nat)
    requires links <= more
    ensures Walk(tree, at, parts, requirement, links) != Err(UnresolvedLink) ==>
              Walk(tree, at, parts, requirement, more) == Walk(tree, at, parts, requirement, links)
    decreases links, |parts|
  {
    hide Meet, Follow;
    if parts != [] {
      match Meet(tree, at, parts[0])
      case Refused(_) =>
      case Absent =>
      case Arrive(names) => MoreLinks(tree, names, parts[1..], requirement, links, more);
      case Redirect(target) =>
        if links > 0 {
          MoreLinksFollow(tree, at, target, links - 1, more - 1);
          if Follow(tree, at, target, links - 1).Ok? {
            var names := Follow(tree, at, target, links - 1).value.names;
            MoreLinks(tree, names, parts[1..], requirement, links, more);
          }
        }
    }
  }

  lemma {:induction false} MoreLinksFollow(tree: Tree, at: seq<Bytes>, target: Bytes, links: nat, more: nat)
    requires links <= more
    ensures Follow(tree, at, target, links) != Err(UnresolvedLink) ==>
              Follow(tree, at, target, more) == Follow(tree, at, target, links)
    decreases links, |TargetParts(target)| + 1
  {
    MoreLinks(tree, TargetStart(at, target), TargetParts(target), Existing, links, more);
  }

  /** Resolving at a smaller depth changes nothing but an unresolved link. */
  lemma DepthIsMonotone(
    tree: Tree, path: Bytes, cwd: Bytes, requirement: PathRequirement, depth: nat, shallower: nat)
    requires shallower <= depth
    requires Resolution(tree, path, cwd, requirement, depth) != Err(UnresolvedLink)
    ensures Resolution(tree, path, cwd, requirement, shallower) == Resolution(tree, path, cwd, requirement, depth)
  {
    hide Walk, Parts, Report;
    if Parts(path, cwd).Ok? {
      MoreLinks(tree, [], Parts(path, cwd).value, requirement,
                MAX_LINK_DEPTH - 1 - depth, MAX_LINK_DEPTH - 1 - shallower);
    }
  }

  /** One name in one directory. */
  datatype Site = Site(at: seq<Bytes>, part: Bytes)

  predicate IsLink(tree: Tree, site: Site) {
    Meet(tree, site.at, site.part).Redirect?
  }

  function TargetOf(tree: Tree, site: Site): Bytes
    requires IsLink(tree, site)
  {
    Meet(tree, site.at, site.part).target
  }

  /** Somewhere along the target of `first`, after `k` parts, lies the link `next`; the
      stretch before it resolves within `links` nested links. */
  ghost predicate LeadsThrough(tree: Tree, first: Site, next: Site, k: nat, links: nat)
    requires IsLink(tree, first)
  {
    var target := TargetOf(tree, first);
    var parts := TargetParts(target);
    && ValidTarget(target)
    && k < |parts|
    && Walk(tree, TargetStart(first.at, target), parts[..k], Existing, links) == Ok(Place(next.at, true))
    && parts[k] == next.part
  }

  /** An encounter at which a link target ends without leading anywhere. */
  predicate IsBroken(met: Encounter) {
    met.Absent? || (met.Refused? && LinkError(met.error) == UnresolvedLink)
  }

  /** Somewhere along the target of the link, after `k` parts, a name is missing, a part stands
      beneath something that is no directory, or a link cannot be read. */
  ghost predicate BreaksAt(tree: Tree, site: Site, k: nat, names: seq<Bytes>, links: nat)
    requires IsLink(tree, site)
  {
    var target := TargetOf(tree, site);
    var parts := TargetParts(target);
    && ValidTarget(target)
    && k < |parts|
    && Walk(tree, TargetStart(site.at, target), parts[..k], Existing, links) == Ok(Place(names, true))
    && IsBroken(Meet(tree, names, parts[k]))
  }

  ghost predicate Breaks(tree: Tree, site: Site)
    requires IsLink(tree, site)
  {
    exists k, names, links :: BreaksAt(tree, site, k, names, links)
  }

  ghost predicate LeadsInto(tree: Tree, sites: iset<Site>, site: Site)
    requires IsLink(tree, site)
  {
    exists next, k, links :: next in sites && LeadsThrough(tree, site, next, k, links)
  }

  /** A link that breaks off, or leads through a link of the set. */
  ghost predicate IsStuck(tree: Tree, sites: iset<Site>, site: Site) {
    IsLink(tree, site) && (Breaks(tree, site) || LeadsInto(tree, sites, site))
  }

  ghost predicate Stuck(tree: Tree, sites: iset<Site>) {
    forall site {:trigger IsStuck(tree, sites, site)} :: site in sites ==> IsStuck(tree, sites, site)
  }

  /** No link of such a set resolves, under any budget. */
  lemma {:induction false} StuckLinksNeverResolve(tree: Tree, sites: iset<Site>, site: Site, budget: nat)
    requires Stuck(tree, sites) && site in sites
    ensures IsLink(tree, site) && Follow(tree, site.at, TargetOf(tree, site), budget) == Err(UnresolvedLink)
    decreases budget
  {
    hide Walk, Follow, Meet, TargetParts, LeadsThrough, IsLink, BreaksAt;
    assert IsStuck(tree, sites, site);
    if Breaks(tree, site) {
      var k, names, links :| BreaksAt(tree, site, k, names, links);
      BreakAgain(tree, site, k, names, links, budget);
    } else {
      var next, k, links :| next in sites && LeadsThrough(tree, site, next, k, links);
      assert IsStuck(tree, sites, next);
      if budget > 0 {
        StuckLinksNeverResolve(tree, sites, next, budget - 1);
      }
      ArriveAgain(tree, site, next, k, links, budget);
    }
  }

  /** Following a link either runs out of links before its target breaks off, or breaks off. */
  lemma BreakAgain(tree: Tree, site: Site, k: nat, names: seq<Bytes>, links: nat, budget: nat)
    requires IsLink(tree, site) && BreaksAt(tree, site, k, names, links)
    ensures Follow(tree, site.at, TargetOf(tree, site), budget) == Err(UnresolvedLink)
  {
    hide Walk, Meet, IsLink, TargetParts, TargetOf, TargetStart, ValidTarget;
    var target := TargetOf(tree, site);
    var parts := TargetParts(target);
    var start := TargetStart(site.at, target);
    var enough := if links < budget then budget else links;
    MoreLinks(tree, start, parts[..k], Existing, budget, enough);
    MoreLinks(tree, start, parts[..k], Existing, links, enough);
    assert parts == parts[..k] + parts[k..];
    WalkConcat(tree, start, parts[..k], parts[k..], Existing, budget);
    var reached := Walk(tree, start, parts[..k], Existing, budget);
    assert reached == Err(UnresolvedLink) || reached == Ok(Place(names, true));
    assert parts[k..][0] == parts[k];
    WalkBreaks(tree, names, parts[k..], budget);
  }

  lemma WalkBreaks(tree: Tree, at: seq<Bytes>, parts: seq<Bytes>, links: nat)
    requires parts != [] && IsBroken(Meet(tree, at, parts[0]))
    ensures var r := Walk(tree, at, parts, Existing, links); r.Err? && LinkError(r.error) == UnresolvedLink
  {
    hide Meet;
  }

  ghost predicate NeverFollowed(tree: Tree, at: seq<Bytes>, target: Bytes) {
    forall budget: nat :: Follow(tree, at, target, budget) == Err(UnresolvedLink)
  }

  /** A walk that leads nowhere under any budget. */
  ghost predicate NeverArrives(tree: Tree, at: seq<Bytes>, parts: seq<Bytes>) {
    forall links: nat :: LinkResult(Walk(tree, at, parts, Existing, links)) == Err(UnresolvedLink)
  }

  /** What stops a walk is something broken or a link that is itself never followed. */
  ghost predicate StoppedBy(tree: Tree, met: Encounter, names: seq<Bytes>) {
    IsBroken(met) || (met.Redirect? && NeverFollowed(tree, names, met.target))
  }

  lemma {:induction false} WhatStops(tree: Tree, at: seq<Bytes>, parts: seq<Bytes>)
    returns (k: nat, names: seq<Bytes>, links: nat)
    requires NeverArrives(tree, at, parts)
    ensures k < |parts| && Walk(tree, at, parts[..k], Existing, links) == Ok(Place(names, true))
    ensures StoppedBy(tree, Meet(tree, names, parts[k]), names)
    decreases |parts|
  {
    hide Meet, Follow, NeverFollowed, NeverArrives;
    NotEmpty(tree, at, parts);
    k, names, links := 0, at, 0;
    assert parts[..0] == [];
    match Meet(tree, at, parts[0]) {
      case Refused(e) => NeverArrivesNow(tree, at, parts);
      case Absent =>
      case Arrive(next) =>
        ArrivesNext(tree, at, parts, next);
        k, names, links := WhatStops(tree, next, parts[1..]);
        StretchByArriving(tree, at, parts, next, k, links);
        k := k + 1;
      case Redirect(target) =>
        if !NeverFollowed(tree, at, target) {
          var budget, next := FollowedOnce(tree, at, parts, target);
          k, names, links := WhatStops(tree, next, parts[1..]);
          links := StretchByFollowing(tree, at, parts, target, budget, next, k, links, names);
          k := k + 1;
        }
    }
  }

  lemma NotEmpty(tree: Tree, at: seq<Bytes>, parts: seq<Bytes>)
    requires NeverArrives(tree, at, parts)
    ensures parts != []
  {
    assert LinkResult(Walk(tree, at, parts, Existing, 0)) == Err(UnresolvedLink);
  }

  lemma NeverArrivesNow(tree: Tree, at: seq<Bytes>, parts: seq<Bytes>)
    requires NeverArrives(tree, at, parts) && parts != [] && Meet(tree, at, parts[0]).Refused?
    ensures IsBroken(Meet(tree, at, parts[0]))
  {
    hide Meet;
    assert LinkResult(Walk(tree, at, parts, Existing, 0)) == Err(UnresolvedLink);
  }

  lemma ArrivesNext(tree: Tree, at: seq<Bytes>, parts: seq<Bytes>, next: seq<Bytes>)
    requires NeverArrives(tree, at, parts) && parts != [] && Meet(tree, at, parts[0]) == Arrive(next)
    ensures NeverArrives(tree, next, parts[1..])
  {
    hide Meet;
    forall links ensures LinkResult(Walk(tree, next, parts[1..], Existing, links)) == Err(UnresolvedLink) {
      assert LinkResult(Walk(tree, at, parts, Existing, links)) == Err(UnresolvedLink);
    }
  }

  lemma StretchByArriving(tree: Tree, at: seq<Bytes>, parts: seq<Bytes>, next: seq<Bytes>, k: nat, links: nat)
    requires parts != [] && k < |parts[1..]| && Meet(tree, at, parts[0]) == Arrive(next)
    ensures parts[1..][k] == parts[k + 1]
    ensures Walk(tree, at, parts[..k + 1], Existing, links) == Walk(tree, next, parts[1..][..k], Existing, links)
  {
    hide Meet;
    assert parts[..k + 1][0] == parts[0] && parts[..k + 1][1..] == parts[1..][..k];
  }

  /** If a link on the way can be followed at all, the walk goes on behind it and still never
      arrives. */
  lemma FollowedOnce(tree: Tree, at: seq<Bytes>, parts: seq<Bytes>, target: Bytes)
    returns (budget: nat, next: seq<Bytes>)
    requires NeverArrives(tree, at, parts) && parts != [] && Meet(tree, at, parts[0]) == Redirect(target)
    requires !NeverFollowed(tree, at, target)
    ensures Follow(tree, at, target, budget).Ok? && Follow(tree, at, target, budget).value.names == next
    ensures NeverArrives(tree, next, parts[1..])
  {
    hide Meet, Follow;
    budget :| Follow(tree, at, target, budget) != Err(UnresolvedLink);
    assert LinkResult(Walk(tree, at, parts, Existing, budget + 1)) == Err(UnresolvedLink);
    FollowFails(tree, at, target, budget);
    next := Follow(tree, at, target, budget).value.names;
    forall links: nat ensures LinkResult(Walk(tree, next, parts[1..], Existing, links)) == Err(UnresolvedLink) {
      var more := (if links < budget then budget else links) + 1;
      assert LinkResult(Walk(tree, at, parts, Existing, more)) == Err(UnresolvedLink);
      MoreLinksFollow(tree, at, target, budget, more - 1);
      assert Walk(tree, at, parts, Existing, more) == Walk(tree, next, parts[1..], Existing, more);
      MoreLinks(tree, next, parts[1..], Existing, links, more);
    }
  }

  /** The error of a failed link is one that stays when it is reported again. */
  lemma FollowFails(tree: Tree, at: seq<Bytes>, target: Bytes, budget: nat)
    ensures var r := Follow(tree, at, target, budget); r.Err? ==> LinkError(r.error) == r.error
  {
    hide Walk;
  }

  lemma StretchByFollowing(tree: Tree, at: seq<Bytes>, parts: seq<Bytes>, target: Bytes, budget: nat,
                           next: seq<Bytes>, k: nat, links: nat, names: seq<Bytes>)
    returns (enough: nat)
    requires parts != [] && k < |parts[1..]| && Meet(tree, at, parts[0]) == Redirect(target)
    requires Follow(tree, at, target, budget).Ok? && Follow(tree, at, target, budget).value.names == next
    requires Walk(tree, next, parts[1..][..k], Existing, links) == Ok(Place(names, true))
    ensures parts[1..][k] == parts[k + 1]
    ensures Walk(tree, at, parts[..k + 1], Existing, enough) == Ok(Place(names, true))
  {
    hide Meet, Follow;
    enough := (if links < budget then budget else links) + 1;
    var stretch := parts[..k + 1];
    assert stretch[0] == parts[0] && stretch[1..] == parts[1..][..k];
    MoreLinksFollow(tree, at, target, budget, enough - 1);
    MoreLinks(tree, next, stretch[1..], Existing, links, enough);
  }

  ghost predicate NeverResolves(tree: Tree, site: Site) {
    IsLink(tree, site) && NeverFollowed(tree, site.at, TargetOf(tree, site))
  }

  /** A link that is unresolved under every budget breaks off or leads through another such. */
  lemma NeverResolvingIsStuck(tree: Tree, site: Site)
    requires NeverResolves(tree, site)
    ensures IsStuck(tree, (iset other | NeverResolves(tree, other)), site)
  {
    hide Walk, Meet, IsBroken;
    var target := TargetOf(tree, site);
    var start, parts := TargetStart(site.at, target), TargetParts(target);
    assert Follow(tree, site.at, target, 0) == Err(UnresolvedLink);
    forall links ensures LinkResult(Walk(tree, start, parts, Existing, links)) == Err(UnresolvedLink) {
      assert Follow(tree, site.at, target, links) == Err(UnresolvedLink);
    }
    var k, names, links := WhatStops(tree, start, parts);
    var next := Site(names, parts[k]);
    if IsBroken(Meet(tree, names, parts[k])) {
      assert BreaksAt(tree, site, k, names, links);
    } else {
      assert NeverResolves(tree, next);
      assert LeadsThrough(tree, site, next, k, links);
    }
  }

  /** A link is unresolved under every budget exactly when it belongs to links each of which
      breaks off or leads through another of them: dangling links, circular links, and
      whatever leads to either. */
  lemma UnresolvedForeverExactly(tree: Tree, site: Site)
    requires IsLink(tree, site)
    ensures NeverFollowed(tree, site.at, TargetOf(tree, site)) <==> exists sites :: Stuck(tree, sites) && site in sites
  {
    hide Walk, Follow, Meet, IsStuck, IsLink;
    if sites :| Stuck(tree, sites) && site in sites {
      forall budget: nat ensures Follow(tree, site.at, TargetOf(tree, site), budget) == Err(UnresolvedLink) {
        StuckLinksNeverResolve(tree, sites, site, budget);
      }
    }
    if NeverFollowed(tree, site.at, TargetOf(tree, site)) {
      var all := iset other | NeverResolves(tree, other);
      forall other | other in all ensures IsStuck(tree, all, other) { NeverResolvingIsStuck(tree, other); }
      assert Stuck(tree, all) && site in all;
    }
  }

  /** A link that leads through a link of the set. */
  ghost predicate StaysInside(tree: Tree, sites: set<Site>, site: Site) {
    IsLink(tree, site) && exists next, k, links :: next in sites && LeadsThrough(tree, site, next, k, links)
  }

  /** Every link of the set leads through a link of the set. */
  ghost predicate Circular(tree: Tree, sites: set<Site>) {
    forall site {:trigger StaysInside(tree, sites, site)} :: site in sites ==> StaysInside(tree, sites, site)
  }

  /** A link whose resolution revisits itself, directly or around any cycle of links, is
      unresolved under every budget. */
  lemma CircularLinksNeverResolve(tree: Tree, sites: set<Site>, site: Site, budget: nat)
    requires Circular(tree, sites) && site in sites
    ensures IsLink(tree, site) && Follow(tree, site.at, TargetOf(tree, site), budget) == Err(UnresolvedLink)
  {
    hide Walk, Follow, Meet, TargetParts, LeadsThrough, IsLink, Breaks;
    var all := iset other | other in sites;
    forall other | other in all ensures IsStuck(tree, all, other) {
      assert StaysInside(tree, sites, other);
      var next, k, links :| next in sites && LeadsThrough(tree, other, next, k, links);
      assert next in all;
    }
    StuckLinksNeverResolve(tree, all, site, budget);
  }

  /** Following a link either runs out of links before reaching the next one on its way, or
      meets it with the same budget. */
  lemma ArriveAgain(tree: Tree, first: Site, next: Site, k: nat, links: nat, budget: nat)
    requires IsLink(tree, first) && LeadsThrough(tree, first, next, k, links) && IsLink(tree, next)
    requires budget > 0 ==> Follow(tree, next.at, TargetOf(tree, next), budget - 1) == Err(UnresolvedLink)
    ensures Follow(tree, first.at, TargetOf(tree, first), budget) == Err(UnresolvedLink)
  {
    hide Walk, Meet, IsLink, TargetParts, TargetOf, TargetStart, ValidTarget;
    var target := TargetOf(tree, first);
    var parts := TargetParts(target);
    var start := TargetStart(first.at, target);
    var enough := if links < budget then budget else links;
    MoreLinks(tree, start, parts[..k], Existing, budget, enough);
    MoreLinks(tree, start, parts[..k], Existing, links, enough);
    assert parts == parts[..k] + parts[k..];
    WalkConcat(tree, start, parts[..k], parts[k..], Existing, budget);
    var reached := Walk(tree, start, parts[..k], Existing, budget);
    assert reached == Err(UnresolvedLink) || reached == Ok(Place(next.at, true));
    assert parts[k..][0] == next.part;
    WalkStopsAtLink(tree, next, parts[k..], Existing, budget);
  }

  lemma PartsOfRender(names: seq<Bytes>, cwd: Bytes)
    requires names != [] && forall i :: 0 <= i < |names| ==> PlainName(names[i])
    ensures Parts(Render(names), cwd) == Ok(names)
  {
    assert ProperNames(names);
    ChainIsClean(names);
    SegmentsOfRender(names);
    hide Segments, Chain;
    assert Parts(Render(names), cwd) == Ok(names + []);
    assert names + [] == names;
  }

  /** Resolving a name under a canonical directory is one step from that directory. */
  lemma ResolveChild(
    tree: Tree, at: seq<Bytes>, part: Bytes, cwd: Bytes, requirement: PathRequirement, depth: nat)
    requires Canonical(tree, at) && PlainName(part) && depth < MAX_LINK_DEPTH && RuleOf(tree.rule).Ok?
    ensures Destination(tree, Push(Render(at), part), cwd, requirement, depth) ==
            Walk(tree, at, [part], requirement, MAX_LINK_DEPTH - 1 - depth)
  {
    hide Walk, Render, Segments, Push, Parts, Canonical;
    CanonicalNames(tree, at);
    PushRender(at, part);
    PartsOfRender(at + [part], cwd);
    assert [] + at == at;
    Rewalk(tree, [], at, [part], requirement, MAX_LINK_DEPTH - 1 - depth);
  }

  /** At a link that cannot be followed, the walk stops. */
  lemma WalkStopsAtLink(tree: Tree, site: Site, parts: seq<Bytes>, requirement: PathRequirement, links: nat)
    requires IsLink(tree, site) && parts != [] && parts[0] == site.part
    requires links > 0 ==> Follow(tree, site.at, TargetOf(tree, site), links - 1) == Err(UnresolvedLink)
    ensures Walk(tree, site.at, parts, requirement, links) == Err(UnresolvedLink)
  {
    hide Meet;
  }

  lemma LinkFacts(tree: Tree, site: Site)
    requires Canonical(tree, site.at) && IsLink(tree, site)
    ensures PlainName(site.part) && RuleOf(tree.rule).Ok?
  {
    if site.at != [] { assert Step(tree, site.at[0]).Some?; }
  }

  lemma CircularSitesAreLinks(tree: Tree, sites: set<Site>, site: Site)
    requires Circular(tree, sites) && site in sites
    ensures IsLink(tree, site)
  {
    hide IsLink, LeadsThrough;
    assert StaysInside(tree, sites, site);
  }

  /** The path of a circular link is unresolved from everywhere, at every depth. */
  lemma CircularPathsNeverResolve(
    tree: Tree, sites: set<Site>, site: Site, cwd: Bytes, requirement: PathRequirement, depth: nat)
    requires Circular(tree, sites) && site in sites && Canonical(tree, site.at)
    ensures Resolution(tree, Push(Render(site.at), site.part), cwd, requirement, depth) == Err(UnresolvedLink)
  {
    hide Walk, Follow, Meet, TargetOf, Push, Render, Canonical, Circular, IsLink, Parts, Report;
    CircularSitesAreLinks(tree, sites, site);
    if depth < MAX_LINK_DEPTH {
      var links := MAX_LINK_DEPTH - 1 - depth;
      LinkFacts(tree, site);
      ResolveChild(tree, site.at, site.part, cwd, requirement, depth);
      if links > 0 {
        CircularLinksNeverResolve(tree, sites, site, links - 1);
      }
      WalkStopsAtLink(tree, site, [site.part], requirement, links);
    }
  }
}
