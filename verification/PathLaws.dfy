/** What resolution does with one part, read off the entries of the snapshot, and where the
    parts of a path are read from. Together with walking two stretches one after the other,
    these laws determine every walk. */
module PathLaws {
  import opened Common
  import opened PathTypes
  import opened UnixPaths
  import opened Snapshot
  import opened InPlaceWalk
  import opened Resolver
  import opened PathTheorems
  import opened Normalizer

  // Names and entries

  /** Equal bytes, or an ASCII letter in its two cases. */
  predicate SameLetter(a: byte, b: byte) {
    a == b || (65 <= a <= 90 && b == a + 32) || (65 <= b <= 90 && a == b + 32)
  }

  /** Whether a stored name and a given one are the same name in a directory. */
  predicate SameName(semantics: NamingSemantics, stored: Bytes, name: Bytes) {
    if semantics.AsciiInsensitive?
    then |stored| == |name| && forall i :: 0 <= i < |name| ==> SameLetter(stored[i], name[i])
    else stored == name
  }

  /** A name that may be looked up: one plain component, ASCII unless names are exact. */
  predicate Acceptable(semantics: NamingSemantics, name: Bytes) {
    && name != [] && name != [46] && name != [46, 46] && 0 !in name && 47 !in name
    && (semantics != Exact ==> forall i :: 0 <= i < |name| ==> name[i] < 128)
  }

  /** The position of the first entry with the given name. */
  predicate DenotesEntry(entries: seq<Entry>, semantics: NamingSemantics, name: Bytes, i: nat) {
    && i < |entries| && SameName(semantics, entries[i].name, name)
    && forall k :: 0 <= k < i ==> !SameName(semantics, entries[k].name, name)
  }

  lemma LettersAgree(a: byte, b: byte)
    ensures LowerByte(a) == LowerByte(b) <==> SameLetter(a, b)
  {
  }

  lemma AcceptableHasKey(semantics: NamingSemantics, name: Bytes)
    ensures NameKey(semantics, name).Ok? <==> Acceptable(semantics, name)
    ensures NameKey(semantics, name) == Err(InvalidPath) <==>
            name == [] || name == [46] || name == [46, 46] || 0 in name || 47 in name
    ensures NameKey(semantics, name).Err? ==>
              NameKey(semantics, name).error in {InvalidPath, UnsupportedNamingSemantics}
  {
  }

  /** Two names have the same key exactly when they are the same name. */
  lemma KeysAreNames(semantics: NamingSemantics, stored: Bytes, name: Bytes)
    requires Acceptable(semantics, name)
    ensures NameKey(semantics, stored) == NameKey(semantics, name) <==> SameName(semantics, stored, name)
  {
    AcceptableHasKey(semantics, name);
    AcceptableHasKey(semantics, stored);
    if semantics.AsciiInsensitive? {
      forall i | 0 <= i < |name| && |stored| == |name|
        ensures LowerByte(stored[i]) == LowerByte(name[i]) <==> SameLetter(stored[i], name[i])
      {
        LettersAgree(stored[i], name[i]);
      }
      if SameName(semantics, stored, name) { SameNameIsAcceptable(stored, name); }
      if NameKey(semantics, stored).Ok? { SameKey(semantics, stored, name); }
    }
  }

  lemma SameNameIsAcceptable(stored: Bytes, name: Bytes)
    requires Acceptable(AsciiInsensitive, name) && SameName(AsciiInsensitive, stored, name)
    ensures Acceptable(AsciiInsensitive, stored)
  {
    forall i | 0 <= i < |stored| ensures stored[i] != 0 && stored[i] != 47 && stored[i] < 128 {
      assert SameLetter(stored[i], name[i]) && name[i] in name;
    }
    assert stored != [] ==> SameLetter(stored[0], name[0]);
    assert |stored| == 2 ==> SameLetter(stored[1], name[1]);
  }

  /** A lookup by key finds the first entry with the name. */
  lemma {:induction false} LookupIsFirst(entries: seq<Entry>, semantics: NamingSemantics, name: Bytes)
    requires Acceptable(semantics, name) && NameKey(semantics, name).Ok?
    ensures var found := Lookup(entries, semantics, NameKey(semantics, name).value);
            && (forall i: nat :: DenotesEntry(entries, semantics, name, i) ==> found == Some(entries[i]))
            && ((forall i :: 0 <= i < |entries| ==> !SameName(semantics, entries[i].name, name)) ==> found == None)
  {
    hide NameKey, SameName, Acceptable;
    if entries != [] {
      KeysAreNames(semantics, entries[0].name, name);
      var rest := entries[1..];
      LookupIsFirst(rest, semantics, name);
      forall i: nat | DenotesEntry(entries, semantics, name, i)
        ensures Lookup(entries, semantics, NameKey(semantics, name).value) == Some(entries[i])
      {
        if i > 0 {
          assert SameName(semantics, rest[i - 1].name, name);
          assert forall k :: 0 <= k < i - 1 ==> rest[k] == entries[k + 1];
          assert DenotesEntry(rest, semantics, name, i - 1);
        }
      }
      assert forall i :: 0 <= i < |rest| ==> rest[i] == entries[i + 1];
    }
  }

  // One part

  /** The directory at a position, with its naming rules and entries. */
  predicate DirectoryAt(tree: Tree, at: seq<Bytes>, semantics: NamingSemantics, entries: seq<Entry>) {
    Locate(tree, at) == Some(Directory(Known(semantics), entries))
  }

  /** What a link target leads to: an empty target or one with a NUL is invalid; a target that
      leads nowhere, or beneath something that is no directory, is an unresolved link. */
  function TargetLaw(r: Result<Place, NormalizationError>, target: Bytes): Result<Place, NormalizationError> {
    if target == [] || 0 in target then Err(InvalidPath)
    else if r == Err(MissingTarget) || r == Err(MissingParent) || r == Err(NotDirectory) then Err(UnresolvedLink)
    else r
  }

  /** A name in a directory leads to its first entry: a file or directory under its stored
      name, a link to what its target leads to from here with one level of links fewer. */
  lemma EntryLaw(tree: Tree, at: seq<Bytes>, semantics: NamingSemantics, entries: seq<Entry>, name: Bytes, i: nat,
                 requirement: PathRequirement, links: nat)
    requires DirectoryAt(tree, at, semantics, entries) && Acceptable(semantics, name)
    requires DenotesEntry(entries, semantics, name, i)
    ensures var r := Walk(tree, at, [name], requirement, links);
            var node := entries[i].node;
            if node.File? || node.Directory? then r == Ok(Place(at + [entries[i].name], true))
            else if node.Opaque? then r == Err(if node.failure == AccessDenied then Inaccessible else UnresolvedLink)
            else if links == 0 then r == Err(UnresolvedLink)
            else
              var start := if node.target != [] && node.target[0] == 47 then [] else at;
              var parts := Segments(node.target) + TrailingMarker(node.target);
              var inner := TargetLaw(Walk(tree, start, parts, Existing, links - 1), node.target);
              r == if inner.Ok? then Ok(Place(inner.value.names, true)) else Err(inner.error)
  {
    AcceptableHasKey(semantics, name);
    LookupIsFirst(entries, semantics, name);
    hide NameKey, SameName, DenotesEntry, Segments, TrailingMarker;
    assert [name][1..] == [];
  }

  /** A name without an entry is a missing leaf where one is permitted. */
  lemma AbsentLaw(tree: Tree, at: seq<Bytes>, semantics: NamingSemantics, entries: seq<Entry>, name: Bytes,
                  requirement: PathRequirement, links: nat)
    requires DirectoryAt(tree, at, semantics, entries) && Acceptable(semantics, name)
    requires forall i :: 0 <= i < |entries| ==> !SameName(semantics, entries[i].name, name)
    ensures Walk(tree, at, [name], requirement, links) ==
            if requirement == AllowMissingLeaf then Ok(Place(at + [name], false)) else Err(MissingTarget)
  {
    AcceptableHasKey(semantics, name);
    LookupIsFirst(entries, semantics, name);
    hide NameKey, SameName;
  }

  /** A dot stays, a double dot leaves the last name, and the root is its own parent. */
  lemma DotLaws(tree: Tree, at: seq<Bytes>, requirement: PathRequirement, links: nat)
    requires Locate(tree, at).Some? && Locate(tree, at).value.Directory?
    ensures Walk(tree, at, [[46]], requirement, links) == Ok(Place(at, true))
    ensures Walk(tree, at, [[46, 46]], requirement, links) ==
            Ok(Place(if at == [] then [] else at[..|at| - 1], true))
  {
    assert [DOT][1..] == [] && [DOTDOT][1..] == [];
    assert Meet(tree, at, DOT) == Arrive(at) && Meet(tree, at, DOTDOT) == Arrive(Init(at));
  }

  /** Nothing is beneath what is no directory, and names need known rules that allow them. */
  lemma RefusalLaws(tree: Tree, at: seq<Bytes>, part: Bytes, requirement: PathRequirement, links: nat)
    ensures !(Locate(tree, at).Some? && Locate(tree, at).value.Directory?) ==>
              Walk(tree, at, [part], requirement, links) == Err(NotDirectory)
    ensures Locate(tree, at).Some? && Locate(tree, at).value.Directory? && part != [46] && part != [46, 46] ==>
              var r := Walk(tree, at, [part], requirement, links);
              var rule := Locate(tree, at).value.rule;
              && (rule == Unsupported ==> r == Err(UnsupportedNamingSemantics))
              && (rule == Unreadable ==> r == Err(Inaccessible))
              && (rule.Known? && !Acceptable(rule.semantics, part) ==>
                    r == Err(if part == [] || 0 in part || 47 in part then InvalidPath else UnsupportedNamingSemantics))
  {
    if Locate(tree, at).Some? && Locate(tree, at).value.Directory? && Locate(tree, at).value.rule.Known? {
      AcceptableHasKey(Locate(tree, at).value.rule.semantics, part);
    }
    hide NameKey, Acceptable;
  }

  /** Two stretches are walked one after the other; a name missing on the first is a missing
      parent of the second. No parts lead nowhere else. */
  lemma StretchLaw(tree: Tree, at: seq<Bytes>, a: seq<Bytes>, b: seq<Bytes>, requirement: PathRequirement, links: nat)
    requires b != []
    ensures Walk(tree, at, [], requirement, links) == Ok(Place(at, true))
    ensures Walk(tree, at, a + b, requirement, links) ==
            var first := Walk(tree, at, a, Existing, links);
            if first.Ok? then Walk(tree, first.value.names, b, requirement, links)
            else Err(if first.error == MissingTarget then MissingParent else first.error)
  {
    WalkConcat(tree, at, a, b, requirement, links);
  }

  /** The root resolves up to a depth of 39, if its naming rules are known. */
  lemma DepthLaw(tree: Tree, cwd: Bytes, requirement: PathRequirement, depth: nat)
    ensures Resolution(tree, [47], cwd, requirement, depth) ==
            if depth >= 40 then Err(UnresolvedLink)
            else if tree.rule == Unsupported then Err(UnsupportedNamingSemantics)
            else if tree.rule == Unreadable then Err(Inaccessible)
            else Ok(Resolved([47], [47], [], true, true))
  {
    PartsOfRoot(cwd);
    ResolutionStarts(tree, ROOT, cwd, requirement, depth);
    if depth < MAX_LINK_DEPTH && tree.rule.Known? {
      DotLaws(tree, [], requirement, MAX_LINK_DEPTH - 1 - depth);
    }
    hide Walk, Parts, Report;
  }

  // Where a path is read from

  /** A path is refused when it is empty or holds a NUL, and a relative one when there is no
      absolute working directory. */
  lemma PathErrors(tree: Tree, path: Bytes, cwd: Bytes, requirement: PathRequirement, depth: nat)
    requires depth < 40
    ensures path == [] || 0 in path ==> Resolution(tree, path, cwd, requirement, depth) == Err(InvalidPath)
    ensures path != [] && 0 !in path && path[0] != 47 && (cwd == [] || cwd[0] != 47) ==>
              Resolution(tree, path, cwd, requirement, depth) == Err(InvalidContext)
  {
    hide Walk;
  }

  /** The parts of a path pushed onto a canonical directory are the names of the directory and
      the parts of the path. */
  lemma PartsOfPushed(names: seq<Bytes>, path: Bytes, cwd: Bytes)
    requires (forall i :: 0 <= i < |names| ==> PlainName(names[i])) && path != [] && path[0] != 47
    ensures Parts(Push(Render(names), path), cwd) == Parts(path, Render(names))
    ensures Parts(path, Render(names)) ==
            if 0 in path then Err(InvalidPath) else Ok(names + (Segments(path) + TrailingMarker(path)))
  {
    hide Segments, Render, Push, TrailingMarker;
    var parent := PushedText(names, path);
    var whole := parent + [SLASH] + path;
    SegmentsOfJoin(parent, path);
    assert whole[|whole| - 1] == path[|path| - 1];
    assert TrailingMarker(whole) == TrailingMarker(path) by { SameMarker(whole, path); }
    assert 0 in whole <==> 0 in path;
    Associative(names, Segments(path), TrailingMarker(path));
  }

  lemma SameMarker(a: Bytes, b: Bytes)
    requires a != [] && b != [] && a[|a| - 1] == b[|b| - 1]
    ensures TrailingMarker(a) == TrailingMarker(b)
  {
  }

  /** A path pushed onto a canonical directory follows a separator. */
  lemma PushedText(names: seq<Bytes>, path: Bytes) returns (parent: Bytes)
    requires (forall i :: 0 <= i < |names| ==> PlainName(names[i])) && path != [] && path[0] != 47
    ensures Push(Render(names), path) == parent + [SLASH] + path
    ensures Segments(parent) == Segments(Render(names)) == names && 0 !in parent
    ensures IsAbsolute(parent + [SLASH] + path) && IsAbsolute(Render(names))
  {
    assert ProperNames(names);
    ChainIsClean(names);
    SegmentsOfRender(names);
    SegmentsOfChain(names);
    hide Segments, Chain;
    parent := Chain(names);
    if names == [] {
      PushedOnRoot(path, parent);
    } else {
      assert Render(names) == parent && parent[|parent| - 1] == Last(parent);
    }
  }

  lemma PushedOnRoot(path: Bytes, parent: Bytes)
    requires parent == Chain([]) && path != [] && path[0] != 47
    ensures parent == [] && Push(Render([]), path) == parent + [SLASH] + path
  {
    assert [] + [SLASH] + path == [SLASH] + path;
  }

  /** The position a working directory stands for. */
  function WorkingNames(tree: Tree, context: Context): seq<Bytes>
    requires ContextPlace(tree, context.workingDirectory).Ok?
  {
    ContextPlace(tree, context.workingDirectory).value.names
  }

  predicate AcceptedContext(tree: Tree, context: Context) {
    ContextPlace(tree, context.repositoryRoot).Ok? && ContextPlace(tree, context.workingDirectory).Ok?
  }

  /** A relative path is read against the working directory: it gives the answer of the absolute
      path with the text pushed onto the canonical working directory. */
  lemma RelativeIsBelowWorkingDirectory(
    tree: Tree, path: Bytes, context: Context, other: Context, requirement: PathRequirement)
    requires AcceptedContext(tree, context) && AcceptedContext(tree, other)
    requires other.repositoryRoot == context.repositoryRoot && path != [] && path[0] != 47
    ensures Normalized(tree, path, context, requirement) ==
            Normalized(tree, Push(Render(WorkingNames(tree, context)), path), other, requirement)
  {
    hide Destination, Report, Identity, RelativeTo, Push, ContextPlace, Render, SoundPlace;
    var cwd := ContextPlace(tree, context.workingDirectory).value;
    ContextIsSound(tree, context.workingDirectory);
    SoundNames(tree, cwd);
    var elsewhere := Render(ContextPlace(tree, other.workingDirectory).value.names);
    DestinationOfPushed(tree, cwd.names, path, elsewhere, requirement);
  }

  lemma DestinationOfPushed(
    tree: Tree, names: seq<Bytes>, path: Bytes, cwd: Bytes, requirement: PathRequirement)
    requires (forall i :: 0 <= i < |names| ==> PlainName(names[i])) && path != [] && path[0] != 47
    ensures Destination(tree, Push(Render(names), path), cwd, requirement, 0) ==
            Destination(tree, path, Render(names), requirement, 0)
  {
    hide Walk, Parts, Push, Render;
    PartsOfPushed(names, path, cwd);
  }

  /** An absolute path does not depend on the working directory. */
  lemma AbsoluteIgnoresWorkingDirectory(
    tree: Tree, path: Bytes, context: Context, other: Context, requirement: PathRequirement)
    requires AcceptedContext(tree, context) && AcceptedContext(tree, other)
    requires other.repositoryRoot == context.repositoryRoot && path != [] && path[0] == 47
    ensures Normalized(tree, path, context, requirement) == Normalized(tree, path, other, requirement)
  {
    hide Walk, Segments, Report, Identity, RelativeTo;
  }

  /** What a normalized path says is where its parts lead, walked from the working directory or
      from the root with at most 39 levels of links. */
  lemma NormalizedIsWalked(tree: Tree, path: Bytes, context: Context, requirement: PathRequirement)
    requires AcceptedContext(tree, context) && path != [] && 0 !in path
    ensures var r := Normalized(tree, path, context, requirement);
            var start := if path[0] == 47 then [] else WorkingNames(tree, context);
            var place := Walk(tree, start, Segments(path) + TrailingMarker(path), requirement, 39);
            && (r.Ok? <==> place.Ok?)
            && (place.Err? ==> r.error == place.error)
            && (place.Ok? ==>
                  && r.value.absolute == Render(place.value.names)
                  && NamesOf(r.value.components) == place.value.names
                  && r.value.present == place.value.present)
  {
    hide Walk, Segments, RelativeTo, TrailingMarker, Render, ContextPlace;
    var cwd := ContextPlace(tree, context.workingDirectory).value;
    ContextIsSound(tree, context.workingDirectory);
    SoundNames(tree, cwd);
    DestinationIsSound(tree, path, Render(cwd.names), requirement, 0);
    WalkedFrom(tree, path, cwd, requirement);
    var place := Destination(tree, path, Render(cwd.names), requirement, 0);
    if place.Ok? {
      IdentityNeverFails(tree, place.value);
      ComponentNames(tree, place.value, 0);
      var components := Annotate(tree, place.value.names);
      assert components[0..] == components && place.value.names[0..] == place.value.names;
    }
  }

  lemma WalkedFrom(tree: Tree, path: Bytes, cwd: Place, requirement: PathRequirement)
    requires path != [] && 0 !in path && SoundPlace(tree, cwd) && cwd.present && RuleOf(tree.rule).Ok?
    ensures Destination(tree, path, Render(cwd.names), requirement, 0) ==
            Walk(tree, if path[0] == 47 then [] else cwd.names, Segments(path) + TrailingMarker(path), requirement, 39)
  {
    hide Walk, Segments, TrailingMarker, Render;
    if path[0] != 47 {
      SoundNames(tree, cwd);
      PartsOfPushed(cwd.names, path, Render(cwd.names));
      assert [] + cwd.names == cwd.names;
      Rewalk(tree, [], cwd.names, Segments(path) + TrailingMarker(path), requirement, 39);
    }
  }

  /** How a context directory is refused: only failures about naming rules and namespaces keep
      their kind. */
  predicate ContextRefused(tree: Tree, directory: Bytes, e: NormalizationError) {
    var r := Resolution(tree, directory, directory, Existing, 0);
    if directory == [] || directory[0] != 47 then e == InvalidContext
    else if r.Ok? then !r.value.directory && e == InvalidContext
    else if r.error == UnsupportedNamingSemantics || r.error == UnsupportedWindowsNamespace then e == r.error
    else e == InvalidContext
  }

  /** The repository is examined first, then the working directory, then the path. */
  lemma ContextFailures(tree: Tree, path: Bytes, context: Context, requirement: PathRequirement)
    ensures var n := Normalized(tree, path, context, requirement);
            && (forall e :: ContextRefused(tree, context.repositoryRoot, e) ==> n == Err(e))
            && (ContextPlace(tree, context.repositoryRoot).Ok? ==>
                  forall e :: ContextRefused(tree, context.workingDirectory, e) ==> n == Err(e))
            && (AcceptedContext(tree, context) <==>
                  forall e :: !ContextRefused(tree, context.repositoryRoot, e)
                              && !ContextRefused(tree, context.workingDirectory, e))
  {
    hide Destination;
    ContextRefusal(tree, context.repositoryRoot);
    ContextRefusal(tree, context.workingDirectory);
    hide ContextPlace, ContextRefused;
  }

  lemma ContextRefusal(tree: Tree, directory: Bytes)
    ensures forall e :: ContextRefused(tree, directory, e) <==> ContextPlace(tree, directory) == Err(e)
    ensures ContextPlace(tree, directory).Ok? <==> forall e :: !ContextRefused(tree, directory, e)
  {
    hide Destination;
    assert ContextPlace(tree, directory).Err? ==>
             ContextRefused(tree, directory, ContextPlace(tree, directory).error);
  }

  /** An absolute path is written with one separator in front of each name, and the root as a
      separator; a relative path has none in front. */
  lemma PathsAreWritten(names: seq<Bytes>, name: Bytes)
    ensures Render([]) == [47] && Render([name]) == [47] + name && RenderRelative([name]) == name
    ensures names != [] ==>
              && Render(names + [name]) == Render(names) + [47] + name
              && RenderRelative(names + [name]) == RenderRelative(names) + [47] + name
  {
    assert Init([name]) == [] && Chain([]) == [];
    assert [] + [SLASH] + name == [SLASH] + name;
    assert Render([name]) == Chain([]) + [SLASH] + name;
    assert Init(names + [name]) == names && Last(names + [name]) == name;
  }
}
