/** Identities, repository containment and the normalization entry points. */
module Normalizer {
  import opened Common
  import opened PathTypes
  import opened UnixPaths
  import opened Snapshot
  import opened InPlaceWalk
  import opened Resolver
  import opened PathTheorems
  import Actions

  // Identity

  /** The comparison keys of the components, in order; the first failure wins. */
  function Keys(components: seq<NamingComponent>):
    Result<seq<(NamingSemantics, Bytes)>, NormalizationError>
  {
    if components == [] then Ok([])
    else
      var key :- NameKey(components[0].semantics, components[0].name);
      var rest :- Keys(components[1..]);
      Ok([(components[0].semantics, key)] + rest)
  }

  function Identity(resolved: Resolved): Result<PathIdentity, NormalizationError> {
    var keys :- Keys(resolved.components);
    Ok(PathIdentity(resolved.root, keys))
  }

  lemma {:induction false} KeysOfAll(components: seq<NamingComponent>)
    requires forall i :: 0 <= i < |components| ==> NameKey(components[i].semantics, components[i].name).Ok?
    ensures Keys(components).Ok? && |Keys(components).value| == |components|
    ensures forall i :: 0 <= i < |components| ==>
              Keys(components).value[i] ==
              (components[i].semantics, NameKey(components[i].semantics, components[i].name).value)
  {
    if components != [] {
      var rest := components[1..];
      forall i | 0 <= i < |rest| ensures NameKey(rest[i].semantics, rest[i].name).Ok? {
        assert rest[i] == components[i + 1];
      }
      KeysOfAll(rest);
      forall i | 0 < i < |components|
        ensures Keys(components).value[i] ==
                (components[i].semantics, NameKey(components[i].semantics, components[i].name).value)
      {
        assert Keys(components).value[i] == Keys(rest).value[i - 1];
        assert rest[i - 1] == components[i];
      }
    }
  }

  /** The identity of a sound place exists and lists, for each name, the rules of the
      directory that holds it and the name's key under them. */
  lemma IdentityNeverFails(tree: Tree, place: Place)
    requires SoundPlace(tree, place)
    ensures Identity(Report(tree, place)).Ok?
    ensures var keys := Identity(Report(tree, place)).value.components;
            && |keys| == |place.names| == |Annotate(tree, place.names)|
            && forall i :: 0 <= i < |keys| ==>
                 && NameKey(keys[i].0, place.names[i]).Ok?
                 && keys[i] == (Annotate(tree, place.names)[i].semantics,
                                NameKey(keys[i].0, place.names[i]).value)
  {
    SoundIsDescribed(tree, place);
    var components := Report(tree, place).components;
    forall i | 0 <= i < |components| ensures NameKey(components[i].semantics, components[i].name).Ok? {
      assert DescribesAt(tree, place, components, i);
    }
    KeysOfAll(components);
    forall i | 0 <= i < |components| ensures components[i].name == place.names[i] {
      assert DescribesAt(tree, place, components, i);
    }
  }

  ghost function KeysOf(tree: Tree, place: Place): (keys: seq<(NamingSemantics, Bytes)>)
    requires SoundPlace(tree, place)
    ensures Identity(Report(tree, place)) == Ok(PathIdentity(ROOT, keys))
    ensures |keys| == |place.names|
  {
    IdentityNeverFails(tree, place);
    Identity(Report(tree, place)).value.components
  }

  /** The key of the i-th name, read off the directory that holds it. */
  lemma KeyAt(tree: Tree, place: Place, i: nat)
    requires SoundPlace(tree, place) && i < |place.names|
    ensures var parent := Locate(tree, place.names[..i]);
            && parent.Some? && parent.value.Directory? && parent.value.rule.Known?
            && NameKey(parent.value.rule.semantics, place.names[i]).Ok?
            && KeysOf(tree, place)[i] ==
               (parent.value.rule.semantics, NameKey(parent.value.rule.semantics, place.names[i]).value)
            && (place.present || i < |place.names| - 1 ==>
                  && Step(parent.value, place.names[i]).Some?
                  && Step(parent.value, place.names[i]).value.name == place.names[i])
            && (!place.present && i == |place.names| - 1 ==> Step(parent.value, place.names[i]).None?)
  {
    IdentityNeverFails(tree, place);
    SoundIsDescribed(tree, place);
    assert DescribesAt(tree, place, Annotate(tree, place.names), i);
  }

  /** Where keys agree and entries exist, the stored names agree, so one place is the other's
      position so far. */
  lemma {:induction false} AgreeingKeysNameTheSameEntries(tree: Tree, a: Place, b: Place, k: nat)
    requires SoundPlace(tree, a) && SoundPlace(tree, b)
    requires k <= |a.names| && k <= |b.names|
    requires (a.present || k < |a.names|) && (b.present || k < |b.names|)
    requires forall i :: 0 <= i < k ==> KeysOf(tree, a)[i] == KeysOf(tree, b)[i]
    ensures a.names[..k] == b.names[..k]
    decreases k
  {
    hide SoundPlace, KeysOf, Locate, NameKey;
    if k > 0 {
      var i := k - 1;
      assert a.names[..k] == a.names[..i] + [a.names[i]] && b.names[..k] == b.names[..i] + [b.names[i]];
      AgreeingKeysNameTheSameEntries(tree, a, b, i);
      assert a.names[i] == b.names[i] by {
        KeyAt(tree, a, i);
        KeyAt(tree, b, i);
      }
    }
  }

  /** What it means for two results over one snapshot to name the same thing: the same
      existing entry, or an absent leaf with the same key in the same directory. */
  predicate SameReferent(tree: Tree, a: Place, b: Place) {
    a.present == b.present &&
    if a.present then a.names == b.names
    else
      && a.names != [] && b.names != []
      && Init(a.names) == Init(b.names)
      && Locate(tree, Init(a.names)).Some?
      && Locate(tree, Init(a.names)).value.Directory?
      && Locate(tree, Init(a.names)).value.rule.Known?
      && NameKey(Locate(tree, Init(a.names)).value.rule.semantics, Last(a.names)) ==
         NameKey(Locate(tree, Init(a.names)).value.rule.semantics, Last(b.names))
  }

  lemma EqualKeysSameReferent(tree: Tree, a: Place, b: Place)
    requires SoundPlace(tree, a) && SoundPlace(tree, b)
    requires KeysOf(tree, a) == KeysOf(tree, b)
    ensures SameReferent(tree, a, b)
  {
    hide SoundPlace, KeysOf, Locate, NameKey, Lookup;
    var n := |a.names|;
    assert a.names[..n] == a.names && b.names[..n] == b.names;
    if a.present && b.present {
      AgreeingKeysNameTheSameEntries(tree, a, b, n);
    } else {
      MissingHasName(tree, a);
      MissingHasName(tree, b);
      AgreeingKeysNameTheSameEntries(tree, a, b, n - 1);
      KeyAt(tree, a, n - 1);
      KeyAt(tree, b, n - 1);
    }
  }

  lemma MissingHasName(tree: Tree, place: Place)
    requires SoundPlace(tree, place)
    ensures !place.present ==> place.names != []
  {
  }

  lemma SameReferentEqualKeys(tree: Tree, a: Place, b: Place)
    requires SoundPlace(tree, a) && SoundPlace(tree, b)
    requires SameReferent(tree, a, b)
    ensures KeysOf(tree, a) == KeysOf(tree, b)
  {
    hide SoundPlace, KeysOf, Locate, NameKey, Lookup;
    forall i | 0 <= i < |a.names| ensures KeysOf(tree, a)[i] == KeysOf(tree, b)[i] {
      KeyAt(tree, a, i);
      KeyAt(tree, b, i);
      if !a.present {
        assert a.names[..i] == Init(a.names)[..i] && b.names[..i] == Init(b.names)[..i];
        assert i < |a.names| - 1 ==> a.names[i] == Init(a.names)[i] && b.names[i] == Init(b.names)[i];
      }
    }
  }

  /** Identity is exact: two results over one snapshot compare equal exactly when they name
      the same existing entry, or both name an absent leaf with the same key in the same
      directory. An existing and an absent result are never equal. */
  lemma IdentityIsExact(
    tree: Tree, path: Bytes, cwd: Bytes, requirement: PathRequirement, depth: nat,
    path': Bytes, cwd': Bytes, requirement': PathRequirement, depth': nat)
    requires Resolution(tree, path, cwd, requirement, depth).Ok?
    requires Resolution(tree, path', cwd', requirement', depth').Ok?
    ensures var a := Destination(tree, path, cwd, requirement, depth).value;
            var b := Destination(tree, path', cwd', requirement', depth').value;
            var ia := Identity(Resolution(tree, path, cwd, requirement, depth).value);
            var ib := Identity(Resolution(tree, path', cwd', requirement', depth').value);
            ia.Ok? && ib.Ok? && (ia == ib <==> SameReferent(tree, a, b))
  {
    DestinationIsSound(tree, path, cwd, requirement, depth);
    DestinationIsSound(tree, path', cwd', requirement', depth');
    var a := Destination(tree, path, cwd, requirement, depth).value;
    var b := Destination(tree, path', cwd', requirement', depth').value;
    hide Destination, SoundPlace, SameReferent, Report, Identity;
    var ka, kb := KeysOf(tree, a), KeysOf(tree, b);
    if ka == kb {
      EqualKeysSameReferent(tree, a, b);
    } else if SameReferent(tree, a, b) {
      SameReferentEqualKeys(tree, a, b);
    }
  }

  // Normalization

  datatype Context = Context(repositoryRoot: Bytes, workingDirectory: Bytes)

  datatype NormalizedPath = NormalizedPath(
    absolute: Bytes,
    relative: Option<Bytes>,
    present: bool,
    components: seq<NamingComponent>,
    identity: PathIdentity)

  /** Failures of context directories keep only what concerns naming support. */
  function ContextError(error: NormalizationError): NormalizationError {
    if error.UnsupportedNamingSemantics? || error.UnsupportedWindowsNamespace? then error else InvalidContext
  }

  /** The existing directory a context path leads to. */
  function ContextPlace(tree: Tree, path: Bytes): Result<Place, NormalizationError> {
    if !IsAbsolute(path) then Err(InvalidContext)
    else
      match Destination(tree, path, path, Existing, 0)
      case Err(e) => Err(ContextError(e))
      case Ok(place) => if Report(tree, place).directory then Ok(place) else Err(InvalidContext)
  }

  /** The name of `names` below `base`: present exactly when the tree descent to one passes
      through the other. */
  function RelativeTo(base: seq<Bytes>, names: seq<Bytes>): Option<Bytes> {
    if !(base <= names) then None
    else if |base| == |names| then Some(DOT)
    else Some(RenderRelative(names[|base|..]))
  }

  /** What normalizing a path means, in terms of places in the tree. */
  function Normalized(tree: Tree, path: Bytes, context: Context, requirement: PathRequirement):
    Result<NormalizedPath, NormalizationError>
  {
    var repository :- ContextPlace(tree, context.repositoryRoot);
    var cwd :- ContextPlace(tree, context.workingDirectory);
    var place :- Destination(tree, path, Render(cwd.names), requirement, 0);
    var identity :- Identity(Report(tree, place));
    Ok(NormalizedPath(
         Render(place.names),
         RelativeTo(repository.names, place.names),
         place.present,
         Annotate(tree, place.names),
         identity))
  }

  method ContextDirectory(tree: Tree, path: Bytes) returns (r: Result<Resolved, NormalizationError>)
    ensures r == Reported(tree, ContextPlace(tree, path))
  {
    if !IsAbsolute(path) {
      return Err(InvalidContext);
    }
    var resolved := Resolve(tree, path, path, Existing, 0);
    if resolved.Err? {
      return Err(ContextError(resolved.error));
    }
    if !resolved.value.directory {
      return Err(InvalidContext);
    }
    return resolved;
  }

  lemma ContextIsSound(tree: Tree, path: Bytes)
    ensures ContextPlace(tree, path).Ok? ==>
              var place := ContextPlace(tree, path).value;
              && SoundPlace(tree, place) && place.present && RuleOf(tree.rule).Ok?
              && Report(tree, place).directory
              && Destination(tree, path, path, Existing, 0) == Ok(place)
  {
    DestinationIsSound(tree, path, path, Existing, 0);
  }

  lemma KeysBelowAreNamesBelow(tree: Tree, base: Place, place: Place)
    requires SoundPlace(tree, base) && base.present && SoundPlace(tree, place)
    requires KeysOf(tree, base) <= KeysOf(tree, place)
    ensures base.names <= place.names
  {
    hide SoundPlace, KeysOf, Locate, NameKey, Lookup;
    var k := |base.names|;
    assert forall i :: 0 <= i < k ==> KeysOf(tree, base)[i] == KeysOf(tree, place)[i];
    if !place.present && k == |place.names| {
      assert KeysOf(tree, base) == KeysOf(tree, place);
      EqualKeysSameReferent(tree, base, place);
    } else {
      AgreeingKeysNameTheSameEntries(tree, base, place, k);
      assert base.names[..k] == base.names;
    }
  }

  lemma NamesBelowAreKeysBelow(tree: Tree, base: Place, place: Place)
    requires SoundPlace(tree, base) && base.present && SoundPlace(tree, place)
    requires base.names <= place.names
    ensures KeysOf(tree, base) <= KeysOf(tree, place)
  {
    hide SoundPlace, KeysOf, Locate, NameKey, Lookup;
    forall i | 0 <= i < |base.names| ensures KeysOf(tree, base)[i] == KeysOf(tree, place)[i] {
      KeyAt(tree, base, i);
      KeyAt(tree, place, i);
      assert base.names[..i] == place.names[..i];
    }
  }

  /** Comparing identities by prefix is comparing positions by prefix: nothing outside an
      existing directory shares its keys. */
  lemma ContainmentByKeys(tree: Tree, base: Place, place: Place)
    requires SoundPlace(tree, base) && base.present && SoundPlace(tree, place)
    ensures KeysOf(tree, base) <= KeysOf(tree, place) <==> base.names <= place.names
  {
    hide SoundPlace, KeysOf;
    if KeysOf(tree, base) <= KeysOf(tree, place) { KeysBelowAreNamesBelow(tree, base, place); }
    if base.names <= place.names { NamesBelowAreKeysBelow(tree, base, place); }
  }

  /** The components after the first `skip` carry the names after the first `skip`. */
  lemma ComponentNames(tree: Tree, place: Place, skip: nat)
    requires SoundPlace(tree, place) && skip <= |place.names|
    ensures |Annotate(tree, place.names)| == |place.names|
    ensures ProperNames(place.names[skip..])
    ensures forall i :: 0 <= i < |place.names[skip..]| ==>
              Annotate(tree, place.names)[skip..][i].name == place.names[skip..][i]
  {
    SoundIsDescribed(tree, place);
    SoundNames(tree, place);
    var components := Annotate(tree, place.names);
    forall i | 0 <= i < |place.names[skip..]| ensures components[skip..][i].name == place.names[skip..][i] {
      assert DescribesAt(tree, place, components, skip + i);
    }
  }

  /** The names pushed together one after another; the empty list is the dot segment. */
  method JoinNames(components: seq<NamingComponent>, ghost names: seq<Bytes>) returns (relative: Bytes)
    requires ProperNames(names) && |components| == |names|
    requires forall i :: 0 <= i < |names| ==> components[i].name == names[i]
    ensures relative == if names == [] then DOT else RenderRelative(names)
  {
    hide RenderRelative, Push;
    RelativeGrows([]);
    var buffer := [];
    var i := 0;
    while i < |components|
      invariant 0 <= i <= |components|
      invariant buffer == RenderRelative(names[..i])
    {
      assert names[..i + 1] == names[..i] + [names[i]];
      PushRelative(names[..i], names[i]);
      buffer := Push(buffer, components[i].name);
      i := i + 1;
    }
    assert names[..i] == names;
    if names != [] {
      SegmentsOfRelative(names);
    }
    relative := if buffer == [] then DOT else buffer;
  }

  method Normalize(tree: Tree, path: Bytes, context: Context, requirement: PathRequirement)
    returns (r: Result<NormalizedPath, NormalizationError>)
    ensures r == Normalized(tree, path, context, requirement)
  {
    var repository :- ContextDirectory(tree, context.repositoryRoot);
    var cwd :- ContextDirectory(tree, context.workingDirectory);
    var resolved :- Resolve(tree, path, cwd.absolute, requirement, 0);
    ghost var base := ContextPlace(tree, context.repositoryRoot).value;
    ghost var place := Destination(tree, path, cwd.absolute, requirement, 0).value;
    ContextIsSound(tree, context.repositoryRoot);
    DestinationIsSound(tree, path, cwd.absolute, requirement, 0);
    ContainmentByKeys(tree, base, place);
    // Canonical components always have keys, so neither identity can fail.
    assert Identity(resolved) == Ok(PathIdentity(ROOT, KeysOf(tree, place)));
    assert Identity(repository) == Ok(PathIdentity(ROOT, KeysOf(tree, base)));
    assert |repository.components| == |base.names| by { IdentityNeverFails(tree, base); }
    assert resolved == Report(tree, place);
    if base.names <= place.names {
      ComponentNames(tree, place, |base.names|);
    }
    hide ContextPlace, Destination, SoundPlace, Identity, KeysOf, Annotate, Render, RenderRelative, Reported;
    var identity := Identity(resolved).value;
    var repositoryIdentity := Identity(repository).value;
    var relative := None;
    if identity.root == repositoryIdentity.root && repositoryIdentity.components <= identity.components {
      var name := JoinNames(resolved.components[|repository.components|..], place.names[|base.names|..]);
      relative := Some(name);
    }
    assert relative == RelativeTo(base.names, place.names);
    return Ok(NormalizedPath(resolved.absolute, relative, resolved.present, resolved.components, identity));
  }

  /** A sound place at the names of an existing one exists itself. */
  lemma SameNamesExist(tree: Tree, base: Place, place: Place)
    requires SoundPlace(tree, base) && base.present && SoundPlace(tree, place)
    requires base.names == place.names
    ensures place == base
  {
    if base.names != [] {
      CanonicalConcat(tree, Init(base.names), [Last(base.names)]);
    }
  }

  lemma PartsOfDot(base: seq<Bytes>)
    requires ProperNames(base)
    ensures Parts(DOT, Render(base)) == Ok(base + [DOT])
  {
    SegmentsOfRender(base);
    SegmentsOfName(DOT);
    hide Segments, Render;
    assert base + [DOT] + [] == base + [DOT];
  }

  lemma PartsOfRelative(base: seq<Bytes>, below: seq<Bytes>)
    requires ProperNames(base) && ProperNames(below) && below != []
    requires forall i :: 0 <= i < |below| ==> PlainName(below[i])
    ensures Parts(RenderRelative(below), Render(base)) == Ok(base + below)
  {
    hide Segments, Render, RenderRelative, PlainName;
    SegmentsOfRender(base);
    SegmentsOfRelative(below);
    RelativeIsClean(below);
    assert base + below + [] == base + below;
  }

  lemma {:induction false} RelativeIsClean(names: seq<Bytes>)
    requires forall i :: 0 <= i < |names| ==> PlainName(names[i])
    ensures NUL !in RenderRelative(names)
  {
    if |names| > 1 {
      RelativeIsClean(Init(names));
      assert PlainName(names[|names| - 1]);
      assert forall b :: b in RenderRelative(names) ==>
                           b in RenderRelative(Init(names)) || b == SLASH || b in Last(names);
    } else if |names| == 1 {
      assert PlainName(names[0]);
    }
  }

  /** Walking the dot from a directory stays there. */
  lemma ResolveDot(tree: Tree, base: Place, requirement: PathRequirement)
    requires SoundPlace(tree, base) && base.present && Report(tree, base).directory && RuleOf(tree.rule).Ok?
    ensures Destination(tree, DOT, Render(base.names), requirement, 0) == Ok(base)
  {
    hide Walk, Parts, Render, Meet;
    var links := MAX_LINK_DEPTH - 1;
    SoundNames(tree, base);
    assert [] + base.names == base.names;
    Rewalk(tree, [], base.names, [DOT], requirement, links);
    WalkDot(tree, base, requirement, links);
    hide SoundPlace, Report;
    PartsOfDot(base.names);
  }

  lemma WalkDot(tree: Tree, base: Place, requirement: PathRequirement, links: nat)
    requires SoundPlace(tree, base) && base.present && Report(tree, base).directory
    ensures Walk(tree, base.names, [DOT], requirement, links) == Ok(base)
  {
    assert [DOT][1..] == [];
    assert Meet(tree, base.names, DOT) == Arrive(base.names);
  }

  /** Walking the relative name from the repository leads to the same place. */
  lemma ResolveRelative(tree: Tree, base: Place, place: Place, requirement: PathRequirement)
    requires SoundPlace(tree, base) && base.present && Report(tree, base).directory
    requires SoundPlace(tree, place) && (place.present || requirement.AllowMissingLeaf?)
    requires base.names <= place.names && RuleOf(tree.rule).Ok?
    ensures Destination(tree, RelativeTo(base.names, place.names).value, Render(base.names), requirement, 0) ==
            Ok(place)
  {
    hide Walk, Parts, Render, SoundPlace, Report, RenderRelative, Destination;
    if base.names == place.names {
      SameNamesExist(tree, base, place);
      ResolveDot(tree, base, requirement);
    } else {
      ResolveBelow(tree, base, place, requirement);
    }
  }

  lemma ResolveBelow(tree: Tree, base: Place, place: Place, requirement: PathRequirement)
    requires SoundPlace(tree, place) && (place.present || requirement.AllowMissingLeaf?)
    requires SoundPlace(tree, base) && base.names < place.names && RuleOf(tree.rule).Ok?
    ensures Destination(tree, RenderRelative(place.names[|base.names|..]), Render(base.names), requirement, 0) ==
            Ok(place)
  {
    hide Walk, Parts, Render, SoundPlace, RenderRelative;
    SoundNames(tree, place);
    WalkBack(tree, place, requirement, MAX_LINK_DEPTH - 1);
    PartsOfRelative(base.names, place.names[|base.names|..]);
    assert base.names + place.names[|base.names|..] == place.names;
  }

  function NamesOf(components: seq<NamingComponent>): (names: seq<Bytes>)
    ensures |names| == |components| && forall i :: 0 <= i < |names| ==> names[i] == components[i].name
  {
    seq(|components|, i requires 0 <= i < |components| => components[i].name)
  }

  lemma ContextOfRendered(tree: Tree, path: Bytes)
    requires ContextPlace(tree, path).Ok?
    ensures ContextPlace(tree, Render(ContextPlace(tree, path).value.names)) == ContextPlace(tree, path)
  {
    ContextIsSound(tree, path);
    var place := ContextPlace(tree, path).value;
    ResolveRendered(tree, place, Render(place.names), Existing, 0);
    SoundNames(tree, place);
    SegmentsOfRender(place.names);
    hide Destination, Render, SoundPlace, Segments;
  }

  /** Containment is tree descent, and the relative name is faithful: it is present exactly
      when the target is the repository or lies below it, and normalizing it with the
      repository as working directory gives the whole result again. */
  lemma ContainmentIsDescent(tree: Tree, path: Bytes, context: Context, requirement: PathRequirement)
    requires Normalized(tree, path, context, requirement).Ok?
    ensures var result := Normalized(tree, path, context, requirement).value;
            var base := ContextPlace(tree, context.repositoryRoot).value.names;
            && (result.relative.Some? <==>
                  base <= NamesOf(result.components))
            && (result.relative.Some? ==>
                  Normalized(tree, result.relative.value, Context(context.repositoryRoot, Render(base)), requirement)
                  == Ok(result))
  {
    hide Destination, Render, SoundPlace, Report, Annotate, Identity, ContextPlace, RenderRelative;
    var cwd := ContextPlace(tree, context.workingDirectory).value;
    ContextIsSound(tree, context.repositoryRoot);
    ContextOfRendered(tree, context.repositoryRoot);
    DestinationIsSound(tree, path, Render(cwd.names), requirement, 0);
    var base := ContextPlace(tree, context.repositoryRoot).value;
    var place := Destination(tree, path, Render(cwd.names), requirement, 0).value;
    ComponentNames(tree, place, 0);
    var result := Normalized(tree, path, context, requirement).value;
    assert place.names == NamesOf(result.components) by {
      assert place.names[0..] == place.names;
      assert result.components[0..] == result.components;
    }
    if base.names <= place.names {
      ResolveRelative(tree, base, place, requirement);
    }
    assert RelativeTo(base.names, place.names).Some? <==> base.names <= place.names;
  }

  /** The absolute path of a contained target is the repository's path joined with the
      relative name, and `.` exactly for the repository itself. */
  lemma AbsoluteJoinsRelative(tree: Tree, path: Bytes, context: Context, requirement: PathRequirement)
    requires Normalized(tree, path, context, requirement).Ok?
    requires Normalized(tree, path, context, requirement).value.relative.Some?
    ensures var result := Normalized(tree, path, context, requirement).value;
            var repository := Render(ContextPlace(tree, context.repositoryRoot).value.names);
            && (result.relative == Some(DOT) <==> result.absolute == repository)
            && (result.relative != Some(DOT) ==> result.absolute == Push(repository, result.relative.value))
  {
    hide Destination, ContextPlace, SoundPlace, Report, Annotate, Identity, Render, RenderRelative, Push;
    var cwd := ContextPlace(tree, context.workingDirectory).value;
    ContextIsSound(tree, context.repositoryRoot);
    DestinationIsSound(tree, path, Render(cwd.names), requirement, 0);
    var base := ContextPlace(tree, context.repositoryRoot).value;
    var place := Destination(tree, path, Render(cwd.names), requirement, 0).value;
    var below := place.names[|base.names|..];
    assert base.names + below == place.names;
    SoundNames(tree, base);
    SoundNames(tree, place);
    if below == [] {
      assert base.names == place.names;
    } else {
      RelativeIsNotDot(below);
      RenderIsInjective(base.names, place.names);
      JoinBelow(base.names, below);
    }
  }

  lemma RelativeIsNotDot(below: seq<Bytes>)
    requires below != [] && forall i :: 0 <= i < |below| ==> PlainName(below[i])
    ensures RenderRelative(below) != DOT
  {
    assert ProperNames(below);
    SegmentsOfRelative(below);
    SegmentsOfName(DOT);
    assert below[0] != DOT;
  }

  lemma RenderIsInjective(a: seq<Bytes>, b: seq<Bytes>)
    requires ProperNames(a) && ProperNames(b)
    ensures Render(a) == Render(b) ==> a == b
  {
    SegmentsOfRender(a);
    SegmentsOfRender(b);
  }

  lemma PushLonger(path: Bytes, name: Bytes, rest: Bytes)
    requires name != [] && !IsAbsolute(name)
    ensures Push(path, name + rest) == Push(path, name) + rest
  {
    assert path + (name + rest) == path + name + rest;
    assert path + [SLASH] + (name + rest) == path + [SLASH] + name + rest;
  }

  lemma {:induction false} JoinBelow(base: seq<Bytes>, below: seq<Bytes>)
    requires ProperNames(base) && ProperNames(below) && below != []
    ensures Push(Render(base), RenderRelative(below)) == Render(base + below)
    decreases |below|
  {
    hide Segments, Render, RenderRelative, Push;
    RelativeGrows(below);
    assert below == Init(below) + [Last(below)];
    if |below| == 1 {
      assert base + below == base + [below[0]];
      PushRender(base, below[0]);
    } else {
      SegmentsOfRelative(Init(below));
      JoinBelow(base, Init(below));
      var rest := [SLASH] + Last(below);
      PushLonger(Render(base), RenderRelative(Init(below)), rest);
      assert base + below == base + Init(below) + [Last(below)];
      RenderGrows(base + Init(below), Last(below));
    }
  }

  lemma RelativeGrows(names: seq<Bytes>)
    ensures RenderRelative(names) ==
            if names == [] then []
            else if |names| == 1 then names[0]
            else RenderRelative(Init(names)) + ([SLASH] + Last(names))
  {
  }

  lemma RenderGrows(names: seq<Bytes>, name: Bytes)
    requires names != []
    ensures Render(names + [name]) == Render(names) + ([SLASH] + name)
  {
    assert Init(names + [name]) == names && Last(names + [name]) == name;
  }

  // File resources

  datatype FileResource = FileResource(path: Bytes, destination: Option<Bytes>)

  datatype NormalizedFileResource = NormalizedFileResource(source: NormalizedPath, destination: Option<NormalizedPath>)

  function NormalizedResource(tree: Tree, action: Actions.FileAction, resource: FileResource, context: Context):
    Result<NormalizedFileResource, NormalizationError>
  {
    if action.Rename? != resource.destination.Some? then Err(InvalidPath)
    else
      var requirement := if action.Write? then AllowMissingLeaf else Existing;
      var source :- Normalized(tree, resource.path, context, requirement);
      if resource.destination.None? then Ok(NormalizedFileResource(source, None))
      else
        var destination :- Normalized(tree, resource.destination.value, context, AllowMissingLeaf);
        Ok(NormalizedFileResource(source, Some(destination)))
  }

  /** A resource that does not fit the action is refused. Otherwise the endpoints are what
      normalizing each alone gives, or the first failure: never one of a pair without the other.
      Only a write may name an absent source, and only a rename has a destination. */
  lemma ResourcesAreComplete(tree: Tree, action: Actions.FileAction, resource: FileResource, context: Context)
    ensures var r := NormalizedResource(tree, action, resource, context);
            var fits := action.Rename? == resource.destination.Some?;
            var needed := if action.Write? then AllowMissingLeaf else Existing;
            var source := Normalized(tree, resource.path, context, needed);
            && (!fits ==> r == Err(InvalidPath))
            && (fits && source.Err? ==> r == Err(source.error))
            && (fits && source.Ok? && action.Rename? ==>
                  var destination := Normalized(tree, resource.destination.value, context, AllowMissingLeaf);
                  && (r.Ok? <==> destination.Ok?)
                  && (r.Ok? ==> r.value.destination == Some(destination.value))
                  && (r.Err? ==> r.error == destination.error))
            && (fits && source.Ok? && !action.Rename? ==> r.Ok?)
            && (r.Ok? ==>
                  && r.value.source == source.value
                  && (r.value.destination.Some? <==> action.Rename?)
                  && (!r.value.source.present ==> action.Write?))
  {
    hide Destination;
    var cwd := ContextPlace(tree, context.workingDirectory);
    if cwd.Ok? {
      DestinationIsSound(tree, resource.path, Render(cwd.value.names), Existing, 0);
    }
  }
}
