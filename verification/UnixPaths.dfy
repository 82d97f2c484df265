/** Native Unix path text: splitting, joining and the canonical rendering. */
module UnixPaths {
  import opened Common
  import opened PathTypes
  import opened Splitting

  predicate IsAbsolute(path: Bytes) {
    path != [] && path[0] == SLASH
  }

  /** The nonempty segments of a path. */
  function Segments(path: Bytes): seq<Bytes> {
    NonEmpty(Split(path, {SLASH}))
  }

  /** A trailing separator requires a directory, which is written as a final dot segment. */
  function TrailingMarker(path: Bytes): seq<Bytes> {
    if path != [] && path[|path| - 1] == SLASH then [DOT] else []
  }

  /** The parts of `path` read against the working directory `cwd`. */
  function Parts(path: Bytes, cwd: Bytes): Result<seq<Bytes>, NormalizationError> {
    if path == [] || NUL in path then Err(InvalidPath)
    else if IsAbsolute(path) then Ok(Segments(path) + TrailingMarker(path))
    else if !IsAbsolute(cwd) then Err(InvalidContext)
    else Ok(Segments(cwd) + Segments(path) + TrailingMarker(path))
  }

  method Parse(path: Bytes, cwd: Bytes) returns (r: Result<(Bytes, seq<Bytes>), NormalizationError>)
    ensures r == match Parts(path, cwd) case Ok(parts) => Ok((ROOT, parts)) case Err(e) => Err(e)
  {
    if path == [] || NUL in path {
      return Err(InvalidPath);
    }
    var absolute := [];
    if !IsAbsolute(path) {
      if !IsAbsolute(cwd) {
        return Err(InvalidContext);
      }
      absolute := absolute + cwd;
      absolute := absolute + [SLASH];
      SegmentsOfJoin(cwd, path);
    }
    absolute := absolute + path;
    assert absolute[|absolute| - 1] == path[|path| - 1];
    assert !IsAbsolute(path) ==> absolute == cwd + [SLASH] + path;
    assert IsAbsolute(path) ==> absolute == path;
    var parts := NonEmpty(Split(absolute, {SLASH}));
    if absolute[|absolute| - 1] == SLASH {
      parts := parts + [DOT];
    }
    assert parts == Segments(absolute) + TrailingMarker(path);
    return Ok((ROOT, parts));
  }

  /** Segments are read independently on both sides of a separator. */
  lemma SegmentsOfJoin(a: Bytes, b: Bytes)
    ensures Segments(a + [SLASH] + b) == Segments(a) + Segments(b)
  {
    SplitConcat(a, SLASH, b, {SLASH});
    NonEmptyOfConcat(Split(a, {SLASH}), Split(b, {SLASH}));
  }

  lemma SegmentsOfName(name: Bytes)
    requires name != [] && SLASH !in name
    ensures Segments(name) == [name]
  {
    SplitPiece(name, {SLASH});
    assert NonEmpty([name]) == [name] + NonEmpty([]);
  }

  /** Every segment of every path is nonempty and separator-free; a NUL can only come from
      the path itself. */
  lemma SegmentsAreNames(path: Bytes, i: nat)
    requires i < |Segments(path)|
    ensures Segments(path)[i] != [] && SLASH !in Segments(path)[i]
    ensures NUL !in path ==> NUL !in Segments(path)[i]
  {
    hide Split, NonEmpty;
    var k := NonEmptyIn(Split(path, {SLASH}), i);
    PieceElements(path, {SLASH}, k);
  }

  /** Parts are nonempty and separator-free. */
  lemma PartsAreNames(path: Bytes, cwd: Bytes)
    requires Parts(path, cwd).Ok?
    ensures ProperNames(Parts(path, cwd).value)
  {
    var parts := Parts(path, cwd).value;
    var before := if IsAbsolute(path) then [] else Segments(cwd);
    assert parts == before + Segments(path) + TrailingMarker(path);
    forall i | 0 <= i < |parts| ensures parts[i] != [] && SLASH !in parts[i] {
      if i < |before| {
        SegmentsAreNames(cwd, i);
      } else if i < |before| + |Segments(path)| {
        SegmentsAreNames(path, i - |before|);
      }
    }
  }

  // Joining and rendering

  /** Appending one name to a path buffer. */
  function Push(path: Bytes, name: Bytes): Bytes {
    if IsAbsolute(name) then name
    else if path == [] || path[|path| - 1] == SLASH then path + name
    else path + [SLASH] + name
  }

  function LastSlash(path: Bytes): (k: int)
    ensures -1 <= k < |path|
    ensures k >= 0 ==> path[k] == SLASH
    ensures forall i :: k < i < |path| ==> path[i] != SLASH
  {
    if path == [] then -1
    else if path[|path| - 1] == SLASH then |path| - 1
    else LastSlash(path[..|path| - 1])
  }

  /** Dropping the last name of a path buffer that has no trailing separator. */
  function Pop(path: Bytes): Bytes {
    var k := LastSlash(path);
    if k < 0 then path else if k == 0 then ROOT else path[..k]
  }

  /** Each name preceded by a separator. */
  function Chain(names: seq<Bytes>): Bytes {
    if names == [] then [] else Chain(Init(names)) + [SLASH] + Last(names)
  }

  /** The canonical absolute path: the root joined with the names. */
  function Render(names: seq<Bytes>): Bytes {
    if names == [] then ROOT else Chain(names)
  }

  /** The names joined by single separators, without a leading one. */
  function RenderRelative(names: seq<Bytes>): Bytes {
    if names == [] then []
    else if |names| == 1 then names[0]
    else RenderRelative(Init(names)) + [SLASH] + Last(names)
  }

  predicate ProperNames(names: seq<Bytes>) {
    forall i :: 0 <= i < |names| ==> names[i] != [] && SLASH !in names[i]
  }

  lemma {:induction false} SegmentsOfChain(names: seq<Bytes>)
    requires ProperNames(names)
    ensures Segments(Chain(names)) == names
    ensures names != [] ==> Chain(names)[0] == SLASH && Last(Chain(names)) != SLASH
  {
    if names == [] {
      var nothing: seq<Bytes> := [[]];
      assert Split([], {SLASH}) == nothing && nothing[1..] == [];
    } else {
      SegmentsOfChain(Init(names));
      SegmentsOfJoin(Chain(Init(names)), Last(names));
      SegmentsOfName(Last(names));
      assert names == Init(names) + [Last(names)];
      assert Last(Chain(names)) == Last(Last(names));
    }
  }

  /** The canonical rendering is read back as exactly its names. */
  lemma SegmentsOfRender(names: seq<Bytes>)
    requires ProperNames(names)
    ensures Segments(Render(names)) == names
    ensures IsAbsolute(Render(names))
    ensures names != [] ==> TrailingMarker(Render(names)) == []
  {
    SegmentsOfChain(names);
    if names == [] {
      assert ROOT == [] + [SLASH] + [];
      SegmentsOfJoin([], []);
    }
  }

  lemma {:induction false} SegmentsOfRelative(names: seq<Bytes>)
    requires ProperNames(names) && names != []
    ensures Segments(RenderRelative(names)) == names
    ensures RenderRelative(names) != [] && !IsAbsolute(RenderRelative(names))
    ensures TrailingMarker(RenderRelative(names)) == []
  {
    if |names| == 1 {
      SegmentsOfName(names[0]);
      assert names == [names[0]];
    } else {
      SegmentsOfRelative(Init(names));
      SegmentsOfJoin(RenderRelative(Init(names)), Last(names));
      SegmentsOfName(Last(names));
      assert names == Init(names) + [Last(names)];
      assert RenderRelative(names)[0] == RenderRelative(Init(names))[0];
      assert Last(RenderRelative(names)) == Last(Last(names));
    }
  }

  /** Pushing a name onto the canonical path renders the longer list of names. */
  lemma PushRender(names: seq<Bytes>, name: Bytes)
    requires ProperNames(names) && name != [] && SLASH !in name
    ensures Push(Render(names), name) == Render(names + [name])
  {
    SegmentsOfChain(names);
    assert Init(names + [name]) == names;
    if names == [] {
      assert ROOT + name == [] + [SLASH] + name;
    }
  }

  lemma LastSlashOfJoin(path: Bytes, name: Bytes)
    requires SLASH !in name
    ensures LastSlash(path + [SLASH] + name) == |path|
  {
    hide LastSlash;
    var longer := path + [SLASH] + name;
    assert longer[|path|] == SLASH;
    forall i | |path| < i < |longer| ensures longer[i] != SLASH {
      assert longer[i] == name[i - |path| - 1];
    }
  }

  /** Popping the canonical path drops the last name. */
  lemma PopRender(names: seq<Bytes>)
    requires ProperNames(names) && names != []
    ensures Pop(Render(names)) == Render(Init(names))
  {
    var path := Chain(Init(names));
    LastSlashOfJoin(path, Last(names));
    SegmentsOfChain(Init(names));
    assert (path + [SLASH] + Last(names))[..|path|] == path;
  }

  /** The relative form grows one name at a time as well. */
  lemma PushRelative(names: seq<Bytes>, name: Bytes)
    requires ProperNames(names) && name != [] && SLASH !in name
    ensures Push(RenderRelative(names), name) == RenderRelative(names + [name])
  {
    assert Init(names + [name]) == names;
    if names != [] {
      SegmentsOfRelative(names);
    }
  }
}
