/** Accepted Windows paths are canonical, and extended forms mean what ordinary forms mean. */
module WindowsTheorems {
  import opened Common
  import opened Splitting
  import opened WindowsPaths

  // Rendering

  /** The root followed by the components with backslashes between them. */
  function Render(parsed: Parsed): Wide {
    parsed.root + Join(parsed.segments, BACKSLASH)
  }

  predicate CleanComponent(component: Wide) {
    ValidComponent(component, true) && NUL !in component
  }

  predicate CleanSegments(segments: seq<Wide>) {
    forall i :: 0 <= i < |segments| ==> CleanComponent(segments[i])
  }

  predicate CleanDrive(root: Wide) {
    |root| == 3 && 0x41 <= root[0] <= 0x5a && root[1] == COLON && root[2] == BACKSLASH
  }

  predicate CleanName(name: Wide) {
    OrdinaryComponent(name) && NUL !in name
  }

  /** An uppercase drive root, or a share root. */
  ghost predicate CleanRoot(root: Wide) {
    CleanDrive(root) || exists server, share :: CleanName(server) && CleanName(share) && root == UncRoot(server, share)
  }

  ghost predicate Canonical(parsed: Parsed) {
    CleanRoot(parsed.root) && CleanSegments(parsed.segments)
  }

  // Segments

  lemma SegmentsAreClean(input: Wide)
    requires SegmentsOf(input).Ok? && NUL !in input
    ensures CleanSegments(SegmentsOf(input).value.0)
  {
    hide Split, NonEmpty, ValidComponent;
    var pieces := Split(input, SEPARATORS);
    var segments := SegmentsOf(input).value.0;
    forall i | 0 <= i < |segments| ensures CleanComponent(segments[i]) {
      var k := NonEmptyIn(pieces, i);
      PieceElements(input, SEPARATORS, k);
    }
  }

  lemma MarkedIsClean(segments: seq<Wide>, trailing: bool)
    requires CleanSegments(segments)
    ensures CleanSegments(Marked(segments, trailing))
  {
    hide OrdinaryComponent;
    assert CleanComponent([DOT]);
  }

  lemma CleanHasNoSeparator(component: Wide)
    requires CleanComponent(component)
    ensures component != [] && forall i :: 0 <= i < |component| ==> !IsSeparator(component[i])
  {
    hide LegacyDevice;
  }

  lemma {:induction false} SegmentsOfJoin(segments: seq<Wide>)
    requires CleanSegments(segments)
    ensures NonEmpty(Split(Join(segments, BACKSLASH), SEPARATORS)) == segments
    ensures !EndsInSeparator(Join(segments, BACKSLASH)) && (segments == [] <==> Join(segments, BACKSLASH) == [])
  {
    hide CleanComponent, Split, NonEmpty;
    forall i | 0 <= i < |segments| ensures segments[i] != [] && Without(segments[i], SEPARATORS) {
      CleanHasNoSeparator(segments[i]);
    }
    NonEmptyPieces(segments);
    if segments == [] {
      NothingSplits();
    } else {
      SplitJoin(segments, BACKSLASH, SEPARATORS);
      LastOfJoin(segments);
    }
  }

  lemma {:induction false} LastOfJoin(segments: seq<Wide>)
    requires segments != [] && forall i :: 0 <= i < |segments| ==> segments[i] != []
    ensures Join(segments, BACKSLASH) != [] && Last(Join(segments, BACKSLASH)) == Last(Last(segments))
  {
    if |segments| > 1 {
      LastOfJoin(segments[1..]);
      var rest := Join(segments[1..], BACKSLASH);
      assert Last(segments[0] + [BACKSLASH] + rest) == Last(rest);
    }
  }

  lemma SegmentsOfRendered(segments: seq<Wide>)
    requires CleanSegments(segments)
    ensures SegmentsOf(Join(segments, BACKSLASH)) == Ok((segments, false))
    ensures segments == [] <==> Join(segments, BACKSLASH) == []
  {
    hide Split, NonEmpty, Join, ValidComponent;
    SegmentsOfJoin(segments);
    assert forall i :: 0 <= i < |segments| ==> CleanComponent(segments[i]);
  }

  lemma {:induction false} JoinHasNoNul(segments: seq<Wide>)
    requires CleanSegments(segments)
    ensures NUL !in Join(segments, BACKSLASH)
  {
    hide ValidComponent;
    if segments != [] {
      assert CleanComponent(segments[0]);
      JoinHasNoNul(segments[1..]);
    }
  }

  // Roots

  lemma DriveIsCanonical(input: Wide)
    requires ParseDrive(input).Ok? && NUL !in input
    ensures Canonical(ParseDrive(input).value)
  {
    hide SegmentsOf, ValidComponent;
    assert NUL !in input[3..];
    SegmentsAreClean(input[3..]);
    var (segments, trailing) := SegmentsOf(input[3..]).value;
    MarkedIsClean(segments, true);
    MarkedIsClean(segments, false);
  }

  lemma UncNamesArePieces(tail: Wide)
    requires UncNames(tail).Ok? && NUL !in tail
    ensures var (server, share, remainder) := UncNames(tail).value;
            NUL !in server && NUL !in share && NUL !in remainder
  {
    hide Find;
    assert NUL !in After(tail, SEPARATORS);
  }

  lemma UncIsCanonical(tail: Wide)
    requires ParseUncTail(tail).Ok? && NUL !in tail
    ensures Canonical(ParseUncTail(tail).value)
  {
    hide SegmentsOf, OrdinaryComponent, CleanDrive, UncRoot, UncNames, Marked, CleanSegments;
    var (server, share, remainder) := UncNames(tail).value;
    UncNamesArePieces(tail);
    assert CleanName(server) && CleanName(share);
    SegmentsAreClean(remainder);
    MarkedIsClean(SegmentsOf(remainder).value.0, EndsInSeparator(tail));
  }

  lemma AbsoluteIsCanonical(input: Wide)
    requires Classify(input).Ok? && Classify(input).value.Absolute?
    ensures Canonical(Classify(input).value.parsed)
  {
    hide Canonical, ParseDrive, ParseUncTail, SegmentsOf, ExtendedDisk, ExtendedUnc;
    forall text: Wide | ParseDrive(text).Ok? && NUL !in text ensures Canonical(ParseDrive(text).value) {
      DriveIsCanonical(text);
    }
    forall text: Wide | ParseUncTail(text).Ok? && NUL !in text ensures Canonical(ParseUncTail(text).value) {
      UncIsCanonical(text);
    }
    assert forall k :: 0 <= k <= |input| ==> NUL !in input[k..];
    UpperHasNoNul(input);
    if |input| > 4 { UpperHasNoNul(input[4..]); }
  }

  lemma UpperHasNoNul(text: Wide)
    requires NUL !in text && text != []
    ensures NUL !in text[0 := Upper(text[0])]
  {
    assert text[0] in text;
  }

  /** What stands in front of a rendered path decides its form. */
  lemma DriveRendered(root: Wide, segments: seq<Wide>)
    requires CleanDrive(root) && CleanSegments(segments)
    ensures Classify(root + Join(segments, BACKSLASH)) ==
            Ok(Absolute(Parsed(root, if segments == [] then [[DOT]] else segments)))
  {
    hide SegmentsOf, Join, CleanSegments;
    var input := root + Join(segments, BACKSLASH);
    JoinHasNoNul(segments);
    assert NUL !in input;
    assert Upper(input[0]) != Upper(NT_OBJECT[0]);
    assert input[3..] == Join(segments, BACKSLASH);
    assert input[0 := Upper(input[0])] == input;
    SegmentsOfRendered(segments);
    assert root == [Upper(input[0]), COLON, BACKSLASH];
    assert segments == [] ==> segments + [[DOT]] == [[DOT]];
  }

  lemma FindAfter(name: Wide, rest: Wide, units: set<Unit>)
    requires forall i :: 0 <= i < |name| ==> name[i] !in units
    requires rest != [] && rest[0] in units
    ensures Find(name + rest, units) == |name|
  {
    var whole := name + rest;
    var i := Find(whole, units);
    assert forall k :: 0 <= k < |name| ==> whole[k] == name[k];
    assert whole[|name|] == rest[0];
  }

  lemma UncNamesOf(server: Wide, share: Wide, rest: Wide)
    requires CleanName(server) && CleanName(share)
    ensures UncNames(server + [BACKSLASH] + share + [BACKSLASH] + rest) == Ok((server, share, rest))
  {
    hide CleanName, Find, Before, After, StartsName;
    var shareOn := share + ([BACKSLASH] + rest);
    assert server + ([BACKSLASH] + shareOn) == server + [BACKSLASH] + share + [BACKSLASH] + rest;
    CutAfter(server, shareOn);
    CutAfter(share, rest);
  }

  lemma NameHasNoSeparator(name: Wide)
    requires CleanName(name)
    ensures name != [] && forall i :: 0 <= i < |name| ==> name[i] !in SEPARATORS
  {
    hide LegacyDevice;
    assert forall i :: 0 <= i < |name| ==> !IsReserved(name[i]);
  }

  lemma CutAfter(name: Wide, rest: Wide)
    requires CleanName(name)
    ensures var text := name + ([BACKSLASH] + rest);
            && StartsName(text) && Find(text, SEPARATORS) < |text|
            && Before(text, SEPARATORS) == name && After(text, SEPARATORS) == rest
  {
    hide CleanName, Find;
    var text := name + ([BACKSLASH] + rest);
    NameHasNoSeparator(name);
    FindAfter(name, [BACKSLASH] + rest, SEPARATORS);
    assert text[0] == name[0];
    assert text[..|name|] == name && text[|name| + 1..] == rest;
  }

  lemma UncTailRendered(server: Wide, share: Wide, segments: seq<Wide>)
    requires CleanName(server) && CleanName(share) && CleanSegments(segments)
    ensures ParseUncTail(server + [BACKSLASH] + share + [BACKSLASH] + Join(segments, BACKSLASH)) ==
            Ok(Parsed(UncRoot(server, share), if segments == [] then [[DOT]] else segments))
  {
    hide SegmentsOf, Join, CleanSegments, OrdinaryComponent, UncNames, UncRoot, IsSeparator;
    var rest := Join(segments, BACKSLASH);
    var tail := server + [BACKSLASH] + share + [BACKSLASH] + rest;
    UncNamesOf(server, share, rest);
    SegmentsOfRendered(segments);
    SegmentsOfJoin(segments);
    LastOfTail(server + [BACKSLASH] + share, rest);
    assert segments == [] ==> segments + [[DOT]] == [[DOT]];
  }

  lemma LastOfTail(front: Wide, rest: Wide)
    ensures EndsInSeparator(front + [BACKSLASH] + rest) <==> rest == [] || EndsInSeparator(rest)
  {
    var tail := front + [BACKSLASH] + rest;
    assert rest != [] ==> Last(tail) == Last(rest);
    assert rest == [] ==> Last(tail) == BACKSLASH;
  }

  lemma UncRendered(server: Wide, share: Wide, segments: seq<Wide>)
    requires CleanName(server) && CleanName(share) && CleanSegments(segments)
    ensures Classify(UncRoot(server, share) + Join(segments, BACKSLASH)) ==
            Ok(Absolute(Parsed(UncRoot(server, share), if segments == [] then [[DOT]] else segments)))
  {
    hide Join, CleanSegments, OrdinaryComponent, StartsIgnoringCase, ParseUncTail;
    var rest := Join(segments, BACKSLASH);
    var tail := server + [BACKSLASH] + share + [BACKSLASH] + rest;
    var input := UncRoot(server, share) + rest;
    assert input == [BACKSLASH, BACKSLASH] + tail;
    assert tail == server + ([BACKSLASH] + share + [BACKSLASH] + rest);
    JoinHasNoNul(segments);
    UncTailRendered(server, share, segments);
    UncIsNoNamespace(server, [BACKSLASH] + share + [BACKSLASH] + rest);
    assert input[2..] == tail;
    assert NUL !in input;
  }

  /** A server is neither a question mark nor a dot, so a share never reads as a namespace. */
  lemma UncIsNoNamespace(server: Wide, rest: Wide)
    requires CleanName(server)
    ensures var input := [BACKSLASH, BACKSLASH] + (server + rest);
            !(EXTENDED <= input) && !(DEVICE <= input) && !StartsIgnoringCase(input, NT_OBJECT)
  {
    hide LegacyDevice;
    var input := [BACKSLASH, BACKSLASH] + (server + rest);
    assert Upper(input[1]) != Upper(NT_OBJECT[1]);
    assert input[2] == server[0] && (|server| > 1 ==> input[3] == server[1]);
    assert EXTENDED[2] == QUESTION && DEVICE[2] == DOT && EXTENDED[3] == DEVICE[3] == BACKSLASH;
  }

  // Canonical results

  lemma RelativeIsClean(path: Wide)
    requires NUL !in path && Classify(path).Ok? && !Classify(path).value.Absolute?
    ensures var kind := Classify(path).value; CleanSegments(Marked(kind.segments, kind.trailing))
  {
    hide SegmentsOf, CleanSegments, Marked;
    var kind := Classify(path).value;
    assert NUL !in path[1..];
    SegmentsAreClean(if kind.RootRelative? then path[1..] else path);
    MarkedIsClean(kind.segments, kind.trailing);
  }

  /** A canonical result reads back as itself, whatever the working directory; a bare root
      reads back with a directory marker. */
  lemma CanonicalReadsBack(parsed: Parsed, cwd: Wide)
    requires Canonical(parsed)
    ensures Parse(Render(parsed), cwd) ==
            Ok(Parsed(parsed.root, if parsed.segments == [] then [[DOT]] else parsed.segments))
  {
    hide Join, CleanSegments, ParseUncTail, ParseDrive, ClassifyExtended, StartsIgnoringCase, SegmentsOf;
    var root, segments := parsed.root, parsed.segments;
    if CleanDrive(root) {
      DriveRendered(root, segments);
    } else {
      hide UncRoot;
      var server, share :| CleanName(server) && CleanName(share) && root == UncRoot(server, share);
      UncRendered(server, share, segments);
    }
  }

  // Paths without components

  lemma {:induction false} OnlySeparators(text: Wide)
    ensures NonEmpty(Split(text, SEPARATORS)) == [] <==> forall i :: 0 <= i < |text| ==> IsSeparator(text[i])
  {
    if text == [] {
      NothingSplits();
    } else {
      var rest := Split(text[1..], SEPARATORS);
      OnlySeparators(text[1..]);
      assert ([[]] + rest)[1..] == rest;
      assert forall i :: 0 < i < |text| ==> text[i] == text[1..][i - 1];
    }
  }

  /** The text of a single separator. */
  predicate LoneSeparator(path: Wide) {
    |path| == 1 && IsSeparator(path[0])
  }

  /** What follows the prefix of a share path, ordinary or extended. */
  function ShareTail(path: Wide): Wide {
    if EXTENDED <= path then if StartsIgnoringCase(path[4..], UNC) then path[8..] else []
    else if |path| >= 2 && IsSeparator(path[0]) && IsSeparator(path[1]) then path[2..]
    else []
  }

  predicate OneSeparator(tail: Wide) {
    Find(tail, SEPARATORS) < |tail| && Without(After(tail, SEPARATORS), SEPARATORS)
  }

  /** A share whose name runs to the end of the text. */
  predicate BareShare(path: Wide) {
    OneSeparator(ShareTail(path))
  }

  lemma DriveHasComponents(input: Wide)
    requires ParseDrive(input).Ok?
    ensures ParseDrive(input).value.segments != []
  {
    hide Split, NonEmpty, ValidSegments;
    OnlySeparators(input[3..]);
    assert |input| > 3 ==> Last(input) == input[3..][|input| - 4];
  }

  lemma ShareWithoutComponents(tail: Wide)
    requires ParseUncTail(tail).Ok?
    ensures ParseUncTail(tail).value.segments == [] <==> OneSeparator(tail)
  {
    hide Split, NonEmpty, ValidSegments, OrdinaryComponent, Find;
    var afterServer := After(tail, SEPARATORS);
    var remainder := After(afterServer, SEPARATORS);
    assert Last(afterServer) == Last(tail);
    OnlySeparators(remainder);
    NothingSplits();
    assert remainder != [] ==> Last(remainder) == Last(afterServer);
  }

  /** An accepted path has no components exactly when it is a lone separator or a share whose
      name runs to its end. */
  lemma NoComponents(path: Wide, cwd: Wide)
    requires Parse(path, cwd).Ok?
    ensures Parse(path, cwd).value.segments == [] <==> LoneSeparator(path) || BareShare(path)
  {
    hide Split, NonEmpty, ValidSegments, ParseDrive, ParseUncTail, ExtendedDisk, ExtendedUnc, Find, After, Base;
    forall text: Wide | ParseDrive(text).Ok? ensures ParseDrive(text).value.segments != [] {
      DriveHasComponents(text);
    }
    forall text: Wide | ParseUncTail(text).Ok?
      ensures ParseUncTail(text).value.segments == [] <==> OneSeparator(text)
    {
      ShareWithoutComponents(text);
    }
    if EXTENDED <= path && StartsIgnoringCase(path[4..], UNC) {
      assert path[4..][4..] == path[8..];
    } else if Classify(path).value.RootRelative? {
      OnlySeparators(path[1..]);
    } else if Classify(path).value.Relative? {
      OnlySeparators(path);
    }
  }

  /** Parsing is canonical: the printed root and components of any accepted path are accepted
      again with the same root, and with the same components exactly when the path is neither
      a lone separator nor a bare share. Those have no components, while their printed root
      ends in a separator and reads back with a directory marker. */
  lemma ParseIsCanonical(path: Wide, cwd: Wide, other: Wide)
    requires Parse(path, cwd).Ok?
    ensures Canonical(Parse(path, cwd).value)
    ensures Parse(Render(Parse(path, cwd).value), other) ==
            if LoneSeparator(path) || BareShare(path)
            then Ok(Parsed(Parse(path, cwd).value.root, [[DOT]]))
            else Parse(path, cwd)
    ensures Parse(Render(Parse(path, cwd).value), other) == Parse(path, cwd) <==>
            !LoneSeparator(path) && !BareShare(path)
  {
    hide Render, Classify, CleanRoot, CleanComponent, Marked, LoneSeparator, BareShare;
    if Classify(path).value.Absolute? {
      AbsoluteIsCanonical(path);
    } else {
      AbsoluteIsCanonical(cwd);
      RelativeIsClean(path);
    }
    NoComponents(path, cwd);
    CanonicalReadsBack(Parse(path, cwd).value, other);
  }

  lemma {:induction false} TrimmedIsShorter(text: Wide)
    ensures |Trimmed(text)| <= |text|
  {
    if text != [] { TrimmedIsShorter(Init(text)); }
  }

  /** Every device name has three units or more. */
  lemma ShortIsNoDevice(component: Wide)
    requires |component| < 3
    ensures !LegacyDevice(component)
  {
    TrimmedIsShorter(component[..Find(component, {DOT})]);
    assert forall name :: name in FIXED_DEVICES ==> |name| >= 3;
  }

  /** `\` against `C:\` is that root, and its printed form reads back with a marker. */
  lemma LoneSeparatorIsMarked(other: Wide)
    ensures var drive := [0x43, COLON, BACKSLASH];
            && Parse([BACKSLASH], drive) == Ok(Parsed(drive, []))
            && Parse(Render(Parsed(drive, [])), other) == Ok(Parsed(drive, [[DOT]]))
  {
    var drive: Wide := [0x43, COLON, BACKSLASH];
    NothingSplits();
    DriveRendered(drive, []);
    assert drive + [] == drive;
    assert [BACKSLASH][1..] == [];
    assert Base(drive) == Ok(Parsed(drive, [[DOT]]));
    ParseIsCanonical([BACKSLASH], drive, other);
  }

  lemma BareShareParses()
    ensures ParseUncTail([0x61, BACKSLASH, 0x62]) == Ok(Parsed(UncRoot([0x61], [0x62]), []))
  {
    hide Split, NonEmpty, LegacyDevice, SegmentsOf, UncRoot;
    var tail: Wide := [0x61, BACKSLASH, 0x62];
    NothingSplits();
    ShortIsNoDevice([0x61]);
    ShortIsNoDevice([0x62]);
    assert Find(tail, SEPARATORS) == 1 && Find([0x62], SEPARATORS) == 1;
    assert Before(tail, SEPARATORS) == [0x61] && After(tail, SEPARATORS) == [0x62];
    assert Before([0x62], SEPARATORS) == [0x62] && After([0x62], SEPARATORS) == [];
  }

  /** The share `\\a\b` has no components either, and its printed form reads back with a
      marker. */
  lemma BareShareIsMarked(cwd: Wide, other: Wide)
    ensures var share := [BACKSLASH, BACKSLASH, 0x61, BACKSLASH, 0x62];
            && Parse(share, cwd) == Ok(Parsed(share + [BACKSLASH], []))
            && Parse(Render(Parsed(share + [BACKSLASH], [])), other) == Ok(Parsed(share + [BACKSLASH], [[DOT]]))
  {
    hide ParseUncTail, Render, Canonical;
    var tail: Wide := [0x61, BACKSLASH, 0x62];
    var share := [BACKSLASH, BACKSLASH, 0x61, BACKSLASH, 0x62];
    BareShareParses();
    assert share[2..] == tail && NUL !in share;
    assert Upper(share[1]) != Upper(NT_OBJECT[1]) && share[2] != EXTENDED[2] && share[2] != DEVICE[2];
    assert UncRoot([0x61], [0x62]) == share + [BACKSLASH];
    AbsoluteIsCanonical(share);
    CanonicalReadsBack(Parsed(share + [BACKSLASH], []), other);
  }

  // Extended forms

  /** A share behind the extended prefix reads as the ordinary share, if its tail is plain. */
  lemma ExtendedShareIsOrdinary(body: Wide)
    requires StartsIgnoringCase(body, UNC) && NUL !in body
    ensures var input := [BACKSLASH, BACKSLASH] + body[4..];
            && (ClassifyExtended(body).Ok? <==> ExtendedUnc(body[4..]) && !(EXTENDED <= input) && Classify(input).Ok?)
            && (ClassifyExtended(body).Ok? ==> ClassifyExtended(body) == Classify(input))
  {
    hide ParseUncTail, ExtendedUnc;
    var tail := body[4..];
    var input := [BACKSLASH, BACKSLASH] + tail;
    assert input[2..] == tail && NUL !in tail && NUL !in input;
    UncTailIsNoNamespace(tail);
  }

  lemma UncTailIsNoNamespace(tail: Wide)
    requires NUL !in tail
    ensures var input := [BACKSLASH, BACKSLASH] + tail;
            && !StartsIgnoringCase(input, NT_OBJECT)
            && (ParseUncTail(tail).Ok? ==> !(EXTENDED <= input) && !(DEVICE <= input))
  {
    hide OrdinaryComponent, SegmentsOf, Find;
    var input := [BACKSLASH, BACKSLASH] + tail;
    assert Upper(input[1]) != Upper(NT_OBJECT[1]);
    if ParseUncTail(tail).Ok? {
      var i := Find(tail, SEPARATORS);
      assert NUL !in tail[..i] && tail == tail[..i] + tail[i..];
      UncIsNoNamespace(tail[..i], tail[i..]);
    }
  }

  lemma {:induction false} FindWithoutSlash(text: Wide)
    requires SLASH !in text
    ensures Find(text, SEPARATORS) == Find(text, {BACKSLASH})
    ensures Split(text, SEPARATORS) == Split(text, {BACKSLASH})
    ensures After(text, SEPARATORS) == After(text, {BACKSLASH})
    ensures SLASH !in After(text, SEPARATORS)
  {
    if text != [] {
      assert text[0] in SEPARATORS <==> text[0] == BACKSLASH by { assert text[0] in text; }
      FindWithoutSlash(text[1..]);
    }
  }

  /** Without dot pieces there are no dot segments; only the marker can be one. */
  lemma SegmentsWithoutDots(suffix: Wide, i: nat)
    requires SLASH !in suffix && !HasDotPiece(suffix)
    requires SegmentsOf(suffix).Ok? && i < |SegmentsOf(suffix).value.0|
    ensures !IsDots(SegmentsOf(suffix).value.0[i])
  {
    hide Split, NonEmpty, ValidSegments, IsDots;
    FindWithoutSlash(suffix);
    var k := NonEmptyIn(Split(suffix, SEPARATORS), i);
  }

  /** No parent segment, and a dot segment only as the final marker of a path that ends in a
      separator. */
  predicate DotsOnlyMark(input: Wide, segments: seq<Wide>) {
    && (forall i :: 0 <= i < |segments| ==> segments[i] != [DOT, DOT])
    && (forall i :: 0 <= i < |segments| - 1 ==> segments[i] != [DOT])
    && (EndsInSeparator(input) <==> segments != [] && Last(segments) == [DOT])
  }

  lemma MarkedDots(input: Wide, segments: seq<Wide>)
    requires forall i :: 0 <= i < |segments| ==> !IsDots(segments[i])
    ensures DotsOnlyMark(input, Marked(segments, EndsInSeparator(input)))
  {
    if segments != [] { assert !IsDots(Last(segments)); }
  }

  lemma ExtendedDiskDots(body: Wide)
    requires IsDiskBody(body) && ExtendedDisk(body[3..]) && ParseDrive(body).Ok?
    ensures DotsOnlyMark(body, ParseDrive(body).value.segments)
  {
    hide SegmentsOf, HasDotPiece, HasDoubledBackslash, DotsOnlyMark;
    var suffix := body[3..];
    var segments := SegmentsOf(suffix).value.0;
    forall i | 0 <= i < |segments| ensures !IsDots(segments[i]) { SegmentsWithoutDots(suffix, i); }
    MarkedDots(body, segments);
    SegmentsKnowTheirEnd(suffix);
    assert suffix != [] ==> Last(suffix) == Last(body);
    assert suffix == [] ==> Last(body) == body[2];
    NothingSplits();
  }

  lemma NothingSplits()
    ensures SegmentsOf([]) == Ok(([], false))
  {
    var nothing: seq<Wide> := [[]];
    assert Split([], SEPARATORS) == nothing && NonEmpty(nothing) == [];
  }

  lemma SegmentsKnowTheirEnd(input: Wide)
    requires SegmentsOf(input).Ok?
    ensures SegmentsOf(input).value.1 == EndsInSeparator(input)
  {
  }

  lemma ExtendedUncDots(tail: Wide)
    requires ExtendedUnc(tail) && ParseUncTail(tail).Ok?
    ensures tail != [] && DotsOnlyMark(tail, ParseUncTail(tail).value.segments)
  {
    hide SegmentsOf, HasDotPiece, HasDoubledBackslash, DotsOnlyMark, OrdinaryComponent, Find, Before, After;
    var (server, share, remainder) := UncNames(tail).value;
    FindWithoutSlash(tail);
    FindWithoutSlash(After(tail, SEPARATORS));
    var segments := SegmentsOf(remainder).value.0;
    forall i | 0 <= i < |segments| ensures !IsDots(segments[i]) { SegmentsWithoutDots(remainder, i); }
    MarkedDots(tail, segments);
  }

  lemma ExtendedHasNoDots(input: Wide)
    requires EXTENDED <= input && Classify(input).Ok?
    ensures Classify(input).value.Absolute?
    ensures DotsOnlyMark(input, Classify(input).value.parsed.segments)
  {
    hide ParseDrive, ParseUncTail, ExtendedDisk, ExtendedUnc, DotsOnlyMark;
    var body := input[4..];
    if StartsIgnoringCase(body, UNC) {
      ExtendedUncDots(body[4..]);
      SameEnd(input, body[4..], ParseUncTail(body[4..]).value.segments);
    } else {
      var disk := body[0 := Upper(body[0])];
      assert disk[3..] == body[3..];
      ExtendedDiskDots(disk);
      SameEnd(input, disk, ParseDrive(disk).value.segments);
    }
  }

  lemma SameEnd(a: Wide, b: Wide, segments: seq<Wide>)
    requires a != [] && b != [] && Last(a) == Last(b)
    ensures DotsOnlyMark(a, segments) == DotsOnlyMark(b, segments)
  {
  }

  /** The ordinary path that an extended one stands for, unless that reads as extended again. */
  function OrdinaryForm(input: Wide): Option<Wide>
    requires EXTENDED <= input
  {
    var body := input[4..];
    if StartsIgnoringCase(body, UNC) then
      var share := [BACKSLASH, BACKSLASH] + body[4..];
      if EXTENDED <= share then None else Some(share)
    else if IsDiskBody(body) then Some(body)
    else None
  }

  /** Whether nothing behind the extended prefix would need normalizing: no slash, no doubled
      backslash and no dot segment. */
  predicate IsPlain(input: Wide)
    requires EXTENDED <= input
  {
    var body := input[4..];
    if StartsIgnoringCase(body, UNC) then ExtendedUnc(body[4..])
    else IsDiskBody(body) && ExtendedDisk(body[3..])
  }

  /** An extended path is accepted exactly when it is plain and its ordinary form is accepted.
      It then means what the ordinary form means, without parent segments, and with a dot
      segment only as the marker of a final separator. */
  lemma ExtendedIsOrdinary(input: Wide)
    requires EXTENDED <= input
    ensures Classify(input).Ok? <==>
            IsPlain(input) && OrdinaryForm(input).Some? && Classify(OrdinaryForm(input).value).Ok?
    ensures Classify(input).Ok? ==>
              && Classify(input) == Classify(OrdinaryForm(input).value)
              && Classify(input).value.Absolute?
              && DotsOnlyMark(input, Classify(input).value.parsed.segments)
  {
    hide ParseDrive, ParseUncTail, ExtendedDisk, ExtendedUnc, DotsOnlyMark, StartsIgnoringCase;
    var body := input[4..];
    assert input == EXTENDED + body;
    if NUL in input {
      if OrdinaryForm(input).Some? { NulStays(input); }
    } else if StartsIgnoringCase(body, UNC) {
      ExtendedShareIsOrdinary(body);
    } else if IsDiskBody(body) {
      DiskIsNoNamespace(body);
    }
    if Classify(input).Ok? { ExtendedHasNoDots(input); }
  }

  /** A NUL is refused in both forms. */
  lemma NulStays(input: Wide)
    requires EXTENDED <= input && NUL in input && OrdinaryForm(input).Some?
    ensures NUL in OrdinaryForm(input).value
  {
    var body := input[4..];
    assert input == EXTENDED + body && NUL in body;
    if StartsIgnoringCase(body, UNC) {
      assert body == body[..4] + body[4..];
      assert forall i :: 0 <= i < 4 ==> Upper(body[i]) == Upper(UNC[i]);
    }
  }

  lemma DiskIsNoNamespace(body: Wide)
    requires IsDiskBody(body)
    ensures !(EXTENDED <= body) && !(DEVICE <= body) && !StartsIgnoringCase(body, NT_OBJECT)
    ensures !StartsIgnoringCase(body, UNC)
  {
    assert Upper(body[0]) != Upper(NT_OBJECT[0]) && Upper(body[1]) != Upper(UNC[1]);
  }

  // Device names

  /** An extension does not free a device name. */
  lemma DeviceWithExtension(stem: Wide, extension: Wide)
    requires DOT !in stem
    ensures LegacyDevice(stem + [DOT] + extension) == LegacyDevice(stem)
  {
    var whole := stem + ([DOT] + extension);
    assert whole == stem + [DOT] + extension;
    FindAfter(stem, [DOT] + extension, {DOT});
    assert whole[..|stem|] == stem && stem[..Find(stem, {DOT})] == stem;
  }

  lemma {:induction false} TrimmedIgnoresCase(a: Wide, b: Wide)
    requires UpperAll(a) == UpperAll(b)
    ensures UpperAll(Trimmed(a)) == UpperAll(Trimmed(b))
    decreases |a|
  {
    hide UpperAll;
    assert |a| == |UpperAll(a)| == |b|;
    if a != [] {
      assert UpperAll(a)[|a| - 1] == UpperAll(b)[|a| - 1];
      UpperOfInit(a);
      UpperOfInit(b);
      TrimmedIgnoresCase(Init(a), Init(b));
    }
  }

  lemma UpperOfInit(text: Wide)
    requires text != []
    ensures UpperAll(Init(text)) == Init(UpperAll(text))
  {
  }

  /** Neither does the case of its letters. */
  lemma DeviceInAnyCase(a: Wide, b: Wide)
    requires UpperAll(a) == UpperAll(b)
    ensures LegacyDevice(a) == LegacyDevice(b)
  {
    assert |a| == |UpperAll(a)| == |b|;
    forall i | 0 <= i < |a| ensures a[i] == DOT <==> b[i] == DOT {
      assert UpperAll(a)[i] == UpperAll(b)[i];
    }
    var i, k := Find(a, {DOT}), Find(b, {DOT});
    assert i == k;
    assert UpperAll(a[..i]) == UpperAll(a)[..i] == UpperAll(b[..i]);
    TrimmedIgnoresCase(a[..i], b[..i]);
  }
}
