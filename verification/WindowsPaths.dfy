/** Windows path text over sixteen-bit units: drive, UNC and extended forms. */
module WindowsPaths {
  import opened Common
  import opened Splitting
  import PathTypes

  newtype Unit = x: int | 0 <= x < 0x1_0000
  type Wide = seq<Unit>

  const NUL: Unit := 0
  const SPACE: Unit := 0x20
  const DOT: Unit := 0x2e
  const SLASH: Unit := 0x2f
  const COLON: Unit := 0x3a
  const QUESTION: Unit := 0x3f
  const BACKSLASH: Unit := 0x5c
  const SEPARATORS: set<Unit> := {BACKSLASH, SLASH}

  const EXTENDED: Wide := [BACKSLASH, BACKSLASH, QUESTION, BACKSLASH]
  const DEVICE: Wide := [BACKSLASH, BACKSLASH, DOT, BACKSLASH]
  const NT_OBJECT: Wide := [BACKSLASH, QUESTION, QUESTION, BACKSLASH]
  const UNC: Wide := [0x55, 0x4e, 0x43, BACKSLASH]

  type Fallible<+T> = Result<T, PathTypes.NormalizationError>

  /** A canonical root and the raw components below it. */
  datatype Parsed = Parsed(root: Wide, segments: seq<Wide>)

  datatype InputKind =
    | Absolute(parsed: Parsed)
    | RootRelative(segments: seq<Wide>, trailing: bool)
    | Relative(segments: seq<Wide>, trailing: bool)

  function Invalid<T>(): Fallible<T> {
    Err(PathTypes.InvalidPath)
  }

  function Unsupported<T>(): Fallible<T> {
    Err(PathTypes.UnsupportedWindowsNamespace)
  }

  // Units

  predicate IsSeparator(unit: Unit) {
    unit in SEPARATORS
  }

  predicate IsLetter(unit: Unit) {
    0x41 <= unit <= 0x5a || 0x61 <= unit <= 0x7a
  }

  function Upper(unit: Unit): Unit {
    if 0x61 <= unit <= 0x7a then unit - 0x20 else unit
  }

  function UpperAll(text: Wide): (r: Wide)
    ensures |r| == |text| && forall i :: 0 <= i < |r| ==> r[i] == Upper(text[i])
  {
    seq(|text|, i requires 0 <= i < |text| => Upper(text[i]))
  }

  predicate StartsIgnoringCase(input: Wide, prefix: Wide) {
    |input| >= |prefix| && forall i :: 0 <= i < |prefix| ==> Upper(input[i]) == Upper(prefix[i])
  }

  predicate EndsInSeparator(input: Wide) {
    input != [] && IsSeparator(Last(input))
  }

  // Components

  /** The index of the first of the given units, or the length. */
  function Find(text: Wide, units: set<Unit>): (i: nat)
    ensures i <= |text| && (i < |text| ==> text[i] in units)
    ensures forall k :: 0 <= k < i ==> text[k] !in units
  {
    if text == [] || text[0] in units then 0 else 1 + Find(text[1..], units)
  }

  /** The text without trailing spaces and dots. */
  function Trimmed(text: Wide): Wide {
    if text != [] && (Last(text) == SPACE || Last(text) == DOT) then Trimmed(Init(text)) else text
  }

  const FIXED_DEVICES: seq<Wide> := [
    [0x43, 0x4f, 0x4e],                         // CON
    [0x50, 0x52, 0x4e],                         // PRN
    [0x41, 0x55, 0x58],                         // AUX
    [0x4e, 0x55, 0x4c],                         // NUL
    [0x43, 0x4f, 0x4e, 0x49, 0x4e, 0x24],       // CONIN$
    [0x43, 0x4f, 0x4e, 0x4f, 0x55, 0x54, 0x24], // CONOUT$
    [0x43, 0x4c, 0x4f, 0x43, 0x4b, 0x24]]       // CLOCK$

  const NUMBERED_DEVICES: seq<Wide> := [
    [0x43, 0x4f, 0x4d],  // COM
    [0x4c, 0x50, 0x54]]  // LPT

  /** The digits one to nine, plain or superscript. */
  predicate IsDeviceNumber(unit: Unit) {
    0x31 <= unit <= 0x39 || unit == 0xb9 || unit == 0xb2 || unit == 0xb3
  }

  predicate IsDevice(name: Wide) {
    || name in FIXED_DEVICES
    || (|name| == 4 && name[..3] in NUMBERED_DEVICES && IsDeviceNumber(name[3]))
  }

  /** Device names are reserved in any case and with any extension. */
  predicate LegacyDevice(component: Wide) {
    IsDevice(UpperAll(Trimmed(component[..Find(component, {DOT})])))
  }

  method IsLegacyDeviceName(component: Wide) returns (r: bool)
    ensures r == LegacyDevice(component)
  {
    var stem := component[..Find(component, {DOT})];
    ghost var goal := Trimmed(stem);
    while stem != [] && (Last(stem) == SPACE || Last(stem) == DOT)
      invariant Trimmed(stem) == goal
    {
      stem := Init(stem);
    }
    var ascii := UpperAll(stem);
    if ascii in FIXED_DEVICES {
      return true;
    }
    if |ascii| == 4 && ascii[..3] in NUMBERED_DEVICES {
      return IsDeviceNumber(ascii[3]);
    }
    return false;
  }

  /** Colon, separators, the wildcards and redirections, and the control units. */
  predicate IsReserved(unit: Unit) {
    || unit == COLON || IsSeparator(unit) || unit == QUESTION
    || unit == 0x3c || unit == 0x3e || unit == 0x22 || unit == 0x7c || unit == 0x2a
    || 0 < unit < 32
  }

  predicate IsDots(component: Wide) {
    component == [DOT] || component == [DOT, DOT]
  }

  predicate OrdinaryComponent(component: Wide) {
    && component != []
    && (forall i :: 0 <= i < |component| ==> !IsReserved(component[i]))
    && Last(component) != SPACE && Last(component) != DOT
    && !LegacyDevice(component)
  }

  predicate ValidComponent(component: Wide, allowDots: bool) {
    (allowDots && IsDots(component)) || OrdinaryComponent(component)
  }

  method ValidateComponent(component: Wide, allowDots: bool) returns (r: Fallible<()>)
    ensures r == if ValidComponent(component, allowDots) then Ok(()) else Invalid()
  {
    if component == [] {
      return Invalid();
    }
    if allowDots && (component == [DOT] || component == [DOT, DOT]) {
      return Ok(());
    }
    if exists i :: 0 <= i < |component| && IsReserved(component[i]) {
      return Invalid();
    }
    if Last(component) == SPACE || Last(component) == DOT {
      return Invalid();
    }
    var device := IsLegacyDeviceName(component);
    if device {
      return Invalid();
    }
    return Ok(());
  }

  // Splitting

  predicate ValidSegments(segments: seq<Wide>) {
    forall i :: 0 <= i < |segments| ==> ValidComponent(segments[i], true)
  }

  /** The nonempty pieces, when each is a valid component, and whether a separator ends them. */
  function SegmentsOf(input: Wide): Fallible<(seq<Wide>, bool)> {
    var segments := NonEmpty(Split(input, SEPARATORS));
    if ValidSegments(segments) then Ok((segments, EndsInSeparator(input))) else Invalid()
  }

  /** One separator further: the piece before it is a segment unless it is empty. */
  lemma SeparatorTurn(input: Wide, start: nat, index: nat)
    requires start <= index < |input| && IsSeparator(input[index])
    requires forall i :: start <= i < index ==> !IsSeparator(input[i])
    ensures NonEmpty(Split(input[start..], SEPARATORS)) ==
            (if start < index then [input[start..index]] else []) + NonEmpty(Split(input[index + 1..], SEPARATORS))
  {
    hide Split;
    var piece, rest := input[start..index], input[index + 1..];
    assert input[start..] == piece + [input[index]] + rest;
    SplitFirst(piece, input[index], rest, SEPARATORS);
    assert ([piece] + Split(rest, SEPARATORS))[1..] == Split(rest, SEPARATORS);
  }

  lemma LastTurn(input: Wide, start: nat)
    requires start <= |input| && forall i :: start <= i < |input| ==> !IsSeparator(input[i])
    ensures NonEmpty(Split(input[start..], SEPARATORS)) == if start < |input| then [input[start..]] else []
  {
    hide Split;
    SplitPiece(input[start..], SEPARATORS);
    assert [input[start..]][1..] == [];
  }

  method SplitSegments(input: Wide) returns (r: Fallible<(seq<Wide>, bool)>)
    ensures r == SegmentsOf(input)
  {
    hide Split, NonEmpty, ValidComponent;
    var trailing := EndsInSeparator(input);
    var segments: seq<Wide> := [];
    var start := 0;
    ghost var all := NonEmpty(Split(input, SEPARATORS));
    assert input[0..] == input;
    for index := 0 to |input|
      invariant 0 <= start <= index
      invariant forall i :: start <= i < index ==> !IsSeparator(input[i])
      invariant ValidSegments(segments)
      invariant all == segments + NonEmpty(Split(input[start..], SEPARATORS))
    {
      if IsSeparator(input[index]) {
        SeparatorTurn(input, start, index);
        if start < index {
          var segment := input[start..index];
          assert all[|segments|] == segment;
          var _ :- ValidateComponent(segment, true);
          segments := segments + [segment];
        }
        start := index + 1;
      }
    }
    LastTurn(input, start);
    if start < |input| {
      var segment := input[start..];
      assert all[|segments|] == segment;
      var _ :- ValidateComponent(segment, true);
      segments := segments + [segment];
    }
    assert all == segments;
    return Ok((segments, trailing));
  }

  // Forms

  function Marked(segments: seq<Wide>, trailing: bool): seq<Wide> {
    if trailing then segments + [[DOT]] else segments
  }

  function ParseDrive(input: Wide): Fallible<Parsed> {
    if |input| < 3 || !IsLetter(input[0]) || input[1] != COLON || !IsSeparator(input[2]) then Unsupported()
    else
      var (segments, trailing) :- SegmentsOf(input[3..]);
      var marked := trailing || (segments == [] && EndsInSeparator(input));
      Ok(Parsed([Upper(input[0]), COLON, BACKSLASH], Marked(segments, marked)))
  }

  function UncRoot(server: Wide, share: Wide): Wide {
    [BACKSLASH, BACKSLASH] + server + [BACKSLASH] + share + [BACKSLASH]
  }

  /** The text before the first separator. */
  function Before(text: Wide, separators: set<Unit>): Wide {
    text[..Find(text, separators)]
  }

  /** The text after the first separator; nothing if there is none. */
  function After(text: Wide, separators: set<Unit>): Wide {
    if Find(text, separators) == |text| then [] else text[Find(text, separators) + 1..]
  }

  predicate StartsName(text: Wide) {
    text != [] && !IsSeparator(text[0])
  }

  /** The server, the share and what follows them. */
  function UncNames(tail: Wide): Fallible<(Wide, Wide, Wide)> {
    if !StartsName(tail) || Find(tail, SEPARATORS) == |tail| then Unsupported()
    else
      var afterServer := After(tail, SEPARATORS);
      if !StartsName(afterServer) then Unsupported()
      else Ok((Before(tail, SEPARATORS), Before(afterServer, SEPARATORS), After(afterServer, SEPARATORS)))
  }

  function ParseUncTail(tail: Wide): Fallible<Parsed> {
    var (server, share, remainder) :- UncNames(tail);
    if !ValidComponent(server, false) || !ValidComponent(share, false) then Invalid()
    else
      var (segments, _) :- SegmentsOf(remainder);
      Ok(Parsed(UncRoot(server, share), Marked(segments, EndsInSeparator(tail))))
  }

  predicate HasDoubledBackslash(text: Wide) {
    exists i :: 0 < i < |text| && text[i - 1] == BACKSLASH && text[i] == BACKSLASH
  }

  predicate HasDotPiece(text: Wide) {
    var pieces := Split(text, {BACKSLASH});
    exists i :: 0 <= i < |pieces| && IsDots(pieces[i])
  }

  /** What may follow the drive root of an extended path. */
  predicate ExtendedDisk(suffix: Wide) {
    && (suffix != [] ==> suffix[0] != BACKSLASH)
    && SLASH !in suffix && !HasDoubledBackslash(suffix) && !HasDotPiece(suffix)
  }

  /** What may follow the prefix of an extended UNC path. */
  predicate ExtendedUnc(tail: Wide) {
    && SLASH !in tail && !HasDoubledBackslash(tail)
    && BACKSLASH in tail
    && !HasDotPiece(After(After(tail, {BACKSLASH}), {BACKSLASH}))
  }

  predicate IsDiskBody(body: Wide) {
    |body| >= 3 && IsLetter(body[0]) && body[1] == COLON && IsSeparator(body[2])
  }

  function ClassifyExtended(body: Wide): Fallible<InputKind> {
    if StartsIgnoringCase(body, UNC) then
      if !ExtendedUnc(body[4..]) then Unsupported()
      else
        var parsed :- ParseUncTail(body[4..]);
        Ok(Absolute(parsed))
    else if IsDiskBody(body) then
      if !ExtendedDisk(body[3..]) then Unsupported()
      else
        var parsed :- ParseDrive(body[0 := Upper(body[0])]);
        Ok(Absolute(parsed))
    else Unsupported()
  }

  function Classify(input: Wide): Fallible<InputKind> {
    if input == [] || NUL in input then Invalid()
    else if EXTENDED <= input then ClassifyExtended(input[4..])
    else if DEVICE <= input || StartsIgnoringCase(input, NT_OBJECT) then Unsupported()
    else if |input| >= 2 && IsSeparator(input[0]) && IsSeparator(input[1]) then
      var parsed :- ParseUncTail(input[2..]);
      Ok(Absolute(parsed))
    else if |input| >= 2 && IsLetter(input[0]) && input[1] == COLON then
      if |input| < 3 || !IsSeparator(input[2]) then Unsupported()
      else
        var parsed :- ParseDrive(input[0 := Upper(input[0])]);
        Ok(Absolute(parsed))
    else if IsSeparator(input[0]) then
      var (segments, trailing) :- SegmentsOf(input[1..]);
      Ok(RootRelative(segments, trailing))
    else
      var (segments, trailing) :- SegmentsOf(input);
      Ok(Relative(segments, trailing))
  }

  /** The working directory, which must be absolute. */
  function Base(cwd: Wide): Fallible<Parsed> {
    if NUL in cwd then Invalid()
    else
      match Classify(cwd)
      case Ok(Absolute(parsed)) => Ok(parsed)
      case _ => Err(PathTypes.InvalidContext)
  }

  predicate IsDriveRoot(root: Wide) {
    |root| == 3 && IsLetter(root[0]) && root[1] == COLON && IsSeparator(root[2])
  }

  function Parse(path: Wide, cwd: Wide): Fallible<Parsed> {
    if path == [] || NUL in path then Invalid()
    else
      var kind :- Classify(path);
      match kind
      case Absolute(parsed) => Ok(parsed)
      case RootRelative(segments, trailing) =>
        var base :- Base(cwd);
        if !IsDriveRoot(base.root) then Err(PathTypes.InvalidContext)
        else Ok(Parsed(base.root, Marked(segments, trailing)))
      case Relative(segments, trailing) =>
        var base :- Base(cwd);
        Ok(Parsed(base.root, base.segments + Marked(segments, trailing)))
  }

  // The parser as it runs

  method ReadDrive(input: Wide) returns (r: Fallible<Parsed>)
    ensures r == ParseDrive(input)
  {
    hide SegmentsOf;
    if |input| < 3 || !IsLetter(input[0]) || input[1] != COLON || !IsSeparator(input[2]) {
      return Unsupported();
    }
    var root := input[..3];
    root := root[0 := Upper(input[0])];
    root := root[2 := BACKSLASH];
    assert root == [Upper(input[0]), COLON, BACKSLASH];
    var split :- SplitSegments(input[3..]);
    var (segments, trailing) := split;
    trailing := trailing || (segments == [] && EndsInSeparator(input));
    return Ok(Parsed(root, Marked(segments, trailing)));
  }

  method ReadUncTail(tail: Wide) returns (r: Fallible<Parsed>)
    ensures r == ParseUncTail(tail)
  {
    hide SegmentsOf, OrdinaryComponent;
    if !StartsName(tail) {
      return Unsupported();
    }
    var serverEnd := Find(tail, SEPARATORS);
    if serverEnd == |tail| {
      return Unsupported();
    }
    var server, afterServer := tail[..serverEnd], tail[serverEnd + 1..];
    if !StartsName(afterServer) {
      return Unsupported();
    }
    var shareEnd := Find(afterServer, SEPARATORS);
    var share := afterServer[..shareEnd];
    var _ :- ValidateComponent(server, false);
    var _ :- ValidateComponent(share, false);
    var root := [BACKSLASH, BACKSLASH];
    root := root + server;
    root := root + [BACKSLASH];
    root := root + share;
    root := root + [BACKSLASH];
    var remainder := if shareEnd == |afterServer| then [] else afterServer[shareEnd + 1..];
    var split :- SplitSegments(remainder);
    var (segments, _) := split;
    return Ok(Parsed(root, Marked(segments, EndsInSeparator(tail))));
  }

  method ClassifyExtendedBody(body: Wide) returns (r: Fallible<InputKind>)
    ensures r == ClassifyExtended(body)
  {
    hide ParseUncTail, ParseDrive, ExtendedUnc, ExtendedDisk;
    if StartsIgnoringCase(body, UNC) {
      if !ExtendedUnc(body[4..]) {
        return Unsupported();
      }
      var parsed :- ReadUncTail(body[4..]);
      return Ok(Absolute(parsed));
    }
    if IsDiskBody(body) {
      if !ExtendedDisk(body[3..]) {
        return Unsupported();
      }
      var disk := body;
      disk := disk[0 := Upper(disk[0])];
      var parsed :- ReadDrive(disk);
      return Ok(Absolute(parsed));
    }
    return Unsupported();
  }

  method ClassifyInput(input: Wide) returns (r: Fallible<InputKind>)
    ensures r == Classify(input)
  {
    hide ParseUncTail, ParseDrive, ClassifyExtended, SegmentsOf, StartsIgnoringCase;
    if input == [] || NUL in input {
      return Invalid();
    }
    if EXTENDED <= input {
      r := ClassifyExtendedBody(input[4..]);
      return;
    }
    if DEVICE <= input || StartsIgnoringCase(input, NT_OBJECT) {
      return Unsupported();
    }
    if |input| >= 2 && IsSeparator(input[0]) && IsSeparator(input[1]) {
      var parsed :- ReadUncTail(input[2..]);
      return Ok(Absolute(parsed));
    }
    if |input| >= 2 && IsLetter(input[0]) && input[1] == COLON {
      if |input| < 3 || !IsSeparator(input[2]) {
        return Unsupported();
      }
      var disk := input;
      disk := disk[0 := Upper(disk[0])];
      var parsed :- ReadDrive(disk);
      return Ok(Absolute(parsed));
    }
    if IsSeparator(input[0]) {
      var split :- SplitSegments(input[1..]);
      var (segments, trailing) := split;
      return Ok(RootRelative(segments, trailing));
    }
    var split :- SplitSegments(input);
    var (segments, trailing) := split;
    return Ok(Relative(segments, trailing));
  }

  method ReadBase(cwd: Wide) returns (r: Fallible<Parsed>)
    ensures r == Base(cwd)
  {
    hide Classify;
    if NUL in cwd {
      return Invalid();
    }
    var kind := ClassifyInput(cwd);
    match kind {
      case Ok(Absolute(parsed)) => return Ok(parsed);
      case _ => return Err(PathTypes.InvalidContext);
    }
  }

  method ParsePath(path: Wide, cwd: Wide) returns (r: Fallible<Parsed>)
    ensures r == Parse(path, cwd)
  {
    hide Classify, Base;
    if path == [] || NUL in path {
      return Invalid();
    }
    var kind :- ClassifyInput(path);
    match kind {
      case Absolute(parsed) =>
        return Ok(parsed);
      case RootRelative(segments, trailing) =>
        var base :- ReadBase(cwd);
        if !IsDriveRoot(base.root) {
          return Err(PathTypes.InvalidContext);
        }
        return Ok(Parsed(base.root, Marked(segments, trailing)));
      case Relative(segments, trailing) =>
        var base :- ReadBase(cwd);
        base := base.(segments := base.segments + Marked(segments, trailing));
        return Ok(base);
    }
  }
}
