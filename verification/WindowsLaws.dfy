/** What every Windows path text reads as, form by form, with the units written out. */
module WindowsLaws {
  import opened Common
  import opened Splitting
  import opened WindowsPaths
  import opened WindowsTheorems
  import PathTypes

  // Names

  /** A word of ASCII in any case; the word itself has no lowercase letters. */
  predicate Spells(name: Wide, word: string) {
    && |name| == |word|
    && forall i :: 0 <= i < |name| ==>
         || name[i] as int == word[i] as int
         || ('A' <= word[i] <= 'Z' && name[i] as int == word[i] as int + 32)
  }

  /** `COM` or `LPT` with a digit from one to nine, or with a superscript one, two or three. */
  predicate NumberedName(name: Wide) {
    && |name| == 4 && (Spells(name[..3], "COM") || Spells(name[..3], "LPT"))
    && (0x31 <= name[3] <= 0x39 || name[3] == 0xb9 || name[3] == 0xb2 || name[3] == 0xb3)
  }

  predicate DeviceName(name: Wide) {
    || Spells(name, "CON") || Spells(name, "PRN") || Spells(name, "AUX") || Spells(name, "NUL")
    || Spells(name, "CONIN$") || Spells(name, "CONOUT$") || Spells(name, "CLOCK$")
    || NumberedName(name)
  }

  /** The first `n` units are a device name; spaces follow, and then the end or a dot. */
  predicate DeviceUpTo(component: Wide, n: nat, m: nat) {
    && n <= m <= |component| && DeviceName(component[..n])
    && (forall i :: n <= i < m ==> component[i] == 0x20)
    && (m == |component| || component[m] == 0x2e)
  }

  ghost predicate NamesDevice(component: Wide) {
    exists n: nat, m: nat :: DeviceUpTo(component, n, m)
  }

  lemma SpellsUpper(name: Wide, word: string, units: Wide)
    requires |units| == |word| && forall i :: 0 <= i < |units| ==> units[i] as int == word[i] as int < 0x61
    ensures UpperAll(name) == units <==> Spells(name, word)
  {
    if Spells(name, word) {
      assert forall i :: 0 <= i < |name| ==> Upper(name[i]) == units[i];
    } else if |name| == |word| {
      var i :| 0 <= i < |name| && name[i] as int != word[i] as int
               && !('A' <= word[i] <= 'Z' && name[i] as int == word[i] as int + 32);
      assert Upper(name[i]) != units[i];
    }
  }

  lemma FixedNames(name: Wide)
    ensures UpperAll(name) in FIXED_DEVICES <==>
            || Spells(name, "CON") || Spells(name, "PRN") || Spells(name, "AUX") || Spells(name, "NUL")
            || Spells(name, "CONIN$") || Spells(name, "CONOUT$") || Spells(name, "CLOCK$")
  {
    hide UpperAll, Spells;
    SpellsUpper(name, "CON", FIXED_DEVICES[0]);
    SpellsUpper(name, "PRN", FIXED_DEVICES[1]);
    SpellsUpper(name, "AUX", FIXED_DEVICES[2]);
    SpellsUpper(name, "NUL", FIXED_DEVICES[3]);
    SpellsUpper(name, "CONIN$", FIXED_DEVICES[4]);
    SpellsUpper(name, "CONOUT$", FIXED_DEVICES[5]);
    SpellsUpper(name, "CLOCK$", FIXED_DEVICES[6]);
  }

  lemma NumberedNames(name: Wide)
    ensures (|name| == 4 && UpperAll(name)[..3] in NUMBERED_DEVICES && IsDeviceNumber(UpperAll(name)[3]))
            <==> NumberedName(name)
  {
    hide Spells;
    if |name| == 4 {
      assert UpperAll(name)[..3] == UpperAll(name[..3]);
      SpellsUpper(name[..3], "COM", NUMBERED_DEVICES[0]);
      SpellsUpper(name[..3], "LPT", NUMBERED_DEVICES[1]);
    }
  }

  lemma DevicesByName(name: Wide)
    ensures IsDevice(UpperAll(name)) <==> DeviceName(name)
  {
    hide Spells, NumberedName, IsDeviceNumber;
    FixedNames(name);
    NumberedNames(name);
  }

  lemma {:induction false} TrimmedIsFront(text: Wide)
    ensures |Trimmed(text)| <= |text| && Trimmed(text) == text[..|Trimmed(text)|]
  {
    if text != [] && (Last(text) == SPACE || Last(text) == DOT) {
      var front := text[..|text| - 1];
      var n := |Trimmed(front)|;
      TrimmedIsFront(front);
      assert front[..n] == text[..n];
    } else {
      assert text == text[..|text|];
    }
  }

  lemma {:induction false} TrimmedLast(text: Wide)
    ensures Trimmed(text) != [] ==> Last(Trimmed(text)) != 0x20 && Last(Trimmed(text)) != 0x2e
  {
    if text != [] && (Last(text) == SPACE || Last(text) == DOT) { TrimmedLast(Init(text)); }
  }

  lemma {:induction false} TrimmedOff(text: Wide, i: nat)
    requires |Trimmed(text)| <= i < |text|
    ensures text[i] == 0x20 || text[i] == 0x2e
  {
    if i < |text| - 1 { TrimmedOff(text[..|text| - 1], i); }
  }

  /** Trimming cuts off spaces and dots, and leaves a text that ends in neither. */
  lemma TrimmedEnds(text: Wide)
    ensures |Trimmed(text)| <= |text| && Trimmed(text) == text[..|Trimmed(text)|]
    ensures Trimmed(text) != [] ==> Last(Trimmed(text)) != 0x20 && Last(Trimmed(text)) != 0x2e
    ensures forall i :: |Trimmed(text)| <= i < |text| ==> text[i] == 0x20 || text[i] == 0x2e
  {
    hide Trimmed;
    TrimmedIsFront(text);
    TrimmedLast(text);
    forall i | |Trimmed(text)| <= i < |text| ensures text[i] == 0x20 || text[i] == 0x2e { TrimmedOff(text, i); }
  }

  lemma DeviceNameEnds(name: Wide)
    requires DeviceName(name)
    ensures name != [] && Last(name) != 0x20 && Last(name) != 0x2e
    ensures forall i :: 0 <= i < |name| ==> name[i] != 0x2e
  {
  }

  lemma TrimmedIs(text: Wide, n: nat)
    requires 0 < n <= |text| && text[n - 1] != 0x20 && text[n - 1] != 0x2e
    requires forall i :: n <= i < |text| ==> text[i] == 0x20
    ensures Trimmed(text) == text[..n]
  {
    TrimmedEnds(text);
    var trimmed := Trimmed(text);
    assert trimmed == text[..|trimmed|];
    assert |trimmed| >= n;
    assert trimmed != [] ==> Last(trimmed) == text[|trimmed| - 1];
  }

  lemma NamedWhenDevice(component: Wide)
    requires LegacyDevice(component)
    ensures NamesDevice(component)
  {
    hide IsDevice, DeviceName;
    var k := Find(component, {DOT});
    var stem := component[..k];
    var n := |Trimmed(stem)|;
    DevicesByName(Trimmed(stem));
    TrimmedEnds(stem);
    assert component[..n] == Trimmed(stem);
    forall i | n <= i < k ensures component[i] == 0x20 {
      assert component[i] == stem[i];
    }
    assert DeviceUpTo(component, n, k);
  }

  lemma DeviceWhenNamed(component: Wide, n: nat, m: nat)
    requires DeviceUpTo(component, n, m)
    ensures LegacyDevice(component)
  {
    hide IsDevice, DeviceName;
    var k := Find(component, {DOT});
    var name, stem := component[..n], component[..k];
    DeviceNameEnds(name);
    assert name[n - 1] == component[n - 1];
    forall i | 0 <= i < m ensures component[i] != 0x2e {
      if i < n { assert component[i] == name[i]; }
    }
    assert k == m;
    TrimmedIs(stem, n);
    assert stem[..n] == name;
    DevicesByName(name);
  }

  lemma DevicesAreNamed(component: Wide)
    ensures LegacyDevice(component) <==> NamesDevice(component)
  {
    hide LegacyDevice, DeviceUpTo;
    if LegacyDevice(component) { NamedWhenDevice(component); }
    if NamesDevice(component) {
      var n: nat, m: nat :| DeviceUpTo(component, n, m);
      DeviceWhenNamed(component, n, m);
    }
  }

  /** A unit that no name may hold: control units, quotes, wildcards, redirections, the bar, the
      colon and the separators. */
  predicate Forbidden(unit: Unit) {
    || 1 <= unit <= 0x1f || unit == 0x22 || unit == 0x2a || unit == 0x2f || unit == 0x3a
    || unit == 0x3c || unit == 0x3e || unit == 0x3f || unit == 0x5c || unit == 0x7c
  }

  ghost predicate SoundName(name: Wide) {
    && name != [] && (forall i :: 0 <= i < |name| ==> !Forbidden(name[i]))
    && name[|name| - 1] != 0x20 && name[|name| - 1] != 0x2e
    && !NamesDevice(name)
  }

  ghost predicate SoundPiece(piece: Wide) {
    piece == [0x2e] || piece == [0x2e, 0x2e] || SoundName(piece)
  }

  lemma NamesAreSound(name: Wide)
    ensures ValidComponent(name, false) <==> SoundName(name)
    ensures ValidComponent(name, true) <==> SoundPiece(name)
  {
    hide LegacyDevice, NamesDevice;
    DevicesAreNamed(name);
    assert forall unit: Unit :: IsReserved(unit) <==> Forbidden(unit);
  }

  // Pieces

  predicate Separates(unit: Unit) {
    unit == 0x5c || unit == 0x2f
  }

  predicate Letter(unit: Unit) {
    0x41 <= unit <= 0x5a || 0x61 <= unit <= 0x7a
  }

  function Capital(unit: Unit): Unit {
    if unit >= 0x61 then unit - 0x20 else unit
  }

  predicate EndsDirectory(text: Wide) {
    text != [] && Separates(text[|text| - 1])
  }

  /** The nonempty stretches between slashes and backslashes. */
  function Pieces(text: Wide): seq<Wide> {
    NonEmpty(Split(text, {0x5c, 0x2f}))
  }

  ghost predicate SoundPieces(text: Wide) {
    forall i :: 0 <= i < |Pieces(text)| ==> SoundPiece(Pieces(text)[i])
  }

  /** What a text adds to a directory: its pieces, and a dot if it ends in a separator. */
  function Added(text: Wide): seq<Wide> {
    Pieces(text) + if EndsDirectory(text) then [[0x2e]] else []
  }

  lemma SegmentsInFull(text: Wide)
    ensures SegmentsOf(text) ==
            if SoundPieces(text) then Ok((Pieces(text), EndsDirectory(text))) else Err(PathTypes.InvalidPath)
    ensures Marked(Pieces(text), EndsDirectory(text)) == Added(text)
  {
    hide Split, NonEmpty, ValidComponent, SoundPiece;
    assert SEPARATORS == {0x5c, 0x2f};
    forall i | 0 <= i < |Pieces(text)| ensures ValidComponent(Pieces(text)[i], true) <==> SoundPiece(Pieces(text)[i]) {
      NamesAreSound(Pieces(text)[i]);
    }
  }

  // Forms

  /** Some text without the unit zero. */
  predicate Plain(path: Wide) {
    path != [] && 0 !in path
  }

  /** A drive letter, a colon and a separator. */
  predicate StartsAtDrive(path: Wide) {
    |path| >= 3 && Letter(path[0]) && path[1] == 0x3a && Separates(path[2])
  }

  /** Begins with a drive letter and a colon. */
  predicate NamesDrive(path: Wide) {
    |path| >= 2 && Letter(path[0]) && path[1] == 0x3a
  }

  predicate TwoSeparators(path: Wide) {
    |path| >= 2 && Separates(path[0]) && Separates(path[1])
  }

  predicate Extended(path: Wide) {
    |path| >= 4 && path[0] == 0x5c && path[1] == 0x5c && path[2] == 0x3f && path[3] == 0x5c
  }

  /** The device prefix and the prefix of object names. */
  predicate Namespace(path: Wide) {
    && |path| >= 4 && path[0] == 0x5c && path[3] == 0x5c
    && ((path[1] == 0x5c && path[2] == 0x2e) || (path[1] == 0x3f && path[2] == 0x3f))
  }

  lemma EmptyOrNul(path: Wide, cwd: Wide)
    requires path == [] || 0 in path
    ensures Parse(path, cwd) == Err(PathTypes.InvalidPath)
  {
  }

  lemma PrefixesInFull(path: Wide)
    ensures EXTENDED <= path <==> Extended(path)
    ensures (DEVICE <= path || StartsIgnoringCase(path, NT_OBJECT)) <==> Namespace(path)
  {
    assert StartsIgnoringCase(path, NT_OBJECT) <==>
           |path| >= 4 && Upper(path[0]) == 0x5c && Upper(path[1]) == 0x3f && Upper(path[2]) == 0x3f
           && Upper(path[3]) == 0x5c;
  }

  lemma NamespaceIsUnsupported(path: Wide, cwd: Wide)
    requires Plain(path) && Namespace(path)
    ensures Parse(path, cwd) == Err(PathTypes.UnsupportedWindowsNamespace)
  {
    hide StartsIgnoringCase, ClassifyExtended, ParseUncTail, ParseDrive, SegmentsOf;
    PrefixesInFull(path);
  }

  /** A drive letter without a separator behind its colon. */
  lemma DriveRelativeIsUnsupported(path: Wide, cwd: Wide)
    requires Plain(path) && NamesDrive(path) && !StartsAtDrive(path)
    ensures Parse(path, cwd) == Err(PathTypes.UnsupportedWindowsNamespace)
  {
    hide StartsIgnoringCase, ClassifyExtended, ParseUncTail, ParseDrive, SegmentsOf;
    PrefixesInFull(path);
  }

  /** What a text that starts at a drive reads as: the drive in capitals, and what it adds. */
  function DriveMeaning(path: Wide): Parsed
    requires StartsAtDrive(path)
  {
    Parsed([Capital(path[0]), 0x3a, 0x5c], Pieces(path[3..]) + if EndsDirectory(path) then [[0x2e]] else [])
  }

  lemma DriveInFull(input: Wide)
    requires StartsAtDrive(input)
    ensures ParseDrive(input) ==
            if SoundPieces(input[3..]) then Ok(DriveMeaning(input)) else Err(PathTypes.InvalidPath)
    ensures input[0 := Upper(input[0])][3..] == input[3..] && StartsAtDrive(input[0 := Upper(input[0])])
    ensures ParseDrive(input[0 := Upper(input[0])]) == ParseDrive(input)
  {
    hide Split, NonEmpty, SegmentsOf, SoundPieces;
    SegmentsInFull(input[3..]);
    OnlySeparators(input[3..]);
    var disk := input[0 := Upper(input[0])];
    assert disk[3..] == input[3..];
    assert |input| > 3 ==> Last(input) == input[3..][|input| - 4] == Last(disk);
  }

  /** A path on a drive does not depend on the working directory. */
  lemma DriveLaw(path: Wide, cwd: Wide)
    requires Plain(path) && StartsAtDrive(path)
    ensures Parse(path, cwd) ==
            if SoundPieces(path[3..]) then Ok(DriveMeaning(path)) else Err(PathTypes.InvalidPath)
  {
    hide StartsIgnoringCase, ClassifyExtended, ParseUncTail, ParseDrive, SegmentsOf, SoundPieces, DriveMeaning;
    PrefixesInFull(path);
    DriveInFull(path);
  }

  /** What a working directory contributes. It has to be absolute. */
  function BaseMeaning(cwd: Wide): Fallible<Parsed> {
    if 0 in cwd then Err(PathTypes.InvalidPath)
    else if Parse(cwd, cwd).Ok? then Parse(cwd, cwd)
    else Err(PathTypes.InvalidContext)
  }

  lemma BaseInFull(cwd: Wide)
    ensures Base(cwd) == BaseMeaning(cwd)
  {
    hide Classify;
    if cwd == [] { assert Classify(cwd) == Invalid() by { EmptyIsInvalid(); } }
  }

  lemma EmptyIsInvalid()
    ensures Classify([]) == Invalid()
  {
  }

  /** A relative path: the components of the working directory, then those of the path. */
  lemma RelativeLaw(path: Wide, cwd: Wide)
    requires Plain(path) && !Separates(path[0]) && !NamesDrive(path)
    ensures Parse(path, cwd) ==
            if !SoundPieces(path) then Err(PathTypes.InvalidPath)
            else if BaseMeaning(cwd).Err? then BaseMeaning(cwd)
            else Ok(Parsed(BaseMeaning(cwd).value.root, BaseMeaning(cwd).value.segments + Added(path)))
  {
    hide StartsIgnoringCase, ClassifyExtended, ParseUncTail, ParseDrive, SegmentsOf, SoundPieces, Added, Marked;
    hide Base, BaseMeaning, Pieces;
    PrefixesInFull(path);
    BaseInFull(cwd);
    SegmentsInFull(path);
  }

  /** A path with one leading separator: the drive of the working directory, and the components
      of the path alone. */
  lemma RootRelativeLaw(path: Wide, cwd: Wide)
    requires Plain(path) && Separates(path[0]) && !TwoSeparators(path) && !Namespace(path)
    ensures Parse(path, cwd) ==
            if !SoundPieces(path[1..]) then Err(PathTypes.InvalidPath)
            else if BaseMeaning(cwd).Err? then BaseMeaning(cwd)
            else if !StartsAtDrive(cwd) && !(Extended(cwd) && StartsAtDrive(cwd[4..]))
            then Err(PathTypes.InvalidContext)
            else Ok(Parsed(BaseMeaning(cwd).value.root, Added(path[1..])))
  {
    hide StartsIgnoringCase, ClassifyExtended, ParseUncTail, ParseDrive, SegmentsOf, SoundPieces, Added, Marked;
    hide Base, BaseMeaning, Pieces;
    PrefixesInFull(path);
    BaseInFull(cwd);
    SegmentsInFull(path[1..]);
    if BaseMeaning(cwd).Ok? { RootOfBase(cwd); }
  }

  lemma RootOfBase(cwd: Wide)
    requires Base(cwd).Ok?
    ensures IsDriveRoot(Base(cwd).value.root) <==> StartsAtDrive(cwd) || (Extended(cwd) && StartsAtDrive(cwd[4..]))
  {
    hide StartsIgnoringCase, SegmentsOf, ExtendedUnc, ExtendedDisk, OrdinaryComponent, Find;
    PrefixesInFull(cwd);
    if Extended(cwd) && IsDiskBody(cwd[4..]) { DiskIsNoNamespace(cwd[4..]); }
    forall tail | ParseUncTail(tail).Ok? ensures ParseUncTail(tail).value.root[..2] == [0x5c, 0x5c] { }
  }

  // Shares

  /** A server and a share, separated, and what follows the share: nothing or a separator. */
  predicate ShareParts(tail: Wide, server: Wide, share: Wide, rest: Wide) {
    && server != [] && share != []
    && (forall i :: 0 <= i < |server| ==> !Separates(server[i]))
    && (forall i :: 0 <= i < |share| ==> !Separates(share[i]))
    && |tail| > |server| && Separates(tail[|server|])
    && (rest != [] ==> Separates(rest[0]))
    && tail == server + [tail[|server|]] + share + rest
  }

  function ShareMeaning(server: Wide, share: Wide, rest: Wide): Parsed {
    Parsed([0x5c, 0x5c] + server + [0x5c] + share + [0x5c], Added(rest))
  }

  /** What a text behind two separators is refused with or reads as. */
  ghost predicate ReadsShare(tail: Wide, result: Fallible<Parsed>) {
    && (forall server, share, rest :: ShareParts(tail, server, share, rest) ==>
          result == if SoundName(server) && SoundName(share) && SoundPieces(rest)
                    then Ok(ShareMeaning(server, share, rest)) else Err(PathTypes.InvalidPath))
    && ((forall server, share, rest :: !ShareParts(tail, server, share, rest)) ==>
          result == Err(PathTypes.UnsupportedWindowsNamespace))
  }

  lemma PartsOfName(name: Wide, rest: Wide)
    requires name != [] && (forall i :: 0 <= i < |name| ==> !Separates(name[i])) && (rest != [] ==> Separates(rest[0]))
    ensures var text := name + rest;
            && StartsName(text) && Find(text, SEPARATORS) == |name|
            && Before(text, SEPARATORS) == name && After(text, SEPARATORS) == rest[if rest == [] then 0 else 1..]
  {
    hide Find;
    var text := name + rest;
    assert text[..|name|] == name && text[|name|..] == rest;
    assert text[0] == name[0];
    var i := Find(text, SEPARATORS);
    assert forall k :: 0 <= k < |name| ==> text[k] == name[k];
    assert rest != [] ==> text[|name|] == rest[0];
    assert rest != [] ==> text[|name| + 1..] == rest[1..];
  }

  lemma ShareNames(tail: Wide, server: Wide, share: Wide, rest: Wide)
    requires ShareParts(tail, server, share, rest)
    ensures UncNames(tail) == Ok((server, share, rest[if rest == [] then 0 else 1..]))
  {
    hide Find, Before, After, StartsName;
    var more := [tail[|server|]] + share + rest;
    assert tail == server + more && more[1..] == share + rest;
    PartsOfName(server, more);
    PartsOfName(share, rest);
  }

  /** A leading separator adds no piece. */
  lemma PiecesAfterSeparator(rest: Wide)
    requires rest != [] && Separates(rest[0])
    ensures Pieces(rest) == Pieces(rest[1..])
  {
    var pieces := Split(rest[1..], {0x5c, 0x2f});
    assert ([[]] + pieces)[1..] == pieces;
  }

  lemma ShareReads(tail: Wide, server: Wide, share: Wide, rest: Wide)
    requires ShareParts(tail, server, share, rest)
    ensures ParseUncTail(tail) ==
            if SoundName(server) && SoundName(share) && SoundPieces(rest)
            then Ok(ShareMeaning(server, share, rest)) else Err(PathTypes.InvalidPath)
  {
    hide Split, NonEmpty, SegmentsOf, UncNames, SoundName, ValidComponent, Pieces;
    var remainder := rest[if rest == [] then 0 else 1..];
    ShareNames(tail, server, share, rest);
    NamesAreSound(server);
    NamesAreSound(share);
    SegmentsInFull(remainder);
    if rest != [] { PiecesAfterSeparator(rest); }
    assert Pieces(rest) == Pieces(remainder);
    EndOfShare(tail, server, share, rest);
  }

  lemma EndOfShare(tail: Wide, server: Wide, share: Wide, rest: Wide)
    requires ShareParts(tail, server, share, rest)
    ensures EndsInSeparator(tail) <==> EndsDirectory(rest)
  {
    assert rest == [] ==> Last(tail) == Last(share);
    assert rest != [] ==> Last(tail) == Last(rest);
  }

  lemma CutTwice(tail: Wide, k: nat, m: nat)
    requires k < |tail| && m < |tail| - k
    ensures tail == tail[..k] + [tail[k]] + tail[k + 1..][..m] + tail[k + 1..][m..]
  {
  }

  lemma PartsOfUnc(tail: Wide)
    requires UncNames(tail).Ok?
    ensures exists server, share, rest :: ShareParts(tail, server, share, rest)
  {
    var k := Find(tail, SEPARATORS);
    var after := tail[k + 1..];
    var m := Find(after, SEPARATORS);
    var server, share, rest := tail[..k], after[..m], after[m..];
    CutTwice(tail, k, m);
    assert share[0] == after[0] && m > 0;
    assert ShareParts(tail, server, share, rest);
  }

  lemma UncInFull(tail: Wide)
    ensures ReadsShare(tail, ParseUncTail(tail))
  {
    hide ParseUncTail, ShareMeaning, SoundName, SoundPieces, ShareParts;
    forall server, share, rest | ShareParts(tail, server, share, rest)
      ensures ParseUncTail(tail) == if SoundName(server) && SoundName(share) && SoundPieces(rest)
                                    then Ok(ShareMeaning(server, share, rest)) else Err(PathTypes.InvalidPath)
    {
      ShareReads(tail, server, share, rest);
    }
    if UncNames(tail).Ok? { PartsOfUnc(tail); } else { NoNames(tail); }
  }

  lemma NoNames(tail: Wide)
    requires UncNames(tail).Err?
    ensures ParseUncTail(tail) == Err(PathTypes.UnsupportedWindowsNamespace)
  {
  }

  /** A share does not depend on the working directory. */
  lemma ShareLaw(path: Wide, cwd: Wide)
    requires Plain(path) && TwoSeparators(path) && !Extended(path) && !Namespace(path)
    ensures ReadsShare(path[2..], Parse(path, cwd))
  {
    hide StartsIgnoringCase, ClassifyExtended, ParseUncTail, ParseDrive, SegmentsOf, ReadsShare;
    PrefixesInFull(path);
    UncInFull(path[2..]);
  }

  // Extended paths

  predicate ExtendedShare(body: Wide) {
    |body| >= 4 && Spells(body[..3], "UNC") && body[3] == 0x5c
  }

  predicate OnlySingleBackslashes(text: Wide) {
    && (forall i :: 0 <= i < |text| ==> text[i] != 0x2f)
    && (forall i :: 0 <= i < |text| - 1 ==> !(text[i] == 0x5c && text[i + 1] == 0x5c))
  }

  /** The stretches between backslashes, from one on, are neither a dot nor two. */
  predicate NoDotsFrom(text: Wide, first: nat) {
    var pieces := Split(text, {0x5c});
    forall i :: first <= i < |pieces| ==> pieces[i] != [0x2e] && pieces[i] != [0x2e, 0x2e]
  }

  /** What may stand behind the root of an extended path on a drive. */
  predicate PlainBelowDrive(suffix: Wide) {
    OnlySingleBackslashes(suffix) && (suffix != [] ==> suffix[0] != 0x5c) && NoDotsFrom(suffix, 0)
  }

  /** What may stand behind the prefix of an extended share: the first two names are the server
      and the share. */
  predicate PlainBelowShare(tail: Wide) {
    OnlySingleBackslashes(tail) && 0x5c in tail && NoDotsFrom(tail, 2)
  }

  lemma ShareByPrefix(body: Wide)
    ensures StartsIgnoringCase(body, UNC) <==> ExtendedShare(body)
  {
    if |body| >= 4 {
      var name := body[..3];
      SpellsUpper(name, "UNC", [0x55, 0x4e, 0x43]);
      assert forall i :: 0 <= i < 3 ==> UpperAll(name)[i] == Upper(body[i]);
      assert UpperAll(name) == [0x55, 0x4e, 0x43] <==>
             Upper(body[0]) == 0x55 && Upper(body[1]) == 0x4e && Upper(body[2]) == 0x43;
      assert Upper(body[3]) == 0x5c <==> body[3] == 0x5c;
    }
  }

  lemma SinglesByPairs(text: Wide)
    ensures OnlySingleBackslashes(text) <==> SLASH !in text && !HasDoubledBackslash(text)
  {
    if OnlySingleBackslashes(text) {
      forall i | 0 < i < |text| ensures !(text[i - 1] == BACKSLASH && text[i] == BACKSLASH) {
        assert text[i - 1 + 1] == text[i];
      }
    } else if i :| 0 <= i < |text| - 1 && text[i] == 0x5c && text[i + 1] == 0x5c {
      assert text[i + 1 - 1] == text[i];
    }
  }

  lemma BelowDrive(suffix: Wide)
    ensures ExtendedDisk(suffix) <==> PlainBelowDrive(suffix)
  {
    hide Split, OnlySingleBackslashes, HasDoubledBackslash;
    SinglesByPairs(suffix);
  }

  /** Cutting off the first stretch. */
  lemma {:induction false} SplitAfter(text: Wide)
    requires 0x5c in text
    ensures |Split(text, {0x5c})| >= 2
    ensures Split(After(text, {0x5c}), {0x5c}) == Split(text, {0x5c})[1..]
  {
    hide Split;
    var k := Find(text, {0x5c});
    var rest := text[k + 1..];
    assert text == text[..k] + [0x5c] + rest;
    SplitFirst(text[..k], 0x5c, rest, {0x5c});
  }

  lemma AfterNone(text: Wide)
    requires 0x5c !in text
    ensures After(text, {0x5c}) == [] && Split(text, {0x5c}) == [text]
  {
    SplitPiece(text, {0x5c});
  }

  lemma DotsAfterShare(tail: Wide)
    requires 0x5c in tail
    ensures HasDotPiece(After(After(tail, {0x5c}), {0x5c})) <==> !NoDotsFrom(tail, 2)
  {
    hide Split, After;
    var pieces := Split(tail, {0x5c});
    var after := After(tail, {0x5c});
    var last := After(after, {0x5c});
    SplitAfter(tail);
    if 0x5c in after {
      SplitAfter(after);
      assert Split(last, {0x5c}) == pieces[2..];
      assert forall i :: 2 <= i < |pieces| ==> pieces[i] == pieces[2..][i - 2];
    } else {
      AfterNone(after);
      AfterNone([]);
      assert pieces[1..] == [after];
    }
  }

  lemma BelowShare(tail: Wide)
    ensures ExtendedUnc(tail) <==> PlainBelowShare(tail)
  {
    hide OnlySingleBackslashes, HasDoubledBackslash, HasDotPiece, NoDotsFrom, After;
    SinglesByPairs(tail);
    if 0x5c in tail { DotsAfterShare(tail); }
  }

  /** An extended path names a share or starts at a drive, in plain form, and then reads as the
      share or the drive does. It does not depend on the working directory. */
  lemma ExtendedLaw(path: Wide, cwd: Wide)
    requires Plain(path) && Extended(path)
    ensures var body := path[4..];
            if ExtendedShare(body) && PlainBelowShare(body[4..]) then ReadsShare(body[4..], Parse(path, cwd))
            else if !ExtendedShare(body) && StartsAtDrive(body) && PlainBelowDrive(body[3..])
            then Parse(path, cwd) ==
                 if SoundPieces(body[3..]) then Ok(DriveMeaning(body)) else Err(PathTypes.InvalidPath)
            else Parse(path, cwd) == Err(PathTypes.UnsupportedWindowsNamespace)
  {
    hide StartsIgnoringCase, ExtendedShare, ParseUncTail, ParseDrive, SegmentsOf, ReadsShare, SoundPieces, DriveMeaning;
    hide ExtendedUnc, ExtendedDisk, PlainBelowShare, PlainBelowDrive;
    var body := path[4..];
    PrefixesInFull(path);
    ShareByPrefix(body);
    if StartsIgnoringCase(body, UNC) {
      LongEnough(body);
      BelowShare(body[4..]);
      UncInFull(body[4..]);
    } else if StartsAtDrive(body) {
      BelowDrive(body[3..]);
      DriveInFull(body);
    }
  }

  lemma LongEnough(body: Wide)
    requires StartsIgnoringCase(body, UNC)
    ensures |body| >= 4
  {
  }
}
