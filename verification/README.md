# Verified model of the policy language and the normalizer

This project models, in Dafny, the deterministic core of two crates and proves what they
promise.

`crates/policy-normalizer` turns operations into comparable resources:

- **Paths.** `PathTypes`, `UnixPaths`, `Snapshot`, `InPlaceWalk`, `Resolver`, `PathTheorems`,
  `MappedRoots` and `Normalizer` model path resolution over one immutable filesystem
  snapshot, with symbolic links, naming rules per directory, `..` after link resolution, a
  bound of 40 nested links and an optional absent leaf. `InPlaceWalk` is the reference: pathname
  resolution in the manner of section 4.13 of the Base Definitions of POSIX.1-2017, which
  follows a link from the directory that holds it. `Resolver` is the program: it starts over
  at the root for every link and keeps growing and shrinking path buffers. The two are proved
  to return the same report or the same error, and everything else about paths is proved of
  the reference. `PathLaws` says what one part means in a directory, where a path is read from
  and how it fails, with bytes and bounds written out.
- **Windows path text.** `WindowsPaths` and `WindowsTheorems` model drive, UNC and extended
  paths over sixteen-bit units. `WindowsLaws` gives the answer for every text, form by form,
  with the units and the device names written out.
- **Commands.** `CommandLexer`, `CommandLexerTheorems`, `CommandText`, `CommandFaults`,
  `CommandParser`, `CommandParserTheorems`, `CommandClassification` and `CommandLimits` model
  the lexer, the splitting into operations, transparent wrappers and classification.
  `CommandText` is the reference: a grammar of fragments, blanks and operators in the manner of
  sections 2.2.1 to 2.2.3 of the Shell Command Language of POSIX.1-2017, which the lexer is
  proved to accept exactly. `CommandFaults` says which fault every lexing error is, and
  `CommandClassification` ties actions and refusals to the words, which it writes out.

`crates/policy-language` turns a document into a validated policy:

- **Documents.** `FieldPaths`, `YamlEvents`, `YamlReader` and `YamlTheorems` model the event
  reader, with locations recorded under field paths. `YamlMarks` says where and what every
  value is, from the marks and texts of its events, and `YamlFaults` what every error is: the
  recursive reader is proved to be one loop over an explicit stack. `PolicySyntax` decodes the
  located tree; `PolicyDocuments` writes policies as documents and reads them back,
  `PolicySchema` says which documents decode at all and which decode to the same policy,
  `PolicyMeaning` what an accepted document says, and `PolicyFaults` why another is refused.
- **Selectors and validation.** `PathPattern` and `NetworkHost` model the two grammars, and
  `SelectorTexts` writes out what they accept; `Validation` models the ordered checks.
  `PolicyLocations` and `PolicyDiagnostics` connect parsing to validation: whatever validation
  reports has been located.

`Common`, `Splitting`, `Characters` and `Actions` hold shared definitions, and `CodePoints`
gives the character classes by number.

Where the source changes state, the model is a method or a class proved against a function
(`Resolver.Resolve` against `Resolver.Resolution`, `CommandLexer.LexLine` against
`CommandLexer.Lex`, `YamlReader.Reader` against `YamlEvents.ReadDocument`); what the source
promises is then proved of that function, in terms of the texts, bytes, words and marks that
go in and not of the function itself.

Four promises hold only in part. The model keeps the code as it is, proves for every input
when each holds, and shows an input where it does not:

- A newline before the first token of a command emits a separator, while after a separator it
  emits none. `LexComposes` proves that lexing `a;b` is lexing `a`, a separator and `b`
  exactly unless `b` lexes and has such a newline; `NewlineDoesNotCompose` gives `x` and a
  newline with `y`.
- An escaped character is not checked for NUL, so a word can hold one, and printing such a
  word in single quotes is rejected. `ReparseIsStable` proves that parsing, printing and
  parsing is stable exactly for the sources without a NUL; `EscapedNulDoesNotReparse` gives a
  backslash followed by a NUL.
- A lone separator, read against a drive, and a share whose name runs to the end of the text
  have no components, while their printed root ends in a separator and reads back with a
  directory marker. `ParseIsCanonical` proves that these are the only paths whose printed form
  reads back differently; `LoneSeparatorIsMarked` gives a single backslash and
  `BareShareIsMarked` the share `\\a\b`.
- A wrapper is transparent only in front of a word without a leading hyphen and, for `env`,
  without an equals sign. `WrapperIsTransparent` proves that these are the only exceptions;
  `OptionStopsWrapper` gives `time -x` and `EqualsStopsEnv` gives `env 1=2`, where `-x` and
  `1=2` parse alone.

## Model

| member | source | states |
|---|---|---|
| PathTypes.NameKeyIsCanonical | crates/policy-normalizer/src/paths/types.rs:36-60 | a name has a key exactly when it is plain and, outside exact directories, ASCII; a key is its own key |
| PathTypes.SameKey | crates/policy-normalizer/src/paths/types.rs:36-60 | two names share a key exactly when they are equal, or equal up to ASCII case where the directory ignores it |
| UnixPaths.Parse | crates/policy-normalizer/src/paths/platform/unix.rs:10-37 | the buffer that is extended, split and filtered gives the parts of the working directory, those of the path, and a marker for a final separator, or the same error |
| UnixPaths.SegmentsOfRender | crates/policy-normalizer/src/paths/platform/unix.rs:10-37 | a rendered canonical path is read back as exactly its names, without a marker |
| Snapshot.StoredName | crates/policy-normalizer/src/paths/platform/unix.rs:52-71 | where the directory ignores case, the scan returns the spelling of the entry that a lookup by key finds, or the same error; elsewhere the name itself |
| InPlaceWalk.WalkIsSound | crates/policy-normalizer/src/paths/resolver.rs:111-163 | a walk from a canonical position ends at an existing canonical position, or at a name without a matching entry in a canonical directory |
| InPlaceWalk.Rewalk | crates/policy-normalizer/src/paths/resolver.rs:111-163 | walking a canonical prefix again from where it starts leads back to it, so the rest is walked from there |
| InPlaceWalk.WalkConcat | crates/policy-normalizer/src/paths/resolver.rs:111-163 | a walk over two stretches is the second walked from where the first ends, with the errors of an absent intermediate name |
| Resolver.Resolve | crates/policy-normalizer/src/paths/resolver.rs:83-163 | the resolver that restarts at the root for every link returns the report or error of the in-place walk, for every tree, path, working directory, requirement and depth |
| Resolver.ResolveName | crates/policy-normalizer/src/paths/resolver.rs:124-160 | one ordinary part, whether link, entry, absent leaf or failure, leads where the in-place walk leads |
| Resolver.ResolvePart | crates/policy-normalizer/src/paths/resolver.rs:111-160 | one part, including `.` and `..` and a part beneath something that is no directory, leads where the in-place walk leads |
| Resolver.RestartIsInPlace | crates/policy-normalizer/src/paths/resolver.rs:129-140 | resolving a link target against the canonical current directory from the root is following the link in place, with errors mapped |
| MappedRoots.ResolveMapped | crates/policy-normalizer/src/paths/resolver.rs:95-163 | below a root that is itself a path, the root is resolved first with one level of links fewer, its naming rules are checked, and the parts are walked from there |
| MappedRoots.MappedIsDirect | crates/policy-normalizer/src/paths/resolver.rs:95-108 | what resolves below a mapped root has the same absolute path, components, identity and existence as the path written out below the other root |
| MappedRoots.MappedInFull | crates/policy-normalizer/src/paths/resolver.rs:95-163 | every answer below a mapped root, errors included: the root must resolve, one level deeper, to a directory with known rules, and then the answer is that of the path written out |
| PathTheorems.ResultsAreCanonical | crates/policy-normalizer/src/paths/resolver.rs:83-163 | the absolute path is the root joined with the component names; every proper prefix is an existing directory in stored spelling with its recorded semantics |
| PathTheorems.ResolutionIsIdempotent | crates/policy-normalizer/src/paths/resolver.rs:83-163 | resolving the absolute path of a result, from anywhere and at any permitted depth, returns the whole result |
| PathTheorems.RequirementsDifferOnAbsentLeaves | crates/policy-normalizer/src/paths/resolver.rs:147-163 | requiring existence fails with a missing target exactly when allowing a missing leaf succeeds without one; otherwise they agree |
| PathTheorems.TrailingDotsNeedDirectories | crates/policy-normalizer/src/paths/platform/unix.rs:32-35 | a path text that ends in a separator, is `.` or `..`, or ends in one of them behind a separator, resolves to an existing directory or fails |
| PathTheorems.DepthIsMonotone | crates/policy-normalizer/src/paths/resolver.rs:83-140 | any result other than an unresolved link is the same at every smaller depth |
| PathTheorems.MoreLinks | crates/policy-normalizer/src/paths/resolver.rs:83-140 | the same for every bound on nested links in place of 40 |
| PathTheorems.UnresolvedForeverExactly | crates/policy-normalizer/src/paths/resolver.rs:90-140 | a link is unresolved under every bound exactly when it belongs to a set of links each of which breaks off (at a missing name, beneath no directory, or at an unreadable link) or leads through a link of the set |
| PathTheorems.CircularLinksNeverResolve | crates/policy-normalizer/src/paths/resolver.rs:90-140 | a link whose resolution runs through any cycle of links is unresolved under every bound |
| PathTheorems.CircularPathsNeverResolve | crates/policy-normalizer/src/paths/resolver.rs:90-140 | the path of such a link is unresolved from everywhere, at every depth |
| Normalizer.IdentityNeverFails | crates/policy-normalizer/src/paths/resolver.rs:70-81 | every result has an identity: for each name the rules of its directory and its key |
| Normalizer.IdentityIsExact | crates/policy-normalizer/src/paths/types.rs:80-101 | two results are equal exactly when they name the same existing entry, or an absent leaf with the same key in the same directory |
| Normalizer.ContextDirectory | crates/policy-normalizer/src/paths/resolver.rs:165-180 | a context path must be absolute and resolve to an existing directory; which failures are kept |
| Normalizer.ContainmentByKeys | crates/policy-normalizer/src/paths/resolver.rs:191-196 | comparing identities by prefix is comparing positions in the tree by prefix |
| Normalizer.JoinNames | crates/policy-normalizer/src/paths/resolver.rs:198-206 | the loop builds the remaining names joined by separators, and `.` for none |
| Normalizer.Normalize | crates/policy-normalizer/src/paths/resolver.rs:182-217 | normalization returns what the reference `Normalized` says, or its first error; `PathLaws.NormalizedIsWalked` and `PathLaws.RelativeIsBelowWorkingDirectory` say what that is |
| Normalizer.ContainmentIsDescent | crates/policy-normalizer/src/paths/resolver.rs:182-217 | the relative name is present exactly when the target is the repository or below it, and normalizing it from the repository gives the whole result again |
| Normalizer.AbsoluteJoinsRelative | crates/policy-normalizer/src/paths/resolver.rs:193-217 | the absolute path is the repository's joined with the relative name, which is `.` exactly for the repository |
| Normalizer.ResourcesAreComplete | crates/policy-normalizer/src/paths/resolver.rs:236-258 | a resource that does not fit the action is an invalid path; otherwise the endpoints are what normalizing each alone gives, or the first failure and no partial pair; only a write may name an absent source, only a rename has a destination |
| PathLaws.AcceptableHasKey | crates/policy-normalizer/src/paths/types.rs:36-60 | a name has a key exactly when it is no dot segment and nonempty, holds neither the byte 0 nor 47, and outside exact directories has only bytes below 128; which error it has otherwise |
| PathLaws.KeysAreNames | crates/policy-normalizer/src/paths/types.rs:36-60 | two names share a key exactly when they are the same bytes, or the directory ignores case and they agree up to a difference of 32 in letters |
| PathLaws.EntryLaw | crates/policy-normalizer/src/paths/resolver.rs:111-160 | a name in a directory leads to its first entry: to a file or directory under the stored spelling, through a link to where its target leads from there with one level fewer, or to the failure of reading the link |
| PathLaws.AbsentLaw | crates/policy-normalizer/src/paths/resolver.rs:147-163 | a name without an entry is an absent leaf where one is permitted and a missing target otherwise |
| PathLaws.DotLaws | crates/policy-normalizer/src/paths/resolver.rs:111-123 | a dot stays, a double dot drops the last name, and the root is its own parent |
| PathLaws.RefusalLaws | crates/policy-normalizer/src/paths/resolver.rs:111-128 | what is beneath no directory, below unknown naming rules, or no permitted name is refused, each with its error |
| PathLaws.StretchLaw | crates/policy-normalizer/src/paths/resolver.rs:111-163 | two stretches are walked one after the other; a target missing on the first is a missing parent |
| PathLaws.DepthLaw | crates/policy-normalizer/src/paths/resolver.rs:83-95 | the root resolves at depths up to 39 if its naming rules are known, and not from 40 on |
| PathLaws.PathErrors | crates/policy-normalizer/src/paths/platform/unix.rs:10-31 | an empty path and one with the byte 0 are invalid, and a relative one needs an absolute working directory |
| PathLaws.RelativeIsBelowWorkingDirectory | crates/policy-normalizer/src/paths/resolver.rs:182-190 | a relative path normalizes to the answer of the absolute text that is the resolved working directory with the path pushed onto it, whatever other working directory is accepted |
| PathLaws.AbsoluteIgnoresWorkingDirectory | crates/policy-normalizer/src/paths/resolver.rs:182-190 | an absolute path normalizes to the same answer for every accepted working directory |
| PathLaws.NormalizedIsWalked | crates/policy-normalizer/src/paths/resolver.rs:182-217 | the answer for a path is where its parts lead, walked from the working directory or from the root with 39 levels of links: the error, or the absolute path, the component names and the existence of the place |
| PathLaws.ContextFailures | crates/policy-normalizer/src/paths/resolver.rs:165-189 | the repository is examined first and then the working directory; a context that is not absolute, leads nowhere or to no directory is invalid, and only failures about naming rules and namespaces keep their kind |
| PathLaws.PathsAreWritten | crates/policy-normalizer/src/paths/resolver.rs:102-158 | absolute paths have one separator in front of each name, relative ones only between names |
| WindowsPaths.IsLegacyDeviceName | crates/policy-normalizer/src/paths/platform/windows.rs:434-469 | the popping loop decides whether the trimmed uppercase stem is a device name |
| WindowsPaths.ValidateComponent | crates/policy-normalizer/src/paths/platform/windows.rs:400-432 | a component is accepted exactly when it is an allowed dot segment, or nonempty, free of reserved units, without a final space or dot, and no device name |
| WindowsPaths.SplitSegments | crates/policy-normalizer/src/paths/platform/windows.rs:378-398 | the loop returns the nonempty pieces between separators and whether one is final, when every piece is valid |
| WindowsPaths.ParsePath | crates/policy-normalizer/src/paths/platform/windows.rs:81-120 | the parser as it runs, with its copied and extended buffers and the segment loop, returns what the reference `Parse` says; the laws below say what that is for every text |
| WindowsTheorems.ParseIsCanonical | crates/policy-normalizer/src/paths/platform/windows.rs:81-120 | an accepted path has a canonical root and valid components, and its printed form is accepted from any working directory with the same root, and with the same components exactly when the path is neither a lone separator nor a bare share |
| WindowsTheorems.NoComponents | crates/policy-normalizer/src/paths/platform/windows.rs:262-335 | an accepted path has no components exactly when its text is one separator, or a share whose name runs to the end |
| WindowsTheorems.LoneSeparatorIsMarked | crates/policy-normalizer/src/paths/platform/windows.rs:262-265 | a single backslash read against a drive is its bare root, which reads back with a directory marker |
| WindowsTheorems.BareShareIsMarked | crates/policy-normalizer/src/paths/platform/windows.rs:318-335 | a share without a trailing separator is its bare root, which reads back with a directory marker |
| WindowsTheorems.DriveRendered | crates/policy-normalizer/src/paths/platform/windows.rs:277-292 | a canonical drive root followed by joined components is classified as exactly those |
| WindowsTheorems.UncRendered | crates/policy-normalizer/src/paths/platform/windows.rs:294-335 | a share root followed by joined components is classified as exactly those, and never as a namespace prefix |
| WindowsTheorems.ExtendedIsOrdinary | crates/policy-normalizer/src/paths/platform/windows.rs:216-247 | an extended path is accepted exactly when it is plain and its ordinary form is accepted; it then means the same, has no `..`, and has `.` only as the marker of a final separator |
| WindowsTheorems.DeviceWithExtension | crates/policy-normalizer/src/paths/platform/windows.rs:434-444 | an extension does not change whether a name is reserved |
| WindowsTheorems.DeviceInAnyCase | crates/policy-normalizer/src/paths/platform/windows.rs:445-469 | nor does the case of its letters |
| WindowsLaws.RelativeLaw | crates/policy-normalizer/src/paths/platform/windows.rs:103-109 | a path without a leading separator or drive is the root and components of the working directory followed by the nonempty pieces of the path, and a dot if a separator ends it; a bad piece, a NUL or a working directory that is not absolute is refused, each with its error |
| WindowsLaws.RootRelativeLaw | crates/policy-normalizer/src/paths/platform/windows.rs:92-102 | a path with one leading separator is the drive root of the working directory and the pieces of the path alone; a working directory without a drive is refused |
| WindowsLaws.DriveLaw | crates/policy-normalizer/src/paths/platform/windows.rs:254-292 | a path on a drive is its letter in capitals and its pieces, whatever the working directory |
| WindowsLaws.ShareLaw | crates/policy-normalizer/src/paths/platform/windows.rs:251-335 | two separators are followed by a server, a share and pieces, both names sound, or the path is refused |
| WindowsLaws.ExtendedLaw | crates/policy-normalizer/src/paths/platform/windows.rs:221-240 | the extended prefix is followed by the share word in any case or by a drive, then only single backslashes and no dot segments, and reads as the share or drive does; anything else is an unsupported namespace |
| WindowsLaws.NamespaceIsUnsupported | crates/policy-normalizer/src/paths/platform/windows.rs:242-250 | the device prefix and the prefix of object names are unsupported namespaces |
| WindowsLaws.DriveRelativeIsUnsupported | crates/policy-normalizer/src/paths/platform/windows.rs:254-257 | a drive letter and a colon without a separator are an unsupported namespace |
| WindowsLaws.EmptyOrNul | crates/policy-normalizer/src/paths/platform/windows.rs:216-219 | an empty path and one with a zero unit are invalid |
| WindowsLaws.NamesAreSound | crates/policy-normalizer/src/paths/platform/windows.rs:400-432 | a component is accepted exactly when it is a dot segment where they are allowed, or nonempty, free of the listed units, without a final space or dot, and no device name |
| WindowsLaws.DevicesAreNamed | crates/policy-normalizer/src/paths/platform/windows.rs:434-469 | a component is reserved exactly when it is one of the device names in any case, spaces, and the end or a dot |
| CommandLexer.FlushWord | crates/policy-normalizer/src/commands.rs:446-464 | a pending word becomes one token with its start and quoting, and the buffers are reset |
| CommandLexer.LexCharacter | crates/policy-normalizer/src/commands.rs:216-427 | one turn of the character loop makes the move of the automaton, or fails as it does |
| CommandLexer.LexLine | crates/policy-normalizer/src/commands.rs:206-444 | the loop over buffers, flags and offsets returns the tokens or error of the automaton run |
| CommandLexerTheorems.LexShifts | crates/policy-normalizer/src/commands.rs:206-444 | lexing a text further into a source only moves its offsets, in tokens and errors |
| CommandLexerTheorems.LexBeforeSemicolon | crates/policy-normalizer/src/commands.rs:206-444 | text that lexes, followed by a semicolon and more, lexes to its tokens, a separator, and what the rest gives after a separator; the percent lookahead stops at the semicolon |
| CommandLexerTheorems.LeadingNewlineSeparates | crates/policy-normalizer/src/commands.rs:293-317 | a newline before the first other character adds one separator in front, unless a separator came last |
| CommandLexerTheorems.LexComposes | crates/policy-normalizer/src/commands.rs:206-476 | when `a` lexes, `a;b` lexes to the tokens of `a`, a separator and the moved result of `b`, exactly unless `b` lexes with a newline before its first other character |
| CommandLimits.NewlineDoesNotCompose | crates/policy-normalizer/src/commands.rs:293-317 | two texts that lex, the second behind a newline, and that do not compose at a semicolon |
| CommandLexerTheorems.OffsetsIncrease | crates/policy-normalizer/src/commands.rs:206-464 | token starts lie inside the source and strictly increase |
| CommandText.AcceptedTextsAreSpellings | crates/policy-normalizer/src/commands.rs:206-476 | the lexer accepts exactly the spellings of valid lines and reads what they spell |
| CommandText.MetacharactersAreInert | crates/policy-normalizer/src/commands.rs:216-427 | in an accepted text every `$` and backtick is in single quotes or behind a backslash, every redirection, grouping, glob, `^` and `!` character is quoted or escaped, and every NUL is behind a backslash, by the quote state of its position in the run |
| CommandText.LineLexes | crates/policy-normalizer/src/commands.rs:206-464 | every valid line lexes to exactly the words and separators it spells, each with the offset of its first byte |
| CommandText.Decompose | crates/policy-normalizer/src/commands.rs:206-444 | every text that lexes from a state outside quotes is a word part followed by a valid line |
| CommandFaults.LexErrorsAreFaults | crates/policy-normalizer/src/commands.rs:206-476 | every text that does not lex has a first fault, with what stands before it lexing: a NUL, an open quote, a final backslash, or an active character outside quotes; the error has its kind and the byte offset of its character |
| CommandParser.UnwrapSupportedWrappers | crates/policy-normalizer/src/commands.rs:542-590 | the loop finds the command behind the wrappers, or the first refused token |
| CommandParser.ReadSegment | crates/policy-normalizer/src/commands.rs:478-507 | one segment is read, with the wrapper loop, to its operation or the first refusal |
| CommandParser.ParseTokens | crates/policy-normalizer/src/commands.rs:130-175 | the loop over tokens with a segment and a trailing separator returns the operations of the segments in order, or the first error |
| CommandParser.ParseCommandLine | crates/policy-normalizer/src/commands.rs:112-176 | blank text is an empty command; otherwise lexing then splitting, with the context unchanged; `CommandClassification` says which words give which action or refusal |
| CommandParserTheorems.OperationsAreWordRuns | crates/policy-normalizer/src/commands.rs:130-175 | words are conserved: the operations are the maximal runs of words, in order |
| CommandParserTheorems.ParseComposes | crates/policy-normalizer/src/commands.rs:112-175 | `a;b` parses exactly when both parse, to the operations of both; otherwise the first failure, with offsets moved |
| CommandParserTheorems.WrapperIsTransparent | crates/policy-normalizer/src/commands.rs:478-590 | a wrapper in front of a segment that parses keeps its action and becomes the executable, exactly when it may stand there |
| CommandLimits.OptionStopsWrapper | crates/policy-normalizer/src/commands.rs:582-587 | a command with a leading hyphen parses alone and is refused behind a wrapper |
| CommandLimits.EqualsStopsEnv | crates/policy-normalizer/src/commands.rs:582-587 | a command with an equals sign parses alone and is refused behind `env` |
| CommandParserTheorems.WrapperChainsAreTransparent | crates/policy-normalizer/src/commands.rs:542-590 | so does any chain of wrappers |
| CommandParserTheorems.PrintedOperationsReparse | crates/policy-normalizer/src/commands.rs:112-176 | printed operations parse to exactly the same operations and actions, when no word holds a NUL |
| CommandParserTheorems.PrintedNulFails | crates/policy-normalizer/src/commands.rs:216-222 | printed operations are rejected when some word holds a NUL |
| CommandParserTheorems.NulIsKept | crates/policy-normalizer/src/commands.rs:216-291 | the words of the parsed operations hold a NUL exactly when the source does |
| CommandParserTheorems.ReparseIsStable | crates/policy-normalizer/src/commands.rs:112-176 | for every source that parses, parse, print, parse is stable exactly when the source has no NUL |
| CommandLimits.EscapedNulDoesNotReparse | crates/policy-normalizer/src/commands.rs:216-222 | a backslash and a NUL parse to an operation that does not survive printing |
| CommandClassification.SegmentsAreClassified | crates/policy-normalizer/src/commands.rs:478-641 | a segment parses to an operation exactly when its first word is no control word or assignment, the words are conserved, and behind permitted wrappers stands a command that is no listed shell, wrapper or builtin; the action is a Git commit, checkout, reset or push exactly for `git` with that word, without the listed options, and otherwise execution |
| CommandClassification.OperationsAreClassified | crates/policy-normalizer/src/commands.rs:592-641 | the same of every operation of a source, by its executable and arguments |
| CommandClassification.DirectoriesDoNotMatter | crates/policy-normalizer/src/commands.rs:643-648 | a command is named by the last name of its path, whatever directory is in front and with or without a final separator or dot |
| CommandClassification.NamesInFull | crates/policy-normalizer/src/commands.rs:643-648 | the name of a command is the last name in its path, in front of any separators and dots; a path without one names itself |
| CommandClassification.SegmentRefusals | crates/policy-normalizer/src/commands.rs:478-641 | a segment is refused exactly for a control word or assignment in front, a shell, unsupported wrapper or unfit word where a command is looked for, a listed builtin, the first `--hard` abbreviation behind `reset` or `--force`, `+` or `f` option behind `push`, or an empty name, each with its kind and the offset of its word |
| CommandClassification.FailuresInFull | crates/policy-normalizer/src/commands.rs:112-175 | a source fails exactly when it is blank, does not lex, or has a first failure in its line: a separator with nothing in front, an operator with nothing behind, or a refused segment |
| CodePoints.WidthByCode | crates/policy-normalizer/src/commands.rs:206-222 | offsets count bytes of UTF-8 |
| CodePoints.WhitespaceByCode | crates/policy-normalizer/src/commands.rs:293-317 | whitespace is the 25 code points with the Unicode property |
| CodePoints.ControlByCode | crates/policy-language/src/validation.rs:103-103 | control characters are the code points up to 31 and from 127 to 159 |
| FieldPaths.RenderPathIsInjective | crates/policy-language/src/parser.rs:22-28 | positions with schema keys and decimal indices have distinct path texts |
| FieldPaths.PathsInFull | crates/policy-language/src/parser.rs:22-28 | a key of the document stands alone, other keys follow a dot, and indices stand in brackets |
| FieldPaths.DecimalIsShortest | crates/policy-language/src/parser.rs:131-133 | indices are written without leading zeros |
| YamlReader.Reader.ReadEvent | crates/policy-language/src/parser.rs:72-103 | one event is consumed, or the scanner failure, tag or anchor is reported with its location |
| YamlReader.Reader.ReadSequence | crates/policy-language/src/parser.rs:129-140 | the loop reads the items to the end of the sequence and records each after its parts |
| YamlReader.Reader.ReadMapping | crates/policy-language/src/parser.rs:141-191 | the loop reads the fields to the end of the mapping with distinct textual keys, and records each |
| YamlReader.Reader.ReadValue | crates/policy-language/src/parser.rs:105-216 | one value is read with its depth limit, its location and the record of every part |
| YamlReader.Reader.ReadWhole | crates/policy-language/src/parser.rs:218-241 | one document that is not null is read, with every value recorded, or the first error; `YamlMarks` and `YamlFaults` say what the values, locations and errors are |
| YamlTheorems.ReadEmitted | crates/policy-language/src/parser.rs:105-216 | the events of every valid tree are read as that tree, leaving what follows |
| YamlTheorems.TreeOfRead | crates/policy-language/src/parser.rs:105-216 | whatever is read was emitted by a valid tree, up to scalar style |
| YamlTheorems.DocumentsAreTrees | crates/policy-language/src/parser.rs:72-241 | a stream is accepted exactly when it is one tree that is not null, without tags and anchors, at most 64 deep, with distinct permitted keys |
| YamlMarks.ValidInFull | crates/policy-language/src/parser.rs:105-191 | the trees of accepted documents are those with fewer than 64 collections around any collection and, in every mapping, distinct keys other than plain nulls and `<<` |
| YamlMarks.DocumentIsWritten | crates/policy-language/src/parser.rs:218-241 | every accepted document holds, from its third event on, the events of a valid tree |
| YamlMarks.ValuesAreMarked | crates/policy-language/src/parser.rs:105-216 | every value of a document is what the events at its position say, and is located at their marks: line and column plus one of its event, and for a mapping those of its first key if that is earlier |
| YamlMarks.LocationsAreMarks | crates/policy-language/src/parser.rs:198-216 | the recorded paths are exactly the positions of the document, each with the location its events give |
| YamlFaults.ErrorsAreFaults | crates/policy-language/src/parser.rs:72-241 | every document that is not read is refused for one event, with nothing wrong before it: the end of the events, a tag, an anchor or alias, a 65th level, a misplaced event, a bad, merge or repeated key, no document or a second one; the error has its kind, its mark, its position and, for a repeated key, the mark of the first |
| PolicySyntax.ParsePolicy | crates/policy-language/src/parser.rs:445-482 | reading and decoding in order, with the recorded locations, or the first error |
| PolicyMeaning.PoliciesAreSaid | crates/policy-language/src/parser.rs:244-482 | an accepted policy is what its document says: each effect and action by its word, each selector by its kind and fields, numbers by their digits, and what is absent as absent |
| PolicyFaults.RefusalsAreFaults | crates/policy-language/src/parser.rs:244-482 | a document that is read is refused exactly for the first fault in schema order, which is reported: a wrong type, an unknown field, a missing part or an unknown name, at the value it is about |
| PolicyDocuments.DocumentsReadBack | crates/policy-language/src/parser.rs:244-482 | every policy whose numbers fit is what the document written for it parses to: version, defaults, rules, actions and selectors |
| PolicySchema.DocumentsConform | crates/policy-language/src/parser.rs:244-482 | a document is accepted exactly when it reads as one value that conforms to the declared schema: allowed and required fields, texts, names, numbers, lists and selector kinds |
| PolicySchema.MeaningIsExact | crates/policy-language/src/parser.rs:244-482 | a document that reads as one value parses to the policy of an accepted one exactly when they mean the same under the schema: under each key equal texts, equal numbers and agreeing lists, in whatever order of fields |
| PolicySchema.DocumentsOfPolicy | crates/policy-language/src/parser.rs:244-482 | the documents of a policy are exactly those that mean the same as the one written for it |
| PolicySchema.RewritingKeepsPolicy | crates/policy-language/src/parser.rs:105-482 | rewriting an accepted document with other scalar styles, marks and orders of fields keeps it accepted, with the same policy |
| PolicyDocuments.ParsedPoliciesAreRepresentable | crates/policy-language/src/parser.rs:303-313 | a policy can be parsed from some document exactly when its version and ports fit their types |
| PolicyDiagnostics.PolicyIsSimple | crates/policy-language/src/parser.rs:256-482 | every key of an accepted document is a schema key |
| PolicyDiagnostics.LocationsAreFaithful | crates/policy-language/src/parser.rs:105-216 | every value of an accepted policy carries the text of its position and is located there with its own location |
| PolicyDiagnostics.LocationsAreValues | crates/policy-language/src/parser.rs:198-215 | nothing else is located |
| PolicyDiagnostics.PathsAreDistinct | crates/policy-language/src/parser.rs:22-28 | two values of an accepted policy have the same path text exactly when they are the same value |
| PolicyDiagnostics.PathIsPosition | crates/policy-language/src/validation.rs:99-203 | the field path validation writes is the path of the value it is about |
| PolicyDiagnostics.ReportsAreLocated | crates/policy-language/src/validation_error.rs:65-86 | a report carries the location of the offending value itself, and of the repeated identifier for a duplicate; the fallback location is never needed |
| PathPattern.ParseTokens | crates/policy-language/src/selectors.rs:81-101 | the character loop with its pending literal returns the tokens of a segment |
| PathPattern.ParsePattern | crates/policy-language/src/selectors.rs:53-108 | the segment loop returns the segments of the pattern, or refuses it |
| PathPattern.ParseIsSound | crates/policy-language/src/selectors.rs:53-108 | an accepted text has segments in normal form whose rendering is the text |
| PathPattern.ParseIsComplete | crates/policy-language/src/selectors.rs:53-108 | the rendering of a normal pattern that passes the character checks parses to that pattern |
| PathPattern.ParserIsExact | crates/policy-language/src/selectors.rs:53-108 | a text is accepted exactly when it passes the character checks and renders some normal pattern |
| PathPattern.RenderIsInjective | crates/policy-language/src/selectors.rs:7-35 | distinct normal patterns have distinct texts |
| SelectorTexts.PatternInFull | crates/policy-language/src/selectors.rs:53-108 | a text is accepted exactly when it has no listed character, no leading `!` and no drive, and is a dot or has only sound segments between its slashes; the pattern has one segment for each, a recursive one for two stars and otherwise its literals and wildcards as spelled |
| NetworkHost.ParseHost | crates/policy-language/src/selectors.rs:165-191 | the label loop with its early return accepts an IP literal or a valid name in lower case |
| NetworkHost.DnsIdentityIsCanonical | crates/policy-language/src/selectors.rs:165-191 | an accepted DNS host has a lowercase name within the limits that reads back as the same host, with or without a final dot, and never as an IP literal |
| NetworkHost.DnsIdentityIsExact | crates/policy-language/src/selectors.rs:165-191 | two accepted DNS inputs have the same identity exactly when they agree after dropping one final dot and ignoring ASCII case |
| SelectorTexts.HostInFull | crates/policy-language/src/selectors.rs:165-191 | what reads as no IP literal is accepted exactly when, without a final dot, it has at most 253 characters that are not all digits and dots, and labels of 1 to 63 letters, digits and inner hyphens; it stands for the name in small letters |
| Validation.ValidateSelector | crates/policy-language/src/validation.rs:159-203 | selector fields are checked in order; the first violation is reported, and success keeps the parsed selector |
| Validation.ValidatePolicy | crates/policy-language/src/validation.rs:90-157 | validation succeeds exactly when no condition is violated and then keeps everything aligned; otherwise it reports the first violation; `ValidityInFull` and `ReportsInFull` write the conditions and the report out |
| Validation.NothingIsLost | crates/policy-language/src/validation.rs:138-203 | a validated policy determines the parsed one, rule by rule and place by place, and its patterns are the texts their segments spell |
| Validation.FirstViolationIsUnique | crates/policy-language/src/validation.rs:90-157 | the order of checks is total, so a policy has at most one first violation |
| Validation.DuplicateHasOneOriginal | crates/policy-language/src/validation.rs:106-109 | a reported duplicate refers to the one earlier rule with that identifier |
| Validation.ValidityInFull | crates/policy-language/src/validation.rs:84-203 | a policy is valid exactly when its version is 1, its identifiers are distinct, and every rule has an identifier with a visible character and no control character, actions that are all of the family its selector is about, and a sound selector |
| Validation.ReportsInFull | crates/policy-language/src/validation.rs:84-203 | a reported error is what is wrong, at the field where it is wrong, with the location recorded for that field and for a duplicate that of the first rule with its identifier; all rules before it are sound and distinct, and nothing earlier in its own rule is wrong |

## Left out

- MappedRoots.ResolveMapped: a mapped root is given by the path it stands for; how the platform maps a drive, roots mapped below mapped roots, and link targets that name a mapped drive are not covered.
- NetworkHost.ParseHost: reading IP literals is a parameter; the DNS theorems assume only that such texts are digits and dots or contain a colon. Name lengths are counted in characters, which is the same for the ASCII names that are accepted.
- CommandParser.UnwrapSupportedWrappers: names match exactly, as on Unix; the folding of `.exe` suffixes on Windows is not covered.
- UnixPaths.Parse: paths are byte sequences; the native conversions of the platform are not covered.
- YamlReader.Reader.ReadWhole: starts from the marked events of the scanner and how it fails; scanning text, the input byte limit and the source label are not covered. After an error only the error is described, not the reader that is thrown away.
- Native metadata calls (`linux.rs`, `macos.rs` and the Win32 part of `windows.rs`) are abstracted by the snapshot, whose lookups follow the reported naming rules.
- Filesystem changes during resolution, since the code promises a snapshot only.
- WindowsPaths.ParsePath: vectors are values here, so writing the drive letter into a copied buffer is a sequence update.
- Accessors, `Display` output and constructors of policy-core, which only move values.
- Glob matching, policy layering and authorization, which these crates do not implement.
