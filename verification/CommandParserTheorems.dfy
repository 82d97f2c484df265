/** What command parsing promises over every source text. */
module CommandParserTheorems {
  import opened Common
  import opened Characters
  import opened Actions
  import opened CommandLexer
  import opened CommandLexerTheorems
  import opened CommandText
  import opened CommandParser

  // Words are conserved

  /** The values of the maximal runs of words, in order. */
  function Runs(tokens: seq<Token>, run: seq<string>): seq<seq<string>> {
    if tokens == [] then if run == [] then [] else [run]
    else if tokens[0].kind.Word? then Runs(tokens[1..], run + [tokens[0].value])
    else (if run == [] then [] else [run]) + Runs(tokens[1..], [])
  }

  function Vectors(operations: seq<Operation>): (r: seq<seq<string>>)
    ensures |r| == |operations| && forall i :: 0 <= i < |r| ==> r[i] == operations[i].Vector()
  {
    seq(|operations|, i requires 0 <= i < |operations| => operations[i].Vector())
  }

  lemma SegmentVector(segment: seq<Token>)
    requires ParseSegment(segment).Ok?
    ensures ParseSegment(segment).value.Vector() == Values(segment)
  {
    hide Unwrap, Classify, IsAssignmentWord, IsControlWord;
  }

  lemma {:induction false} RunsAreVectors(tokens: seq<Token>, segment: seq<Token>, trailing: Option<(Separator, nat)>)
    requires ParseFrom(tokens, segment, trailing).Ok?
    ensures Vectors(ParseFrom(tokens, segment, trailing).value) == Runs(tokens, Values(segment))
    decreases |tokens|
  {
    hide ParseSegment;
    if tokens == [] {
      if segment != [] { SegmentVector(segment); }
    } else if tokens[0].kind.Word? {
      RunsAreVectors(tokens[1..], segment + [tokens[0]], None);
      assert Values(segment + [tokens[0]]) == Values(segment) + [tokens[0].value];
    } else {
      SegmentVector(segment);
      var last := Some((tokens[0].kind.separator, tokens[0].start));
      RunsAreVectors(tokens[1..], [], last);
      assert Values([]) == [];
      var rest := ParseFrom(tokens[1..], [], last).value;
      assert Vectors([ParseSegment(segment).value] + rest) == [Values(segment)] + Vectors(rest);
    }
  }

  /** Words are conserved: the operations are the maximal runs of words of the source, in
      order, each with its first word as executable and the others as arguments. */
  lemma OperationsAreWordRuns(source: string)
    requires Parse(source).Ok?
    ensures Lex(source).Ok?
    ensures Vectors(Parse(source).value) == Runs(Lex(source).value, [])
    ensures Parse(source).value != []
  {
    hide Lex, ParseFrom, IsBlank;
    RunsAreVectors(Lex(source).value, [], None);
    assert Values([]) == [];
  }

  // Offsets are relative

  function ShiftParsed<T>(r: Result<T, CommandError>, k: nat): Result<T, CommandError> {
    match r
    case Ok(value) => Ok(value)
    case Err(e) => Err(ShiftError(e, k))
  }

  lemma {:induction false} UnwrapShifts(tokens: seq<Token>, index: nat, k: nat)
    requires index < |tokens|
    ensures Unwrap(ShiftTokens(tokens, k), index) == ShiftParsed(Unwrap(tokens, index), k)
    decreases |tokens| - index
  {
    hide ExecutableName, IsShellInterpreter, IsUnsupportedWrapper, IsWrapper;
    var name := ExecutableName(tokens[index].value);
    if IsWrapper(name) && index + 1 < |tokens| {
      UnwrapShifts(tokens, index + 1, k);
    }
  }

  lemma {:induction false} FindShifts(tokens: seq<Token>, action: GitAction, k: nat)
    ensures FindUnsupported(ShiftTokens(tokens, k), action) ==
            if FindUnsupported(tokens, action).Some? then Some(ShiftToken(FindUnsupported(tokens, action).value, k))
            else None
  {
    hide IsUnsupportedOption;
    if tokens != [] {
      FindShifts(tokens[1..], action, k);
      assert ShiftTokens(tokens, k)[1..] == ShiftTokens(tokens[1..], k);
    }
  }

  lemma ClassifyShifts(tokens: seq<Token>, index: nat, k: nat)
    requires index < |tokens|
    ensures Classify(ShiftTokens(tokens, k), index) == ShiftParsed(Classify(tokens, index), k)
  {
    hide ExecutableName, IsStatefulBuiltin, IsGit, GitSubcommand, IsUnsupportedOption, FindUnsupported, ShiftTokens;
    assert ShiftTokens(tokens, k)[index] == ShiftToken(tokens[index], k);
    if index + 1 < |tokens| && GitSubcommand(tokens[index + 1].value).Some? {
      assert ShiftTokens(tokens, k)[index + 1] == ShiftToken(tokens[index + 1], k);
      var action := GitSubcommand(tokens[index + 1].value).value;
      var arguments := tokens[index + 2..];
      assert ShiftTokens(tokens, k)[index + 2..] == ShiftTokens(arguments, k);
      FindShifts(arguments, action, k);
    }
  }

  lemma SegmentShifts(tokens: seq<Token>, k: nat)
    requires tokens != []
    ensures ParseSegment(ShiftTokens(tokens, k)) == ShiftParsed(ParseSegment(tokens), k)
  {
    hide IsAssignmentWord, Unwrap, Classify;
    UnwrapShifts(tokens, 0, k);
    assert Values(ShiftTokens(tokens, k)[1..]) == Values(tokens[1..]);
    assert IsControlWord(ShiftToken(tokens[0], k)) == IsControlWord(tokens[0]);
    if Unwrap(tokens, 0).Ok? {
      ClassifyShifts(tokens, Unwrap(tokens, 0).value, k);
    }
    hide IsControlWord, ShiftTokens, Values;
  }

  function ShiftTrailing(trailing: Option<(Separator, nat)>, k: nat): Option<(Separator, nat)> {
    if trailing.Some? then Some((trailing.value.0, trailing.value.1 + k)) else None
  }

  lemma {:induction false} ParseShifts(
    tokens: seq<Token>, segment: seq<Token>, trailing: Option<(Separator, nat)>, k: nat)
    ensures ParseFrom(ShiftTokens(tokens, k), ShiftTokens(segment, k), ShiftTrailing(trailing, k)) ==
            ShiftParsed(ParseFrom(tokens, segment, trailing), k)
    decreases |tokens|
  {
    hide ParseSegment;
    assert ShiftTokens([], k) == [];
    if segment != [] { SegmentShifts(segment, k); }
    if tokens != [] {
      assert ShiftTokens(tokens, k)[1..] == ShiftTokens(tokens[1..], k);
      if tokens[0].kind.Word? {
        ParseShifts(tokens[1..], segment + [tokens[0]], None, k);
        assert ShiftTokens(segment + [tokens[0]], k) == ShiftTokens(segment, k) + [ShiftToken(tokens[0], k)];
      } else {
        ParseShifts(tokens[1..], [], Some((tokens[0].kind.separator, tokens[0].start)), k);
      }
    }
  }

  // Parsing around a semicolon

  /** Operations of two parts, or the first failure. */
  function Both(a: Result<seq<Operation>, CommandError>, b: Result<seq<Operation>, CommandError>):
    Result<seq<Operation>, CommandError>
  {
    if a.Err? then a else if b.Err? then b else Ok(a.value + b.value)
  }

  /** Tokens that end in a word, a sequence separator, and more tokens parse as two parts. */
  lemma {:induction false} ParseAround(a: seq<Token>, at: nat, b: seq<Token>, segment: seq<Token>,
                                       trailing: Option<(Separator, nat)>)
    requires if a == [] then segment != [] else Last(a).kind.Word?
    ensures ParseFrom(a + [SeparatorToken(Sequence, at)] + b, segment, trailing) ==
            Both(ParseFrom(a, segment, trailing), ParseFrom(b, [], None))
    decreases |a|
  {
    hide ParseSegment;
    var whole := a + [SeparatorToken(Sequence, at)] + b;
    AfterSequence(b, at);
    if a == [] {
      assert whole[0] == SeparatorToken(Sequence, at) && whole[1..] == b;
    } else {
      assert whole[0] == a[0] && whole[1..] == a[1..] + [SeparatorToken(Sequence, at)] + b;
      if a[0].kind.Word? {
        ParseAround(a[1..], at, b, segment + [a[0]], None);
      } else if segment != [] && ParseSegment(segment).Ok? {
        var last := Some((a[0].kind.separator, a[0].start));
        ParseAround(a[1..], at, b, [], last);
        var left, right := ParseFrom(a[1..], [], last), ParseFrom(b, [], None);
        if left.Ok? && right.Ok? {
          assert [ParseSegment(segment).value] + (left.value + right.value) ==
                 [ParseSegment(segment).value] + left.value + right.value;
        }
      }
    }
  }

  /** A trailing semicolon is no failure, so what follows one parses as it does alone. */
  lemma AfterSequence(b: seq<Token>, at: nat)
    ensures ParseFrom(b, [], Some((Sequence, at))) == ParseFrom(b, [], None)
  {
    hide ParseSegment;
  }

  /** A move without a token leaves a pending word or text that is not blank. */
  lemma MoveTowardsSomething(rest: string, at: nat, st: State)
    requires rest != "" && NextMove(rest, at, st).Go?
    requires st.word.Some? || (st.quote.None? && !IsBlank(rest))
    ensures var m := NextMove(rest, at, st);
            m.tokens == [] ==> m.next.word.Some? || (m.next.quote.None? && !IsBlank(rest[m.consumed..]))
  {
    hide Bytes, HasCmdExpansion, DoubleEscape, IsWhitespace;
    var m := NextMove(rest, at, st);
    if m.tokens == [] && m.next.word.None? {
      assert IsWhitespace(rest[0]) && m.consumed == 1;
      var i :| 0 <= i < |rest| && !IsWhitespace(rest[i]);
      assert rest[1..][i - 1] == rest[i];
    }
  }

  /** Text that is not blank lexes to something. */
  lemma {:induction false} SomethingLexes(rest: string, at: nat, st: State)
    requires LexFrom(rest, at, st).Ok?
    requires st.word.Some? || st.quote.None?
    requires st.word.Some? || !IsBlank(rest)
    ensures LexFrom(rest, at, st).value != []
    decreases |rest|
  {
    hide Prepend, Bytes, NextMove;
    if rest != "" {
      var Go(tokens, n, next) := NextMove(rest, at, st);
      PrependOk(tokens, LexFrom(rest[n..], at + Bytes(rest[..n]), next));
      MoveTowardsSomething(rest, at, st);
      if tokens == [] {
        SomethingLexes(rest[n..], at + Bytes(rest[..n]), next);
      }
    }
  }

  lemma {:induction false} SomethingParses(tokens: seq<Token>, segment: seq<Token>, trailing: Option<(Separator, nat)>)
    requires tokens != [] || segment != []
    requires ParseFrom(tokens, segment, trailing).Ok?
    ensures ParseFrom(tokens, segment, trailing).value != []
    decreases |tokens|
  {
    hide ParseSegment;
    if tokens != [] && tokens[0].kind.Word? {
      SomethingParses(tokens[1..], segment + [tokens[0]], None);
    }
  }

  /** On text that is not blank, parsing is lexing and then splitting into operations. */
  lemma ParseOfText(source: string)
    requires !IsBlank(source)
    ensures Parse(source) ==
            if Lex(source).Err? then Err(Lex(source).error) else ParseFrom(Lex(source).value, [], None)
  {
    hide ParseFrom, LexFrom, IsBlank;
    if Lex(source).Ok? {
      SomethingLexes(source, 0, START);
      if ParseFrom(Lex(source).value, [], None).Ok? {
        SomethingParses(Lex(source).value, [], None);
      }
    }
  }

  lemma BlankLexesToNoWord(source: string)
    requires IsBlank(source)
    ensures Lex(source).Ok? ==> forall t :: t in Lex(source).value ==> !t.kind.Word?
  {
    hide LexFrom;
    BlankHasNoWord(source, 0, false);
  }

  lemma {:induction false} BlankHasNoWord(rest: string, at: nat, separated: bool)
    requires IsBlank(rest)
    ensures var r := LexFrom(rest, at, State(None, None, separated));
            r.Ok? && forall t :: t in r.value ==> !t.kind.Word?
    decreases |rest|
  {
    hide LexFrom, Bytes, IsWhitespace;
    if rest == "" {
      EmptyLexes(at, separated);
      assert |LexFrom("", at, State(None, None, separated)).value| == 0;
    } else {
      BlankLexes(rest[0], rest[1..], at, separated);
      assert [rest[0]] + rest[1..] == rest;
      BlankHasNoWord(rest[1..], at + Bytes([rest[0]]), separated || rest[0] == '\n');
    }
  }

  /** Parsing is compositional at a semicolon: when `a` ends in a word and `b` is not blank and
      has no leading newline, `a;b` parses exactly when both parse, to the operations of both
      in order; otherwise it fails as the first of lexing `b`, parsing `a`, parsing `b` that
      fails, with offsets of `b` moved. */
  lemma ParseComposes(a: string, b: string)
    requires Lex(a).Ok? && Lex(a).value != [] && Last(Lex(a).value).kind.Word?
    requires !IsBlank(b) && !LeadingNewline(b)
    ensures var k := Bytes(a) + 1;
            Parse(a + ";" + b) ==
            if Lex(b).Err? then Err(ShiftError(Lex(b).error, k))
            else Both(Parse(a), ShiftParsed(Parse(b), k))
  {
    hide LexFrom, Bytes, LeadingNewline, ParseFrom;
    var k := Bytes(a) + 1;
    var source := a + ";" + b;
    assert source[|a|] == ';' && !IsWhitespace(';');
    assert !IsBlank(source);
    assert Last(Lex(a).value) in Lex(a).value;
    if IsBlank(a) { BlankLexesToNoWord(a); }
    ParseOfText(source);
    ParseOfText(a);
    ParseOfText(b);
    LexComposes(a, b);
    if Lex(b).Ok? {
      var left, right := Lex(a).value, ShiftTokens(Lex(b).value, k);
      ParseAround(left, Bytes(a), right, [], None);
      ParseShifts(Lex(b).value, [], None, k);
      assert ShiftTokens([], k) == [];
    }
  }

  // Wrappers are transparent

  lemma {:induction false} UnwrapBehind(w: Token, segment: seq<Token>, index: nat)
    requires index < |segment|
    ensures Unwrap([w] + segment, index + 1) ==
            if Unwrap(segment, index).Ok? then Ok(Unwrap(segment, index).value + 1) else Unwrap(segment, index)
    decreases |segment| - index
  {
    hide ExecutableName, IsShellInterpreter, IsUnsupportedWrapper, IsWrapper;
    if index + 1 < |segment| {
      UnwrapBehind(w, segment, index + 1);
    }
  }

  lemma ClassifyBehind(w: Token, segment: seq<Token>, index: nat)
    requires index < |segment|
    ensures Classify([w] + segment, index + 1) == Classify(segment, index)
  {
    hide ExecutableName, IsStatefulBuiltin, IsGit, GitSubcommand, IsUnsupportedOption;
    if index + 1 < |segment| {
      assert ([w] + segment)[index + 1 + 2..] == segment[index + 2..];
    }
  }

  /** Whether a token is a wrapper invocation that may stand in front of `next`. */
  predicate Wraps(w: Token, next: Token) {
    var name := ExecutableName(w.value);
    && IsWrapper(name) && !IsControlWord(w) && !IsAssignmentWord(w.value)
    && !StartsWith(next.value, "-")
    && !(name == "env" && '=' in next.value)
  }

  /** A wrapper has a name, and is neither a shell nor an unsupported wrapper. */
  lemma WrapperNames(text: string)
    ensures IsWrapper(ExecutableName(text)) ==>
              && text != ""
              && !IsShellInterpreter(ExecutableName(text)) && !IsUnsupportedWrapper(ExecutableName(text))
  {
    hide ExecutableName, IsShellInterpreter, IsUnsupportedWrapper;
    NothingNamesNothing();
    if IsWrapper(ExecutableName(text)) { WrappersAreNothingElse(ExecutableName(text)); }
  }

  lemma NothingNamesNothing()
    ensures ExecutableName("") == ""
  {
  }

  lemma WrappersAreNothingElse(name: string)
    requires IsWrapper(name)
    ensures !IsShellInterpreter(name) && !IsUnsupportedWrapper(name)
  {
  }

  /** A segment that parses keeps its action behind a wrapper, and the wrapper becomes the
      recorded executable, exactly when the wrapper may stand in front of its first word. */
  lemma WrapperIsTransparent(w: Token, segment: seq<Token>)
    requires ParseSegment(segment).Ok?
    requires IsWrapper(ExecutableName(w.value)) && !IsControlWord(w) && !IsAssignmentWord(w.value)
    ensures segment != []
    ensures ParseSegment([w] + segment) ==
            if Wraps(w, segment[0])
            then Ok(Operation(ParseSegment(segment).value.action, w.value, Values(segment)))
            else Err(CommandError(UnsupportedOperation, segment[0].start))
  {
    hide ExecutableName, IsWrapper, IsControlWord, IsAssignmentWord, IsShellInterpreter, IsUnsupportedWrapper, Classify;
    WrapperNames(w.value);
    var whole := [w] + segment;
    assert whole[0] == w && whole[1] == segment[0] && whole[1..] == segment;
    UnwrapBehind(w, segment, 0);
    if Unwrap(segment, 0).Ok? { ClassifyBehind(w, segment, Unwrap(segment, 0).value); }
  }

  /** Wrappers one in front of another, the last in front of a segment. */
  predicate WrapChain(wrappers: seq<Token>, segment: seq<Token>)
    requires segment != []
  {
    forall i :: 0 <= i < |wrappers| ==> Wraps(wrappers[i], (wrappers + segment)[i + 1])
  }

  /** Any chain of wrappers keeps the action of what it wraps. */
  lemma {:induction false} WrapperChainsAreTransparent(wrappers: seq<Token>, segment: seq<Token>)
    requires segment != [] && ParseSegment(segment).Ok? && WrapChain(wrappers, segment)
    ensures ParseSegment(wrappers + segment).Ok?
    ensures ParseSegment(wrappers + segment).value.action == ParseSegment(segment).value.action
    ensures ParseSegment(wrappers + segment).value.Vector() == Values(wrappers + segment)
    decreases |wrappers|
  {
    hide ParseSegment, Wraps;
    if wrappers == [] {
      assert wrappers + segment == segment;
    } else {
      var inner := wrappers[1..] + segment;
      assert wrappers + segment == [wrappers[0]] + inner;
      assert Wraps(wrappers[0], (wrappers + segment)[0 + 1]);
      forall i | 0 <= i < |wrappers[1..]| ensures Wraps(wrappers[1..][i], inner[i + 1]) {
        assert Wraps(wrappers[i + 1], (wrappers + segment)[i + 1 + 1]);
      }
      WrapperChainsAreTransparent(wrappers[1..], segment);
      WrapsParts(wrappers[0], inner[0]);
      WrapperIsTransparent(wrappers[0], inner);
    }
    SegmentVector(wrappers + segment);
  }

  lemma WrapsParts(w: Token, next: Token)
    requires Wraps(w, next)
    ensures IsWrapper(ExecutableName(w.value)) && !IsControlWord(w) && !IsAssignmentWord(w.value)
  {
  }

  // Printing and parsing again

  /** A word in single quotes, each single quote of its own written outside them. */
  function QuoteWord(value: string): (fragments: seq<Fragment>)
    ensures fragments != []
    decreases |value|
  {
    var n := IndexOf(value, '\'');
    [SingleQuoted(value[..n])] + if n == |value| then [] else [Escaped('\'')] + QuoteWord(value[n + 1..])
  }

  predicate NulFree(value: string) {
    '\0' !in value
  }

  lemma {:induction false} QuoteWordSpells(value: string, first: bool, after: string)
    requires NulFree(value)
    ensures ValidWord(QuoteWord(value), first, after)
    ensures WordMeaning(QuoteWord(value)) == value
    decreases |value|
  {
    hide HasCmdExpansion, WordMeaning, ValidWord, QuoteWord, IndexOf;
    var n := IndexOf(value, '\'');
    QuoteWordFirst(value, "");
    if n == |value| {
      assert value + "" == value && value[..n] == value;
      assert [SingleQuoted(value)] + [] == [SingleQuoted(value)];
      FragmentFirst(SingleQuoted(value), [], first, after);
      NoFragments(after);
    } else {
      var rest := QuoteWord(value[n + 1..]);
      QuoteWordSpells(value[n + 1..], false, after);
      QuotedInFront(value[..n], rest, first, after);
      assert value[..n] + (['\''] + value[n + 1..]) == value;
    }
  }

  lemma NoFragments(after: string)
    ensures ValidWord([], false, after) && WordMeaning([]) == "" && SpellWord([]) == ""
  {
  }

  lemma FragmentFirst(f: Fragment, rest: seq<Fragment>, first: bool, after: string)
    ensures ValidWord([f] + rest, first, after) <==>
            ValidFragment(f, first, SpellWord(rest) + after) && ValidWord(rest, false, after)
    ensures WordMeaning([f] + rest) == Meaning(f) + WordMeaning(rest)
  {
    hide ValidFragment, Meaning, SpellWord;
    assert ([f] + rest)[1..] == rest;
  }

  lemma QuotedInFront(text: string, rest: seq<Fragment>, first: bool, after: string)
    requires NulFree(text) && '\'' !in text && ValidWord(rest, false, after)
    ensures ValidWord([SingleQuoted(text)] + ([Escaped('\'')] + rest), first, after)
    ensures WordMeaning([SingleQuoted(text)] + ([Escaped('\'')] + rest)) == text + (['\''] + WordMeaning(rest))
  {
    hide WordMeaning, ValidWord, SpellWord;
    FragmentFirst(SingleQuoted(text), [Escaped('\'')] + rest, first, after);
    FragmentFirst(Escaped('\''), rest, false, after);
  }

  /** The words of an operation separated by spaces. */
  function PrintWords(words: seq<string>): seq<Element> {
    if words == [] then []
    else [Spelled(QuoteWord(words[0]))] + if |words| == 1 then [] else [Blank(' ')] + PrintWords(words[1..])
  }

  /** The operations separated by semicolons. */
  function PrintOperations(operations: seq<Operation>): seq<Element> {
    if operations == [] then []
    else if |operations| == 1 then PrintWords(operations[0].Vector())
    else PrintWords(operations[0].Vector()) + [Operator(Sequence)] + PrintOperations(operations[1..])
  }

  function Print(operations: seq<Operation>): string {
    SpellLine(PrintOperations(operations))
  }

  function WordShapes(words: seq<string>): (r: seq<Shape>)
    ensures |r| == |words| && forall i :: 0 <= i < |r| ==> r[i] == WordShape(words[i], true)
  {
    seq(|words|, i requires 0 <= i < |words| => WordShape(words[i], true))
  }

  function PrintedShapes(vectors: seq<seq<string>>): seq<Shape> {
    if vectors == [] then []
    else if |vectors| == 1 then WordShapes(vectors[0])
    else WordShapes(vectors[0]) + [SeparatorShape(Sequence)] + PrintedShapes(vectors[1..])
  }

  /** The printed words of one operation, in front of the rest of a line, are a valid line
      that means those words. */
  lemma {:induction false} PrintedWords(words: seq<string>, rest: seq<Element>, separated: bool)
    requires words != [] && forall w :: w in words ==> NulFree(w)
    requires ValidLine(rest) && (rest != [] ==> !rest[0].Spelled?)
    ensures ValidLine(PrintWords(words) + rest)
    ensures LineMeaning(PrintWords(words) + rest, separated) == WordShapes(words) + LineMeaning(rest, false)
    decreases |words|
  {
    hide ValidLine, LineMeaning, QuoteWord, NulFree, PrintWords, WordShapes;
    PrintedWordFirst(words, rest);
    WordShapesFirst(words);
    if |words| == 1 {
      WordInFront(words[0], rest, separated);
    } else {
      var tail := PrintWords(words[1..]) + rest;
      PrintedWords(words[1..], rest, false);
      BlankInFront(tail);
      WordInFront(words[0], [Blank(' ')] + tail, separated);
    }
  }

  lemma PrintedWordFirst(words: seq<string>, rest: seq<Element>)
    requires words != []
    ensures PrintWords(words) + rest ==
            [Spelled(QuoteWord(words[0]))]
            + if |words| == 1 then rest else [Blank(' ')] + (PrintWords(words[1..]) + rest)
  {
    hide QuoteWord;
    var first := [Spelled(QuoteWord(words[0]))];
    if |words| == 1 {
      assert PrintWords(words) == first + [];
      hide PrintWords;
    } else {
      assert PrintWords(words) == first + ([Blank(' ')] + PrintWords(words[1..]));
      hide PrintWords;
      Associative(first, [Blank(' ')] + PrintWords(words[1..]), rest);
      Associative([Blank(' ')], PrintWords(words[1..]), rest);
    }
  }

  lemma WordShapesFirst(words: seq<string>)
    requires words != []
    ensures WordShapes(words) == [WordShape(words[0], true)] + if |words| == 1 then [] else WordShapes(words[1..])
  {
  }

  lemma WordInFront(value: string, rest: seq<Element>, separated: bool)
    requires NulFree(value) && ValidLine(rest) && (rest != [] ==> !rest[0].Spelled?)
    ensures ValidLine([Spelled(QuoteWord(value))] + rest)
    ensures LineMeaning([Spelled(QuoteWord(value))] + rest, separated) ==
            [WordShape(value, true)] + LineMeaning(rest, false)
  {
    hide ValidWord, SpellLine, WordMeaning, QuoteWord, NulFree, AnyQuoted;
    var line := [Spelled(QuoteWord(value))] + rest;
    assert line[1..] == rest;
    QuoteWordIsQuoted(value);
    QuoteWordSpells(value, true, SpellLine(rest));
  }

  lemma BlankInFront(rest: seq<Element>)
    requires ValidLine(rest)
    ensures ValidLine([Blank(' ')] + rest)
    ensures LineMeaning([Blank(' ')] + rest, false) == LineMeaning(rest, false)
  {
    assert ([Blank(' ')] + rest)[1..] == rest;
  }

  lemma QuoteWordIsQuoted(value: string)
    ensures AnyQuoted(QuoteWord(value))
  {
    assert QuoteWord(value)[0] in QuoteWord(value) && !QuoteWord(value)[0].Bare?;
  }

  lemma {:induction false} PrintedOperations(operations: seq<Operation>, separated: bool)
    requires forall op, w :: op in operations && w in op.Vector() ==> NulFree(w)
    ensures ValidLine(PrintOperations(operations))
    ensures LineMeaning(PrintOperations(operations), separated) == PrintedShapes(Vectors(operations))
    decreases |operations|
  {
    hide ValidWord, SpellLine, WordMeaning, QuoteWord, Spell, PrintWords, NulFree, WordShapes, Vectors;
    assert |Vectors(operations)| == |operations|;
    if operations == [] {
    } else if |operations| == 1 {
      PrintedWords(operations[0].Vector(), [], separated);
      assert PrintWords(operations[0].Vector()) + [] == PrintWords(operations[0].Vector());
      assert WordShapes(operations[0].Vector()) + [] == WordShapes(operations[0].Vector());
    } else {
      var tail := PrintOperations(operations[1..]);
      var rest := [Operator(Sequence)] + tail;
      PrintedOperations(operations[1..], true);
      assert rest[1..] == tail;
      PrintedWords(operations[0].Vector(), rest, separated);
      Associative(PrintWords(operations[0].Vector()), [Operator(Sequence)], tail);
      assert Vectors(operations)[1..] == Vectors(operations[1..]);
      Associative(WordShapes(operations[0].Vector()), [SeparatorShape(Sequence)],
                     PrintedShapes(Vectors(operations[1..])));
    }
  }

  // What a segment parses to depends on its values

  lemma {:induction false} UnwrapByValues(a: seq<Token>, b: seq<Token>, index: nat)
    requires Values(a) == Values(b) && index < |a|
    requires Unwrap(a, index).Ok?
    ensures Unwrap(b, index) == Unwrap(a, index)
    decreases |a| - index
  {
    hide ExecutableName, IsShellInterpreter, IsUnsupportedWrapper, IsWrapper;
    assert a[index].value == Values(a)[index] && b[index].value == Values(b)[index];
    if index + 1 < |a| {
      assert a[index + 1].value == Values(a)[index + 1] && b[index + 1].value == Values(b)[index + 1];
      if IsWrapper(ExecutableName(a[index].value)) {
        UnwrapByValues(a, b, index + 1);
      }
    }
  }

  lemma {:induction false} FindByValues(a: seq<Token>, b: seq<Token>, action: GitAction)
    requires Values(a) == Values(b)
    ensures FindUnsupported(a, action).Some? <==> FindUnsupported(b, action).Some?
  {
    hide IsUnsupportedOption;
    if a != [] {
      assert Values(a)[0] == Values(b)[0] && Values(a)[1..] == Values(a[1..]) && Values(b)[1..] == Values(b[1..]);
      FindByValues(a[1..], b[1..], action);
    }
  }

  lemma ClassifyByValues(a: seq<Token>, b: seq<Token>, index: nat)
    requires Values(a) == Values(b) && index < |a|
    requires Classify(a, index).Ok?
    ensures Classify(b, index) == Classify(a, index)
  {
    hide ExecutableName, IsStatefulBuiltin, IsGit, GitSubcommand, IsUnsupportedOption;
    assert a[index].value == Values(a)[index] && b[index].value == Values(b)[index];
    if index + 1 < |a| && GitSubcommand(a[index + 1].value).Some? {
      assert a[index + 1].value == Values(a)[index + 1] && b[index + 1].value == Values(b)[index + 1];
      var action := GitSubcommand(a[index + 1].value).value;
      assert Values(a)[index + 2..] == Values(a[index + 2..]) && Values(b)[index + 2..] == Values(b[index + 2..]);
      FindByValues(a[index + 2..], b[index + 2..], action);
    }
  }

  /** Quoting the words of a segment that parses changes nothing. */
  lemma SegmentByValues(a: seq<Token>, b: seq<Token>)
    requires ParseSegment(a).Ok? && Values(a) == Values(b) && b != [] && b[0].quoted
    ensures ParseSegment(b) == ParseSegment(a)
  {
    hide IsAssignmentWord, Unwrap, Classify;
    assert a[0].value == Values(a)[0] && b[0].value == Values(b)[0];
    assert Values(a)[1..] == Values(a[1..]) && Values(b)[1..] == Values(b[1..]);
    UnwrapByValues(a, b, 0);
    ClassifyByValues(a, b, Unwrap(a, 0).value);
    assert !IsControlWord(b[0]);
    hide IsControlWord, Values;
  }

  ghost predicate FromSegment(operation: Operation) {
    exists segment :: ParseSegment(segment) == Ok(operation)
  }

  lemma {:induction false} OperationsAreParsed(
    tokens: seq<Token>, segment: seq<Token>, trailing: Option<(Separator, nat)>)
    requires ParseFrom(tokens, segment, trailing).Ok?
    ensures forall op :: op in ParseFrom(tokens, segment, trailing).value ==> FromSegment(op)
    decreases |tokens|
  {
    hide ParseSegment;
    if tokens != [] {
      if tokens[0].kind.Word? {
        OperationsAreParsed(tokens[1..], segment + [tokens[0]], None);
      } else {
        OperationsAreParsed(tokens[1..], [], Some((tokens[0].kind.separator, tokens[0].start)));
      }
    }
  }

  lemma {:induction false} ParseWordsFirst(words: seq<Token>, more: seq<Token>, segment: seq<Token>)
    requires forall t :: t in words ==> t.kind.Word?
    ensures ParseFrom(words + more, segment, None) == ParseFrom(more, segment + words, None)
    decreases |words|
  {
    hide ParseSegment;
    if words == [] {
      assert words + more == more && segment + words == segment;
    } else {
      assert (words + more)[0] == words[0] && (words + more)[1..] == words[1..] + more;
      assert segment + words == segment + [words[0]] + words[1..];
      ParseWordsFirst(words[1..], more, segment + [words[0]]);
    }
  }

  /** Quoted word tokens with the words of a parsed operation parse to that operation. */
  lemma QuotedWordsParse(words: seq<Token>, op: Operation)
    requires FromSegment(op) && Values(words) == op.Vector()
    requires forall t :: t in words ==> t.quoted
    ensures ParseSegment(words) == Ok(op)
  {
    var original :| ParseSegment(original) == Ok(op);
    SegmentVector(original);
    assert |words| == |Values(words)|;
    assert words[0] in words;
    SegmentByValues(original, words);
  }

  lemma PrintedFirst(tokens: seq<Token>, vectors: seq<seq<string>>)
    requires vectors != [] && Shapes(tokens) == PrintedShapes(vectors)
    ensures var n := |vectors[0]|;
            && n <= |tokens| && Values(tokens[..n]) == vectors[0]
            && (forall t :: t in tokens[..n] ==> t.kind.Word? && t.quoted)
            && (|vectors| == 1 ==> n == |tokens|)
            && (|vectors| > 1 ==>
                  && n < |tokens| && tokens[n].kind == Separator(Sequence)
                  && Shapes(tokens[n + 1..]) == PrintedShapes(vectors[1..]))
  {
    var n := |vectors[0]|;
    assert |tokens| == |Shapes(tokens)| >= n;
    forall i | 0 <= i < n ensures tokens[i].kind.Word? && tokens[i].value == vectors[0][i] && tokens[i].quoted {
      assert Shapes(tokens)[i] == WordShapes(vectors[0])[i];
    }
    if |vectors| > 1 {
      assert Shapes(tokens)[n] == SeparatorShape(Sequence);
      assert Shapes(tokens[n + 1..]) == Shapes(tokens)[n + 1..];
    }
  }

  /** Tokens that spell one printed operation after another parse to those operations. */
  lemma {:induction false} PrintedTokensParse(tokens: seq<Token>, operations: seq<Operation>)
    requires Shapes(tokens) == PrintedShapes(Vectors(operations))
    requires forall op :: op in operations ==> FromSegment(op)
    ensures ParseFrom(tokens, [], None) == Ok(operations)
    decreases |operations|
  {
    hide ParseSegment, FromSegment, Shapes, PrintedShapes, ParseFrom, Vectors;
    assert |Vectors(operations)| == |operations|;
    if operations == [] {
      NothingPrinted(tokens);
      return;
    }
    var op := operations[0];
    assert op in operations;
    var n := |op.Vector()|;
    PrintedFirst(tokens, Vectors(operations));
    var words, more := tokens[..n], tokens[n..];
    QuotedWordsParse(words, op);
    assert words + more == tokens && [] + words == words;
    ParseWordsFirst(words, more, []);
    if |operations| == 1 {
      assert operations == [op];
    } else {
      assert more[0] == tokens[n] && more[1..] == tokens[n + 1..];
      assert Vectors(operations)[1..] == Vectors(operations[1..]);
      PrintedTokensParse(more[1..], operations[1..]);
      AfterSequence(more[1..], more[0].start);
      assert operations == [op] + operations[1..];
    }
    SegmentEnds(words, more, op);
  }

  /** A segment ends with the tokens, or at a sequence separator. */
  lemma SegmentEnds(words: seq<Token>, more: seq<Token>, op: Operation)
    requires words != [] && ParseSegment(words) == Ok(op)
    ensures more == [] ==> ParseFrom(more, words, None) == Ok([op])
    ensures more != [] && more[0].kind == Separator(Sequence) ==>
              var rest := ParseFrom(more[1..], [], Some((Sequence, more[0].start)));
              ParseFrom(more, words, None) == if rest.Ok? then Ok([op] + rest.value) else rest
  {
    hide ParseSegment;
  }

  lemma NothingPrinted(tokens: seq<Token>)
    requires Shapes(tokens) == PrintedShapes(Vectors([]))
    ensures tokens == [] && ParseFrom(tokens, [], None) == Ok([])
  {
    assert |tokens| == |Shapes(tokens)|;
  }

  /** Printing what was parsed and parsing it again gives the same operations, as long as no
      word holds a NUL. */
  lemma PrintedOperationsReparse(source: string)
    requires Parse(source).Ok?
    requires forall op, w :: op in Parse(source).value && w in op.Vector() ==> NulFree(w)
    ensures Parse(Print(Parse(source).value)) == Parse(source)
  {
    hide LexFrom, ParseFrom, IsBlank, NulFree, SpellLine, LineMeaning, ValidLine, PrintOperations, Shapes;
    var operations := Parse(source).value;
    var printed := Print(operations);
    OperationsAreParsed(Lex(source).value, [], None);
    PrintedOperations(operations, false);
    LineLexes(PrintOperations(operations), 0, false);
    PrintedTokensParse(Lex(printed).value, operations);
    if IsBlank(printed) {
      BlankLexesToNoWord(printed);
      PrintedHasWord(Lex(printed).value, operations);
    }
    ParseOfText(printed);
  }

  lemma PrintedHasWord(tokens: seq<Token>, operations: seq<Operation>)
    requires operations != [] && Shapes(tokens) == PrintedShapes(Vectors(operations))
    ensures exists t :: t in tokens && t.kind.Word?
  {
    assert Shapes(tokens)[0] == WordShapes(operations[0].Vector())[0];
    assert tokens[0] in tokens;
  }

  // A NUL in a word

  /** Words hold no characters that the source does not hold, apart from backslashes. */
  lemma {:induction false} WordsAreNulFree(rest: string, at: nat, st: State)
    requires LexFrom(rest, at, st).Ok? && NulFree(rest)
    requires st.word.Some? ==> NulFree(st.word.value.value)
    ensures forall t :: t in LexFrom(rest, at, st).value ==> NulFree(t.value)
    decreases |rest|
  {
    hide Prepend, Bytes, NextMove, NulFree;
    if rest != "" {
      var Go(tokens, n, next) := NextMove(rest, at, st);
      MoveIsNulFree(rest, at, st);
      PrependOk(tokens, LexFrom(rest[n..], at + Bytes(rest[..n]), next));
      WordsAreNulFree(rest[n..], at + Bytes(rest[..n]), next);
    }
  }

  lemma NulFreeParts(rest: string, pending: string)
    requires rest != "" && NulFree(rest) && NulFree(pending)
    ensures NulFree("") && NulFree(pending + "") && NulFree(pending + [rest[0]]) && NulFree(rest[1..])
    ensures |rest| > 1 ==> NulFree(pending + [rest[1]])
    ensures |rest| > 1 ==> NulFree(pending + DoubleEscape(rest[1])) && NulFree(rest[2..])
  {
    assert rest[0] in rest && (|rest| > 1 ==> rest[1] in rest);
  }

  lemma BareMoveIsNulFree(rest: string, at: nat, st: State)
    requires rest != "" && NulFree(rest) && (st.word.Some? ==> NulFree(st.word.value.value))
    requires BareMove(rest, at, st).Go?
    ensures var m := BareMove(rest, at, st);
            && (forall t :: t in m.tokens ==> NulFree(t.value))
            && (m.next.word.Some? ==> NulFree(m.next.word.value.value))
            && NulFree(rest[m.consumed..])
  {
    hide HasCmdExpansion, IsWhitespace, NulFree, DoubleEscape;
    NulFreeParts(rest, Begin(st.word, at).value);
  }

  lemma MoveIsNulFree(rest: string, at: nat, st: State)
    requires rest != "" && NulFree(rest) && (st.word.Some? ==> NulFree(st.word.value.value))
    requires NextMove(rest, at, st).Go?
    ensures var m := NextMove(rest, at, st);
            && (forall t :: t in m.tokens ==> NulFree(t.value))
            && (m.next.word.Some? ==> NulFree(m.next.word.value.value))
            && NulFree(rest[m.consumed..])
  {
    hide BareMove, NulFree, DoubleEscape;
    if st.quote.None? {
      BareMoveIsNulFree(rest, at, st);
    } else {
      NulFreeParts(rest, Begin(st.word, at).value);
    }
  }

  lemma {:induction false} SingleTextFails(text: string, after: string, at: nat, st: State)
    requires '\'' !in text && !NulFree(text)
    requires st.word.Some? && st.quote.Some? && st.quote.value.0.Single?
    ensures LexFrom(text + after, at, st).Err?
    decreases |text|
  {
    hide LexFrom, Bytes;
    var c := text[0];
    assert text + after == [c] + (text[1..] + after);
    if c == '\0' {
      NulFails(text[1..] + after, at, st);
    } else {
      var mid := st.(word := Extend(st.word, at, [c], false));
      OneCharacter(c, text[1..] + after, at, st, mid);
      SingleTextFails(text[1..], after, at + Bytes([c]), mid);
    }
  }

  lemma NulFails(after: string, at: nat, st: State)
    ensures LexFrom("\0" + after, at, st).Err?
  {
  }

  /** What follows the first stretch of a printed word. */
  function QuoteTail(value: string, after: string): string {
    var n := IndexOf(value, '\'');
    if n == |value| then after else Spell(Escaped('\'')) + (SpellWord(QuoteWord(value[n + 1..])) + after)
  }

  lemma SpellWordCons(f: Fragment, rest: seq<Fragment>)
    ensures SpellWord([f] + rest) == Spell(f) + SpellWord(rest)
  {
    assert ([f] + rest)[1..] == rest;
    hide Spell;
  }

  lemma QuoteWordFirst(value: string, after: string)
    ensures var n := IndexOf(value, '\'');
            && (n == |value| ==> QuoteWord(value) == [SingleQuoted(value[..n])] && QuoteTail(value, after) == after)
            && (n < |value| ==>
                  QuoteWord(value) == [SingleQuoted(value[..n])] + ([Escaped('\'')] + QuoteWord(value[n + 1..])))
  {
    hide IndexOf, SpellWord;
    assert [SingleQuoted(value[..IndexOf(value, '\'')])] + [] == [SingleQuoted(value[..IndexOf(value, '\'')])];
  }

  lemma QuoteWordParts(value: string, after: string)
    ensures var text := value[..IndexOf(value, '\'')];
            && SpellWord(QuoteWord(value)) + after == Spell(SingleQuoted(text)) + QuoteTail(value, after)
            && SpellWord(QuoteWord(value)) + after == "'" + (text + ("'" + QuoteTail(value, after)))
  {
    hide Spell, SpellWord, QuoteWord, QuoteTail, IndexOf;
    var n := IndexOf(value, '\'');
    var text := value[..n];
    var f, g, tail := SingleQuoted(text), Escaped('\''), QuoteTail(value, after);
    QuotedShape(text, tail);
    QuoteWordFirst(value, after);
    if n == |value| {
      assert [f] + [] == [f] && Spell(f) + "" == Spell(f);
      SpellWordCons(f, []);
      NoFragments(after);
    } else {
      var rest := QuoteWord(value[n + 1..]);
      SpellWordCons(f, [g] + rest);
      SpellWordCons(g, rest);
      Associative(Spell(f), Spell(g) + SpellWord(rest), after);
      Associative(Spell(g), SpellWord(rest), after);
      TailBehindQuote(value, after);
    }
  }

  lemma QuotedShape(text: string, tail: string)
    ensures Spell(SingleQuoted(text)) + tail == "'" + (text + ("'" + tail))
  {
  }

  /** A word with a NUL cannot be printed in single quotes: the lexer rejects it there. */
  lemma {:induction false} QuotedNulFails(value: string, after: string, at: nat, st: State)
    requires !NulFree(value) && st.quote.None?
    ensures LexFrom(SpellWord(QuoteWord(value)) + after, at, st).Err?
    decreases |value|
  {
    hide LexFrom, Bytes, HasCmdExpansion, SpellWord, QuoteWord, QuoteTail, Lexes, Spell;
    var n := IndexOf(value, '\'');
    var text, tail := value[..n], QuoteTail(value, after);
    QuoteWordParts(value, after);
    if !NulFree(text) {
      var open := st.(word := Extend(st.word, at, "", true), quote := Some((Single, at)));
      OpenQuote('\'', text + ("'" + tail), at, st);
      SingleTextFails(text, "'" + tail, at + Bytes("'"), open);
      FailsBehind("'", text + ("'" + tail), at, st, open);
    } else {
      NulBehindQuote(value, n);
      var f, g, rest := SingleQuoted(text), Escaped('\''), SpellWord(QuoteWord(value[n + 1..])) + after;
      var mid := st.(word := Extend(st.word, at, text, true));
      var at' := at + Bytes(Spell(f));
      var last := mid.(word := Extend(mid.word, at', "'", true));
      FragmentLexes(f, tail, at, st);
      TailBehindQuote(value, after);
      FragmentLexes(g, rest, at', mid);
      QuotedNulFails(value[n + 1..], after, at' + Bytes(Spell(g)), last);
      FailsBehind(Spell(g), rest, at', mid, last);
      FailsBehind(Spell(f), tail, at, st, mid);
    }
  }

  lemma FailsBehind(text: string, after: string, at: nat, st: State, next: State)
    requires Lexes(text, after, at, st, next) && LexFrom(after, at + Bytes(text), next).Err?
    ensures LexFrom(text + after, at, st).Err?
  {
    hide LexFrom, Bytes;
  }

  lemma TailBehindQuote(value: string, after: string)
    requires IndexOf(value, '\'') < |value|
    ensures QuoteTail(value, after) ==
            Spell(Escaped('\'')) + (SpellWord(QuoteWord(value[IndexOf(value, '\'') + 1..])) + after)
  {
    hide Spell, SpellWord, QuoteWord, IndexOf;
  }

  lemma NulBehindQuote(value: string, n: nat)
    requires n <= |value| && !NulFree(value) && NulFree(value[..n]) && (n < |value| ==> value[n] != '\0')
    ensures n < |value| && !NulFree(value[n + 1..])
  {
    assert value == value[..n] + value[n..];
    assert '\0' in value[n..];
    assert value[n..] == [value[n]] + value[n + 1..];
  }

  /** A word followed by a boundary fails when what is behind the boundary fails. */
  lemma FailureBehindWord(value: string, after: string, at: nat, separated: bool)
    requires NulFree(value) && AtBoundary(after)
    requires LexFrom(after, at + Bytes(SpellWord(QuoteWord(value))), State(None, None, false)).Err?
    ensures LexFrom(SpellWord(QuoteWord(value)) + after, at, State(None, None, separated)).Err?
  {
    hide LexFrom, Bytes, HasCmdExpansion, QuoteWord, SpellWord, Prepend, WordMeaning, ValidWord;
    var fragments := QuoteWord(value);
    QuoteWordSpells(value, true, after);
    WordLexes(fragments, after, at, State(None, None, separated));
    var pending := Extend(None, at, WordMeaning(fragments), AnyQuoted(fragments));
    var here := at + Bytes(SpellWord(fragments));
    FlushAtBoundary(after, here, State(pending, None, separated));
    PrependOk(Flush(pending), LexFrom(after, here, State(None, None, false)));
  }

  lemma FailureBehindBlank(after: string, at: nat)
    requires LexFrom(after, at + Bytes([' ']), State(None, None, false)).Err?
    ensures LexFrom([' '] + after, at, State(None, None, false)).Err?
  {
    hide LexFrom, Bytes, Prepend;
    BlankLexes(' ', after, at, false);
    PrependOk([], LexFrom(after, at + Bytes([' ']), State(None, None, false)));
  }

  lemma PrintedWordsParts(words: seq<string>, after: string)
    requires |words| > 1
    ensures var word, rest := SpellWord(QuoteWord(words[0])), SpellLine(PrintWords(words[1..]));
            && SpellLine(PrintWords(words)) + after == word + ([' '] + (rest + after))
            && Bytes(SpellLine(PrintWords(words))) == Bytes(word) + Bytes([' ']) + Bytes(rest)
  {
    hide QuoteWord, SpellWord, Bytes, SpellLine;
    var word, rest := Spelled(QuoteWord(words[0])), PrintWords(words[1..]);
    assert PrintWords(words) == [word] + ([Blank(' ')] + rest);
    hide PrintWords;
    SpellLineCons(word, [Blank(' ')] + rest);
    SpellLineCons(Blank(' '), rest);
    Associative(SpellElement(word), [' '] + SpellLine(rest), after);
    Associative([' '], SpellLine(rest), after);
    BytesAdd(SpellElement(word), [' '] + SpellLine(rest));
    BytesAdd([' '], SpellLine(rest));
  }

  lemma SpellLineCons(e: Element, rest: seq<Element>)
    ensures SpellLine([e] + rest) == SpellElement(e) + SpellLine(rest)
  {
    assert ([e] + rest)[1..] == rest;
    hide SpellElement;
  }

  /** The words of one printed operation fail to lex when one of them holds a NUL or when
      what follows them fails. */
  lemma {:induction false} PrintedWordsFail(words: seq<string>, after: string, at: nat, separated: bool)
    requires words != [] && AtBoundary(after)
    requires (exists w :: w in words && !NulFree(w))
             || LexFrom(after, at + Bytes(SpellLine(PrintWords(words))), State(None, None, false)).Err?
    ensures LexFrom(SpellLine(PrintWords(words)) + after, at, State(None, None, separated)).Err?
    decreases |words|
  {
    hide LexFrom, Bytes, NulFree, QuoteWord, SpellWord, PrintWords;
    var word := SpellWord(QuoteWord(words[0]));
    if |words| == 1 {
      OnePrintedWord(words);
      if !NulFree(words[0]) {
        QuotedNulFails(words[0], after, at, State(None, None, separated));
      } else {
        FailureBehindWord(words[0], after, at, separated);
      }
    } else {
      var rest := SpellLine(PrintWords(words[1..]));
      PrintedWordsParts(words, after);
      if !NulFree(words[0]) {
        QuotedNulFails(words[0], [' '] + (rest + after), at, State(None, None, separated));
      } else {
        var here := at + Bytes(word);
        PrintedWordsFail(words[1..], after, here + Bytes([' ']), false);
        FailureBehindBlank(rest + after, here);
        assert AtBoundary([' '] + (rest + after));
        FailureBehindWord(words[0], [' '] + (rest + after), at, separated);
      }
    }
  }

  lemma OnePrintedWord(words: seq<string>)
    requires |words| == 1
    ensures SpellLine(PrintWords(words)) == SpellWord(QuoteWord(words[0]))
  {
    var line := PrintWords(words);
    assert line[1..] == [];
    assert SpellWord(QuoteWord(words[0])) + "" == SpellWord(QuoteWord(words[0]));
  }

  lemma {:induction false} SpellLineAdd(a: seq<Element>, b: seq<Element>)
    ensures SpellLine(a + b) == SpellLine(a) + SpellLine(b)
  {
    hide SpellElement;
    if a == [] {
      assert a + b == b && "" + SpellLine(b) == SpellLine(b);
    } else {
      assert (a + b)[0] == a[0] && (a + b)[1..] == a[1..] + b;
      SpellLineAdd(a[1..], b);
      Associative(SpellElement(a[0]), SpellLine(a[1..]), SpellLine(b));
    }
  }

  lemma {:induction false} PrintedNulFails(operations: seq<Operation>, at: nat, separated: bool)
    requires exists op, w :: op in operations && w in op.Vector() && !NulFree(w)
    ensures LexFrom(Print(operations), at, State(None, None, separated)).Err?
    decreases |operations|
  {
    hide LexFrom, Bytes, NulFree, PrintWords, SpellLine, Prepend;
    var words := operations[0].Vector();
    var first := SpellLine(PrintWords(words));
    if |operations| == 1 {
      assert first + "" == first;
      PrintedWordsFail(words, "", at, separated);
    } else {
      var rest := operations[1..];
      PrintedParts(operations);
      if forall w :: w in words ==> NulFree(w) {
        var here := at + Bytes(first);
        PrintedNulFails(rest, here + Bytes(";"), true);
        OperatorLexes(Sequence, Print(rest), here, false);
        PrependOk([SeparatorToken(Sequence, here)], LexFrom(Print(rest), here + Bytes(";"), State(None, None, true)));
      }
      PrintedWordsFail(words, ";" + Print(rest), at, separated);
    }
  }

  lemma PrintedParts(operations: seq<Operation>)
    requires |operations| > 1
    ensures Print(operations) == SpellLine(PrintWords(operations[0].Vector())) + (";" + Print(operations[1..]))
  {
    var first, rest := PrintWords(operations[0].Vector()), PrintOperations(operations[1..]);
    SpellLineAdd(first, [Operator(Sequence)] + rest);
    assert first + [Operator(Sequence)] + rest == first + ([Operator(Sequence)] + rest);
    assert ([Operator(Sequence)] + rest)[1..] == rest;
    hide PrintWords, PrintOperations;
  }

  ghost predicate HasNulWord(tokens: seq<Token>) {
    exists t :: t in tokens && t.kind.Word? && !NulFree(t.value)
  }

  predicate HasNulPending(st: State) {
    st.word.Some? && !NulFree(st.word.value.value)
  }

  lemma NulParts(rest: string, pending: string)
    requires rest != "" && rest[0] != '\0'
    ensures !NulFree(pending) ==> forall text :: !NulFree(pending + text)
    ensures !NulFree(rest) ==> !NulFree(rest[1..])
    ensures !NulFree(rest) && |rest| > 1 ==>
              !NulFree(rest[2..]) || (rest[1] == '\0' && !NulFree(pending + [rest[1]])
                                      && !NulFree(pending + DoubleEscape(rest[1])))
  {
    assert rest == [rest[0]] + rest[1..];
    if |rest| > 1 {
      assert rest[1..] == [rest[1]] + rest[2..];
      assert rest[1] == '\0' ==> '\0' in DoubleEscape(rest[1]) by { assert DoubleEscape('\0')[1] == '\0'; }
    }
  }

  /** A move passes a NUL on: to a token, to the pending word, or to the text that is left. */
  lemma MoveKeepsNul(rest: string, at: nat, st: State)
    requires rest != "" && NextMove(rest, at, st).Go?
    requires !NulFree(rest) || HasNulPending(st)
    ensures var m := NextMove(rest, at, st);
            HasNulWord(m.tokens) || HasNulPending(m.next) || !NulFree(rest[m.consumed..])
  {
    hide HasCmdExpansion, IsWhitespace, NulFree, DoubleEscape;
    var m := NextMove(rest, at, st);
    NulParts(rest, Begin(st.word, at).value);
    if HasNulPending(st) && m.next.word.None? {
      var flushed := Flush(st.word);
      assert flushed[0] in m.tokens;
    }
  }

  /** A NUL that the lexer accepts ends up in a word. */
  lemma {:induction false} NulReachesWord(rest: string, at: nat, st: State)
    requires LexFrom(rest, at, st).Ok? && (!NulFree(rest) || HasNulPending(st))
    ensures HasNulWord(LexFrom(rest, at, st).value)
    decreases |rest|
  {
    hide Prepend, Bytes, NextMove;
    if rest == "" {
      assert Flush(st.word)[0] in Flush(st.word);
    } else {
      var Go(tokens, n, next) := NextMove(rest, at, st);
      MoveKeepsNul(rest, at, st);
      PrependOk(tokens, LexFrom(rest[n..], at + Bytes(rest[..n]), next));
      if HasNulWord(tokens) {
        var t :| t in tokens && t.kind.Word? && !NulFree(t.value);
        assert t in LexFrom(rest, at, st).value;
      } else {
        NulReachesWord(rest[n..], at + Bytes(rest[..n]), next);
      }
    }
  }

  lemma {:induction false} NulReachesRun(tokens: seq<Token>, run: seq<string>)
    requires HasNulWord(tokens) || exists w :: w in run && !NulFree(w)
    ensures exists words, w :: words in Runs(tokens, run) && w in words && !NulFree(w)
    decreases |tokens|
  {
    hide NulFree;
    if tokens != [] {
      var t, rest := tokens[0], tokens[1..];
      if t.kind.Word? {
        var longer := run + [t.value];
        assert t.value == Last(longer) && Last(longer) in longer;
        NulReachesRun(rest, longer);
      } else if HasNulWord(tokens) {
        NulReachesRun(rest, []);
        var words, w :| words in Runs(rest, []) && w in words && !NulFree(w);
        assert words in Runs(tokens, run);
      }
    }
    if !HasNulWord(tokens) && (tokens == [] || !tokens[0].kind.Word?) {
      assert Runs(tokens, run)[0] == run;
    }
  }

  /** The words of the operations hold a NUL exactly when the source does. */
  lemma NulIsKept(source: string)
    requires Parse(source).Ok?
    ensures NulFree(source) <==> forall op, w :: op in Parse(source).value && w in op.Vector() ==> NulFree(w)
  {
    hide LexFrom, ParseFrom, NulFree, Runs;
    var operations := Parse(source).value;
    OperationsAreWordRuns(source);
    if NulFree(source) {
      WordsAreNulFree(source, 0, START);
      RunsAreNulFree(Lex(source).value, []);
      forall op, w | op in operations && w in op.Vector() ensures NulFree(w) {
        var i :| 0 <= i < |operations| && operations[i] == op;
        assert Vectors(operations)[i] == op.Vector();
        assert Runs(Lex(source).value, [])[i] == op.Vector();
      }
    } else {
      NulReachesWord(source, 0, START);
      NulReachesRun(Lex(source).value, []);
      var words, w :| words in Vectors(operations) && w in words && !NulFree(w);
      var i :| 0 <= i < |operations| && Vectors(operations)[i] == words;
      assert operations[i] in operations && w in operations[i].Vector();
    }
  }

  /** Parse, print, parse is stable exactly for the sources without a NUL. A NUL is accepted
      only behind a backslash, where the lexer does not look for it, and then it is part of a
      word that single quotes cannot hold. */
  lemma ReparseIsStable(source: string)
    requires Parse(source).Ok?
    ensures Parse(Print(Parse(source).value)) == Parse(source) <==> NulFree(source)
  {
    hide LexFrom, ParseFrom, NulFree, Print;
    NulIsKept(source);
    if NulFree(source) {
      PrintedOperationsReparse(source);
    } else {
      PrintedNulFails(Parse(source).value, 0, false);
    }
  }

  lemma {:induction false} RunsAreNulFree(tokens: seq<Token>, run: seq<string>)
    requires forall t :: t in tokens ==> NulFree(t.value)
    requires forall w :: w in run ==> NulFree(w)
    ensures forall i, w :: 0 <= i < |Runs(tokens, run)| && w in Runs(tokens, run)[i] ==> NulFree(w)
    decreases |tokens|
  {
    hide NulFree;
    if tokens != [] {
      if tokens[0].kind.Word? {
        RunsAreNulFree(tokens[1..], run + [tokens[0].value]);
      } else {
        RunsAreNulFree(tokens[1..], []);
      }
    }
  }
}
