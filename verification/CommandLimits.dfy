/** Inputs at which a promise of command parsing ends. */
module CommandLimits {
  import opened Common
  import opened Characters
  import opened CommandLexer
  import opened CommandLexerTheorems
  import opened CommandText
  import opened CommandParser
  import opened CommandParserTheorems
  import opened CommandClassification

  // Lines of bare words

  /** A character that may stand bare at any place in a word. */
  predicate IsHarmless(c: char) {
    !IsWhitespace(c) && c !in "'\"\\;|&<>(){}^[]$`*?!\0" && c != '~' && c != '#' && c != '%'
  }

  predicate IsBareWord(text: string) {
    text != "" && forall i :: 0 <= i < |text| ==> IsHarmless(text[i])
  }

  lemma LettersAreBare(text: string)
    requires text != ""
    requires forall i :: 0 <= i < |text| ==> 'a' <= text[i] <= 'z' || '0' <= text[i] <= '9' || text[i] in "-="
    ensures IsBareWord(text)
  {
  }

  function BareWord(text: string): (fragments: seq<Fragment>)
    ensures |fragments| == |text| && forall i :: 0 <= i < |fragments| ==> fragments[i] == Bare(text[i])
  {
    seq(|text|, i requires 0 <= i < |text| => Bare(text[i]))
  }

  lemma {:induction false} BareWordSpells(text: string, first: bool, after: string)
    requires forall i :: 0 <= i < |text| ==> IsHarmless(text[i])
    ensures ValidWord(BareWord(text), first, after)
    ensures SpellWord(BareWord(text)) == text && WordMeaning(BareWord(text)) == text
    ensures !AnyQuoted(BareWord(text))
  {
    hide IsWhitespace, HasCmdExpansion;
    if text != "" {
      BareWordSpells(text[1..], false, after);
      assert BareWord(text)[1..] == BareWord(text[1..]);
      assert [text[0]] + text[1..] == text;
    }
  }

  function OneWord(text: string): seq<Element> {
    [Spelled(BareWord(text))]
  }

  function TwoWords(a: string, b: string): seq<Element> {
    [Spelled(BareWord(a)), Blank(' ')] + OneWord(b)
  }

  lemma OneWordIsLine(text: string, separated: bool)
    requires IsBareWord(text)
    ensures ValidLine(OneWord(text)) && SpellLine(OneWord(text)) == text
    ensures LineMeaning(OneWord(text), separated) == [WordShape(text, false)]
  {
    BareWordSpells(text, true, "");
    assert OneWord(text)[1..] == [];
    assert text + "" == text;
    hide SpellWord, WordMeaning, ValidWord, AnyQuoted;
  }

  lemma TwoWordsAreLine(a: string, b: string)
    requires IsBareWord(a) && IsBareWord(b)
    ensures ValidLine(TwoWords(a, b)) && SpellLine(TwoWords(a, b)) == a + " " + b
    ensures LineMeaning(TwoWords(a, b), false) == [WordShape(a, false), WordShape(b, false)]
  {
    hide SpellWord, WordMeaning, ValidWord, AnyQuoted, IsHarmless;
    var line, rest := TwoWords(a, b), [Blank(' ')] + OneWord(b);
    OneWordIsLine(b, false);
    assert rest[1..] == OneWord(b) && line[1..] == rest && line[1] == Blank(' ');
    assert SpellLine(rest) == [' '] + b;
    BareWordSpells(a, true, SpellLine(rest));
    assert ValidLine(rest);
    assert a + ([' '] + b) == a + " " + b;
  }

  lemma ShapesOfWords(segment: seq<Token>, words: seq<string>, quoted: bool)
    requires Shapes(segment) == seq(|words|, i requires 0 <= i < |words| => WordShape(words[i], quoted))
    ensures |segment| == |words| && Values(segment) == words
    ensures forall t :: t in segment ==> t.kind.Word? && t.quoted == quoted
  {
    forall i | 0 <= i < |segment|
      ensures segment[i].kind.Word? && segment[i].value == words[i] && segment[i].quoted == quoted
    {
      assert Shapes(segment)[i] == WordShape(words[i], quoted);
    }
  }

  /** A line that means words alone lexes to those words and is one segment. */
  lemma WordsParse(source: string, elements: seq<Element>, words: seq<string>, quoted: bool)
    returns (segment: seq<Token>)
    requires ValidLine(elements) && SpellLine(elements) == source && words != []
    requires LineMeaning(elements, false) == seq(|words|, i requires 0 <= i < |words| => WordShape(words[i], quoted))
    ensures Values(segment) == words && forall t :: t in segment ==> t.quoted == quoted
    ensures Parse(source) == match ParseSegment(segment) case Ok(op) => Ok([op]) case Err(e) => Err(e)
  {
    hide LexFrom, ParseSegment, IsBlank, ValidLine, SpellLine, LineMeaning, Shapes, LineTokens;
    LineLexes(elements, 0, false);
    segment := Lex(source).value;
    ShapesOfWords(segment, words, quoted);
    assert segment[0] in segment;
    if IsBlank(source) { BlankLexesToNoWord(source); }
    ParseOfText(source);
    ParseWordsFirst(segment, [], []);
    assert segment + [] == segment && [] + segment == segment;
  }

  // Words that mean nothing special

  /** Reserved names begin with a letter or a dot. */
  predicate BeginsReserved(name: string) {
    name == "" || name[0] == '.' || 'a' <= name[0] <= 'z'
  }

  lemma NoSpecialCommand(name: string)
    requires !BeginsReserved(name)
    ensures !IsWrapper(name) && !IsShellInterpreter(name) && !IsUnsupportedWrapper(name)
  {
  }

  lemma NoBuiltin(name: string)
    requires !BeginsReserved(name)
    ensures !IsStatefulBuiltin(name) && !IsGit(name)
  {
  }

  lemma NoControlWord(t: Token)
    requires !BeginsReserved(t.value)
    ensures !IsControlWord(t)
  {
  }

  /** A word without a slash, an assignment or a reserved beginning is a command of its own. */
  lemma PlainWordParses(t: Token)
    requires !BeginsReserved(t.value) && '/' !in t.value && !IsAssignmentWord(t.value)
    ensures ParseSegment([t]).Ok?
  {
    hide ExecutableName, IsShellInterpreter, IsUnsupportedWrapper, IsWrapper, IsStatefulBuiltin, IsControlWord, IsGit,
         IsAssignmentWord;
    assert t.value != "." && t.value != "..";
    DirectoriesDoNotMatter("", t.value);
    NoSpecialCommand(t.value);
    NoBuiltin(t.value);
    NoControlWord(t);
  }

  // Where the promises end

  /** `x` and a newline with `y` lex, and so does `x;` with both; but the newline then follows a
      separator and adds none. */
  lemma NewlineDoesNotCompose()
    ensures var a, b := "x", "\ny";
            && Lex(a).Ok? && Lex(b).Ok?
            && Lex(a + ";" + b) !=
               Prepend(Lex(a).value + [SeparatorToken(Sequence, Bytes(a))], ShiftLexed(Lex(b), Bytes(a) + 1))
  {
    hide LexFrom, ValidLine, SpellLine, LineMeaning, Shapes, Prepend, ShiftLexed, Bytes,
         IsBareWord, OneWord;
    LettersAreBare("x");
    LettersAreBare("y");
    OneWordIsLine("x", false);
    LineLexes(OneWord("x"), 0, false);
    OneWordIsLine("y", true);
    NewlineInFront(OneWord("y"), "y");
    assert ['\n'] + "y" == "\ny";
    LineLexes([Blank('\n')] + OneWord("y"), 0, false);
    LexComposes("x", "\ny");
  }

  lemma NewlineInFront(line: seq<Element>, text: string)
    requires ValidLine(line) && SpellLine(line) == text
    ensures ValidLine([Blank('\n')] + line) && SpellLine([Blank('\n')] + line) == ['\n'] + text
  {
    assert ([Blank('\n')] + line)[1..] == line;
  }

  /** A backslash and a NUL are one word, and printing it in single quotes is rejected. */
  lemma EscapedNulDoesNotReparse()
    ensures Parse("\\\0").Ok? && Parse(Print(Parse("\\\0").value)) != Parse("\\\0")
  {
    hide ParseSegment, Lex, ParseFrom;
    EscapedIsLine('\0');
    var segment := WordsParse("\\\0", [Spelled([Escaped('\0')])], ["\0"], true);
    assert |segment| == |Values(segment)| && segment[0].value == Values(segment)[0];
    assert segment == [segment[0]] && IndexOf("\0", '=') == 1;
    PlainWordParses(segment[0]);
    assert "\\\0"[1] == '\0';
    ReparseIsStable("\\\0");
  }

  lemma EscapedIsLine(c: char)
    requires c != '\n'
    ensures var line := [Spelled([Escaped(c)])];
            && ValidLine(line) && SpellLine(line) == ['\\', c]
            && LineMeaning(line, false) == [WordShape([c], true)]
  {
    var fragments, line := [Escaped(c)], [Spelled([Escaped(c)])];
    assert fragments == [Escaped(c)] + [] && line == [Spelled(fragments)] + [];
    FragmentFirst(Escaped(c), [], true, "");
    SpellWordCons(Escaped(c), []);
    NoFragments("");
    assert line[1..] == [] && fragments[0] in fragments;
    assert ['\\', c] + "" == ['\\', c] && [c] + "" == [c];
  }

  lemma WrapperWord(t: Token)
    requires t.value == "time" || t.value == "env"
    ensures ExecutableName(t.value) == t.value && IsWrapper(t.value)
    ensures !IsControlWord(t) && !IsAssignmentWord(t.value)
  {
    hide ExecutableName;
    DirectoriesDoNotMatter("", t.value);
    assert '=' !in t.value;
  }

  /** A wrapper in front of a word that parses alone, but that may not follow it. */
  lemma WrapperRefuses(segment: seq<Token>, wrapper: string, word: string)
    requires Values(segment) == [wrapper, word] && (wrapper == "time" || wrapper == "env")
    requires StartsWith(word, "-") || (wrapper == "env" && '=' in word)
    requires !BeginsReserved(word) && '/' !in word && !IsAssignmentWord(word)
    ensures ParseSegment(segment).Err? && ParseSegment(segment).error.kind == UnsupportedOperation
  {
    hide ParseSegment, ExecutableName, IsWrapper, IsControlWord, IsAssignmentWord, StartsWith;
    assert |segment| == |Values(segment)|;
    assert segment[0].value == Values(segment)[0] && segment[1].value == Values(segment)[1];
    assert segment == [segment[0]] + segment[1..] && segment[1..] == [segment[1]];
    WrapperWord(segment[0]);
    PlainWordParses(segment[1]);
    WrapperIsTransparent(segment[0], segment[1..]);
  }

  /** A word that may not follow a wrapper can still be a command on a line of its own. */
  lemma WrapperStops(wrapper: string, word: string)
    requires wrapper == "time" || wrapper == "env"
    requires StartsWith(word, "-") || (wrapper == "env" && '=' in word)
    requires IsBareWord(word) && !BeginsReserved(word) && '/' !in word && !IsAssignmentWord(word)
    ensures Parse(word).Ok?
    ensures var r := Parse(wrapper + " " + word); r.Err? && r.error.kind == UnsupportedOperation
  {
    hide Parse, ParseSegment, ValidLine, SpellLine, LineMeaning, IsAssignmentWord, StartsWith, OneWord, TwoWords,
         IsBareWord, BeginsReserved;
    LettersAreBare(wrapper);
    OneWordIsLine(word, false);
    TwoWordsAreLine(wrapper, word);
    var alone := WordsParse(word, OneWord(word), [word], false);
    var both := WordsParse(wrapper + " " + word, TwoWords(wrapper, word), [wrapper, word], false);
    assert |alone| == |Values(alone)| && alone[0].value == Values(alone)[0];
    assert alone == [alone[0]];
    PlainWordParses(alone[0]);
    WrapperRefuses(both, wrapper, word);
  }

  /** `-x` is a command, but no wrapper takes it. */
  lemma OptionStopsWrapper()
    ensures Parse("-x").Ok?
    ensures Parse("time -x").Err? && Parse("time -x").error.kind == UnsupportedOperation
  {
    hide Parse, IsBareWord;
    LettersAreBare("-x");
    assert "time" + " " + "-x" == "time -x";
    assert '=' !in "-x";
    WrapperStops("time", "-x");
  }

  /** `1=2` is a command, but `env` does not take it. */
  lemma EqualsStopsEnv()
    ensures Parse("1=2").Ok?
    ensures Parse("env 1=2").Err? && Parse("env 1=2").error.kind == UnsupportedOperation
  {
    hide Parse, IsBareWord;
    LettersAreBare("1=2");
    assert "env" + " " + "1=2" == "env 1=2" && "1=2"[1] == '=';
    WrapperStops("env", "1=2");
  }
}
