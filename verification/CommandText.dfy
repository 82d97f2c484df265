/** Command text seen from its meaning: which texts spell which words, and which characters
    of an accepted text can still be shell syntax. */
module CommandText {
  import opened Common
  import opened Characters
  import opened CommandLexer

  // Spelling words and separators

  /** One unit between double quotes: a character, or a backslash and a character. */
  datatype Item = Raw(c: char) | Escape(c: char)

  /** A stretch of a word written in one quoting style. */
  datatype Fragment =
    | Bare(c: char)
    | Escaped(c: char)
    | SingleQuoted(text: string)
    | DoubleQuoted(items: seq<Item>)

  datatype Element = Spelled(fragments: seq<Fragment>) | Blank(c: char) | Operator(separator: Separator)

  /** What a token says apart from where it is. */
  datatype Shape = WordShape(value: string, quoted: bool) | SeparatorShape(separator: Separator)

  function SpellItem(item: Item): string {
    match item
    case Raw(c) => [c]
    case Escape(c) => ['\\', c]
  }

  function SpellItems(items: seq<Item>): string {
    if items == [] then "" else SpellItem(items[0]) + SpellItems(items[1..])
  }

  /** A backslash between double quotes keeps its meaning only before `"`, `\`, `$`, a
      backtick and a newline; elsewhere it stands for itself. */
  function ItemMeaning(item: Item): string {
    match item
    case Raw(c) => [c]
    case Escape(c) => if c == '\n' then "" else if c in "\"\\$`" then [c] else ['\\', c]
  }

  function ItemsMeaning(items: seq<Item>): string {
    if items == [] then "" else ItemMeaning(items[0]) + ItemsMeaning(items[1..])
  }

  predicate ValidItems(items: seq<Item>) {
    forall item :: item in items && item.Raw? ==> item.c !in "\"\\$`\0"
  }

  function Spell(f: Fragment): string {
    match f
    case Bare(c) => [c]
    case Escaped(c) => ['\\', c]
    case SingleQuoted(text) => "'" + text + "'"
    case DoubleQuoted(items) => "\"" + SpellItems(items) + "\""
  }

  function Meaning(f: Fragment): string {
    match f
    case Bare(c) => [c]
    case Escaped(c) => if c == '\n' then "" else [c]
    case SingleQuoted(text) => text
    case DoubleQuoted(items) => ItemsMeaning(items)
  }

  /** A percent sign stands for itself unless a digit, `*`, `~` or another percent sign follows,
      or a percent sign anywhere before the next blank or operator. */
  predicate PercentIsPlain(after: string) {
    && (after == "" || after[0] !in "0123456789*~%")
    && !exists k :: 0 <= k < |after| && after[k] == '%' &&
                    forall j :: 0 <= j < k ==> after[j] !in ";&|" && !IsWhitespace(after[j])
  }

  /** A fragment that may stand in a word, first or not, before the given text. */
  predicate ValidFragment(f: Fragment, first: bool, after: string) {
    match f
    case Bare(c) =>
      && !IsWhitespace(c) && c !in "'\"\\;|&<>(){}^[]$`*?!\0"
      && (first ==> c != '~' && c != '#')
      && (c == '%' ==> PercentIsPlain(after))
    case Escaped(_) => true
    case SingleQuoted(text) => '\'' !in text && '\0' !in text
    case DoubleQuoted(items) => ValidItems(items)
  }

  function SpellWord(fragments: seq<Fragment>): string {
    if fragments == [] then "" else Spell(fragments[0]) + SpellWord(fragments[1..])
  }

  function WordMeaning(fragments: seq<Fragment>): string {
    if fragments == [] then "" else Meaning(fragments[0]) + WordMeaning(fragments[1..])
  }

  predicate ValidWord(fragments: seq<Fragment>, first: bool, after: string) {
    fragments == []
    || (ValidFragment(fragments[0], first, SpellWord(fragments[1..]) + after)
        && ValidWord(fragments[1..], false, after))
  }

  predicate AnyQuoted(fragments: seq<Fragment>) {
    exists f :: f in fragments && !f.Bare?
  }

  function SpellOperator(s: Separator): string {
    match s
    case Sequence => ";"
    case And => "&&"
    case Or => "||"
    case Pipe => "|"
  }

  function SpellElement(e: Element): string {
    match e
    case Spelled(fragments) => SpellWord(fragments)
    case Blank(c) => [c]
    case Operator(s) => SpellOperator(s)
  }

  function SpellLine(elements: seq<Element>): string {
    if elements == [] then "" else SpellElement(elements[0]) + SpellLine(elements[1..])
  }

  /** Words are kept apart, blanks are whitespace, and a single bar is not followed by a bar. */
  predicate ValidLine(elements: seq<Element>) {
    elements == []
    || (ValidLine(elements[1..]) &&
        match elements[0]
        case Spelled(fragments) =>
          && fragments != []
          && ValidWord(fragments, true, SpellLine(elements[1..]))
          && (elements[1..] != [] ==> !elements[1].Spelled?)
        case Blank(c) => IsWhitespace(c)
        case Operator(s) =>
          s.Pipe? && elements[1..] != [] && elements[1].Operator? ==>
            !elements[1].separator.Pipe? && !elements[1].separator.Or?)
  }

  /** The words and separators of a line; a newline separates unless a separator came last. */
  function LineMeaning(elements: seq<Element>, separated: bool): seq<Shape> {
    if elements == [] then []
    else
      match elements[0]
      case Spelled(fragments) =>
        [WordShape(WordMeaning(fragments), AnyQuoted(fragments))] + LineMeaning(elements[1..], false)
      case Blank(c) =>
        if c == '\n' && !separated then [SeparatorShape(Sequence)] + LineMeaning(elements[1..], true)
        else LineMeaning(elements[1..], separated)
      case Operator(s) => [SeparatorShape(s)] + LineMeaning(elements[1..], true)
  }

  function ShapeOf(t: Token): Shape {
    match t.kind
    case Word => WordShape(t.value, t.quoted)
    case Separator(s) => SeparatorShape(s)
  }

  function Shapes(tokens: seq<Token>): (r: seq<Shape>)
    ensures |r| == |tokens| && forall i :: 0 <= i < |r| ==> r[i] == ShapeOf(tokens[i])
  {
    seq(|tokens|, i requires 0 <= i < |tokens| => ShapeOf(tokens[i]))
  }

  // Every spelling lexes to its meaning

  lemma {:induction false} PercentByLookahead(rest: string)
    ensures PercentAhead(rest) <==>
            exists k :: 0 <= k < |rest| && rest[k] == '%' &&
                        forall j :: 0 <= j < k ==> rest[j] !in ";&|" && !IsWhitespace(rest[j])
  {
    hide IsWhitespace;
    if rest != "" {
      PercentByLookahead(rest[1..]);
      if !EndsExpansion(rest[0]) && PercentAhead(rest[1..]) {
        var k :| 0 <= k < |rest[1..]| && rest[1..][k] == '%' &&
                 forall j :: 0 <= j < k ==> rest[1..][j] !in ";&|" && !IsWhitespace(rest[1..][j]);
        assert rest[k + 1] == '%';
        assert forall j :: 0 < j < k + 1 ==> rest[j] == rest[1..][j - 1];
      }
      if k :| 0 <= k < |rest| && rest[k] == '%' &&
              forall j :: 0 <= j < k ==> rest[j] !in ";&|" && !IsWhitespace(rest[j]) {
        if k > 0 {
          assert rest[1..][k - 1] == '%';
          assert forall j :: 0 <= j < k - 1 ==> rest[1..][j] == rest[j + 1];
        } else {
          PercentEndsNothing();
        }
      }
    }
  }

  lemma PercentEndsNothing()
    ensures !EndsExpansion('%')
  {
  }

  /** The lexer refuses a percent sign exactly when it does not stand for itself. */
  lemma ExpansionsBySpelling(after: string)
    ensures HasCmdExpansion(after) <==> !PercentIsPlain(after)
  {
    PercentByLookahead(after);
  }

  /** The word being read after more of it has been spelled. */
  function Extend(word: Option<Pending>, at: nat, text: string, quoted: bool): Option<Pending> {
    var pending := Begin(word, at);
    Some(Pending(pending.value + text, pending.start, pending.quoted || quoted))
  }

  predicate Lexes(spelling: string, after: string, at: nat, st: State, next: State) {
    LexFrom(spelling + after, at, st) == LexFrom(after, at + Bytes(spelling), next)
  }

  lemma OneCharacter(c: char, after: string, at: nat, st: State, next: State)
    requires NextMove([c] + after, at, st) == Go([], 1, next)
    ensures Lexes([c], after, at, st, next)
  {
    var rest := [c] + after;
    assert rest[1..] == after && rest[..1] == [c];
    hide NextMove, Bytes;
    PrependNothing(LexFrom(after, at + Bytes([c]), next));
  }

  lemma TwoCharacters(c: char, d: char, after: string, at: nat, st: State, next: State)
    requires NextMove([c, d] + after, at, st) == Go([], 2, next)
    ensures Lexes([c, d], after, at, st, next)
  {
    var rest := [c, d] + after;
    assert rest[2..] == after && rest[..2] == [c, d];
    hide NextMove, Bytes;
    PrependNothing(LexFrom(after, at + Bytes([c, d]), next));
  }

  /** Spellings compose. */
  lemma LexesThen(a: string, b: string, after: string, at: nat, st: State, mid: State, next: State)
    requires Lexes(a, b + after, at, st, mid)
    requires Lexes(b, after, at + Bytes(a), mid, next)
    ensures Lexes(a + b, after, at, st, next)
  {
    hide LexFrom, Bytes;
    assert a + b + after == a + (b + after);
    BytesAdd(a, b);
  }

  lemma {:induction false} SingleTextLexes(text: string, after: string, at: nat, st: State)
    requires '\'' !in text && '\0' !in text
    requires st.word.Some? && st.quote.Some? && st.quote.value.0.Single?
    ensures Lexes(text, after, at, st, st.(word := Extend(st.word, at, text, false)))
    decreases |text|
  {
    hide LexFrom, Bytes;
    var word := st.word.value;
    if text == "" {
      assert text + after == after && word.value + text == word.value;
      assert Bytes("") == 0 by { BytesAdd("", ""); assert "" + "" == ""; }
    } else {
      var c := text[0];
      var mid := st.(word := Extend(st.word, at, [c], false));
      OneCharacter(c, text[1..] + after, at, st, mid);
      SingleTextLexes(text[1..], after, at + Bytes([c]), mid);
      assert word.value + [c] + text[1..] == word.value + text && [c] + text[1..] == text;
      LexesThen([c], text[1..], after, at, st, mid, st.(word := Extend(st.word, at, text, false)));
    }
  }

  lemma ItemLexes(item: Item, after: string, at: nat, st: State)
    requires item.Raw? ==> item.c !in "\"\\$`\0"
    requires st.word.Some? && st.quote.Some? && st.quote.value.0.Double?
    ensures Lexes(SpellItem(item), after, at, st, st.(word := Extend(st.word, at, ItemMeaning(item), false)))
  {
    hide LexFrom, Bytes;
    var next := st.(word := Extend(st.word, at, ItemMeaning(item), false));
    match item
    case Raw(c) => OneCharacter(c, after, at, st, next);
    case Escape(c) => TwoCharacters('\\', c, after, at, st, next);
  }

  lemma ItemsInFront(items: seq<Item>)
    requires items != []
    ensures SpellItems(items) == SpellItem(items[0]) + SpellItems(items[1..])
    ensures ItemsMeaning(items) == ItemMeaning(items[0]) + ItemsMeaning(items[1..])
  {
    hide SpellItem, ItemMeaning;
  }

  lemma {:induction false} ItemsLex(items: seq<Item>, after: string, at: nat, st: State)
    requires ValidItems(items)
    requires st.word.Some? && st.quote.Some? && st.quote.value.0.Double?
    ensures Lexes(SpellItems(items), after, at, st, st.(word := Extend(st.word, at, ItemsMeaning(items), false)))
    decreases |items|
  {
    hide LexFrom, Bytes;
    var word := st.word.value;
    if items == [] {
      assert "" + after == after && word.value + "" == word.value;
      assert Bytes("") == 0 by { BytesAdd("", ""); assert "" + "" == ""; }
    } else {
      var mid := st.(word := Extend(st.word, at, ItemMeaning(items[0]), false));
      ItemLexes(items[0], SpellItems(items[1..]) + after, at, st);
      ItemsLex(items[1..], after, at + Bytes(SpellItem(items[0])), mid);
      ItemsInFront(items);
      hide SpellItem, ItemMeaning, SpellItems, ItemsMeaning;
      Associative(word.value, ItemMeaning(items[0]), ItemsMeaning(items[1..]));
      LexesThen(SpellItem(items[0]), SpellItems(items[1..]), after, at, st, mid,
                st.(word := Extend(st.word, at, ItemsMeaning(items), false)));
    }
  }

  lemma OpenQuote(c: char, after: string, at: nat, st: State)
    requires (c == '\'' || c == '"') && st.quote.None?
    ensures Lexes([c], after, at, st,
                  st.(word := Extend(st.word, at, "", true),
                      quote := Some((if c == '\'' then Single else Double, at))))
  {
    hide LexFrom, Bytes;
    OneCharacter(c, after, at, st,
                 st.(word := Extend(st.word, at, "", true),
                     quote := Some((if c == '\'' then Single else Double, at))));
  }

  lemma CloseQuote(after: string, at: nat, st: State)
    requires st.quote.Some?
    ensures var c := if st.quote.value.0.Single? then '\'' else '"';
            Lexes([c], after, at, st, st.(quote := None))
  {
    hide LexFrom, Bytes;
    OneCharacter(if st.quote.value.0.Single? then '\'' else '"', after, at, st, st.(quote := None));
  }

  /** A stretch between quotes: the opening, what it holds, and the closing. */
  lemma QuotedLexes(c: char, text: string, meaning: string, after: string, at: nat, st: State)
    requires (c == '\'' || c == '"') && st.quote.None?
    requires var open := st.(word := Extend(st.word, at, "", true),
                             quote := Some((if c == '\'' then Single else Double, at)));
             Lexes(text, [c] + after, at + Bytes([c]), open,
                   open.(word := Extend(open.word, at + Bytes([c]), meaning, false)))
    ensures Lexes([c] + text + [c], after, at, st, st.(word := Extend(st.word, at, meaning, true)))
  {
    hide LexFrom, Bytes, Lexes;
    var open := st.(word := Extend(st.word, at, "", true),
                    quote := Some((if c == '\'' then Single else Double, at)));
    var full := open.(word := Extend(open.word, at + Bytes([c]), meaning, false));
    OpenQuote(c, text + ([c] + after), at, st);
    LexesThen([c], text, [c] + after, at, st, open, full);
    CloseQuote(after, at + Bytes([c] + text), full);
    var begun := Begin(st.word, at).value;
    assert begun + "" + meaning == begun + meaning;
    assert full.(quote := None) == st.(word := Extend(st.word, at, meaning, true));
    LexesThen([c] + text, [c], after, at, st, full, full.(quote := None));
  }

  /** Every fragment, in whatever style, adds exactly its meaning to the word. */
  lemma FragmentLexes(f: Fragment, after: string, at: nat, st: State)
    requires st.quote.None? && ValidFragment(f, st.word.None?, after)
    ensures Lexes(Spell(f), after, at, st, st.(word := Extend(st.word, at, Meaning(f), !f.Bare?)))
  {
    hide LexFrom, Bytes, HasCmdExpansion, IsWhitespace, PercentIsPlain;
    var next := st.(word := Extend(st.word, at, Meaning(f), !f.Bare?));
    match f
    case Bare(c) =>
      assert ([c] + after)[1..] == after;
      ExpansionsBySpelling(after);
      OneCharacter(c, after, at, st, next);
    case Escaped(c) =>
      TwoCharacters('\\', c, after, at, st, next);
    case SingleQuoted(text) =>
      var open := st.(word := Extend(st.word, at, "", true), quote := Some((Single, at)));
      SingleTextLexes(text, "'" + after, at + Bytes("'"), open);
      QuotedLexes('\'', text, text, after, at, st);
    case DoubleQuoted(items) =>
      var open := st.(word := Extend(st.word, at, "", true), quote := Some((Double, at)));
      ItemsLex(items, "\"" + after, at + Bytes("\""), open);
      QuotedLexes('"', SpellItems(items), ItemsMeaning(items), after, at, st);
  }

  /** A spelled word is read as its meaning, and is quoted when any part of it is. */
  lemma {:induction false} WordLexes(fragments: seq<Fragment>, after: string, at: nat, st: State)
    requires fragments != [] && st.quote.None? && ValidWord(fragments, st.word.None?, after)
    ensures Lexes(SpellWord(fragments), after, at, st,
                  st.(word := Extend(st.word, at, WordMeaning(fragments), AnyQuoted(fragments))))
    decreases |fragments|
  {
    hide LexFrom, Bytes, Lexes, Spell, Meaning, ValidFragment;
    var f, rest := fragments[0], fragments[1..];
    var mid := st.(word := Extend(st.word, at, Meaning(f), !f.Bare?));
    var begun := Begin(st.word, at).value;
    FragmentLexes(f, SpellWord(rest) + after, at, st);
    if rest == [] {
      assert Spell(f) + "" == Spell(f) && Meaning(f) + "" == Meaning(f);
      assert SpellWord(rest) + after == after;
      assert AnyQuoted(fragments) == !f.Bare? by { assert fragments == [f]; }
    } else {
      WordLexes(rest, after, at + Bytes(Spell(f)), mid);
      assert begun + Meaning(f) + WordMeaning(rest) == begun + WordMeaning(fragments);
      AnyQuotedCons(fragments);
      LexesThen(Spell(f), SpellWord(rest), after, at, st, mid,
                st.(word := Extend(st.word, at, WordMeaning(fragments), AnyQuoted(fragments))));
    }
  }

  lemma AnyQuotedCons(fragments: seq<Fragment>)
    requires fragments != []
    ensures AnyQuoted(fragments) == (!fragments[0].Bare? || AnyQuoted(fragments[1..]))
  {
    if AnyQuoted(fragments[1..]) {
      var f :| f in fragments[1..] && !f.Bare?;
      assert f in fragments;
    }
    if AnyQuoted(fragments) {
      var f :| f in fragments && !f.Bare?;
      assert f == fragments[0] || f in fragments[1..];
    }
  }

  // Lines

  /** Where a word ends: at the end of the text, a blank or an operator. */
  predicate AtBoundary(rest: string) {
    rest == "" || (rest[0] != '\0' && (IsWhitespace(rest[0]) || rest[0] in ";|&"))
  }

  /** At a boundary the word is emitted, and lexing goes on as it would without a word. */
  lemma FlushAtBoundary(rest: string, at: nat, st: State)
    requires AtBoundary(rest) && st.quote.None? && st.word.Some?
    ensures LexFrom(rest, at, st) == Prepend(Flush(st.word), LexFrom(rest, at, State(None, None, false)))
  {
    hide Prepend, Bytes;
    var clear := State(None, None, false);
    if rest == "" {
      PrependEmpty(Flush(st.word));
    } else {
      var with, without := NextMove(rest, at, st), NextMove(rest, at, clear);
      if with.Go? {
        assert Flush(st.word) + [] == Flush(st.word);
        assert without.Go? && with.tokens == Flush(st.word) + without.tokens
               && with.consumed == without.consumed && with.next == without.next;
        var n := with.consumed;
        PrependTwice(Flush(st.word), without.tokens, LexFrom(rest[n..], at + Bytes(rest[..n]), with.next));
      } else {
        assert without == with;
        PrependError(Flush(st.word), LexFrom(rest, at, clear));
      }
    }
  }

  lemma PrependEmpty(tokens: seq<Token>)
    ensures Prepend(tokens, Ok([])) == Ok(tokens)
  {
    assert tokens + [] == tokens;
  }

  predicate LexesTo(text: string, at: nat, separated: bool, shapes: seq<Shape>) {
    var r := LexFrom(text, at, State(None, None, separated));
    r.Ok? && Shapes(r.value) == shapes
  }

  /** Something follows a word in a valid line only if the word ends there. */
  lemma AfterWord(elements: seq<Element>)
    requires ValidLine(elements) && elements != [] && elements[0].Spelled?
    ensures AtBoundary(SpellLine(elements[1..]))
  {
    if elements[1..] != [] {
      match elements[1]
      case Blank(c) => assert SpellLine(elements[1..])[0] == c;
      case Operator(s) => assert SpellLine(elements[1..])[0] == SpellOperator(s)[0];
    }
  }

  lemma OperatorLexes(s: Separator, after: string, at: nat, separated: bool)
    requires s.Pipe? ==> after == "" || after[0] != '|'
    ensures LexFrom(SpellOperator(s) + after, at, State(None, None, separated)) ==
            Prepend([SeparatorToken(s, at)],
                    LexFrom(after, at + Bytes(SpellOperator(s)), State(None, None, true)))
  {
    hide Prepend, Bytes;
    var text := SpellOperator(s);
    var rest := text + after;
    var n := |text|;
    assert rest[n..] == after && rest[..n] == text;
    assert |rest| > 1 && n == 1 ==> rest[1] == after[0];
    assert n == 2 ==> rest[0] == text[0] && rest[1] == text[1];
    assert NextMove(rest, at, State(None, None, separated)) ==
           Go([] + [SeparatorToken(s, at)], n, State(None, None, true));
    assert [] + [SeparatorToken(s, at)] == [SeparatorToken(s, at)];
  }

  lemma BlankLexes(c: char, after: string, at: nat, separated: bool)
    requires IsWhitespace(c)
    ensures LexFrom([c] + after, at, State(None, None, separated)) ==
            Prepend(if c == '\n' && !separated then [SeparatorToken(Sequence, at)] else [],
                    LexFrom(after, at + Bytes([c]), State(None, None, separated || c == '\n')))
  {
    hide Prepend, Bytes;
    var rest := [c] + after;
    assert rest[1..] == after && rest[..1] == [c];
    assert [] + [SeparatorToken(Sequence, at)] == [SeparatorToken(Sequence, at)];
  }

  lemma NoBarAfterPipe(elements: seq<Element>)
    requires ValidLine(elements) && elements != [] && elements[0] == Operator(Pipe)
    ensures SpellLine(elements[1..]) == "" || SpellLine(elements[1..])[0] != '|'
  {
    if elements[1..] != [] {
      match elements[1]
      case Blank(c) => assert SpellLine(elements[1..])[0] == c;
      case Operator(s) => assert SpellLine(elements[1..])[0] == SpellOperator(s)[0];
      case Spelled(fragments) =>
        assert SpellLine(elements[1..])[0] == Spell(fragments[0])[0];
    }
  }

  /** The tokens of a line that starts at offset `at`: each word and separator where its
      spelling begins, words with their meaning. */
  function LineTokens(elements: seq<Element>, at: nat, separated: bool): seq<Token> {
    if elements == [] then []
    else
      var here := at + Bytes(SpellElement(elements[0]));
      match elements[0]
      case Spelled(fragments) =>
        [Token(WordMeaning(fragments), at, AnyQuoted(fragments), Word)] + LineTokens(elements[1..], here, false)
      case Blank(c) =>
        if c == '\n' && !separated
        then [Token("", at, false, Separator(Sequence))] + LineTokens(elements[1..], here, true)
        else LineTokens(elements[1..], here, separated)
      case Operator(s) => [Token("", at, false, Separator(s))] + LineTokens(elements[1..], here, true)
  }

  /** The induction over the elements of a line. */
  lemma {:induction false} ElementsLex(elements: seq<Element>, at: nat, separated: bool)
    requires ValidLine(elements)
    ensures LexFrom(SpellLine(elements), at, State(None, None, separated)) == Ok(LineTokens(elements, at, separated))
    decreases |elements|
  {
    hide LexFrom, Bytes, Prepend, IsWhitespace, SpellWord, WordMeaning, ValidWord, AnyQuoted, Flush;
    if elements == [] {
      EmptyLexes(at, separated);
      return;
    }
    var rest := elements[1..];
    var after := SpellLine(rest);
    var here := at + Bytes(SpellElement(elements[0]));
    match elements[0]
    case Spelled(fragments) =>
      WordLexes(fragments, after, at, State(None, None, separated));
      AfterWord(elements);
      var word := Extend(None, at, WordMeaning(fragments), AnyQuoted(fragments));
      FlushAtBoundary(after, here, State(word, None, separated));
      ElementsLex(rest, here, false);
      PrependOk(Flush(word), LexFrom(after, here, State(None, None, false)));
      WordTokenOf(fragments, at);
    case Blank(c) =>
      var emits := c == '\n' && !separated;
      BlankLexes(c, after, at, separated);
      ElementsLex(rest, here, separated || c == '\n');
      var tokens := if emits then [SeparatorToken(Sequence, at)] else [];
      PrependOk(tokens, LexFrom(after, here, State(None, None, separated || c == '\n')));
      assert [] + LineTokens(rest, here, separated) == LineTokens(rest, here, separated);
    case Operator(s) =>
      if s.Pipe? { NoBarAfterPipe(elements); }
      OperatorLexes(s, after, at, separated);
      ElementsLex(rest, here, true);
      PrependOk([SeparatorToken(s, at)], LexFrom(after, here, State(None, None, true)));
  }

  lemma WordTokenOf(fragments: seq<Fragment>, at: nat)
    ensures Flush(Extend(None, at, WordMeaning(fragments), AnyQuoted(fragments))) ==
            [Token(WordMeaning(fragments), at, AnyQuoted(fragments), Word)]
  {
    assert "" + WordMeaning(fragments) == WordMeaning(fragments);
  }

  lemma EmptyLexes(at: nat, separated: bool)
    ensures LexesTo("", at, separated, [])
  {
  }

  lemma ShapesCons(t: Token, tokens: seq<Token>)
    ensures Shapes([t] + tokens) == [ShapeOf(t)] + Shapes(tokens)
  {
  }

  /** Apart from where they are, the tokens of a line say what the line means. */
  lemma {:induction false} TokensHaveShapes(elements: seq<Element>, at: nat, separated: bool)
    ensures Shapes(LineTokens(elements, at, separated)) == LineMeaning(elements, separated)
    decreases |elements|
  {
    hide Bytes, SpellElement, WordMeaning, AnyQuoted, Shapes;
    if elements == [] {
      NoShapes();
      return;
    }
    var here := at + Bytes(SpellElement(elements[0]));
    var rest := elements[1..];
    match elements[0]
    case Spelled(fragments) =>
      TokensHaveShapes(rest, here, false);
      ShapesCons(Token(WordMeaning(fragments), at, AnyQuoted(fragments), Word), LineTokens(rest, here, false));
    case Blank(c) =>
      TokensHaveShapes(rest, here, separated || c == '\n');
      ShapesCons(Token("", at, false, Separator(Sequence)), LineTokens(rest, here, true));
    case Operator(s) =>
      TokensHaveShapes(rest, here, true);
      ShapesCons(Token("", at, false, Separator(s)), LineTokens(rest, here, true));
  }

  lemma NoShapes()
    ensures Shapes([]) == []
  {
  }

  /** Every valid spelling of a command line, in any mixture of quoting styles, lexes to
      exactly the words and separators it spells, each with the offset of its first byte. */
  lemma LineLexes(elements: seq<Element>, at: nat, separated: bool)
    requires ValidLine(elements)
    ensures LexFrom(SpellLine(elements), at, State(None, None, separated)) == Ok(LineTokens(elements, at, separated))
    ensures LexesTo(SpellLine(elements), at, separated, LineMeaning(elements, separated))
  {
    hide LexFrom, SpellLine, ValidLine, LineTokens, LineMeaning, Shapes;
    ElementsLex(elements, at, separated);
    TokensHaveShapes(elements, at, separated);
  }

  // Every accepted text is a spelling

  /** Lexing that succeeds inside single quotes runs to the closing quote. */
  lemma {:induction false} SingleQuoteCloses(rest: string, at: nat, st: State)
    returns (text: string, after: string, at': nat, st': State)
    requires st.word.Some? && st.quote.Some? && st.quote.value.0.Single? && LexFrom(rest, at, st).Ok?
    ensures rest == text + "'" + after && '\'' !in text && '\0' !in text
    ensures st'.quote.None? && st'.word.Some? && LexFrom(after, at', st').Ok?
    decreases |rest|
  {
    hide Bytes, Prepend, BareMove, DoubleMove;
    var Go(tokens, n, next) := NextMove(rest, at, st);
    PrependOk(tokens, LexFrom(rest[n..], at + Bytes(rest[..n]), next));
    if rest[0] == '\'' {
      text, after, at', st' := "", rest[1..], at + Bytes(rest[..1]), next;
      assert rest == "" + "'" + rest[1..];
    } else {
      text, after, at', st' := SingleQuoteCloses(rest[1..], at + Bytes(rest[..1]), next);
      QuotedInFront(rest, text, after);
      text := [rest[0]] + text;
    }
  }

  lemma QuotedInFront(rest: string, text: string, after: string)
    requires rest != "" && rest[1..] == text + "'" + after
    ensures rest == [rest[0]] + text + "'" + after
  {
    assert rest == [rest[0]] + rest[1..];
    assert [rest[0]] + (text + "'" + after) == [rest[0]] + text + "'" + after;
  }

  /** The first move over text that lexes, between double quotes. */
  lemma DoubleMoveOfLexed(rest: string, at: nat, st: State)
    requires st.word.Some? && st.quote.Some? && st.quote.value.0.Double? && LexFrom(rest, at, st).Ok?
    ensures rest != ""
    ensures var n := if rest[0] == '\\' then 2 else 1;
            && n <= |rest| && NextMove(rest, at, st).Go? && NextMove(rest, at, st).consumed == n
            && var next := NextMove(rest, at, st).next;
               && next.word.Some? && LexFrom(rest[n..], at + Bytes(rest[..n]), next).Ok?
               && next.quote == (if rest[0] == '"' then None else st.quote)
               && (rest[0] == '"' || rest[0] == '\\' || rest[0] !in "\"\\$`\0")
  {
    hide Bytes, Prepend, DoubleEscape, BareMove, SingleMove;
    var Go(tokens, n, next) := NextMove(rest, at, st);
    PrependOk(tokens, LexFrom(rest[n..], at + Bytes(rest[..n]), next));
  }

  lemma {:induction false} DoubleQuoteCloses(rest: string, at: nat, st: State)
    returns (items: seq<Item>, after: string, at': nat, st': State)
    requires st.word.Some? && st.quote.Some? && st.quote.value.0.Double? && LexFrom(rest, at, st).Ok?
    ensures rest == SpellItems(items) + "\"" + after && ValidItems(items)
    ensures st'.quote.None? && st'.word.Some? && LexFrom(after, at', st').Ok?
    decreases |rest|
  {
    hide Bytes, LexFrom, NextMove;
    DoubleMoveOfLexed(rest, at, st);
    var n := if rest[0] == '\\' then 2 else 1;
    var next := NextMove(rest, at, st).next;
    if rest[0] == '"' {
      items, after, at', st' := [], rest[1..], at + Bytes(rest[..1]), next;
      assert rest == "" + "\"" + rest[1..];
    } else {
      items, after, at', st' := DoubleQuoteCloses(rest[n..], at + Bytes(rest[..n]), next);
      var item := if rest[0] == '\\' then Escape(rest[1]) else Raw(rest[0]);
      assert SpellItem(item) + rest[n..] == rest;
      ItemInFront(item, rest[n..], items, after);
      items := [item] + items;
    }
  }

  lemma ItemInFront(item: Item, rest: string, items: seq<Item>, after: string)
    requires rest == SpellItems(items) + "\"" + after && ValidItems(items)
    requires item.Raw? ==> item.c !in "\"\\$`\0"
    ensures SpellItem(item) + rest == SpellItems([item] + items) + "\"" + after && ValidItems([item] + items)
  {
    hide SpellItem;
    assert ([item] + items)[1..] == items;
    assert SpellItem(item) + (SpellItems(items) + "\"" + after) == SpellItem(item) + SpellItems(items) + "\"" + after;
  }

  /** The elements of a text whose first `fragments`, if any, are a word. */
  function WithWord(fragments: seq<Fragment>, elements: seq<Element>): seq<Element> {
    if fragments == [] then elements else [Spelled(fragments)] + elements
  }

  ghost predicate Decomposes(rest: string, fragments: seq<Fragment>, elements: seq<Element>, first: bool) {
    && rest == SpellWord(fragments) + SpellLine(elements)
    && ValidLine(elements)
    && (elements != [] ==> !elements[0].Spelled?)
    && ValidWord(fragments, first, SpellLine(elements))
  }

  lemma WithWordIsValid(rest: string, fragments: seq<Fragment>, elements: seq<Element>)
    requires Decomposes(rest, fragments, elements, true)
    ensures ValidLine(WithWord(fragments, elements)) && SpellLine(WithWord(fragments, elements)) == rest
  {
    if fragments == [] {
      assert "" + rest == rest;
    } else {
      assert WithWord(fragments, elements)[1..] == elements;
    }
  }

  /** Putting a fragment in front of a decomposition. */
  lemma FragmentInFront(f: Fragment, rest: string, fragments: seq<Fragment>, elements: seq<Element>, first: bool)
    requires Decomposes(rest, fragments, elements, false) && ValidFragment(f, first, rest)
    ensures Decomposes(Spell(f) + rest, [f] + fragments, elements, first)
  {
    hide Spell, ValidFragment, ValidLine, SpellLine, HasCmdExpansion;
    var word := [f] + fragments;
    assert word[0] == f && word[1..] == fragments;
    assert SpellWord(word) == Spell(f) + SpellWord(fragments);
    Associative(Spell(f), SpellWord(fragments), SpellLine(elements));
  }

  /** Putting a blank or an operator in front of a decomposition. */
  lemma ElementInFront(e: Element, rest: string, fragments: seq<Fragment>, elements: seq<Element>, first: bool)
    requires Decomposes(rest, fragments, elements, true)
    requires e.Blank? ==> IsWhitespace(e.c)
    requires e.Operator? && e.separator.Pipe? ==> rest == "" || rest[0] != '|'
    requires !e.Spelled?
    ensures Decomposes(SpellElement(e) + rest, [], [e] + WithWord(fragments, elements), first)
  {
    WithWordIsValid(rest, fragments, elements);
    var tail := WithWord(fragments, elements);
    assert ([e] + tail)[1..] == tail;
    assert "" + SpellLine([e] + tail) == SpellLine([e] + tail);
    if tail != [] && tail[0].Operator? {
      assert SpellLine(tail)[0] == SpellOperator(tail[0].separator)[0];
    }
    hide Decomposes, WithWord;
    assert ValidLine([e] + tail);
    DecomposesLine(SpellElement(e) + rest, [e] + tail, first);
  }

  lemma DecomposesLine(rest: string, elements: seq<Element>, first: bool)
    requires rest == SpellLine(elements) && ValidLine(elements) && (elements != [] ==> !elements[0].Spelled?)
    ensures Decomposes(rest, [], elements, first)
  {
    assert "" + rest == rest;
  }

  /** Lexing that succeeds reads a decomposition. */
  lemma {:induction false} Decompose(rest: string, at: nat, st: State)
    returns (fragments: seq<Fragment>, elements: seq<Element>)
    requires LexFrom(rest, at, st).Ok? && st.quote.None?
    ensures Decomposes(rest, fragments, elements, st.word.None?)
    decreases |rest|
  {
    hide Bytes, Prepend, Decomposes, ValidLine, SpellLine, LexFrom, NextMove, BareMove;
    if rest == "" {
      fragments, elements := [], [];
      DecomposesNothing(st.word.None?);
      return;
    }
    MoveOfLexed(rest, at, st);
    var Go(_, n, next) := NextMove(rest, at, st);
    var at' := at + Bytes(rest[..n]);
    var c := rest[0];
    if c == '\'' {
      var text, after, at'', st' := SingleQuoteCloses(rest[1..], at', next);
      fragments, elements := Decompose(after, at'', st');
      FragmentInFront(SingleQuoted(text), after, fragments, elements, st.word.None?);
      fragments := [SingleQuoted(text)] + fragments;
      assert rest == Spell(SingleQuoted(text)) + after;
    } else if c == '"' {
      var items, after, at'', st' := DoubleQuoteCloses(rest[1..], at', next);
      fragments, elements := Decompose(after, at'', st');
      FragmentInFront(DoubleQuoted(items), after, fragments, elements, st.word.None?);
      fragments := [DoubleQuoted(items)] + fragments;
      assert rest == Spell(DoubleQuoted(items)) + after;
    } else if next.word.Some? {
      fragments, elements := Decompose(rest[n..], at', next);
      var f := if c == '\\' then Escaped(rest[1]) else Bare(c);
      BareMoveIsFragment(rest, at, st);
      FragmentInFront(f, rest[n..], fragments, elements, st.word.None?);
      fragments := [f] + fragments;
    } else {
      fragments, elements := Decompose(rest[n..], at', next);
      var e := BareMoveIsElement(rest, at, st);
      ElementInFront(e, rest[n..], fragments, elements, st.word.None?);
      fragments, elements := [], [e] + WithWord(fragments, elements);
    }
  }

  /** The first move over text that lexes, outside quotes. */
  lemma MoveOfLexed(rest: string, at: nat, st: State)
    requires rest != "" && LexFrom(rest, at, st).Ok? && st.quote.None?
    ensures var m := NextMove(rest, at, st);
            && m.Go? && rest[0] != '\0' && m == BareMove(rest, at, st)
            && LexFrom(rest[m.consumed..], at + Bytes(rest[..m.consumed]), m.next).Ok?
            && (rest[0] == '\'' || rest[0] == '"' ==>
                  && m.consumed == 1 && m.next.word.Some? && m.next.quote.Some?
                  && m.next.quote.value.0 == (if rest[0] == '\'' then Single else Double))
            && (rest[0] != '\'' && rest[0] != '"' ==> m.next.quote.None?)
            && (rest[0] == '\\' ==> |rest| > 1)
  {
    hide Bytes, Prepend, HasCmdExpansion, IsWhitespace;
    var Go(tokens, n, next) := NextMove(rest, at, st);
    PrependOk(tokens, LexFrom(rest[n..], at + Bytes(rest[..n]), next));
  }

  lemma DecomposesNothing(first: bool)
    ensures Decomposes("", [], [], first)
  {
    assert "" + "" == "";
  }

  lemma BareMoveIsFragment(rest: string, at: nat, st: State)
    requires rest != "" && rest[0] != '\0' && rest[0] != '\'' && rest[0] != '"' && st.quote.None?
    requires BareMove(rest, at, st).Go? && BareMove(rest, at, st).next.word.Some?
    ensures var f := if rest[0] == '\\' then Escaped(rest[if |rest| > 1 then 1 else 0]) else Bare(rest[0]);
            var n := BareMove(rest, at, st).consumed;
            ValidFragment(f, st.word.None?, rest[n..]) && Spell(f) + rest[n..] == rest
  {
    hide HasCmdExpansion, PercentIsPlain;
    ExpansionsBySpelling(rest[1..]);
  }

  lemma BareMoveIsElement(rest: string, at: nat, st: State) returns (e: Element)
    requires rest != "" && rest[0] != '\0' && st.quote.None?
    requires BareMove(rest, at, st).Go? && BareMove(rest, at, st).next.word.None?
    ensures var n := BareMove(rest, at, st).consumed;
            && !e.Spelled? && SpellElement(e) + rest[n..] == rest
            && (e.Blank? ==> IsWhitespace(e.c))
            && (e.Operator? && e.separator.Pipe? ==> rest[n..] == "" || rest[n..][0] != '|')
  {
    var n := BareMove(rest, at, st).consumed;
    if IsWhitespace(rest[0]) {
      e := Blank(rest[0]);
    } else {
      e := Operator(if rest[0] == ';' then Sequence else if rest[0] == '&' then And
                    else if n == 2 then Or else Pipe);
    }
  }

  // What protects a character

  /** How a position of the source is read: bare, between quotes, or behind a backslash. */
  datatype Protection = Unprotected | BetweenSingle | BetweenDouble | BehindBackslash

  /** The protection of position `i` in the run of the lexer from state `st`. */
  function ProtectionAt(rest: string, at: nat, st: State, i: nat): Protection
    requires i < |rest|
    decreases |rest|
  {
    match NextMove(rest, at, st)
    case Fail(_) => Unprotected
    case Go(_, n, next) =>
      if i >= n then ProtectionAt(rest[n..], at + Bytes(rest[..n]), next, i - n)
      else if i > 0 && rest[0] == '\\' then BehindBackslash
      else if st.quote.None? then Unprotected
      else if st.quote.value.0.Single? then BetweenSingle
      else BetweenDouble
  }

  /** Expansions are inert in single quotes and behind a backslash; redirection, grouping, glob
      and history characters wherever they are quoted or escaped; a NUL behind a backslash. */
  predicate IsInert(c: char, protection: Protection) {
    && (c in "$`" ==> protection.BetweenSingle? || protection.BehindBackslash?)
    && (c in "<>(){}^[]$`*?!" ==> !protection.Unprotected?)
    && (c == '\0' ==> protection.BehindBackslash?)
  }

  lemma MoveIsInert(rest: string, at: nat, st: State, i: nat)
    requires rest != "" && NextMove(rest, at, st).Go? && i < NextMove(rest, at, st).consumed
    ensures IsInert(rest[i], ProtectionAt(rest, at, st, i))
  {
    hide Bytes, HasCmdExpansion, IsWhitespace, DoubleEscape;
    if st.quote.None? {
      BareMoveIsInert(rest, at, st, i);
    } else if i == 0 {
      assert rest[i] == rest[0];
    } else {
      assert rest[0] == '\\';
    }
  }

  lemma BareMoveIsInert(rest: string, at: nat, st: State, i: nat)
    requires rest != "" && rest[0] != '\0' && st.quote.None?
    requires BareMove(rest, at, st).Go? && i < BareMove(rest, at, st).consumed
    ensures rest[i] in "<>(){}^[]$`*?!" || rest[i] == '\0' ==> i == 1 && rest[0] == '\\'
  {
    hide HasCmdExpansion;
    if i == 0 {
      assert rest[i] == rest[0];
    } else if rest[0] != '\\' {
      assert rest[1] == '|' || rest[1] == '&';
    }
  }

  lemma {:induction false} LexedIsInert(rest: string, at: nat, st: State, i: nat)
    requires LexFrom(rest, at, st).Ok? && i < |rest|
    ensures IsInert(rest[i], ProtectionAt(rest, at, st, i))
    decreases |rest|
  {
    hide Bytes, Prepend, NextMove, IsInert;
    var Go(tokens, n, next) := NextMove(rest, at, st);
    PrependOk(tokens, LexFrom(rest[n..], at + Bytes(rest[..n]), next));
    if i < n {
      MoveIsInert(rest, at, st, i);
    } else {
      LexedIsInert(rest[n..], at + Bytes(rest[..n]), next, i - n);
    }
  }

  /** In an accepted text every `$` and backtick is in single quotes or behind a backslash, every
      redirection, grouping, glob and history character is quoted or escaped, and every NUL is
      behind a backslash. */
  lemma MetacharactersAreInert(source: string)
    ensures Lex(source).Ok? ==>
              forall i :: 0 <= i < |source| ==> IsInert(source[i], ProtectionAt(source, 0, START, i))
  {
    hide LexFrom, IsInert, ProtectionAt;
    if Lex(source).Ok? {
      forall i | 0 <= i < |source| ensures IsInert(source[i], ProtectionAt(source, 0, START, i)) {
        LexedIsInert(source, 0, START, i);
      }
    }
  }

  /** The lexer accepts exactly the texts that spell a line, and reads what they spell. */
  lemma AcceptedTextsAreSpellings(source: string)
    ensures Lex(source).Ok? <==> exists elements :: ValidLine(elements) && SpellLine(elements) == source
    ensures forall elements :: ValidLine(elements) && SpellLine(elements) == source ==>
              Lex(source).Ok? && Shapes(Lex(source).value) == LineMeaning(elements, false)
  {
    hide LexFrom, SpellLine, ValidLine, Shapes;
    forall elements | ValidLine(elements) && SpellLine(elements) == source
      ensures Lex(source).Ok? && Shapes(Lex(source).value) == LineMeaning(elements, false)
    {
      LineLexes(elements, 0, false);
    }
    if Lex(source).Ok? {
      var fragments, elements := Decompose(source, 0, START);
      WithWordIsValid(source, fragments, elements);
      assert ValidLine(WithWord(fragments, elements)) && SpellLine(WithWord(fragments, elements)) == source;
    }
  }
}
