/** Why a source does not lex: the kind of every fault and the offset of the character it is
    about, written out. */
module CommandFaults {
  import opened Common
  import opened Characters
  import opened CommandLexer
  import opened CommandText

  /** A fault outside quotes at the first character: an active character, a lone ampersand, a
      tilde or hash that begins a word, an expansion, a NUL, or a backslash at the end. */
  predicate BareFault(text: string, first: bool, kind: ErrorKind)
    requires text != ""
  {
    if text[0] == '\0' || text == "\\" then kind == MalformedSyntax
    else
      && kind == UnsupportedSyntax
      && (|| text[0] in "<>(){}[]^$`*?!"
          || (text[0] == '&' && (|text| == 1 || text[1] != '&'))
          || (first && (text[0] == '~' || text[0] == '#'))
          || (text[0] == '%' && !PercentIsPlain(text[1..])))
  }

  /** A fault behind an opening single quote: it never closes, which is a fault of the quote,
      or a NUL comes first. */
  predicate SingleFault(text: string, n: nat, kind: ErrorKind)
    requires text != ""
  {
    && text[0] == '\'' && kind == MalformedSyntax && n < |text|
    && (n == 0 ==> forall i :: 0 < i < |text| ==> text[i] != '\'' && text[i] != '\0')
    && (n > 0 ==> text[n] == '\0' && forall i :: 0 < i < n ==> text[i] != '\'' && text[i] != '\0')
  }

  /** Valid items between double quotes, and what keeps the rest from being read: the end of the
      text, which is a fault of the quote, a NUL, an expansion, or a backslash at the end. */
  predicate DoubleFaultBehind(text: string, items: seq<Item>, rest: string, n: nat, kind: ErrorKind)
    requires text != ""
  {
    && ValidItems(items) && text[1..] == SpellItems(items) + rest
    && if rest == "" then n == 0 && kind == MalformedSyntax
       else
         && n == 1 + |SpellItems(items)|
         && (rest[0] == '\0' || rest == "\\" || rest[0] == '$' || rest[0] == '`')
         && kind == if rest[0] == '$' || rest[0] == '`' then UnsupportedSyntax else MalformedSyntax
  }

  ghost predicate DoubleFault(text: string, n: nat, kind: ErrorKind)
    requires text != ""
  {
    text[0] == '"' && exists items, rest :: DoubleFaultBehind(text, items, rest, n, kind)
  }

  /** The lexer, outside quotes, cannot read the text: at character `n`, for a reason of this kind. */
  ghost predicate FaultAt(text: string, first: bool, n: nat, kind: ErrorKind) {
    text != "" && ((n == 0 && BareFault(text, first, kind)) || SingleFault(text, n, kind) || DoubleFault(text, n, kind))
  }

  /** A word can only begin behind a blank or an operator. */
  predicate MayBegin(text: string, n: nat)
    requires n <= |text|
  {
    n == 0 || IsWhitespace(text[n - 1]) || text[n - 1] in ";|&"
  }

  // Inside quotes

  /** The characters up to a closing quote or a NUL. */
  function SingleRun(text: string): (n: nat)
    ensures n <= |text| && (n < |text| ==> text[n] == '\'' || text[n] == '\0')
    ensures forall i :: 0 <= i < n ==> text[i] != '\'' && text[i] != '\0'
  {
    if text == "" || text[0] == '\'' || text[0] == '\0' then 0 else 1 + SingleRun(text[1..])
  }

  lemma SingleEnds(rest: string, at: nat, st: State)
    requires st.word.Some? && st.quote.Some? && st.quote.value.0.Single? && SingleRun(rest) == 0
    ensures rest == "" ==> LexFrom(rest, at, st) == Err(CommandError(MalformedSyntax, st.quote.value.1))
    ensures rest != "" && rest[0] == '\0' ==> LexFrom(rest, at, st) == Err(CommandError(MalformedSyntax, at))
  {
  }

  /** Behind an opening single quote the text either closes it, as a fragment, or is a fault. */
  lemma SingleFails(rest: string, at: nat, st: State) returns (n: nat)
    requires rest != "" && rest[0] == '\'' && st.quote.None?
    requires SingleRun(rest[1..]) == |rest[1..]| || rest[1..][SingleRun(rest[1..])] == '\0'
    ensures SingleFault(rest, n, MalformedSyntax)
    ensures LexFrom(rest, at, st) == Err(CommandError(MalformedSyntax, at + Bytes(rest[..n])))
  {
    hide LexFrom, Bytes, Lexes, SingleRun, SingleFault;
    var inner := rest[1..];
    var k := SingleRun(inner);
    var text, tail := inner[..k], inner[k..];
    SingleParts(rest, k);
    SingleIsFault(rest, k);
    var open := st.(word := Extend(st.word, at, "", true), quote := Some((Single, at)));
    var at' := at + Bytes("'");
    var full := open.(word := Extend(open.word, at', text, false));
    OpenQuote('\'', inner, at, st);
    SingleTextLexes(text, tail, at', open);
    LexesThen("'", text, tail, at, st, open, full);
    SingleEnds(tail, at + Bytes("'" + text), full);
    LexesMeans("'" + text, tail, at, st, full);
    NoBytes();
    n := if k == |inner| then 0 else 1 + k;
  }

  lemma {:induction false} SingleRunEnds(inner: string, k: nat)
    requires k == SingleRun(inner)
    ensures SingleRun(inner[k..]) == 0
  {
    if k > 0 {
      SingleRunEnds(inner[1..], k - 1);
      assert inner[1..][k - 1..] == inner[k..];
    } else {
      assert inner[0..] == inner;
    }
  }

  /** The opening quote, the characters behind it and what ends them. */
  lemma SingleParts(rest: string, k: nat)
    requires rest != "" && rest[0] == '\'' && k <= |rest[1..]|
    ensures var inner := rest[1..];
            && inner == inner[..k] + inner[k..] && rest == "'" + inner && rest == "'" + inner[..k] + inner[k..]
            && rest[..0] == "" && rest[..1 + k] == "'" + inner[..k]
            && (k == |inner| <==> inner[k..] == "")
  {
  }

  lemma SingleIsFault(rest: string, k: nat)
    requires rest != "" && rest[0] == '\'' && k == SingleRun(rest[1..])
    requires k == |rest[1..]| || rest[1..][k] == '\0'
    ensures var inner := rest[1..];
            && '\'' !in inner[..k] && '\0' !in inner[..k] && SingleRun(inner[k..]) == 0
            && (k < |inner| ==> inner[k..][0] == '\0')
            && SingleFault(rest, if k == |inner| then 0 else 1 + k, MalformedSyntax)
  {
    var inner := rest[1..];
    SingleRunEnds(inner, k);
    hide SingleRun;
    assert forall i :: 0 < i < |rest| ==> rest[i] == inner[i - 1];
  }

  lemma NoBytes()
    ensures Bytes("") == 0
  {
  }

  lemma LexesMeans(spelling: string, after: string, at: nat, st: State, next: State)
    requires Lexes(spelling, after, at, st, next)
    ensures LexFrom(spelling + after, at, st) == LexFrom(after, at + Bytes(spelling), next)
  {
    hide LexFrom, Bytes;
  }

  /** The items between double quotes, as far as they go. */
  lemma {:induction false} DoubleRun(text: string) returns (items: seq<Item>, rest: string)
    ensures ValidItems(items) && text == SpellItems(items) + rest
    ensures rest == "" || rest[0] == '"' || rest[0] == '\0' || rest == "\\" || rest[0] == '$' || rest[0] == '`'
    decreases |text|
  {
    hide SpellItem;
    if text == "" || text[0] == '"' || text[0] == '\0' || text == "\\" || text[0] == '$' || text[0] == '`' {
      items, rest := [], text;
      assert SpellItems([]) + text == text;
    } else {
      var n := if text[0] == '\\' then 2 else 1;
      var item := if text[0] == '\\' then Escape(text[1]) else Raw(text[0]);
      var more;
      more, rest := DoubleRun(text[n..]);
      ItemOf(text, n, item);
      items := [item] + more;
      assert items[1..] == more;
      Associative(SpellItem(item), SpellItems(more), rest);
    }
  }

  lemma ItemOf(text: string, n: nat, item: Item)
    requires n <= |text|
    requires (n == 2 && text[0] == '\\' && item == Escape(text[1])) || (n == 1 && item == Raw(text[0]))
    ensures text == SpellItem(item) + text[n..]
  {
  }

  lemma DoubleEnds(rest: string, at: nat, st: State)
    requires st.word.Some? && st.quote.Some? && st.quote.value.0.Double?
    requires rest == "" || rest[0] == '\0' || rest == "\\" || rest[0] == '$' || rest[0] == '`'
    ensures LexFrom(rest, at, st) ==
            Err(if rest == "" then CommandError(MalformedSyntax, st.quote.value.1)
                else if rest[0] == '$' || rest[0] == '`' then CommandError(UnsupportedSyntax, at)
                else CommandError(MalformedSyntax, at))
  {
    hide Bytes, DoubleEscape;
  }

  /** Behind an opening double quote the text either closes it, as a fragment, or is a fault. */
  lemma DoubleFails(text: string, items: seq<Item>, rest: string, at: nat, st: State)
    returns (n: nat, kind: ErrorKind)
    requires text != "" && text[0] == '"' && st.quote.None?
    requires ValidItems(items) && text[1..] == SpellItems(items) + rest
    requires rest == "" || rest[0] == '\0' || rest == "\\" || rest[0] == '$' || rest[0] == '`'
    ensures n < |text| && DoubleFault(text, n, kind)
    ensures LexFrom(text, at, st) == Err(CommandError(kind, at + Bytes(text[..n])))
  {
    hide LexFrom, Bytes, Lexes, SpellItems, ItemsMeaning, ValidItems;
    var inner := SpellItems(items);
    var open := st.(word := Extend(st.word, at, "", true), quote := Some((Double, at)));
    var at' := at + Bytes("\"");
    var full := open.(word := Extend(open.word, at', ItemsMeaning(items), false));
    OpenQuote('"', text[1..], at, st);
    assert text == "\"" + text[1..];
    ItemsLex(items, rest, at', open);
    LexesThen("\"", inner, rest, at, st, open, full);
    LexesMeans("\"" + inner, rest, at, st, full);
    DoubleEnds(rest, at + Bytes("\"" + inner), full);
    assert text == "\"" + inner + rest;
    kind := if rest != "" && (rest[0] == '$' || rest[0] == '`') then UnsupportedSyntax else MalformedSyntax;
    if rest == "" {
      n := 0;
      assert text[..0] == "";
      NoBytes();
    } else {
      n := 1 + |inner|;
      assert text[..n] == "\"" + inner;
    }
    assert DoubleFaultBehind(text, items, rest, n, kind);
  }

  // Along the text

  /** What the text up to a character reads as does not depend on what follows it. */
  lemma {:induction false} PercentOfPrefix(after: string, n: nat)
    requires PercentIsPlain(after) && n <= |after|
    ensures PercentIsPlain(after[..n])
  {
    hide IsWhitespace;
    var prefix := after[..n];
    if k :| 0 <= k < |prefix| && prefix[k] == '%' &&
            forall j :: 0 <= j < k ==> prefix[j] !in ";&|" && !IsWhitespace(prefix[j]) {
      assert after[k] == '%';
      assert forall j :: 0 <= j < k ==> after[j] == prefix[j];
    }
  }

  lemma FragmentOfPrefix(f: Fragment, first: bool, after: string, n: nat)
    requires ValidFragment(f, first, after) && n <= |after|
    ensures ValidFragment(f, first, after[..n])
  {
    hide PercentIsPlain, IsWhitespace;
    if f == Bare('%') { PercentOfPrefix(after, n); }
  }

  /** A valid fragment in front: the fault behind it is the fault of the whole, and what was
      read before it reads as before. */
  lemma BehindFragment(f: Fragment, after: string, at: nat, st: State, n: nat, e: CommandError)
    requires st.quote.None? && ValidFragment(f, st.word.None?, after) && n <= |after|
    requires var next := st.(word := Extend(st.word, at, Meaning(f), !f.Bare?));
             && LexFrom(after, at + Bytes(Spell(f)), next) == Err(e)
             && LexFrom(after[..n], at + Bytes(Spell(f)), next).Ok?
    ensures LexFrom(Spell(f) + after, at, st) == Err(e)
    ensures LexFrom((Spell(f) + after)[..|Spell(f)| + n], at, st).Ok?
  {
    hide LexFrom, Bytes, ValidFragment, Spell, Meaning, Lexes;
    var next := st.(word := Extend(st.word, at, Meaning(f), !f.Bare?));
    FragmentLexes(f, after, at, st);
    LexesMeans(Spell(f), after, at, st, next);
    FragmentOfPrefix(f, st.word.None?, after, n);
    FragmentLexes(f, after[..n], at, st);
    LexesMeans(Spell(f), after[..n], at, st, next);
    assert (Spell(f) + after)[..|Spell(f)| + n] == Spell(f) + after[..n];
  }

  predicate IsPlainElement(e: Element, after: string) {
    || (e.Blank? && IsWhitespace(e.c))
    || (e.Operator? && (e.separator.Pipe? ==> after == "" || after[0] != '|'))
  }

  /** The state behind a blank or an operator. */
  function ElementNext(e: Element, st: State): State {
    State(None, None, e.Operator? || (e.Blank? && e.c == '\n') || (st.word.None? && st.separated))
  }

  /** A blank or an operator ends the word in front of it; what follows decides. */
  lemma ElementLexes(e: Element, after: string, at: nat, st: State)
    requires st.quote.None? && IsPlainElement(e, after)
    ensures var rest := LexFrom(after, at + Bytes(SpellElement(e)), ElementNext(e, st));
            var whole := LexFrom(SpellElement(e) + after, at, st);
            (rest.Ok? <==> whole.Ok?) && (rest.Err? ==> whole == rest)
  {
    hide LexFrom, Bytes, Prepend, IsWhitespace;
    var whole := SpellElement(e) + after;
    var separated := st.word.None? && st.separated;
    var clear := State(None, None, separated);
    if st.word.Some? {
      assert AtBoundary(whole) by { BoundaryOf(e, after); }
      FlushAtBoundary(whole, at, st);
      PrependBoth(Flush(st.word), LexFrom(whole, at, clear));
    } else {
      assert st == clear;
    }
    var rest := LexFrom(after, at + Bytes(SpellElement(e)), ElementNext(e, st));
    if e.Blank? {
      BlankLexes(e.c, after, at, separated);
      PrependBoth(if e.c == '\n' && !separated then [SeparatorToken(Sequence, at)] else [], rest);
    } else {
      OperatorLexes(e.separator, after, at, separated);
      PrependBoth([SeparatorToken(e.separator, at)], rest);
    }
  }

  lemma PrependBoth(tokens: seq<Token>, r: Result<seq<Token>, CommandError>)
    ensures (Prepend(tokens, r).Ok? <==> r.Ok?) && (r.Err? ==> Prepend(tokens, r) == r)
  {
  }

  lemma BoundaryOf(e: Element, after: string)
    requires IsPlainElement(e, after)
    ensures AtBoundary(SpellElement(e) + after)
  {
  }

  /** The same for a blank or an operator. */
  lemma BehindElement(e: Element, after: string, at: nat, st: State, n: nat, error: CommandError)
    requires st.quote.None? && IsPlainElement(e, after) && n <= |after|
    requires LexFrom(after, at + Bytes(SpellElement(e)), ElementNext(e, st)) == Err(error)
    requires LexFrom(after[..n], at + Bytes(SpellElement(e)), ElementNext(e, st)).Ok?
    ensures LexFrom(SpellElement(e) + after, at, st) == Err(error)
    ensures LexFrom((SpellElement(e) + after)[..|SpellElement(e)| + n], at, st).Ok?
  {
    hide LexFrom, Bytes, IsWhitespace;
    ElementLexes(e, after, at, st);
    ElementLexes(e, after[..n], at, st);
    assert (SpellElement(e) + after)[..|SpellElement(e)| + n] == SpellElement(e) + after[..n];
  }

  // The first fault

  /** What the text outside quotes begins with. */
  datatype Beginning = Fault(n: nat, kind: ErrorKind) | Part(fragment: Fragment) | Between(element: Element)

  /** Text outside quotes begins with a fault, a fragment, or a blank or operator. */
  lemma BeginningOf(text: string, at: nat, st: State) returns (b: Beginning)
    requires text != "" && st.quote.None?
    ensures match b
            case Fault(n, kind) =>
              && FaultAt(text, st.word.None?, n, kind)
              && n <= |text| && LexFrom(text, at, st) == Err(CommandError(kind, at + Bytes(text[..n])))
            case Part(f) => Spell(f) <= text && Spell(f) != "" && ValidFragment(f, st.word.None?, text[|Spell(f)|..])
            case Between(e) => SpellElement(e) <= text && SpellElement(e) != ""
                               && IsPlainElement(e, text[|SpellElement(e)|..])
  {
    hide LexFrom, Bytes, IsWhitespace, PercentIsPlain, DoubleFault, SpellItems;
    var c := text[0];
    if c == '\'' {
      var k := SingleRun(text[1..]);
      if k < |text[1..]| && text[1..][k] == '\'' {
        b := Part(SingleQuoted(text[1..][..k]));
        assert text == "'" + text[1..][..k] + "'" + text[1..][k + 1..];
      } else {
        var n := SingleFails(text, at, st);
        b := Fault(n, MalformedSyntax);
      }
    } else if c == '"' {
      var items, rest := DoubleRun(text[1..]);
      if rest != "" && rest[0] == '"' {
        b := Part(DoubleQuoted(items));
        assert text == "\"" + SpellItems(items) + "\"" + rest[1..];
      } else {
        var n, kind := DoubleFails(text, items, rest, at, st);
        b := Fault(n, kind);
      }
    } else if IsBareFault(text, st.word.None?) {
      var kind := BareFails(text, at, st);
      b := Fault(0, kind);
    } else {
      b := BarePart(text, st.word.None?);
    }
  }

  predicate IsBareFault(text: string, first: bool)
    requires text != ""
  {
    BareFault(text, first, MalformedSyntax) || BareFault(text, first, UnsupportedSyntax)
  }

  lemma ActiveIsNoBlank(c: char)
    ensures c in "<>(){}[]^$`*?!&~#%\\" ==> !IsWhitespace(c)
  {
  }

  lemma BareMoveFails(text: string, at: nat, st: State, kind: ErrorKind)
    requires text != "" && st.quote.None? && BareFault(text, st.word.None?, kind)
    ensures NextMove(text, at, st) == Fail(CommandError(kind, at))
  {
    hide PercentIsPlain, HasCmdExpansion, IsWhitespace, BlankMove, Split, Append, AppendQuoted;
    if text[0] in "<>(){}[]^$`*?!" {
      ActiveMoveFails(text, at, st);
    } else {
      ActiveIsNoBlank(text[0]);
      ExpansionsBySpelling(text[1..]);
    }
  }

  lemma ActiveMoveFails(text: string, at: nat, st: State)
    requires text != "" && st.quote.None? && text[0] in "<>(){}[]^$`*?!"
    ensures NextMove(text, at, st) == Fail(CommandError(UnsupportedSyntax, at))
  {
    hide HasCmdExpansion, IsWhitespace, BlankMove, Split, Append, AppendQuoted;
    ActiveIsNoBlank(text[0]);
  }

  lemma BareFails(text: string, at: nat, st: State) returns (kind: ErrorKind)
    requires text != "" && st.quote.None? && IsBareFault(text, st.word.None?)
    ensures BareFault(text, st.word.None?, kind)
    ensures LexFrom(text, at, st) == Err(CommandError(kind, at + Bytes(text[..0])))
  {
    hide Bytes, NextMove, BareFault;
    NoBytes();
    assert text[..0] == "";
    kind := if BareFault(text, st.word.None?, MalformedSyntax) then MalformedSyntax else UnsupportedSyntax;
    BareMoveFails(text, at, st, kind);
  }

  lemma BarePart(text: string, first: bool) returns (b: Beginning)
    requires text != "" && text[0] != '\'' && text[0] != '"' && !IsBareFault(text, first)
    ensures !b.Fault?
    ensures b.Part? ==> Spell(b.fragment) <= text && Spell(b.fragment) != ""
                        && ValidFragment(b.fragment, first, text[|Spell(b.fragment)|..])
    ensures b.Between? ==> SpellElement(b.element) <= text && SpellElement(b.element) != ""
                           && IsPlainElement(b.element, text[|SpellElement(b.element)|..])
  {
    hide PercentIsPlain;
    var c := text[0];
    if c == '\\' {
      b := Part(Escaped(text[1]));
    } else if IsWhitespace(c) {
      b := Between(Blank(c));
    } else if c == ';' {
      b := Between(Operator(Sequence));
    } else if c == '&' {
      b := Between(Operator(And));
    } else if c == '|' {
      b := Between(Operator(if |text| > 1 && text[1] == '|' then Or else Pipe));
    } else {
      b := Part(Bare(c));
    }
  }

  lemma NothingFails(at: nat, st: State)
    requires st.quote.None?
    ensures LexFrom("", at, st).Ok?
  {
  }

  /** A place behind a front part of the text. */
  lemma Further(text: string, front: string, i: nat, n: nat)
    requires front <= text && |front| + i + n <= |text|
    ensures var after := text[|front|..];
            && text[|front| + i..] == after[i..]
            && text[..|front| + i] == front + after[..i]
            && Bytes(text[..|front| + i + n]) == Bytes(front) + Bytes(after[..i + n])
            && (i > 0 && MayBegin(after, i) ==> MayBegin(text, |front| + i))
  {
    hide Bytes, IsWhitespace;
    var after := text[|front|..];
    assert text[..|front| + i + n] == front + after[..i + n];
    BytesAdd(front, after[..i + n]);
    assert i > 0 ==> text[|front| + i - 1] == after[i - 1];
  }

  lemma EndsElement(e: Element, text: string, after: string)
    requires SpellElement(e) <= text && IsPlainElement(e, after)
    ensures MayBegin(text, |SpellElement(e)|)
  {
    hide IsWhitespace;
    assert SpellElement(e) != "" ==> text[|SpellElement(e)| - 1] == Last(SpellElement(e));
  }

  /** Lexing outside quotes fails at the first fault: what stands before it lexes, and the
      error has its kind and the offset of its character. */
  lemma {:induction false} FirstFault(text: string, at: nat, st: State, e: CommandError)
    returns (i: nat, n: nat, first: bool)
    requires st.quote.None? && LexFrom(text, at, st) == Err(e)
    ensures i + n <= |text| && FaultAt(text[i..], first, n, e.kind) && e.offset == at + Bytes(text[..i + n])
    ensures LexFrom(text[..i], at, st).Ok?
    ensures first ==> (i == 0 && st.word.None?) || (i > 0 && MayBegin(text, i))
    decreases |text|
  {
    hide LexFrom, Bytes, FaultAt, ValidFragment, IsPlainElement, Spell, SpellElement, Meaning;
    NothingFails(at, st);
    var b := BeginningOf(text, at, st);
    match b
    case Fault(m, kind) =>
      i, n, first := 0, m, st.word.None?;
      assert text[0..] == text && text[..0] == "";
      NothingFails(at, st);
    case Part(f) =>
      var k := |Spell(f)|;
      var after := text[k..];
      assert text == Spell(f) + after;
      var next := st.(word := Extend(st.word, at, Meaning(f), !f.Bare?));
      FragmentLexes(f, after, at, st);
      LexesMeans(Spell(f), after, at, st, next);
      i, n, first := FirstFault(after, at + Bytes(Spell(f)), next, e);
      BehindFragment(f, after, at, st, i, e);
      Further(text, Spell(f), i, n);
      i := k + i;
    case Between(element) =>
      var spelled := SpellElement(element);
      var k := |spelled|;
      var after := text[k..];
      assert text == spelled + after;
      ElementLexes(element, after, at, st);
      i, n, first := FirstFault(after, at + Bytes(spelled), ElementNext(element, st), e);
      BehindElement(element, after, at, st, i, e);
      Further(text, spelled, i, n);
      EndsElement(element, text, after);
      i := k + i;
  }

  /** Every source that does not lex has a first fault: what stands before it lexes, and the
      error has its kind and the byte offset of the character it is about. */
  lemma LexErrorsAreFaults(source: string, e: CommandError)
    requires Lex(source) == Err(e)
    ensures exists i: nat, n: nat, first ::
              && i + n <= |source| && FaultAt(source[i..], first, n, e.kind) && e.offset == Bytes(source[..i + n])
              && Lex(source[..i]).Ok? && (first ==> MayBegin(source, i))
  {
    hide LexFrom, Bytes, FaultAt, MayBegin;
    var i, n, first := FirstFault(source, 0, START, e);
    assert MayBegin(source, 0) by { BeginsAtStart(source); }
  }

  lemma BeginsAtStart(source: string)
    ensures MayBegin(source, 0)
  {
  }
}
