/** Splitting command text into words and separators, with the quoting rules of sections
    2.2.1 to 2.2.3 of the Shell Command Language of POSIX.1-2017 as the program restricts
    them. Offsets are UTF-8 byte offsets. */
module CommandLexer {
  import opened Common
  import opened Characters

  datatype Separator = Sequence | And | Or | Pipe

  datatype TokenKind = Word | Separator(separator: Separator)

  datatype Token = Token(value: string, start: nat, quoted: bool, kind: TokenKind)

  datatype ErrorKind = EmptyCommand | MalformedSyntax | UnsupportedSyntax | UnsupportedOperation

  datatype CommandError = CommandError(kind: ErrorKind, offset: nat)

  datatype Quote = Single | Double

  /** The number of bytes of a character in UTF-8. */
  function Width(c: char): nat {
    if c < '\U{80}' then 1 else if c < '\U{800}' then 2 else if c < '\U{10000}' then 3 else 4
  }

  function Bytes(text: string): nat {
    if text == "" then 0 else Width(text[0]) + Bytes(text[1..])
  }

  predicate EndsExpansion(c: char) {
    IsWhitespace(c) || c == ';' || c == '&' || c == '|'
  }

  /** Whether a percent sign occurs before the word or command ends. */
  predicate PercentAhead(rest: string) {
    rest != "" && !EndsExpansion(rest[0]) && (rest[0] == '%' || PercentAhead(rest[1..]))
  }

  /** Whether the text after a percent sign makes it a cmd.exe expansion. */
  predicate HasCmdExpansion(rest: string) {
    (rest != "" && (rest[0] in "%*~" || '0' <= rest[0] <= '9')) || PercentAhead(rest)
  }

  // The lexer as an automaton

  /** A word being read. */
  datatype Pending = Pending(value: string, start: nat, quoted: bool)

  /** `quote` is the open quote and where it opened; `separated` says that the last token
      was a separator. */
  datatype State = State(word: Option<Pending>, quote: Option<(Quote, nat)>, separated: bool)

  const START := State(None, None, false)

  /** One move of the lexer: fail, or emit tokens, consume characters and go on. */
  datatype Move = Fail(error: CommandError) | Go(tokens: seq<Token>, consumed: nat, next: State)

  function Begin(word: Option<Pending>, at: nat): Pending {
    if word.Some? then word.value else Pending("", at, false)
  }

  function Append(word: Option<Pending>, at: nat, text: string): Option<Pending> {
    var pending := Begin(word, at);
    Some(pending.(value := pending.value + text))
  }

  function AppendQuoted(word: Option<Pending>, at: nat, text: string): Option<Pending> {
    var pending := Begin(word, at);
    Some(pending.(value := pending.value + text, quoted := true))
  }

  function Flush(word: Option<Pending>): seq<Token> {
    if word.Some? then [Token(word.value.value, word.value.start, word.value.quoted, Word)] else []
  }

  function SeparatorToken(separator: Separator, at: nat): Token {
    Token("", at, false, Separator(separator))
  }

  /** What a backslash and a character mean between double quotes. */
  function DoubleEscape(c: char): string {
    if c == '\n' then "" else if c in "\"\\$`" then [c] else ['\\', c]
  }

  function Unsupported(at: nat): Move {
    Fail(CommandError(UnsupportedSyntax, at))
  }

  function Malformed(at: nat): Move {
    Fail(CommandError(MalformedSyntax, at))
  }

  function Split(st: State, separator: Separator, at: nat, consumed: nat): Move {
    Go(Flush(st.word) + [SeparatorToken(separator, at)], consumed, State(None, None, true))
  }

  function SingleMove(c: char, at: nat, st: State): Move {
    if c == '\'' then Go([], 1, st.(quote := None))
    else Go([], 1, st.(word := Append(st.word, at, [c])))
  }

  function DoubleMove(rest: string, at: nat, st: State): Move
    requires rest != ""
  {
    if rest[0] == '"' then Go([], 1, st.(quote := None))
    else if rest[0] == '$' || rest[0] == '`' then Unsupported(at)
    else if rest[0] == '\\' then
      if |rest| == 1 then Malformed(at)
      else Go([], 2, st.(word := Append(st.word, at, DoubleEscape(rest[1]))))
    else Go([], 1, st.(word := Append(st.word, at, [rest[0]])))
  }

  function BlankMove(c: char, at: nat, st: State): Move {
    var word := Flush(st.word);
    var separated := word == [] && st.separated;
    if c == '\n' && !separated then
      Go(word + [SeparatorToken(Sequence, at)], 1, State(None, None, true))
    else
      Go(word, 1, State(None, None, separated))
  }

  function BareMove(rest: string, at: nat, st: State): Move
    requires rest != ""
  {
    var c := rest[0];
    if c == '\'' || c == '"' then
      Go([], 1, st.(word := AppendQuoted(st.word, at, ""),
                    quote := Some((if c == '\'' then Single else Double, at))))
    else if c == '\\' then
      if |rest| == 1 then Malformed(at)
      else Go([], 2, st.(word := AppendQuoted(st.word, at, if rest[1] == '\n' then "" else [rest[1]])))
    else if IsWhitespace(c) then BlankMove(c, at, st)
    else if c == ';' then Split(st, Sequence, at, 1)
    else if c == '|' then
      if |rest| > 1 && rest[1] == '|' then Split(st, Or, at, 2) else Split(st, Pipe, at, 1)
    else if c == '&' then
      if |rest| > 1 && rest[1] == '&' then Split(st, And, at, 2) else Unsupported(at)
    else if c in "<>(){}^[]$`*?!" then Unsupported(at)
    else if (c == '~' || c == '#') && st.word.None? then Unsupported(at)
    else if c == '%' && HasCmdExpansion(rest[1..]) then Unsupported(at)
    else Go([], 1, st.(word := Append(st.word, at, [c])))
  }

  function NextMove(rest: string, at: nat, st: State): (m: Move)
    requires rest != ""
    ensures m.Go? ==> 1 <= m.consumed <= 2 && m.consumed <= |rest|
  {
    if rest[0] == '\0' then Malformed(at)
    else if st.quote.None? then BareMove(rest, at, st)
    else if st.quote.value.0.Single? then SingleMove(rest[0], at, st)
    else DoubleMove(rest, at, st)
  }

  function Prepend(tokens: seq<Token>, r: Result<seq<Token>, CommandError>): Result<seq<Token>, CommandError> {
    if r.Ok? then Ok(tokens + r.value) else r
  }

  /** The tokens of the text from offset `at` on, lexed from state `st`. */
  function LexFrom(rest: string, at: nat, st: State): Result<seq<Token>, CommandError>
    decreases |rest|
  {
    if rest == "" then
      if st.quote.Some? then Err(CommandError(MalformedSyntax, st.quote.value.1)) else Ok(Flush(st.word))
    else
      match NextMove(rest, at, st)
      case Fail(e) => Err(e)
      case Go(tokens, n, next) => Prepend(tokens, LexFrom(rest[n..], at + Bytes(rest[..n]), next))
  }

  function Lex(source: string): Result<seq<Token>, CommandError> {
    LexFrom(source, 0, START)
  }

  lemma PrependError(tokens: seq<Token>, r: Result<seq<Token>, CommandError>)
    ensures r.Err? ==> Prepend(tokens, r) == r
  {
  }

  lemma PrependOk(tokens: seq<Token>, r: Result<seq<Token>, CommandError>)
    ensures Prepend(tokens, r).Ok? <==> r.Ok?
    ensures r.Ok? ==> Prepend(tokens, r).value == tokens + r.value
  {
  }

  lemma PrependTwice(a: seq<Token>, b: seq<Token>, r: Result<seq<Token>, CommandError>)
    ensures Prepend(a, Prepend(b, r)) == Prepend(a + b, r)
  {
    if r.Ok? {
      assert a + (b + r.value) == a + b + r.value;
    }
  }

  /** What one move means for the tokens collected so far. */
  lemma OneMove(tokens: seq<Token>, rest: string, at: nat, st: State)
    requires rest != ""
    ensures var all := Prepend(tokens, LexFrom(rest, at, st));
            match NextMove(rest, at, st)
            case Fail(e) => all == Err(e)
            case Go(more, n, next) =>
              all == Prepend(tokens + more, LexFrom(rest[n..], at + Bytes(rest[..n]), next))
  {
    hide NextMove, Prepend, Bytes;
    match NextMove(rest, at, st)
    case Fail(_) => PrependError(tokens, LexFrom(rest, at, st));
    case Go(more, n, next) =>
      PrependTwice(tokens, more, LexFrom(rest[n..], at + Bytes(rest[..n]), next));
  }

  // The lexer as it runs

  /** The variables of the running lexer. */
  datatype Buffers = Buffers(
    tokens: seq<Token>,
    value: string,
    started: bool,
    quoted: bool,
    start: nat,
    quote: Option<Quote>,
    quoteStart: nat)
  {
    predicate Valid() {
      && (!started ==> value == "" && !quoted)
      && (quote.Some? ==> started)
    }

    predicate EndsSeparated() {
      tokens != [] && Last(tokens).kind.Separator?
    }

    /** The automaton state that the variables stand for. */
    function Abstract(): State {
      State(
        if started then Some(Pending(value, start, quoted)) else None,
        if quote.Some? then Some((quote.value, quoteStart)) else None,
        EndsSeparated())
    }
  }

  /** One turn of the loop agrees with one move of the automaton. */
  predicate Agrees(b: Buffers, m: Move, r: Result<(Buffers, nat), CommandError>) {
    match m
    case Fail(e) => r == Err(e)
    case Go(more, n, next) =>
      && r.Ok? && r.value.1 == n && r.value.0.Valid()
      && r.value.0.Abstract() == next && r.value.0.tokens == b.tokens + more
  }

  method FlushWord(b: Buffers) returns (b': Buffers)
    requires b.Valid()
    ensures b' == b.(tokens := b.tokens + Flush(b.Abstract().word), value := "", started := false, quoted := false)
  {
    b' := b;
    if b.started {
      b' := b'.(
        tokens := b'.tokens + [Token(b.value, b.start, b.quoted, Word)],
        value := "",
        started := false,
        quoted := false);
    } else {
      assert b.tokens + [] == b.tokens;
    }
  }

  method PushSeparator(b: Buffers, separator: Separator, offset: nat) returns (b': Buffers)
    requires b.Valid() && b.quote.None?
    ensures b'.Valid() && b'.Abstract() == State(None, None, true)
    ensures b'.tokens == b.tokens + (Flush(b.Abstract().word) + [SeparatorToken(separator, offset)])
  {
    b' := FlushWord(b);
    b' := b'.(tokens := b'.tokens + [SeparatorToken(separator, offset)]);
    assert b'.tokens == b.tokens + (Flush(b.Abstract().word) + [SeparatorToken(separator, offset)]);
  }

  method BeginWord(b: Buffers, offset: nat) returns (b': Buffers)
    requires b.Valid()
    ensures b'.Valid() && b'.started && b'.Abstract() == b.Abstract().(word := Some(Begin(b.Abstract().word, offset)))
    ensures b'.tokens == b.tokens
  {
    b' := if b.started then b else b.(start := offset, started := true);
  }

  method LexQuoted(source: string, i: nat, offset: nat, b: Buffers) returns (r: Result<(Buffers, nat), CommandError>)
    requires i < |source| && b.Valid() && b.quote.Some? && source[i] != '\0'
    ensures Agrees(b, NextMove(source[i..], offset, b.Abstract()), r)
  {
    var ch := source[i];
    assert b.tokens + [] == b.tokens;
    if b.quote == Some(Single) {
      if ch == '\'' {
        return Ok((b.(quote := None), 1));
      }
      return Ok((b.(value := b.value + [ch]), 1));
    }
    if ch == '"' {
      return Ok((b.(quote := None), 1));
    }
    if ch == '$' || ch == '`' {
      return Err(CommandError(UnsupportedSyntax, offset));
    }
    if ch == '\\' {
      if i + 1 == |source| {
        return Err(CommandError(MalformedSyntax, offset));
      }
      var next := source[i + 1];
      var value := b.value;
      if next == '\n' {
        assert value + "" == value;
      } else if next in "\"\\$`" {
        value := value + [next];
      } else {
        assert value + ['\\', next] == value + ['\\'] + [next];
        value := value + ['\\'];
        value := value + [next];
      }
      return Ok((b.(value := value), 2));
    }
    return Ok((b.(value := b.value + [ch]), 1));
  }

  method LexBackslash(source: string, i: nat, offset: nat, b: Buffers) returns (r: Result<(Buffers, nat), CommandError>)
    requires i < |source| && b.Valid() && b.quote.None? && source[i] == '\\'
    ensures Agrees(b, NextMove(source[i..], offset, b.Abstract()), r)
  {
    assert b.tokens + [] == b.tokens;
    var b' := BeginWord(b, offset);
    assert b'.value + "" == b'.value;
    b' := b'.(quoted := true);
    if i + 1 == |source| {
      return Err(CommandError(MalformedSyntax, offset));
    }
    if source[i + 1] != '\n' {
      b' := b'.(value := b'.value + [source[i + 1]]);
    }
    return Ok((b', 2));
  }

  method LexBlank(source: string, i: nat, offset: nat, b: Buffers) returns (r: Result<(Buffers, nat), CommandError>)
    requires i < |source| && b.Valid() && b.quote.None? && IsWhitespace(source[i])
    ensures Agrees(b, NextMove(source[i..], offset, b.Abstract()), r)
  {
    var b' := FlushWord(b);
    if source[i] == '\n' && !b'.EndsSeparated() {
      assert b'.tokens + [SeparatorToken(Sequence, offset)] ==
             b.tokens + (Flush(b.Abstract().word) + [SeparatorToken(Sequence, offset)]);
      b' := b'.(tokens := b'.tokens + [SeparatorToken(Sequence, offset)]);
    }
    return Ok((b', 1));
  }

  method LexBare(source: string, i: nat, offset: nat, b: Buffers) returns (r: Result<(Buffers, nat), CommandError>)
    requires i < |source| && b.Valid() && b.quote.None? && source[i] != '\0'
    ensures Agrees(b, NextMove(source[i..], offset, b.Abstract()), r)
  {
    var ch := source[i];
    assert b.tokens + [] == b.tokens;
    assert source[i..][1..] == source[i + 1..];
    hide HasCmdExpansion, IsWhitespace, BlankMove, Agrees;
    if ch == '\'' || ch == '"' {
      var b' := BeginWord(b, offset);
      assert b'.value + "" == b'.value;
      b' := b'.(quoted := true, quoteStart := offset, quote := Some(if ch == '\'' then Single else Double));
      r := Ok((b', 1));
    } else if ch == '\\' {
      r := LexBackslash(source, i, offset, b);
    } else if IsWhitespace(ch) {
      r := LexBlank(source, i, offset, b);
    } else if ch == ';' {
      var b' := PushSeparator(b, Sequence, offset);
      r := Ok((b', 1));
    } else if ch == '|' {
      if i + 1 < |source| && source[i + 1] == '|' {
        var b' := PushSeparator(b, Or, offset);
        r := Ok((b', 2));
      } else {
        var b' := PushSeparator(b, Pipe, offset);
        r := Ok((b', 1));
      }
    } else if ch == '&' {
      if i + 1 < |source| && source[i + 1] == '&' {
        var b' := PushSeparator(b, And, offset);
        r := Ok((b', 2));
      } else {
        r := Err(CommandError(UnsupportedSyntax, offset));
      }
    } else if ch in "<>(){}^[]$`*?!" || ((ch == '~' || ch == '#') && !b.started)
              || (ch == '%' && HasCmdExpansion(source[i + 1..])) {
      r := Err(CommandError(UnsupportedSyntax, offset));
    } else {
      var b' := BeginWord(b, offset);
      r := Ok((b'.(value := b'.value + [ch]), 1));
    }
  }

  method LexCharacter(source: string, i: nat, offset: nat, b: Buffers) returns (r: Result<(Buffers, nat), CommandError>)
    requires i < |source| && b.Valid()
    ensures Agrees(b, NextMove(source[i..], offset, b.Abstract()), r)
  {
    if source[i] == '\0' {
      return Err(CommandError(MalformedSyntax, offset));
    }
    if b.quote.Some? {
      r := LexQuoted(source, i, offset, b);
    } else {
      r := LexBare(source, i, offset, b);
    }
  }

  lemma LexStarts(source: string)
    ensures Lex(source) == Prepend([], LexFrom(source, 0, State(None, None, false)))
  {
    hide LexFrom;
    PrependNothing(Lex(source));
  }

  method LexLine(source: string) returns (r: Result<seq<Token>, CommandError>)
    ensures r == Lex(source)
  {
    hide Lex, LexFrom, Prepend, NextMove, Bytes, Width, Flush;
    var b := Buffers([], "", false, false, 0, None, 0);
    var i: nat, offset: nat := 0, 0;
    assert source[0..] == source;
    LexStarts(source);
    while i < |source|
      invariant 0 <= i <= |source| && b.Valid()
      invariant Lex(source) == Prepend(b.tokens, LexFrom(source[i..], offset, b.Abstract()))
    {
      ghost var rest := source[i..];
      OneMove(b.tokens, rest, offset, b.Abstract());
      assert rest[0] == source[i] && (|rest| > 1 ==> rest[1] == source[i + 1]);
      var turn :- LexCharacter(source, i, offset, b);
      var (b', n) := turn;
      ghost var reached := offset + Bytes(rest[..n]);
      assert Lex(source) == Prepend(b'.tokens, LexFrom(rest[n..], reached, b'.Abstract()));
      BytesOfTaken(rest, n);
      assert rest[n..] == source[i + n..];
      offset := offset + Width(source[i]) + if n == 2 then Width(source[i + 1]) else 0;
      assert offset == reached;
      b, i := b', i + n;
    }
    EndOfText(b.tokens, offset, b.Abstract());
    assert source[i..] == "";
    if b.quote.Some? {
      return Err(CommandError(MalformedSyntax, b.quoteStart));
    }
    b := FlushWord(b);
    return Ok(b.tokens);
  }

  lemma EndOfText(tokens: seq<Token>, at: nat, st: State)
    ensures Prepend(tokens, LexFrom("", at, st)) ==
            if st.quote.Some? then Err(CommandError(MalformedSyntax, st.quote.value.1))
            else Ok(tokens + Flush(st.word))
  {
  }

  lemma PrependNothing(r: Result<seq<Token>, CommandError>)
    ensures Prepend([], r) == r
  {
    assert r.Ok? ==> [] + r.value == r.value;
  }

  lemma BytesOfTaken(rest: string, n: nat)
    requires 1 <= n <= 2 && n <= |rest|
    ensures Bytes(rest[..n]) == Width(rest[0]) + if n == 2 then Width(rest[1]) else 0
  {
    assert rest[..n][0] == rest[0] && rest[..n][1..] == rest[1..n];
    if n == 1 {
      assert rest[1..n] == "";
    } else {
      assert rest[1..n][0] == rest[1] && rest[1..n][1..] == "";
      assert Bytes(rest[1..n]) == Width(rest[1]) + Bytes("");
    }
  }

  lemma {:induction false} BytesAdd(a: string, b: string)
    ensures Bytes(a + b) == Bytes(a) + Bytes(b)
  {
    if a == "" {
      assert a + b == b;
    } else {
      assert (a + b)[0] == a[0] && (a + b)[1..] == a[1..] + b;
      BytesAdd(a[1..], b);
    }
  }
}
