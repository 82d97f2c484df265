/** What the lexer promises over every source text. */
module CommandLexerTheorems {
  import opened Common
  import opened Characters
  import opened CommandLexer

  // Offsets are relative

  function ShiftToken(t: Token, k: nat): Token {
    t.(start := t.start + k)
  }

  function ShiftTokens(tokens: seq<Token>, k: nat): (r: seq<Token>)
    ensures |r| == |tokens| && forall i :: 0 <= i < |r| ==> r[i] == ShiftToken(tokens[i], k)
  {
    seq(|tokens|, i requires 0 <= i < |tokens| => ShiftToken(tokens[i], k))
  }

  function ShiftError(e: CommandError, k: nat): CommandError {
    e.(offset := e.offset + k)
  }

  function ShiftLexed(r: Result<seq<Token>, CommandError>, k: nat): Result<seq<Token>, CommandError> {
    match r
    case Ok(tokens) => Ok(ShiftTokens(tokens, k))
    case Err(e) => Err(ShiftError(e, k))
  }

  function ShiftWord(word: Option<Pending>, k: nat): Option<Pending> {
    if word.Some? then Some(word.value.(start := word.value.start + k)) else None
  }

  function ShiftState(st: State, k: nat): State {
    State(
      ShiftWord(st.word, k),
      if st.quote.Some? then Some((st.quote.value.0, st.quote.value.1 + k)) else None,
      st.separated)
  }

  function ShiftMove(m: Move, k: nat): Move {
    match m
    case Fail(e) => Fail(ShiftError(e, k))
    case Go(tokens, n, next) => Go(ShiftTokens(tokens, k), n, ShiftState(next, k))
  }

  lemma FlushShifts(word: Option<Pending>, s: Separator, at: nat, k: nat)
    ensures Flush(ShiftWord(word, k)) == ShiftTokens(Flush(word), k)
    ensures Flush(ShiftWord(word, k)) + [SeparatorToken(s, at + k)] ==
            ShiftTokens(Flush(word) + [SeparatorToken(s, at)], k)
  {
  }

  lemma AppendShifts(word: Option<Pending>, at: nat, text: string, k: nat)
    ensures Append(ShiftWord(word, k), at + k, text) == ShiftWord(Append(word, at, text), k)
    ensures AppendQuoted(ShiftWord(word, k), at + k, text) == ShiftWord(AppendQuoted(word, at, text), k)
  {
  }

  lemma QuotedMoveShifts(rest: string, at: nat, st: State, k: nat)
    requires rest != "" && st.quote.Some?
    ensures NextMove(rest, at + k, ShiftState(st, k)) == ShiftMove(NextMove(rest, at, st), k)
  {
    hide DoubleEscape, Append, AppendQuoted, ShiftWord, ShiftTokens, BareMove;
    assert ShiftTokens([], k) == [];
    AppendShifts(st.word, at, [rest[0]], k);
    if |rest| > 1 {
      AppendShifts(st.word, at, DoubleEscape(rest[1]), k);
    }
  }

  lemma SplitShifts(st: State, s: Separator, at: nat, n: nat, k: nat)
    ensures Split(ShiftState(st, k), s, at + k, n) == ShiftMove(Split(st, s, at, n), k)
  {
    FlushShifts(st.word, s, at, k);
  }

  lemma BlankShifts(c: char, at: nat, st: State, k: nat)
    ensures BlankMove(c, at + k, ShiftState(st, k)) == ShiftMove(BlankMove(c, at, st), k)
  {
    FlushShifts(st.word, Sequence, at, k);
  }

  lemma BareMoveShifts(rest: string, at: nat, st: State, k: nat)
    requires rest != ""
    ensures BareMove(rest, at + k, ShiftState(st, k)) == ShiftMove(BareMove(rest, at, st), k)
  {
    hide Split, BlankMove, Append, AppendQuoted, HasCmdExpansion, IsWhitespace, ShiftTokens;
    var c := rest[0];
    assert ShiftTokens([], k) == [];
    if c == '\'' || c == '"' {
      AppendShifts(st.word, at, "", k);
    } else if c == '\\' {
      if |rest| > 1 { AppendShifts(st.word, at, if rest[1] == '\n' then "" else [rest[1]], k); }
    } else if IsWhitespace(c) {
      BlankShifts(c, at, st, k);
    } else if c == ';' {
      SplitShifts(st, Sequence, at, 1, k);
    } else if c == '|' {
      SplitShifts(st, Or, at, 2, k);
      SplitShifts(st, Pipe, at, 1, k);
    } else if c == '&' {
      SplitShifts(st, And, at, 2, k);
    } else {
      AppendShifts(st.word, at, [c], k);
    }
  }

  lemma MoveShifts(rest: string, at: nat, st: State, k: nat)
    requires rest != ""
    ensures NextMove(rest, at + k, ShiftState(st, k)) == ShiftMove(NextMove(rest, at, st), k)
  {
    hide BareMove;
    if st.quote.Some? {
      QuotedMoveShifts(rest, at, st, k);
    } else {
      BareMoveShifts(rest, at, st, k);
    }
  }

  lemma PrependShifts(tokens: seq<Token>, r: Result<seq<Token>, CommandError>, k: nat)
    ensures ShiftLexed(Prepend(tokens, r), k) == Prepend(ShiftTokens(tokens, k), ShiftLexed(r, k))
  {
    if r.Ok? {
      assert ShiftTokens(tokens + r.value, k) == ShiftTokens(tokens, k) + ShiftTokens(r.value, k);
    }
  }

  /** Lexing a text further into a source only moves its offsets. */
  lemma {:induction false} LexShifts(rest: string, at: nat, st: State, k: nat)
    ensures LexFrom(rest, at + k, ShiftState(st, k)) == ShiftLexed(LexFrom(rest, at, st), k)
    decreases |rest|
  {
    hide NextMove, Prepend, Bytes;
    if rest != "" {
      MoveShifts(rest, at, st, k);
      match NextMove(rest, at, st)
      case Fail(_) =>
      case Go(tokens, n, next) =>
        LexShifts(rest[n..], at + Bytes(rest[..n]), next, k);
        PrependShifts(tokens, LexFrom(rest[n..], at + Bytes(rest[..n]), next), k);
    } else {
      assert Flush(ShiftState(st, k).word) == ShiftTokens(Flush(st.word), k);
    }
  }

  // Lexing around a semicolon

  lemma {:induction false} PercentStopsAtSemicolon(a: string, b: string)
    ensures PercentAhead(a + ";" + b) == PercentAhead(a)
  {
    var whole := a + ";" + b;
    if a == "" {
      assert whole[0] == ';';
    } else {
      assert whole[0] == a[0] && whole[1..] == a[1..] + ";" + b;
      PercentStopsAtSemicolon(a[1..], b);
    }
  }

  /** A move that succeeds before a semicolon is the same when text follows the semicolon. */
  lemma MoveBeforeSemicolon(a: string, b: string, at: nat, st: State)
    requires a != "" && NextMove(a, at, st).Go?
    ensures NextMove(a + ";" + b, at, st) == NextMove(a, at, st)
  {
    var whole := a + ";" + b;
    assert whole[0] == a[0] && whole[1..] == a[1..] + ";" + b;
    assert |a| > 1 ==> whole[1] == a[1];
    assert |a| == 1 ==> whole[1] == ';';
    PercentStopsAtSemicolon(a[1..], b);
    assert a[1..] != "" ==> whole[1..][0] == a[1..][0];
    assert a[1..] == "" ==> whole[1..][0] == ';';
    assert HasCmdExpansion(a[1..]) == HasCmdExpansion(whole[1..]);
    hide HasCmdExpansion, IsWhitespace, PercentAhead, BlankMove, Split;
  }

  const SEPARATED := State(None, None, true)

  /** If `a` lexes, then `a;b` lexes to the tokens of `a`, a separator, and what `b` lexes to
      after a separator. */
  lemma {:induction false} LexBeforeSemicolon(a: string, b: string, at: nat, st: State)
    requires LexFrom(a, at, st).Ok?
    ensures LexFrom(a + ";" + b, at, st) ==
            Prepend(LexFrom(a, at, st).value + [SeparatorToken(Sequence, at + Bytes(a))],
                    LexFrom(b, at + Bytes(a) + 1, SEPARATED))
    decreases |a|
  {
    hide NextMove, Prepend, Bytes;
    if a == "" {
      SemicolonMove(b, at, st);
    } else {
      MoveBeforeSemicolon(a, b, at, st);
      var Go(tokens, n, next) := NextMove(a, at, st);
      var at' := at + Bytes(a[..n]);
      var rest := LexFrom(a[n..], at', next);
      PrependOk(tokens, rest);
      LexBeforeSemicolon(a[n..], b, at', next);
      BytesSplit(a, n);
      assert at' + Bytes(a[n..]) == at + Bytes(a);
      var last := SeparatorToken(Sequence, at + Bytes(a));
      WholeAfter(a, b, n);
      PrependTwice(tokens, rest.value + [last], LexFrom(b, at + Bytes(a) + 1, SEPARATED));
      assert LexFrom(a, at, st).value + [last] == tokens + (rest.value + [last]);
    }
  }

  lemma WholeAfter(a: string, b: string, n: nat)
    requires n <= |a|
    ensures (a + ";" + b)[n..] == a[n..] + ";" + b && (a + ";" + b)[..n] == a[..n]
  {
  }

  lemma SemicolonMove(b: string, at: nat, st: State)
    requires st.quote.None?
    ensures Bytes("") == 0
    ensures LexFrom("" + ";" + b, at, st) ==
            Prepend(Flush(st.word) + [SeparatorToken(Sequence, at)], LexFrom(b, at + 1, SEPARATED))
  {
    var whole := "" + ";" + b;
    assert whole[0] == ';' && whole[1..] == b && whole[..1] == ";";
    assert NextMove(whole, at, st) == Split(st, Sequence, at, 1);
    assert Bytes(";") == 1 by { assert ";"[1..] == ""; }
    hide NextMove, Prepend, Bytes;
  }

  lemma BytesSplit(a: string, n: nat)
    requires n <= |a|
    ensures Bytes(a[..n]) + Bytes(a[n..]) == Bytes(a)
  {
    hide Bytes;
    assert a == a[..n] + a[n..];
    BytesAdd(a[..n], a[n..]);
  }

  /** A newline among the leading whitespace. */
  predicate LeadingNewline(text: string) {
    text != "" && IsWhitespace(text[0]) && (text[0] == '\n' || LeadingNewline(text[1..]))
  }

  /** The byte offset of the first newline among the leading whitespace. */
  function NewlineOffset(text: string): nat
    requires LeadingNewline(text)
  {
    if text[0] == '\n' then 0 else Width(text[0]) + NewlineOffset(text[1..])
  }

  /** Two moves that differ only in what came before the word they are in. */
  predicate SameButSeparated(with: Move, without: Move) {
    with == without ||
    (with.Go? && without.Go? && with.tokens == without.tokens && with.consumed == without.consumed
     && with.next.word.Some? && with.next == without.next.(separated := true)
     && without.next == without.next.(separated := false))
  }

  lemma MoveForgetsSeparator(rest: string, at: nat, st: State)
    requires rest != "" && (st.word.Some? || (st.quote.None? && !IsWhitespace(rest[0])))
    ensures SameButSeparated(NextMove(rest, at, st.(separated := true)), NextMove(rest, at, st.(separated := false)))
  {
    hide HasCmdExpansion, IsWhitespace, DoubleEscape;
  }

  /** Inside a word it does not matter what came before the word. */
  lemma {:induction false} WordForgetsSeparator(rest: string, at: nat, st: State)
    requires st.word.Some?
    ensures LexFrom(rest, at, st.(separated := true)) == LexFrom(rest, at, st.(separated := false))
    decreases |rest|
  {
    hide NextMove, Prepend, Bytes;
    if rest != "" {
      MoveForgetsSeparator(rest, at, st);
      var with, without := NextMove(rest, at, st.(separated := true)), NextMove(rest, at, st.(separated := false));
      if with != without {
        WordForgetsSeparator(rest[with.consumed..], at + Bytes(rest[..with.consumed]), with.next);
      }
    }
  }

  lemma LeadingBlankMove(rest: string, at: nat)
    requires rest != "" && IsWhitespace(rest[0])
    ensures NextMove(rest, at, SEPARATED) == Go([], 1, SEPARATED)
    ensures NextMove(rest, at, START) ==
            if rest[0] == '\n' then Go([SeparatorToken(Sequence, at)], 1, SEPARATED) else Go([], 1, START)
  {
  }

  lemma FirstByte(rest: string)
    requires rest != ""
    ensures Bytes(rest[..1]) == Width(rest[0])
  {
    BytesOfTaken(rest, 1);
  }

  /** After a separator, leading newlines add nothing; at the start of a text, the first of
      them adds one separator. */
  lemma {:induction false} LeadingNewlineSeparates(rest: string, at: nat)
    ensures LexFrom(rest, at, START) ==
            if LeadingNewline(rest)
            then Prepend([SeparatorToken(Sequence, at + NewlineOffset(rest))], LexFrom(rest, at, SEPARATED))
            else LexFrom(rest, at, SEPARATED)
    decreases |rest|
  {
    hide NextMove, Prepend, Bytes, IsWhitespace, Width;
    if rest == "" {
    } else if IsWhitespace(rest[0]) {
      FirstByte(rest);
      LeadingBlankMove(rest, at);
      var next := at + Width(rest[0]);
      LeadingNewlineSeparates(rest[1..], next);
      PrependNothing(LexFrom(rest[1..], next, SEPARATED));
      PrependNothing(LexFrom(rest[1..], next, START));
    } else {
      MoveForgetsSeparator(rest, at, START);
      var with, without := NextMove(rest, at, SEPARATED), NextMove(rest, at, START);
      if with != without {
        WordForgetsSeparator(rest[with.consumed..], at + Bytes(rest[..with.consumed]), with.next);
      }
    }
  }

  /** What a text lexes to when it follows a separator. */
  function LexAfterSeparator(source: string): Result<seq<Token>, CommandError> {
    LexFrom(source, 0, SEPARATED)
  }

  /** A token in front makes a difference to tokens, and none to an error. */
  lemma OneMoreToken(tokens: seq<Token>, t: Token, r: Result<seq<Token>, CommandError>, k: nat)
    ensures Prepend([t], r).Ok? <==> r.Ok?
    ensures Prepend(tokens, ShiftLexed(Prepend([t], r), k)) == Prepend(tokens, ShiftLexed(r, k)) <==> r.Err?
  {
    if r.Ok? {
      assert |tokens + ShiftTokens([t] + r.value, k)| == |tokens| + 1 + |r.value|;
    }
  }

  /** Lexing is compositional at a semicolon. If `a` lexes, then `a;b` lexes to the tokens of
      `a`, a separator, and the tokens or the error of `b` after a separator, moved by the
      offset. That is the tokens or error of `b` itself, unless `b` lexes and has a newline
      before its first other character, which on its own adds one separator in front. */
  lemma LexComposes(a: string, b: string)
    requires Lex(a).Ok?
    ensures Lex(a + ";" + b) ==
            Prepend(Lex(a).value + [SeparatorToken(Sequence, Bytes(a))],
                    ShiftLexed(LexAfterSeparator(b), Bytes(a) + 1))
    ensures Lex(b) ==
            if LeadingNewline(b)
            then Prepend([SeparatorToken(Sequence, NewlineOffset(b))], LexAfterSeparator(b))
            else LexAfterSeparator(b)
    ensures Lex(a + ";" + b) ==
            Prepend(Lex(a).value + [SeparatorToken(Sequence, Bytes(a))], ShiftLexed(Lex(b), Bytes(a) + 1)) <==>
            !LeadingNewline(b) || Lex(b).Err?
  {
    hide LexFrom, LeadingNewline, Bytes, Prepend, ShiftLexed;
    LexBeforeSemicolon(a, b, 0, START);
    assert ShiftState(SEPARATED, Bytes(a) + 1) == SEPARATED;
    LexShifts(b, 0, SEPARATED, Bytes(a) + 1);
    LeadingNewlineSeparates(b, 0);
    if LeadingNewline(b) {
      OneMoreToken(Lex(a).value + [SeparatorToken(Sequence, Bytes(a))], SeparatorToken(Sequence, NewlineOffset(b)),
                   LexAfterSeparator(b), Bytes(a) + 1);
    }
  }

  // Offsets increase

  predicate Increasing(tokens: seq<Token>, from: nat, to: nat) {
    && (forall i :: 0 <= i < |tokens| ==> from <= tokens[i].start < to)
    && (forall i, j :: 0 <= i < j < |tokens| ==> tokens[i].start < tokens[j].start)
  }

  function PendingFrom(st: State, at: nat): nat {
    if st.word.Some? then st.word.value.start else at
  }

  lemma MoveIncreases(rest: string, at: nat, st: State)
    requires rest != "" && NextMove(rest, at, st).Go? && (st.word.Some? ==> st.word.value.start < at)
    requires st.quote.Some? ==> st.word.Some?
    ensures var m := NextMove(rest, at, st);
            var next := at + Bytes(rest[..m.consumed]);
            && at < next
            && (m.next.quote.Some? ==> m.next.word.Some?)
            && (m.next.word.Some? ==> m.tokens == [] && PendingFrom(st, at) == m.next.word.value.start)
            && Increasing(m.tokens, PendingFrom(st, at), next)
  {
    hide HasCmdExpansion, IsWhitespace, DoubleEscape, Bytes;
    BytesOfTaken(rest, NextMove(rest, at, st).consumed);
  }

  /** Tokens start inside the text, each after the one before. */
  lemma {:induction false} OffsetsIncrease(rest: string, at: nat, st: State)
    requires LexFrom(rest, at, st).Ok? && (st.word.Some? ==> st.word.value.start < at)
    requires st.quote.Some? ==> st.word.Some?
    ensures Increasing(LexFrom(rest, at, st).value, PendingFrom(st, at), at + Bytes(rest))
    decreases |rest|
  {
    hide NextMove, Prepend, Bytes;
    if rest != "" {
      var Go(tokens, n, next) := NextMove(rest, at, st);
      var tail := LexFrom(rest[n..], at + Bytes(rest[..n]), next);
      PrependOk(tokens, tail);
      MoveIncreases(rest, at, st);
      OffsetsIncrease(rest[n..], at + Bytes(rest[..n]), next);
      BytesSplit(rest, n);
    }
  }
}
