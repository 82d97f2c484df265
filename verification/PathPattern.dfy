/** The repository-relative pattern grammar: segments of literals and single-segment
    wildcards, and whole-segment globstars. */
module PathPattern {
  import opened Common
  import opened Characters
  import opened Splitting

  datatype PathToken = Literal(text: string) | AnyCharacters | AnyCharacter

  datatype PathSegment = Tokens(tokens: seq<PathToken>) | Recursive

  // The grammar

  predicate IsAsciiLetter(c: char) {
    'a' <= c <= 'z' || 'A' <= c <= 'Z'
  }

  predicate HasDrivePrefix(text: string) {
    |text| > 1 && IsAsciiLetter(text[0]) && text[1] == ':'
  }

  /** The conditions on the text as a whole. */
  predicate Permitted(text: string) {
    && text != ""
    && !HasDrivePrefix(text)
    && text[0] != '!'
    && forall i :: 0 <= i < |text| ==> !IsControl(text[i]) && text[i] !in "\\[]{}"
  }

  predicate IsLiteralCharacter(c: char) {
    c != '*' && c != '?' && c != '/'
  }

  predicate IsLiteralText(text: string) {
    text != "" && forall i :: 0 <= i < |text| ==> IsLiteralCharacter(text[i])
  }

  /** Literals are nonempty and maximal, and `*` does not follow `*`. */
  predicate NormalTokens(tokens: seq<PathToken>) {
    tokens == []
    || (NormalTokens(tokens[1..])
        && (tokens[0].Literal? ==> IsLiteralText(tokens[0].text))
        && (|tokens| > 1 ==> !(tokens[0].Literal? && tokens[1].Literal?)
                             && !(tokens[0].AnyCharacters? && tokens[1].AnyCharacters?)))
  }

  predicate NormalSegment(segment: PathSegment) {
    match segment
    case Recursive => true
    case Tokens(tokens) =>
      tokens != [] && NormalTokens(tokens) && tokens != [Literal(".")] && tokens != [Literal("..")]
  }

  predicate NormalPattern(segments: seq<PathSegment>) {
    forall i :: 0 <= i < |segments| ==> NormalSegment(segments[i])
  }

  function RenderToken(token: PathToken): string {
    match token
    case Literal(text) => text
    case AnyCharacters => "*"
    case AnyCharacter => "?"
  }

  function RenderTokens(tokens: seq<PathToken>): string {
    if tokens == [] then "" else RenderToken(tokens[0]) + RenderTokens(tokens[1..])
  }

  function RenderSegment(segment: PathSegment): string {
    match segment
    case Recursive => "**"
    case Tokens(tokens) => RenderTokens(tokens)
  }

  function RenderSegments(segments: seq<PathSegment>): (r: seq<string>)
    ensures |r| == |segments| && forall i :: 0 <= i < |r| ==> r[i] == RenderSegment(segments[i])
  {
    seq(|segments|, i requires 0 <= i < |segments| => RenderSegment(segments[i]))
  }

  /** The text of a pattern; the empty pattern is the repository root. */
  function Render(segments: seq<PathSegment>): string {
    if segments == [] then "." else Join(RenderSegments(segments), '/')
  }

  // The parser

  /** Whether two stars are adjacent. */
  predicate HasGlobstar(segment: string) {
    |segment| > 1 && ((segment[0] == '*' && segment[1] == '*') || HasGlobstar(segment[1..]))
  }

  function LiteralRun(text: string): (n: nat)
    ensures n <= |text| && (forall i :: 0 <= i < n ==> IsLiteralCharacter(text[i]))
    ensures n < |text| ==> !IsLiteralCharacter(text[n])
  {
    if text == "" || !IsLiteralCharacter(text[0]) then 0 else 1 + LiteralRun(text[1..])
  }

  function TokensOf(text: string): seq<PathToken>
    decreases |text|
  {
    if text == "" then []
    else if text[0] == '*' then [AnyCharacters] + TokensOf(text[1..])
    else if text[0] == '?' then [AnyCharacter] + TokensOf(text[1..])
    else
      var n := LiteralRun(text);
      if n == 0 then [] else [Literal(text[..n])] + TokensOf(text[n..])
  }

  function ParseSegment(text: string): Option<PathSegment> {
    if text == "" || text == "." || text == ".." then None
    else if text == "**" then Some(Recursive)
    else if HasGlobstar(text) then None
    else Some(Tokens(TokensOf(text)))
  }

  function ParseSegments(pieces: seq<string>): Option<seq<PathSegment>> {
    if pieces == [] then Some([])
    else
      match ParseSegment(pieces[0])
      case None => None
      case Some(first) =>
        match ParseSegments(pieces[1..])
        case None => None
        case Some(rest) => Some([first] + rest)
  }

  function Parse(input: string): Option<seq<PathSegment>> {
    if !Permitted(input) then None
    else if input == "." then Some([])
    else ParseSegments(Split(input, {'/'}))
  }

  // The parser as it runs

  /** The tokens once a pending literal has been flushed. */
  function Flushed(tokens: seq<PathToken>, literal: string): seq<PathToken> {
    if literal == "" then tokens else tokens + [Literal(literal)]
  }

  function Wildcard(c: char): PathToken {
    if c == '*' then AnyCharacters else AnyCharacter
  }

  lemma {:induction false} LiteralRunOfLiteral(literal: string, rest: string)
    requires forall i :: 0 <= i < |literal| ==> IsLiteralCharacter(literal[i])
    requires rest != "" ==> !IsLiteralCharacter(rest[0])
    ensures LiteralRun(literal + rest) == |literal|
    decreases |literal|
  {
    var text := literal + rest;
    if literal == "" {
      assert text == rest;
    } else {
      assert text[0] == literal[0] && text[1..] == literal[1..] + rest;
      LiteralRunOfLiteral(literal[1..], rest);
    }
  }

  /** A wildcard ends a literal; the end of the segment does too. */
  lemma LiteralThenWildcard(literal: string, rest: string)
    requires forall i :: 0 <= i < |literal| ==> IsLiteralCharacter(literal[i])
    requires rest != "" ==> !IsLiteralCharacter(rest[0])
    ensures TokensOf(literal + rest) == (if literal == "" then [] else [Literal(literal)]) + TokensOf(rest)
  {
    LiteralRunOfLiteral(literal, rest);
    if literal == "" {
      assert literal + rest == rest && [] + TokensOf(rest) == TokensOf(rest);
    } else {
      var text := literal + rest;
      assert text[0] == literal[0] && text[..|literal|] == literal && text[|literal|..] == rest;
      hide LiteralRun;
    }
  }

  /** Reading a wildcard behind a pending literal. */
  lemma WildcardTurn(tokens: seq<PathToken>, literal: string, rest: string)
    requires forall i :: 0 <= i < |literal| ==> IsLiteralCharacter(literal[i])
    requires rest != "" && (rest[0] == '*' || rest[0] == '?')
    ensures tokens + TokensOf(literal + rest) ==
            Flushed(tokens, literal) + [Wildcard(rest[0])] + TokensOf("" + rest[1..])
  {
    hide TokensOf;
    LiteralThenWildcard(literal, rest);
    WildcardFirst(rest);
    assert "" + rest[1..] == rest[1..];
    if literal == "" {
      assert [] + TokensOf(rest) == TokensOf(rest);
    }
    assert forall a: seq<PathToken>, b, c :: a + (b + c) == a + b + c;
  }

  lemma WildcardFirst(rest: string)
    requires rest != "" && (rest[0] == '*' || rest[0] == '?')
    ensures TokensOf(rest) == [Wildcard(rest[0])] + TokensOf(rest[1..])
  {
  }

  lemma EndTurn(tokens: seq<PathToken>, literal: string)
    requires forall i :: 0 <= i < |literal| ==> IsLiteralCharacter(literal[i])
    ensures tokens + TokensOf(literal + "") == Flushed(tokens, literal)
  {
    LiteralThenWildcard(literal, "");
    assert TokensOf("") == [];
    hide TokensOf;
  }

  method ParseTokens(segment: string) returns (tokens: seq<PathToken>)
    requires '/' !in segment
    ensures tokens == TokensOf(segment)
  {
    hide TokensOf;
    tokens := [];
    var literal := "";
    var i := 0;
    assert segment[0..] == segment && "" + segment == segment && [] + TokensOf(segment) == TokensOf(segment);
    while i < |segment|
      invariant 0 <= i <= |segment|
      invariant forall j :: 0 <= j < |literal| ==> IsLiteralCharacter(literal[j])
      invariant TokensOf(segment) == tokens + TokensOf(literal + segment[i..])
    {
      var character := segment[i];
      ghost var rest := segment[i..];
      assert rest[0] == character && rest[1..] == segment[i + 1..];
      if character == '*' || character == '?' {
        WildcardTurn(tokens, literal, rest);
        if literal != "" {
          tokens := tokens + [Literal(literal)];
          literal := "";
        }
        tokens := tokens + [Wildcard(character)];
      } else {
        assert character in segment;
        Associative(literal, [character], rest[1..]);
        assert rest == [character] + rest[1..];
        literal := literal + [character];
      }
      i := i + 1;
    }
    assert segment[i..] == "";
    EndTurn(tokens, literal);
    if literal != "" {
      tokens := tokens + [Literal(literal)];
    }
  }

  function Extended(done: seq<PathSegment>, r: Option<seq<PathSegment>>): Option<seq<PathSegment>> {
    if r.Some? then Some(done + r.value) else None
  }

  lemma SegmentTurn(done: seq<PathSegment>, pieces: seq<string>)
    requires pieces != []
    ensures Extended(done, ParseSegments(pieces)) ==
            match ParseSegment(pieces[0])
            case None => None
            case Some(segment) => Extended(done + [segment], ParseSegments(pieces[1..]))
  {
    hide ParseSegment;
    if ParseSegment(pieces[0]).Some? && ParseSegments(pieces[1..]).Some? {
      var first, rest := ParseSegment(pieces[0]).value, ParseSegments(pieces[1..]).value;
      assert done + ([first] + rest) == done + [first] + rest;
    }
  }

  method ParsePattern(input: string) returns (r: Option<seq<PathSegment>>)
    ensures r == Parse(input)
  {
    if !Permitted(input) {
      return None;
    }
    var segments := [];
    if input != "." {
      var pieces := Split(input, {'/'});
      var i := 0;
      assert pieces[0..] == pieces;
      assert ParseSegments(pieces).Some? ==> [] + ParseSegments(pieces).value == ParseSegments(pieces).value;
      hide ParseSegments, Permitted, Split;
      while i < |pieces|
        invariant 0 <= i <= |pieces|
        invariant Parse(input) == Extended(segments, ParseSegments(pieces[i..]))
      {
        var segment := pieces[i];
        assert pieces[i..][0] == segment && pieces[i..][1..] == pieces[i + 1..];
        SegmentTurn(segments, pieces[i..]);
        if segment == "" || segment == "." || segment == ".." {
          return None;
        }
        if segment == "**" {
          segments := segments + [Recursive];
        } else if HasGlobstar(segment) {
          return None;
        } else {
          PieceElements(input, {'/'}, i);
          var tokens := ParseTokens(segment);
          segments := segments + [Tokens(tokens)];
        }
        i := i + 1;
      }
      assert pieces[i..] == [];
      NoSegments(segments);
    }
    return Some(segments);
  }

  lemma NoSegments(done: seq<PathSegment>)
    ensures Extended(done, ParseSegments([])) == Some(done)
  {
    assert done + [] == done;
  }

  // Parsing inverts rendering

  lemma {:induction false} RenderParsedTokens(text: string)
    requires '/' !in text
    ensures RenderTokens(TokensOf(text)) == text
    decreases |text|
  {
    hide TokensOf, RenderTokens, LiteralRun;
    if text == "" {
      NothingParses();
    } else if text[0] == '*' || text[0] == '?' {
      RenderParsedTokens(text[1..]);
      WildcardFirst(text);
      RenderFirst(Wildcard(text[0]), TokensOf(text[1..]));
      assert [text[0]] + text[1..] == text;
    } else {
      var n := LiteralRun(text);
      LiteralFirst(text);
      RenderParsedTokens(text[n..]);
      RenderFirst(Literal(text[..n]), TokensOf(text[n..]));
      assert text[..n] + text[n..] == text;
    }
  }

  lemma LiteralFirst(text: string)
    requires text != "" && '/' !in text && text[0] != '*' && text[0] != '?'
    ensures 0 < LiteralRun(text)
    ensures TokensOf(text) == [Literal(text[..LiteralRun(text)])] + TokensOf(text[LiteralRun(text)..])
  {
    assert text[0] in text;
  }

  lemma RenderFirst(token: PathToken, rest: seq<PathToken>)
    ensures RenderTokens([token] + rest) == RenderToken(token) + RenderTokens(rest)
  {
    assert ([token] + rest)[1..] == rest;
  }

  /** What parsing makes of a segment without adjacent stars is in normal form. */
  lemma {:induction false} ParsedTokensAreNormal(text: string)
    requires '/' !in text && !HasGlobstar(text)
    ensures NormalTokens(TokensOf(text))
    ensures text != "" ==>
              && TokensOf(text) != []
              && (TokensOf(text)[0].AnyCharacters? <==> text[0] == '*')
              && (TokensOf(text)[0].Literal? <==> IsLiteralCharacter(text[0]))
    decreases |text|
  {
    if text != "" {
      assert text[0] in text;
      var n := if text[0] == '*' || text[0] == '?' then 1 else LiteralRun(text);
      var rest := text[n..];
      GlobstarBehind(text, n);
      ParsedTokensAreNormal(rest);
      assert TokensOf(text)[1..] == TokensOf(rest);
      if rest != "" {
        assert rest[0] == text[n];
        assert n == 1 && text[0] == '*' ==> rest[0] != '*';
      }
    }
  }

  lemma {:induction false} GlobstarBehind(text: string, n: nat)
    requires n <= |text| && !HasGlobstar(text)
    ensures !HasGlobstar(text[n..])
    ensures 0 < n < |text| ==> !(text[n - 1] == '*' && text[n] == '*')
    decreases n
  {
    if n == 0 {
      assert text[0..] == text;
    } else {
      GlobstarBehind(text[1..], n - 1);
      assert text[1..][n - 1..] == text[n..];
      assert 1 < n < |text| ==> text[1..][n - 2] == text[n - 1] && text[1..][n - 1] == text[n];
    }
  }

  /** Rendered normal tokens are read back as themselves. */
  lemma {:induction false} ParseRenderedTokens(tokens: seq<PathToken>)
    requires NormalTokens(tokens)
    ensures TokensOf(RenderTokens(tokens)) == tokens
    ensures '/' !in RenderTokens(tokens) && !HasGlobstar(RenderTokens(tokens))
    ensures tokens != [] ==>
              && RenderTokens(tokens) != ""
              && (RenderTokens(tokens)[0] == '*' <==> tokens[0].AnyCharacters?)
              && (IsLiteralCharacter(RenderTokens(tokens)[0]) <==> tokens[0].Literal?)
    decreases |tokens|
  {
    hide TokensOf, HasGlobstar;
    if tokens == [] {
      NothingParses();
    } else {
      var rest := RenderTokens(tokens[1..]);
      ParseRenderedTokens(tokens[1..]);
      assert tokens == [tokens[0]] + tokens[1..];
      match tokens[0]
      case Literal(text) =>
        LiteralThenWildcard(text, rest);
        GlobstarInFront(text, rest);
        assert '/' !in text;
      case _ =>
        var c := RenderToken(tokens[0])[0];
        assert ([c] + rest)[1..] == rest;
        WildcardFirst([c] + rest);
        GlobstarInFront([c], rest);
    }
  }

  lemma NothingParses()
    ensures TokensOf("") == [] && !HasGlobstar("") && RenderTokens([]) == ""
  {
  }

  lemma {:induction false} GlobstarInFront(text: string, rest: string)
    requires text != "" && !HasGlobstar(rest)
    requires forall i :: 0 <= i < |text| - 1 ==> text[i] != '*'
    requires rest != "" ==> text[|text| - 1] != '*' || rest[0] != '*'
    ensures !HasGlobstar(text + rest)
    decreases |text|
  {
    var whole := text + rest;
    assert whole[0] == text[0] && whole[1..] == text[1..] + rest;
    if |text| == 1 {
      assert whole[1..] == rest;
    } else {
      GlobstarInFront(text[1..], rest);
    }
  }

  lemma SegmentIsSound(text: string)
    requires '/' !in text && ParseSegment(text).Some?
    ensures NormalSegment(ParseSegment(text).value) && RenderSegment(ParseSegment(text).value) == text
  {
    if text != "**" {
      RenderParsedTokens(text);
      ParsedTokensAreNormal(text);
      DotTexts();
    }
  }

  lemma DotTexts()
    ensures RenderTokens([Literal(".")]) == "." && RenderTokens([Literal("..")]) == ".."
  {
    assert [Literal(".")][1..] == [] && [Literal("..")][1..] == [];
    assert "." + "" == "." && ".." + "" == "..";
  }

  lemma SegmentIsComplete(segment: PathSegment)
    requires NormalSegment(segment)
    ensures ParseSegment(RenderSegment(segment)) == Some(segment)
    ensures RenderSegment(segment) != "" && '/' !in RenderSegment(segment)
  {
    match segment
    case Recursive =>
    case Tokens(tokens) =>
      hide TokensOf, NormalTokens, RenderTokens;
      ParseRenderedTokens(tokens);
      DotTokens();
      assert HasGlobstar("**");
  }

  lemma DotTokens()
    ensures TokensOf(".") == [Literal(".")] && TokensOf("..") == [Literal("..")]
  {
    EndTurn([], ".");
    EndTurn([], "..");
    assert "." + "" == "." && ".." + "" == "..";
    hide TokensOf;
    assert [] + TokensOf(".") == TokensOf(".") && [] + TokensOf("..") == TokensOf("..");
  }

  // Splitting and joining

  lemma {:induction false} SegmentsAreSound(pieces: seq<string>)
    requires forall i :: 0 <= i < |pieces| ==> '/' !in pieces[i]
    requires ParseSegments(pieces).Some?
    ensures NormalPattern(ParseSegments(pieces).value)
    ensures RenderSegments(ParseSegments(pieces).value) == pieces
  {
    hide ParseSegment, NormalSegment, RenderSegment;
    if pieces != [] {
      SegmentIsSound(pieces[0]);
      SegmentsAreSound(pieces[1..]);
    }
  }

  lemma {:induction false} SegmentsAreComplete(segments: seq<PathSegment>)
    requires NormalPattern(segments)
    ensures ParseSegments(RenderSegments(segments)) == Some(segments)
  {
    hide ParseSegment, NormalSegment, RenderSegment;
    if segments != [] {
      SegmentIsComplete(segments[0]);
      SegmentsAreComplete(segments[1..]);
      assert RenderSegments(segments)[1..] == RenderSegments(segments[1..]);
      assert [segments[0]] + segments[1..] == segments;
    }
  }

  /** Whatever is accepted is in normal form and renders to the text that was parsed. */
  lemma ParseIsSound(input: string)
    requires Parse(input).Some?
    ensures NormalPattern(Parse(input).value) && Render(Parse(input).value) == input
  {
    hide ParseSegments, Split, Join, RenderSegments, NormalSegment, Permitted;
    if input != "." {
      var pieces := Split(input, {'/'});
      forall i | 0 <= i < |pieces| ensures '/' !in pieces[i] { PieceElements(input, {'/'}, i); }
      SegmentsAreSound(pieces);
      JoinSplit(input, '/');
      assert |RenderSegments(Parse(input).value)| == |Parse(input).value|;
    }
  }

  /** The pieces of a rendered nonempty pattern are its rendered segments. */
  lemma RenderedPieces(segments: seq<PathSegment>)
    requires NormalPattern(segments) && segments != []
    ensures Split(Render(segments), {'/'}) == RenderSegments(segments) && Render(segments) != "."
  {
    var pieces := RenderSegments(segments);
    forall i | 0 <= i < |pieces| ensures '/' !in pieces[i] {
      SegmentIsComplete(segments[i]);
    }
    SplitJoin(pieces, '/', {'/'});
    SplitPiece(".", {'/'});
    SegmentIsComplete(segments[0]);
    assert RenderSegment(segments[0]) == pieces[0] && ParseSegment(".") == None;
  }

  /** Every normal pattern whose text is permitted is parsed back as itself. */
  lemma ParseIsComplete(segments: seq<PathSegment>)
    requires NormalPattern(segments) && Permitted(Render(segments))
    ensures Parse(Render(segments)) == Some(segments)
  {
    if segments != [] {
      RenderedPieces(segments);
      SegmentsAreComplete(segments);
      hide Render, NormalPattern, ParseSegments, Split;
    }
  }

  /** The parser accepts exactly its grammar. */
  lemma ParserIsExact(input: string)
    ensures Parse(input).Some? <==>
            Permitted(input) && exists segments :: NormalPattern(segments) && Render(segments) == input
  {
    hide ParseSegments, NormalPattern, Render, Permitted;
    if Parse(input).Some? {
      ParseIsSound(input);
    }
    if Permitted(input) && exists segments :: NormalPattern(segments) && Render(segments) == input {
      var segments :| NormalPattern(segments) && Render(segments) == input;
      ParseIsComplete(segments);
    }
  }

  /** No text spells two normal patterns. */
  lemma RenderIsInjective(a: seq<PathSegment>, b: seq<PathSegment>)
    requires NormalPattern(a) && NormalPattern(b) && Render(a) == Render(b)
    ensures a == b
  {
    if a != [] { RenderedPieces(a); SegmentsAreComplete(a); }
    if b != [] { RenderedPieces(b); SegmentsAreComplete(b); }
    hide NormalPattern, ParseSegments, Split, RenderSegments;
  }
}
