/** Which hosts and path patterns are accepted, and as what, with the characters written out. */
module SelectorTexts {
  import opened Common
  import opened Characters
  import opened Splitting
  import NetworkHost
  import PathPattern

  // Hosts

  predicate LabelCharacter(c: char) {
    'a' <= c <= 'z' || 'A' <= c <= 'Z' || '0' <= c <= '9' || c == '-'
  }

  /** One to sixty-three letters, digits and hyphens, with no hyphen at either end. */
  predicate SoundLabel(part: string) {
    && 1 <= |part| <= 63 && part[0] != '-' && part[|part| - 1] != '-'
    && forall i :: 0 <= i < |part| ==> LabelCharacter(part[i])
  }

  /** Up to 253 characters, not all digits and dots, and between its dots only sound labels. */
  predicate SoundHost(name: string) {
    && |name| <= 253
    && (exists i :: 0 <= i < |name| && name[i] != '.' && !('0' <= name[i] <= '9'))
    && var labels := Split(name, {'.'}); forall i :: 0 <= i < |labels| ==> SoundLabel(labels[i])
  }

  /** The same text with small letters for capitals. */
  predicate LowersTo(name: string, lower: string) {
    && |lower| == |name|
    && forall i :: 0 <= i < |name| ==>
         lower[i] as int == if 'A' <= name[i] <= 'Z' then name[i] as int + 32 else name[i] as int
  }

  /** The text, or the text without a final dot. */
  predicate NamesHost(text: string, name: string) {
    if text != "" && text[|text| - 1] == '.' then text == name + "." else text == name
  }

  lemma LabelInFull(part: string)
    ensures NetworkHost.ValidLabel(part) <==> SoundLabel(part)
  {
  }

  lemma SoundHostIsAscii(name: string)
    requires SoundHost(name)
    ensures NetworkHost.IsAscii(name)
  {
    hide Split;
    var labels := Split(name, {'.'});
    forall i | 0 <= i < |labels| ensures NetworkHost.ValidLabel(labels[i]) { LabelInFull(labels[i]); }
    forall i | 0 <= i < |name| ensures name[i] < '\U{80}' { NetworkHost.NameCharacters(name, i); }
  }

  lemma NameInFull(name: string)
    ensures NetworkHost.ValidName(name) <==> SoundHost(name)
  {
    hide Split, NetworkHost.ValidLabel, SoundLabel, NetworkHost.IsAscii;
    var labels := NetworkHost.Labels(name);
    assert labels == Split(name, {'.'});
    forall i | 0 <= i < |labels| ensures NetworkHost.ValidLabel(labels[i]) <==> SoundLabel(labels[i]) {
      LabelInFull(labels[i]);
    }
    if SoundHost(name) { SoundHostIsAscii(name); }
  }

  lemma StemIsNamed(text: string)
    ensures NamesHost(text, NetworkHost.Stem(text))
    ensures forall name :: NamesHost(text, name) ==> name == NetworkHost.Stem(text)
  {
    if text != "" && text[|text| - 1] == '.' {
      assert text[..|text| - 1] + "." == text;
      forall name | text == name + "." ensures name == text[..|text| - 1] { assert text[..|name|] == name; }
    }
  }

  /** A text that reads as no IP literal is accepted exactly when it is a sound name with or without
      a final dot, and then stands for the name in small letters. */
  lemma HostInFull<I>(text: string, ip: NetworkHost.IpReader<I>, name: string)
    requires NamesHost(text, name)
    ensures ip(text).Some? ==> NetworkHost.Parse(text, ip) == Some(NetworkHost.Ip(ip(text).value))
    ensures ip(text).None? && !SoundHost(name) ==> NetworkHost.Parse(text, ip) == None
    ensures ip(text).None? && SoundHost(name) ==>
              exists lower :: LowersTo(name, lower) && NetworkHost.Parse(text, ip) == Some(NetworkHost.Dns(lower))
  {
    hide NetworkHost.ValidName, SoundHost, NamesHost, NetworkHost.Stem;
    StemIsNamed(text);
    NameInFull(name);
    var lower := NetworkHost.Lower(name);
    assert LowersTo(name, lower);
  }

  // Path patterns

  predicate Letter(c: char) {
    'a' <= c <= 'z' || 'A' <= c <= 'Z'
  }

  /** No control characters, backslashes, brackets or braces, no leading `!` and no drive. */
  predicate SoundText(text: string) {
    && text != "" && text[0] != '!' && !(|text| >= 2 && Letter(text[0]) && text[1] == ':')
    && forall i :: 0 <= i < |text| ==>
         && text[i] >= ' ' && !('\U{7F}' <= text[i] <= '\U{9F}')
         && text[i] != '\\' && text[i] != '[' && text[i] != ']' && text[i] != '{' && text[i] != '}'
  }

  /** A segment is not empty and not dots, and has two stars together only if they are all. */
  predicate SoundSegment(piece: string) {
    && piece != "" && piece != "." && piece != ".."
    && (piece == "**" || forall i :: 0 <= i < |piece| - 1 ==> !(piece[i] == '*' && piece[i + 1] == '*'))
  }

  /** Tokens for a text: a star for any characters, a question mark for any one, and each stretch
      between them for itself. */
  predicate Spelled(tokens: seq<PathPattern.PathToken>, text: string) {
    if tokens == [] then text == ""
    else if tokens[0].AnyCharacters? then text != "" && text[0] == '*' && Spelled(tokens[1..], text[1..])
    else if tokens[0].AnyCharacter? then text != "" && text[0] == '?' && Spelled(tokens[1..], text[1..])
    else
      var literal := tokens[0].text;
      && literal != "" && literal <= text && '*' !in literal && '?' !in literal
      && (|literal| < |text| ==> text[|literal|] == '*' || text[|literal|] == '?')
      && Spelled(tokens[1..], text[|literal|..])
  }

  predicate ReadsSegment(segment: PathPattern.PathSegment, piece: string) {
    if piece == "**" then segment.Recursive? else segment.Tokens? && Spelled(segment.tokens, piece)
  }

  lemma TextInFull(text: string)
    ensures PathPattern.Permitted(text) <==> SoundText(text)
  {
  }

  lemma {:induction false} GlobstarByPairs(text: string)
    ensures PathPattern.HasGlobstar(text) <==> exists i :: 0 <= i < |text| - 1 && text[i] == '*' && text[i + 1] == '*'
  {
    if |text| > 1 {
      GlobstarByPairs(text[1..]);
      if i :| 0 <= i < |text| - 1 && text[i] == '*' && text[i + 1] == '*' {
        if i > 0 { assert text[1..][i - 1] == '*' && text[1..][i - 1 + 1] == '*'; }
      }
      if i :| 0 <= i < |text[1..]| - 1 && text[1..][i] == '*' && text[1..][i + 1] == '*' {
        assert text[i + 1] == '*' && text[i + 1 + 1] == '*';
      }
    }
  }

  lemma {:induction false} TokensAreSpelled(text: string)
    requires '/' !in text
    ensures Spelled(PathPattern.TokensOf(text), text)
    decreases |text|
  {
    hide PathPattern.LiteralRun;
    if text == "" {
    } else if text[0] == '*' || text[0] == '?' {
      TokensAreSpelled(text[1..]);
      PathPattern.WildcardFirst(text);
    } else {
      var n := PathPattern.LiteralRun(text);
      PathPattern.LiteralFirst(text);
      TokensAreSpelled(text[n..]);
      assert n < |text| ==> text[n] in text;
    }
  }

  lemma SegmentInFull(piece: string)
    requires '/' !in piece
    ensures PathPattern.ParseSegment(piece).Some? <==> SoundSegment(piece)
    ensures PathPattern.ParseSegment(piece).Some? ==> ReadsSegment(PathPattern.ParseSegment(piece).value, piece)
  {
    hide PathPattern.TokensOf, PathPattern.HasGlobstar, Spelled;
    GlobstarByPairs(piece);
    TokensAreSpelled(piece);
  }

  lemma {:induction false} SegmentsInFull(pieces: seq<string>)
    requires forall i :: 0 <= i < |pieces| ==> '/' !in pieces[i]
    ensures var r := PathPattern.ParseSegments(pieces);
            && (r.Some? <==> forall i :: 0 <= i < |pieces| ==> SoundSegment(pieces[i]))
            && (r.Some? ==>
                  |r.value| == |pieces| && forall i :: 0 <= i < |pieces| ==> ReadsSegment(r.value[i], pieces[i]))
  {
    hide PathPattern.ParseSegment, SoundSegment, ReadsSegment;
    if pieces != [] {
      SegmentInFull(pieces[0]);
      SegmentsInFull(pieces[1..]);
      assert forall i :: 0 < i < |pieces| ==> pieces[i] == pieces[1..][i - 1];
    }
  }

  /** A text is accepted exactly when its characters are sound and it is a dot or has only sound
      segments between its slashes; the dot is the empty pattern, and otherwise the pattern has one
      segment for each of them, as spelled. */
  lemma PatternInFull(text: string)
    ensures var r := PathPattern.Parse(text);
            var pieces := Split(text, {'/'});
            && (r.Some? <==>
                  SoundText(text) && (text == "." || forall i :: 0 <= i < |pieces| ==> SoundSegment(pieces[i])))
            && (r.Some? && text == "." ==> r.value == [])
            && (r.Some? && text != "." ==>
                  |r.value| == |pieces| && forall i :: 0 <= i < |pieces| ==> ReadsSegment(r.value[i], pieces[i]))
  {
    hide PathPattern.Permitted, PathPattern.ParseSegments, Split, SoundText, SoundSegment, ReadsSegment;
    var pieces := Split(text, {'/'});
    TextInFull(text);
    forall i | 0 <= i < |pieces| ensures '/' !in pieces[i] { PieceElements(text, {'/'}, i); }
    SegmentsInFull(pieces);
    var r := PathPattern.Parse(text);
    assert r.Some? ==> SoundText(text);
    if SoundText(text) && text != "." {
      assert r == PathPattern.ParseSegments(pieces);
      assert r.Some? <==> forall i :: 0 <= i < |pieces| ==> SoundSegment(pieces[i]);
    }
    assert text == "." && SoundText(text) ==> r == Some([]);
  }
}
