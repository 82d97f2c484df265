/** Exact network hosts: IP literals and DNS names within the limits of sections 2.3.3 and
    2.3.4 of RFC 1035. Reading IP literals is a parameter. */
module NetworkHost {
  import opened Common
  import opened Characters
  import opened Splitting

  const MAX_NAME: nat := 253
  const MAX_LABEL: nat := 63

  datatype Host<I> = Dns(name: string) | Ip(address: I)

  /** A reader of IP literals. */
  type IpReader<!I> = string -> Option<I>

  predicate IsAlphanumeric(c: char) {
    IsDigit(c) || 'a' <= c <= 'z' || 'A' <= c <= 'Z'
  }

  function LowerChar(c: char): char {
    if 'A' <= c <= 'Z' then (c as int + 32) as char else c
  }

  function Lower(text: string): (r: string)
    ensures |r| == |text| && forall i :: 0 <= i < |r| ==> r[i] == LowerChar(text[i])
  {
    seq(|text|, i requires 0 <= i < |text| => LowerChar(text[i]))
  }

  /** The text without one final dot. */
  function Stem(text: string): string {
    if text != "" && text[|text| - 1] == '.' then text[..|text| - 1] else text
  }

  /** The labels between dots. */
  function Labels(name: string): (labels: seq<string>)
    ensures labels != []
  {
    Split(name, {'.'})
  }

  predicate ValidLabel(part: string) {
    && 0 < |part| <= MAX_LABEL
    && part[0] != '-' && part[|part| - 1] != '-'
    && forall i :: 0 <= i < |part| ==> IsAlphanumeric(part[i]) || part[i] == '-'
  }

  predicate OnlyDigitsAndDots(name: string) {
    forall i :: 0 <= i < |name| ==> IsDigit(name[i]) || name[i] == '.'
  }

  predicate IsAscii(text: string) {
    forall i :: 0 <= i < |text| ==> text[i] < '\U{80}'
  }

  predicate ValidName(name: string) {
    && 0 < |name| <= MAX_NAME
    && IsAscii(name)
    && !OnlyDigitsAndDots(name)
    && forall i :: 0 <= i < |Labels(name)| ==> ValidLabel(Labels(name)[i])
  }

  /** An IP literal if the text reads as one, otherwise a DNS name. */
  function Parse<I>(text: string, ip: IpReader<I>): Option<Host<I>> {
    if ip(text).Some? then Some(Ip(ip(text).value))
    else if ValidName(Stem(text)) then Some(Dns(Lower(Stem(text))))
    else None
  }

  method ParseHost<I>(text: string, ip: IpReader<I>) returns (r: Option<Host<I>>)
    ensures r == Parse(text, ip)
  {
    var address := ip(text);
    if address.Some? {
      return Some(Ip(address.value));
    }
    var name := Stem(text);
    if name == "" || |name| > MAX_NAME || !IsAscii(name) || OnlyDigitsAndDots(name) {
      return None;
    }
    var labels := Labels(name);
    var i := 0;
    while i < |labels|
      invariant 0 <= i <= |labels|
      invariant forall j :: 0 <= j < i ==> ValidLabel(labels[j])
    {
      var part := labels[i];
      if part == "" || |part| > MAX_LABEL || part[0] == '-' || part[|part| - 1] == '-'
         || !(forall k :: 0 <= k < |part| ==> IsAlphanumeric(part[k]) || part[k] == '-') {
        return None;
      }
      i := i + 1;
    }
    return Some(Dns(Lower(name)));
  }

  // Canonical names

  /** What is known of IP literals: they are digits and dots, or contain a colon. */
  ghost predicate ReadsIpLiterals<I>(ip: IpReader<I>) {
    forall text :: ip(text).Some? ==> OnlyDigitsAndDots(text) || ':' in text
  }

  lemma LowerOnce(c: char)
    ensures LowerChar(LowerChar(c)) == LowerChar(c)
    ensures LowerChar(c) == '.' <==> c == '.'
    ensures LowerChar(c) == '-' <==> c == '-'
    ensures IsDigit(LowerChar(c)) <==> IsDigit(c)
    ensures IsAlphanumeric(LowerChar(c)) <==> IsAlphanumeric(c)
    ensures LowerChar(c) < '\U{80}' <==> c < '\U{80}'
  {
  }

  lemma LowerTail(name: string)
    requires name != ""
    ensures Lower(name)[1..] == Lower(name[1..])
  {
  }

  lemma LowerCons(c: char, text: string)
    ensures Lower([c] + text) == [LowerChar(c)] + Lower(text)
  {
    hide LowerChar;
  }

  lemma {:induction false} LabelsOfLower(name: string)
    ensures |Labels(Lower(name))| == |Labels(name)|
    ensures forall i :: 0 <= i < |Labels(name)| ==> Labels(Lower(name))[i] == Lower(Labels(name)[i])
  {
    if name != "" {
      hide LowerChar, Lower;
      LowerTail(name);
      LowerOnce(name[0]);
      LabelsOfLower(name[1..]);
      var rest := Labels(name[1..]);
      LowerCons(name[0], rest[0]);
    }
  }

  lemma LowerLabel(part: string)
    ensures ValidLabel(Lower(part)) <==> ValidLabel(part)
  {
    forall i | 0 <= i < |part|
      ensures (IsAlphanumeric(Lower(part)[i]) || Lower(part)[i] == '-') <==> (IsAlphanumeric(part[i]) || part[i] == '-')
      ensures Lower(part)[i] == '-' <==> part[i] == '-'
    {
      LowerOnce(part[i]);
    }
  }

  /** Letter case does not decide whether a name is valid. */
  lemma LowerName(name: string)
    ensures ValidName(Lower(name)) <==> ValidName(name)
  {
    var lower := Lower(name);
    forall i | 0 <= i < |name|
      ensures lower[i] < '\U{80}' <==> name[i] < '\U{80}'
      ensures (IsDigit(lower[i]) || lower[i] == '.') <==> (IsDigit(name[i]) || name[i] == '.')
    {
      LowerOnce(name[i]);
    }
    LabelsOfLower(name);
    forall i | 0 <= i < |Labels(name)| ensures ValidLabel(Labels(lower)[i]) <==> ValidLabel(Labels(name)[i]) {
      LowerLabel(Labels(name)[i]);
    }
  }

  /** Every character of a valid name is a letter, digit, hyphen or dot. */
  lemma NameCharacters(name: string, i: nat)
    requires i < |name|
    requires forall k :: 0 <= k < |Labels(name)| ==> ValidLabel(Labels(name)[k])
    ensures IsAlphanumeric(name[i]) || name[i] == '-' || name[i] == '.'
  {
    hide Split;
    var k := PieceOf(name, {'.'}, i);
    if name[i] != '.' {
      assert ValidLabel(Labels(name)[k]);
    }
  }

  /** A valid name does not end in a dot: its last label would be empty. */
  lemma LastLabel(name: string)
    requires name != "" && name[|name| - 1] == '.'
    ensures Labels(name)[|Labels(name)| - 1] == ""
  {
    hide Split;
    assert name == Init(name) + ['.'] + "";
    SplitConcat(Init(name), '.', "", {'.'});
    SplitPiece("", {'.'});
    assert Labels(name) == Labels(Init(name)) + [""];
  }

  /** A valid name never reads as an IP literal and is its own stem. */
  lemma ValidNameIsNoIp<I>(name: string, ip: IpReader<I>)
    requires ValidName(name) && ReadsIpLiterals(ip)
    ensures ip(name).None? && Stem(name) == name
  {
    forall i | 0 <= i < |name| ensures name[i] != ':' {
      NameCharacters(name, i);
    }
    assert ValidLabel(Labels(name)[|Labels(name)| - 1]);
    if name[|name| - 1] == '.' { LastLabel(name); }
  }

  /** DNS identities are canonical: an accepted DNS host has a lowercase name within the
      limits, which reads back as the same host and never as an IP literal. */
  lemma DnsIdentityIsCanonical<I>(text: string, ip: IpReader<I>)
    requires ReadsIpLiterals(ip)
    requires Parse(text, ip).Some? && Parse(text, ip).value.Dns?
    ensures var name := Parse(text, ip).value.name;
            && ValidName(name) && Lower(name) == name
            && ip(name).None?
            && Parse(name, ip) == Parse(text, ip)
            && Parse(name + ".", ip) == Parse(text, ip)
  {
    var stem := Stem(text);
    var name := Lower(stem);
    LowerName(stem);
    assert Lower(name) == name by {
      forall i | 0 <= i < |name| ensures Lower(name)[i] == name[i] { LowerOnce(stem[i]); }
    }
    ValidNameIsNoIp(name, ip);
    DottedNameIsNoIp(name, ip);
  }

  lemma DottedNameIsNoIp<I>(name: string, ip: IpReader<I>)
    requires ValidName(name) && ReadsIpLiterals(ip)
    ensures ip(name + ".").None? && Stem(name + ".") == name
  {
    var dotted := name + ".";
    assert dotted[..|name|] == name;
    forall i | 0 <= i < |dotted| ensures dotted[i] != ':' {
      if i < |name| { NameCharacters(name, i); }
    }
    var i :| 0 <= i < |name| && !(IsDigit(name[i]) || name[i] == '.');
    assert dotted[i] == name[i];
  }

  /** Two accepted DNS inputs have the same identity exactly when they agree after dropping
      one final dot and ignoring ASCII case. */
  lemma DnsIdentityIsExact<I>(a: string, b: string, ip: IpReader<I>)
    requires Parse(a, ip).Some? && Parse(a, ip).value.Dns?
    requires Parse(b, ip).Some? && Parse(b, ip).value.Dns?
    ensures Parse(a, ip) == Parse(b, ip) <==>
            && |Stem(a)| == |Stem(b)|
            && forall i :: 0 <= i < |Stem(a)| ==> LowerChar(Stem(a)[i]) == LowerChar(Stem(b)[i])
  {
    var la, lb := Lower(Stem(a)), Lower(Stem(b));
    if la == lb {
      forall i | 0 <= i < |la| ensures LowerChar(Stem(a)[i]) == LowerChar(Stem(b)[i]) {
        assert la[i] == lb[i];
      }
    } else if |la| == |lb| {
      assert !(forall i :: 0 <= i < |la| ==> la[i] == lb[i]);
    }
  }
}
