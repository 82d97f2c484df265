/** Names, naming rules and failures shared by the path modules.

    A native Unix name or path is a sequence of bytes. Nothing here assumes that the
    bytes are text. */
module PathTypes {
  import opened Common

  newtype byte = x: int | 0 <= x < 256
  type Bytes = seq<byte>

  const NUL: byte := 0
  const SLASH: byte := 47
  const DOT: Bytes := [46]
  const DOTDOT: Bytes := [46, 46]
  const ROOT: Bytes := [SLASH]

  datatype NormalizationError =
    | InvalidContext
    | InvalidPath
    | MissingTarget
    | MissingParent
    | NotDirectory
    | Inaccessible
    | UnresolvedLink
    | UnsupportedNamingSemantics
    | UnsupportedWindowsNamespace

  datatype PathRequirement = Existing | AllowMissingLeaf

  datatype NamingSemantics = Exact | AsciiSensitive | AsciiInsensitive

  /** A single literal name: neither empty, a dot segment, nor containing a separator or NUL. */
  predicate PlainName(name: Bytes) {
    name != [] && name != DOT && name != DOTDOT && NUL !in name && SLASH !in name
  }

  predicate IsAscii(name: Bytes) {
    forall i :: 0 <= i < |name| ==> name[i] < 128
  }

  function LowerByte(b: byte): byte {
    if 65 <= b <= 90 then b + 32 else b
  }

  function Lower(name: Bytes): (r: Bytes)
    ensures |r| == |name| && forall i :: 0 <= i < |r| ==> r[i] == LowerByte(name[i])
  {
    seq(|name|, i requires 0 <= i < |name| => LowerByte(name[i]))
  }

  /** The comparison key of one name beneath a directory with the given rules. */
  function NameKey(semantics: NamingSemantics, name: Bytes): Result<Bytes, NormalizationError> {
    if !PlainName(name) then Err(InvalidPath)
    else if semantics.Exact? then Ok(name)
    else if !IsAscii(name) then Err(UnsupportedNamingSemantics)
    else if semantics.AsciiInsensitive? then Ok(Lower(name))
    else Ok(name)
  }

  /** Lowering never turns a plain name into a separator, NUL or a dot segment. */
  lemma LowerKeepsPlain(name: Bytes)
    requires PlainName(name) && IsAscii(name)
    ensures PlainName(Lower(name)) && IsAscii(Lower(name)) && Lower(Lower(name)) == Lower(name)
  {
    var l := Lower(name);
    forall i | 0 <= i < |l| ensures l[i] != SLASH && l[i] != NUL {
      assert name[i] in name;
    }
    assert l[0] == 46 ==> name[0] == 46;
    assert |l| == 2 && l[1] == 46 ==> name[1] == 46;
  }

  /** A key is itself a name with that key, so keys can be compared with selector literals
      that went through the same operation. A name has a key exactly when it is plain and,
      outside exact directories, ASCII. */
  lemma NameKeyIsCanonical(semantics: NamingSemantics, name: Bytes)
    ensures NameKey(semantics, name).Ok? <==> PlainName(name) && (semantics.Exact? || IsAscii(name))
    ensures NameKey(semantics, name) == Err(InvalidPath) <==> !PlainName(name)
    ensures NameKey(semantics, name).Ok? ==>
              NameKey(semantics, NameKey(semantics, name).value) == NameKey(semantics, name)
  {
    if PlainName(name) && IsAscii(name) {
      LowerKeepsPlain(name);
    }
  }

  /** Two names share a key exactly when they are the same spelling, or the directory
      ignores ASCII case and they agree byte for byte after lowering. */
  lemma SameKey(semantics: NamingSemantics, a: Bytes, b: Bytes)
    requires NameKey(semantics, a).Ok? && NameKey(semantics, b).Ok?
    ensures NameKey(semantics, a) == NameKey(semantics, b) <==>
            if semantics.AsciiInsensitive?
            then |a| == |b| && forall i :: 0 <= i < |a| ==> LowerByte(a[i]) == LowerByte(b[i])
            else a == b
  {
    if semantics.AsciiInsensitive? {
      var la, lb := Lower(a), Lower(b);
      if |a| == |b| && forall i :: 0 <= i < |a| ==> LowerByte(a[i]) == LowerByte(b[i]) {
        assert la == lb;
      }
      if la == lb {
        forall i | 0 <= i < |a| ensures LowerByte(a[i]) == LowerByte(b[i]) {
          assert la[i] == lb[i];
        }
      }
    }
  }
}
