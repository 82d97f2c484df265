/** Character classes and widths by code point. */
module CodePoints {
  import opened Characters
  import opened CommandLexer

  /** The code points with the Unicode property White_Space. */
  const WHITESPACE: set<int> := {
    9, 10, 11, 12, 13, 32, 133, 160, 5760, 8192, 8193, 8194, 8195, 8196, 8197, 8198, 8199, 8200, 8201, 8202,
    8232, 8233, 8239, 8287, 12288}

  lemma WhitespaceByCode(c: char)
    ensures IsWhitespace(c) <==> c as int in WHITESPACE
  {
  }

  /** The first thirty-two code points, and those from 127 to 159. */
  lemma ControlByCode(c: char)
    ensures IsControl(c) <==> c as int <= 31 || 127 <= c as int <= 159
  {
  }

  /** Offsets count bytes of UTF-8, by section 3 of RFC 3629. */
  lemma WidthByCode(c: char)
    ensures c as int <= 0x7F ==> Width(c) == 1
    ensures 0x80 <= c as int <= 0x7FF ==> Width(c) == 2
    ensures 0x800 <= c as int <= 0xFFFF ==> Width(c) == 3
    ensures 0x10000 <= c as int ==> Width(c) == 4
  {
  }
}
