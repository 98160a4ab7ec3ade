/** The characters that JSON is made of, and what JsonHelper asks of single characters. */
module JsonText {
  import opened Utf16

  const TAB: Code := 0x09
  const QUOTE: Code := 0x22
  const PLUS: Code := 0x2B
  const COMMA: Code := 0x2C
  const MINUS: Code := 0x2D
  const DOT: Code := 0x2E
  const SLASH: Code := 0x2F
  const ZERO: Code := 0x30
  const COLON: Code := 0x3A
  const UPPER_E: Code := 0x45
  const LBRACKET: Code := 0x5B
  const BACKSLASH: Code := 0x5C
  const RBRACKET: Code := 0x5D
  const LOWER_A: Code := 0x61
  const LOWER_B: Code := 0x62
  const LOWER_E: Code := 0x65
  const LOWER_F: Code := 0x66
  const LOWER_N: Code := 0x6E
  const LOWER_R: Code := 0x72
  const LOWER_T: Code := 0x74
  const LOWER_U: Code := 0x75
  const LBRACE: Code := 0x7B
  const RBRACE: Code := 0x7D

  const TRUE_TEXT: Text := [0x74, 0x72, 0x75, 0x65]
  const FALSE_TEXT: Text := [0x66, 0x61, 0x6C, 0x73, 0x65]
  const NULL_TEXT: Text := [0x6E, 0x75, 0x6C, 0x6C]

  /** The characters and words of the grammar of RFC 8259 under their names. */
  lemma Characters()
    ensures [LBRACE, RBRACE, LBRACKET, RBRACKET] == Ascii("{}[]") && [COLON, COMMA] == Ascii(":,")
    ensures [QUOTE, BACKSLASH, SLASH] == Ascii("\"\\/") && [MINUS, PLUS, DOT] == Ascii("-+.")
    ensures [LOWER_E, UPPER_E, ZERO, LOWER_A, LOWER_U] == Ascii("eE0au")
    ensures TRUE_TEXT == Ascii("true") && FALSE_TEXT == Ascii("false") && NULL_TEXT == Ascii("null")
  {
  }

  /**
   * The part of java.lang.Character that depends on the Unicode version: it is
   * consulted only for code units of 128 and above, and may be anything there.
   */
  datatype CharTable = CharTable(space: Code -> bool, digit: Code -> int, hex: Code -> int)

  /** Character.isWhitespace */
  predicate IsSpace(table: CharTable, c: Code) {
    if c < 128 then 9 <= c <= 13 || 28 <= c <= 32 else table.space(c)
  }

  /** Character.digit(c, 10), or -1 */
  function DecimalDigit(table: CharTable, c: Code): (d: int)
    ensures -1 <= d < 10
  {
    if c < 128 then
      if ZERO <= c < ZERO + 10 then c - ZERO else -1
    else if 0 <= table.digit(c) < 10 then table.digit(c) else -1
  }

  predicate IsDigit(table: CharTable, c: Code) {
    DecimalDigit(table, c) >= 0
  }

  /** Character.digit(c, 16), or -1 */
  function HexDigit(table: CharTable, c: Code): (d: int)
    ensures -1 <= d < 16
  {
    if c < 128 then
      if ZERO <= c < ZERO + 10 then c - ZERO
      else if LOWER_A <= c < LOWER_A + 6 then c - LOWER_A + 10
      else if 0x41 <= c < 0x41 + 6 then c - 0x41 + 10
      else -1
    else if 0 <= table.hex(c) < 16 then table.hex(c) else -1
  }

  /** String.trim, on the left and on the right: code units up to U+0020 go. */
  function TrimLeft(s: Text): (t: Text)
    ensures |t| <= |s|
    ensures t != [] ==> t[0] > 0x20
  {
    if s != [] && s[0] <= 0x20 then TrimLeft(s[1..]) else s
  }

  function TrimRight(s: Text): (t: Text)
    ensures t <= s
    ensures t != [] ==> t[|t| - 1] > 0x20
  {
    if s != [] && s[|s| - 1] <= 0x20 then TrimRight(s[..|s| - 1]) else s
  }

  function Trim(s: Text): Text {
    TrimRight(TrimLeft(s))
  }
}
