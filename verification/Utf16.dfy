/** UTF-16 text, as Java and JavaScript strings hold it. */
module Utf16 {
  /** One 16-bit code unit; lone surrogates are allowed. */
  type Code = c: int | 0 <= c < 0x1_0000
  type Text = seq<Code>

  function CodeOf(c: char): Code
    requires c < '\U{0080}'
  {
    c as int
  }

  /** The code units of a text of ASCII characters. */
  function Ascii(s: string): (t: Text)
    requires forall i :: 0 <= i < |s| ==> s[i] < '\U{0080}'
    ensures |t| == |s|
  {
    seq(|s|, i requires 0 <= i < |s| => CodeOf(s[i]))
  }
}
