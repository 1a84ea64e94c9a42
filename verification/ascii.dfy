/** Text as the capabilities expose it: the ASCII decoding of table bytes and
    the white-space test used to validate ids and friendly names. */
module Ascii {
  import opened Bytes

  /** A .NET string. */
  type Text = seq<char>

  /** `Encoding.ASCII` decoding of one byte: 0..127 stand for themselves and
      every other byte is replaced by '?'. */
  function DecodeByte(b: byte): char {
    if b < 128 then b as char else '?'
  }

  /** `Encoding.ASCII.GetString` over a whole byte run. */
  function Decode(s: seq<byte>): (t: Text)
    ensures |t| == |s|
    ensures forall i :: 0 <= i < |s| ==> t[i] == DecodeByte(s[i])
  {
    if |s| == 0 then [] else [DecodeByte(s[0])] + Decode(s[1..])
  }

  /** The characters `char.IsWhiteSpace` accepts: the separators of the
      Unicode space, line and paragraph categories, tab through carriage
      return, and next-line. */
  predicate IsWhiteSpace(c: char) {
    || ('\t' <= c <= '\r')
    || c == ' '
    || c == '\U{85}'
    || c == '\U{A0}'
    || c == '\U{1680}'
    || ('\U{2000}' <= c <= '\U{200A}')
    || c == '\U{2028}'
    || c == '\U{2029}'
    || c == '\U{202F}'
    || c == '\U{205F}'
    || c == '\U{3000}'
  }

  /** True when `t` holds a character that is not white space: the text is
      neither empty nor blank. */
  predicate HasContent(t: Text) {
    exists i :: 0 <= i < |t| && !IsWhiteSpace(t[i])
  }

  /** `string.IsNullOrWhiteSpace` for a non-null string: a left-to-right scan
      that stops at the first character that is not white space. */
  function IsEmptyOrWhiteSpace(t: Text): (blank: bool)
    ensures blank <==> !HasContent(t)
  {
    if |t| == 0 then true
    else if !IsWhiteSpace(t[0]) then false
    else
      var rest := IsEmptyOrWhiteSpace(t[1..]);
      assert forall i :: 1 <= i < |t| ==> t[i] == t[1..][i - 1];
      rest
  }
}
