/** The characters that the text formats share. */
module Ascii {
  import opened ByteSeq

  const QUOTE: byte := 0x22
  const BACKSLASH: byte := 0x5C
  const TRUE: seq<byte> := [0x74, 0x72, 0x75, 0x65]
  const FALSE: seq<byte> := [0x66, 0x61, 0x6C, 0x73, 0x65]
  const NULL: seq<byte> := [0x6E, 0x75, 0x6C, 0x6C]

  /** JSON's white space. */
  predicate White(c: byte) { c in {0x20, 0x09, 0x0A, 0x0D} }

  predicate Digit(c: byte) { 0x30 <= c <= 0x39 }

  /** A hexadecimal digit of either case. */
  function HexValue(c: byte): (d: Option<nat>)
    ensures d.Some? ==> d.value < 16
  {
    if Digit(c) then Some(c as nat - 0x30)
    else if 0x41 <= c <= 0x46 then Some(10 + c as nat - 0x41)
    else if 0x61 <= c <= 0x66 then Some(10 + c as nat - 0x61)
    else None
  }

  function LowerHex(d: nat): (c: byte)
    requires d < 16
    ensures HexValue(c) == Some(d)
  {
    if d < 10 then 0x30 + d as byte else 0x61 + (d - 10) as byte
  }

  function UpperHex(d: nat): (c: byte)
    requires d < 16
    ensures HexValue(c) == Some(d)
  {
    if d < 10 then 0x30 + d as byte else 0x41 + (d - 10) as byte
  }

  // ---------------------------------------------------------------- which characters they are

  lemma Characters(c: byte)
    ensures QUOTE as char == '"' && BACKSLASH as char == '\\'
    ensures White(c) <==> c as char == ' ' || c as char == '\t' || c as char == '\n' || c as char == '\r'
    ensures Digit(c) <==> '0' <= c as char <= '9'
    ensures HexValue(c).Some? <==> Digit(c) || 'a' <= c as char <= 'f' || 'A' <= c as char <= 'F'
  {
  }

  /** With HexValue's inverse contracts: the digits of either case, and their values. */
  lemma HexDigits(d: nat)
    requires d < 16
    ensures LowerHex(d) as char == "0123456789abcdef"[d] && UpperHex(d) as char == "0123456789ABCDEF"[d]
  {
  }

  predicate Reads(s: seq<byte>, word: string) { |s| == |word| && forall i | 0 <= i < |s| :: s[i] as char == word[i] }

  lemma Words()
    ensures Reads(TRUE, "true") && Reads(FALSE, "false") && Reads(NULL, "null")
  {
  }
}
