/** codepoint_to_utf8 against the UTF-8 of sections 3 and 4 of RFC 3629. */
module Utf8 {
  import opened ByteSeq

  /** The code points that are not surrogates. */
  predicate Scalar(cp: int) { 0 <= cp < 0xD800 || 0xE000 <= cp <= 0x10FFFF }

  /** codepoint_to_utf8; no bytes stand for its failure. */
  function FromCodepoint(cp: nat): seq<byte> {
    if cp <= 0x7F then [cp]
    else if cp <= 0x7FF then [0xC0 + cp / 0x40, 0x80 + cp % 0x40]
    else if cp <= 0xFFFF then [0xE0 + cp / 0x1000, 0x80 + cp / 0x40 % 0x40, 0x80 + cp % 0x40]
    else if cp <= 0x1FFFFF then
      [0xF0 + cp / 0x40000, 0x80 + cp / 0x1000 % 0x40, 0x80 + cp / 0x40 % 0x40, 0x80 + cp % 0x40]
    else []
  }

  predicate Tail(b: byte) { 0x80 <= b <= 0xBF }

  /** The byte sequences that the syntax of RFC 3629 allows for one character. */
  predicate WellFormed(s: seq<byte>) {
    || (|s| == 1 && s[0] <= 0x7F)
    || (|s| == 2 && 0xC2 <= s[0] <= 0xDF && Tail(s[1]))
    || (|s| == 3 && Tail(s[2]) &&
          ((s[0] == 0xE0 && 0xA0 <= s[1] <= 0xBF) || (0xE1 <= s[0] <= 0xEC && Tail(s[1])) ||
           (s[0] == 0xED && 0x80 <= s[1] <= 0x9F) || (0xEE <= s[0] <= 0xEF && Tail(s[1]))))
    || (|s| == 4 && Tail(s[2]) && Tail(s[3]) &&
          ((s[0] == 0xF0 && 0x90 <= s[1] <= 0xBF) || (0xF1 <= s[0] <= 0xF3 && Tail(s[1])) ||
           (s[0] == 0xF4 && 0x80 <= s[1] <= 0x8F)))
  }

  function Low(b: byte): int { b - 0x80 }

  /** The number whose bits a sequence carries, six in each tail byte. */
  function ToCodepoint(s: seq<byte>): int
    requires WellFormed(s)
  {
    if |s| == 1 then s[0]
    else if |s| == 2 then 0x40 * (s[0] - 0xC0) + Low(s[1])
    else if |s| == 3 then 0x1000 * (s[0] - 0xE0) + 0x40 * Low(s[1]) + Low(s[2])
    else 0x40000 * (s[0] - 0xF0) + 0x1000 * Low(s[1]) + 0x40 * Low(s[2]) + Low(s[3])
  }

  /** A code point gets a well-formed sequence exactly when it is a scalar value, and that sequence
      carries it. */
  lemma EncodesScalars(cp: nat)
    ensures WellFormed(FromCodepoint(cp)) <==> Scalar(cp)
    ensures Scalar(cp) ==> ToCodepoint(FromCodepoint(cp)) == cp
  {
    if 0x7FF < cp <= 0xFFFF {
      Split(cp, 0x40);
      Split(cp / 0x40, 0x40);
      assert cp / 0x1000 == cp / 0x40 / 0x40;
    } else if 0xFFFF < cp <= 0x1FFFFF {
      Split(cp, 0x40);
      Split(cp / 0x40, 0x40);
      Split(cp / 0x1000, 0x40);
      assert cp / 0x1000 == cp / 0x40 / 0x40 && cp / 0x40000 == cp / 0x1000 / 0x40;
    }
  }

  lemma Split(n: nat, k: nat)
    requires k > 0
    ensures n == n / k * k + n % k && 0 <= n % k < k
  {
  }

  /** No other well-formed sequence carries it. */
  lemma OnlyEncoding(s: seq<byte>)
    requires WellFormed(s)
    ensures Scalar(ToCodepoint(s)) && FromCodepoint(ToCodepoint(s)) == s
  {
    if |s| == 3 {
      OnlyThree(s);
    } else if |s| == 4 {
      OnlyFour(s);
    }
  }

  lemma OnlyThree(s: seq<byte>)
    requires WellFormed(s) && |s| == 3
    ensures Scalar(ToCodepoint(s)) && FromCodepoint(ToCodepoint(s)) == s
  {
    Digits(s[0] - 0xE0, Low(s[1]), Low(s[2]));
  }

  lemma OnlyFour(s: seq<byte>)
    requires WellFormed(s) && |s| == 4
    ensures Scalar(ToCodepoint(s)) && FromCodepoint(ToCodepoint(s)) == s
  {
    var cp := ToCodepoint(s);
    var top: int := s[0] - 0xF0;
    Digits(0x40 * top + Low(s[1]), Low(s[2]), Low(s[3]));
    assert cp / 0x1000 == 0x40 * top + Low(s[1]);
    assert cp / 0x40000 == cp / 0x1000 / 0x40;
  }

  lemma Digits(a: nat, b: nat, c: nat)
    requires b < 0x40 && c < 0x40
    ensures var n := a * 0x1000 + b * 0x40 + c;
      n / 0x1000 == a && n / 0x40 == a * 0x40 + b && n / 0x40 % 0x40 == b && n % 0x40 == c
  {
  }
}
