/** The JSON printer and parser written in Lua. Positions are 0-based here. */
module LuaJson {
  import opened ByteSeq
  import opened Ascii
  import Utf8

  datatype Key = Name(s: seq<byte>) | Index(i: nat)

  /** A Lua value. Integers are those printed without an exponent; any other number is the text it
      is read from. Tables are trees. */
  datatype Value =
    | Nil
    | Bool(b: bool)
    | Int(n: int)
    | Other(text: seq<byte>)
    | Str(s: seq<byte>)
    | Table(t: map<Key, Value>)

  const LIMIT: nat := 100_000_000_000_000

  const COMMA: byte := 0x2C
  const COLON: byte := 0x3A
  const LBRACE: byte := 0x7B
  const RBRACE: byte := 0x7D
  const LBRACKET: byte := 0x5B
  const RBRACKET: byte := 0x5D
  const MINUS: byte := 0x2D

  // ---------------------------------------------------------------- decimal

  function Decimal(n: nat): (s: seq<byte>)
    ensures s != [] && forall i | 0 <= i < |s| :: Digit(s[i])
    ensures n > 0 ==> s[0] != 0x30
  {
    if n < 10 then [0x30 + n as byte] else Decimal(n / 10) + [0x30 + (n % 10) as byte]
  }

  function DigitValue(c: byte): nat
    requires Digit(c)
  {
    c as nat - 0x30
  }

  function FromDecimal(s: seq<byte>): nat
    requires forall i | 0 <= i < |s| :: Digit(s[i])
  {
    if s == [] then 0 else 10 * FromDecimal(s[..|s| - 1]) + DigitValue(s[|s| - 1])
  }

  lemma {:induction false} DecimalInverts(n: nat)
    ensures FromDecimal(Decimal(n)) == n
  {
    if n >= 10 {
      DecimalInverts(n / 10);
      var s := Decimal(n);
      assert s[..|s| - 1] == Decimal(n / 10);
      assert DigitValue(s[|s| - 1]) == n % 10;
    } else {
      var s := Decimal(n);
      assert s[..|s| - 1] == [] && DigitValue(s[0]) == n;
    }
  }

  // ---------------------------------------------------------------- the parser

  datatype Grok<T> = Got(value: T, next: nat) | Bad(message: string)

  /** text:sub(i, i) is that character; past the end it is the empty string. */
  predicate Is(text: seq<byte>, i: nat, c: byte) { i < |text| && text[i] == c }

  function Skip(text: seq<byte>, i: nat): (j: nat)
    requires i <= |text|
    ensures i <= j <= |text| && (j < |text| ==> !White(text[j]))
    decreases |text| - i
  {
    if i < |text| && White(text[i]) then Skip(text, i + 1) else i
  }

  /** unicode_codepoint_as_utf8. */
  function CodepointAsUtf8(cp: nat): (s: seq<byte>)
    requires cp < 0x11_0000
  {
    if cp <= 127 then [cp as byte]
    else if cp <= 2047 then [0xC0 + (cp / 0x40) as byte, 0x80 + (cp - 0x40 * (cp / 0x40)) as byte]
    else if cp <= 65535 then
      var remainder := cp - 0x1000 * (cp / 0x1000);
      var high := 0xE0 + cp / 0x1000;
      var mid := 0x80 + remainder / 0x40;
      var low := 0x80 + (remainder - 0x40 * (remainder / 0x40));
      if (high == 0xE0 && mid < 0xA0) || (high == 0xED && mid > 0x9F) || (high == 0xF0 && mid < 0x90)
         || (high == 0xF4 && mid > 0x8F)
      then [0x3F]
      else [high as byte, mid as byte, low as byte]
    else
      var remainder := cp - 0x40000 * (cp / 0x40000);
      var midA := remainder / 0x1000;
      var rest := remainder - 0x1000 * midA;
      var midB := rest / 0x40;
      [(0xF0 + cp / 0x40000) as byte, (0x80 + midA) as byte, (0x80 + midB) as byte, (0x80 + rest - 0x40 * midB) as byte]
  }

  /** The four hexadecimal digits of an escape at i. */
  function Hex(text: seq<byte>, i: nat): (n: Option<nat>)
    ensures n.Some? ==> i + 6 <= |text| && n.value < 0x1_0000
  {
    if !Is(text, i, BACKSLASH) || !Is(text, i + 1, 0x75) || |text| < i + 6 then None
    else
      var a, b, c, d := HexValue(text[i + 2]), HexValue(text[i + 3]), HexValue(text[i + 4]), HexValue(text[i + 5]);
      if a.None? || b.None? || c.None? || d.None? then None
      else Some(0x1000 * a.value + 0x100 * b.value + 0x10 * c.value + d.value)
  }

  /** One character or escape of a string: its bytes and the position behind it. */
  function Char(text: seq<byte>, i: nat): (r: Grok<seq<byte>>)
    requires i < |text| && text[i] != QUOTE
    ensures r.Got? ==> i < r.next <= |text|
  {
    if text[i] != BACKSLASH then Got([text[i]], i + 1)
    else if Is(text, i + 1, 0x62) then Got([8], i + 2)
    else if Is(text, i + 1, 0x66) then Got([12], i + 2)
    else if Is(text, i + 1, 0x6E) then Got([10], i + 2)
    else if Is(text, i + 1, 0x72) then Got([13], i + 2)
    else if Is(text, i + 1, 0x74) then Got([9], i + 2)
    else match Hex(text, i)
      case Some(n) =>
        if 0xD800 <= n <= 0xDBFF && Hex(text, i + 6).Some? && 0xDC00 <= Hex(text, i + 6).value <= 0xDFFF then
          Got(CodepointAsUtf8(0x2400 + (n - 0xD800) * 0x400 + Hex(text, i + 6).value), i + 12)
        else Got(CodepointAsUtf8(n), i + 6)
      case None =>
        if i + 1 < |text| then Got([text[i + 1]], i + 2) else Bad("attempt to concatenate a nil value")
  }

  /** A code point is its UTF-8, and a lone surrogate a question mark. */
  lemma CodepointIsUtf8(cp: nat)
    requires cp < 0x11_0000
    ensures CodepointAsUtf8(cp) == if Utf8.Scalar(cp) then Utf8.FromCodepoint(cp) else [0x3F]
  {
    hide CodepointAsUtf8, Utf8.FromCodepoint;
    if cp < 0x800 {
      TwoBytes(cp);
    } else if cp < 0x1_0000 {
      Parts(cp);
      ThreeBytes(cp / 0x1000, cp % 0x1000 / 0x40, cp % 0x40);
    } else {
      Parts(cp);
      Parts4(cp);
      FourBytes(cp / 0x40000, cp % 0x40000 / 0x1000, cp % 0x1000 / 0x40, cp % 0x40);
    }
  }

  lemma TwoBytes(cp: nat)
    requires cp < 0x800
    ensures CodepointAsUtf8(cp) == Utf8.FromCodepoint(cp) && Utf8.Scalar(cp)
  {
  }

  lemma Parts(cp: nat)
    ensures cp == cp / 0x1000 * 0x1000 + cp % 0x1000 / 0x40 * 0x40 + cp % 0x40
    ensures cp % 0x1000 / 0x40 < 0x40 && cp % 0x40 < 0x40 && (cp < 0x1_0000 ==> cp / 0x1000 < 0x10)
  {
    assert cp % 0x1000 % 0x40 == cp % 0x40;
  }

  lemma Parts4(cp: nat)
    ensures cp / 0x1000 * 0x1000 == cp / 0x40000 * 0x40000 + cp % 0x40000 / 0x1000 * 0x1000
    ensures cp % 0x40000 / 0x1000 < 0x40
  {
    Quotient(cp, cp / 0x40000, cp % 0x40000 / 0x1000, cp % 0x40000 % 0x1000);
  }

  /** The quotient of a number given as digits. */
  lemma Quotient(x: nat, d: nat, a: nat, r: nat)
    requires x == d * 0x40000 + a * 0x1000 + r && r < 0x1000
    ensures x / 0x1000 == d * 0x40 + a
  {
  }

  lemma ThreeBytes(a: nat, b: nat, c: nat)
    requires a < 0x10 && b < 0x40 && c < 0x40 && a * 0x1000 + b * 0x40 + c >= 0x800
    ensures var cp := a * 0x1000 + b * 0x40 + c;
      CodepointAsUtf8(cp) == if Utf8.Scalar(cp) then Utf8.FromCodepoint(cp) else [0x3F]
  {
    Utf8.Digits(a, b, c);
    assert (b * 0x40 + c) / 0x40 == b;
  }

  lemma FourBytes(d: nat, a: nat, b: nat, c: nat)
    requires a < 0x40 && b < 0x40 && c < 0x40
    requires 0x1_0000 <= d * 0x40000 + a * 0x1000 + b * 0x40 + c < 0x11_0000
    ensures var cp := d * 0x40000 + a * 0x1000 + b * 0x40 + c; CodepointAsUtf8(cp) == Utf8.FromCodepoint(cp)
  {
    var cp := d * 0x40000 + a * 0x1000 + b * 0x40 + c;
    Utf8.Digits(d * 0x40 + a, b, c);
    assert cp / 0x40000 == d && (a * 0x1000 + b * 0x40 + c) / 0x1000 == a && (b * 0x40 + c) / 0x40 == b;
    assert cp / 0x1000 % 0x40 == a;
  }

  /** An escaped surrogate pair is read as the UTF-8 of the code point it stands for (section 2.2 of
      RFC 2781), and any other escaped code unit as its own. */
  lemma EscapeReads(text: seq<byte>, i: nat)
    requires Hex(text, i).Some?
    ensures var n := Hex(text, i).value; var m := Hex(text, i + 6);
      Char(text, i) ==
        if 0xD800 <= n <= 0xDBFF && m.Some? && 0xDC00 <= m.value <= 0xDFFF then
          Got(Utf8.FromCodepoint(0x1_0000 + 0x400 * (n - 0xD800) + (m.value - 0xDC00)), i + 12)
        else Got(if Utf8.Scalar(n) then Utf8.FromCodepoint(n) else [0x3F], i + 6)
  {
    hide CodepointAsUtf8, Utf8.FromCodepoint;
    var n, m := Hex(text, i).value, Hex(text, i + 6);
    CodepointIsUtf8(n);
    if 0xD800 <= n <= 0xDBFF && m.Some? && 0xDC00 <= m.value <= 0xDFFF {
      CodepointIsUtf8(0x2400 + (n - 0xD800) * 0x400 + m.value);
    }
  }

  function Chars(text: seq<byte>, i: nat): (r: Grok<seq<byte>>)
    requires i <= |text|
    ensures r.Got? ==> i < r.next <= |text|
    decreases |text| - i
  {
    if i == |text| then Bad("unclosed string")
    else if text[i] == QUOTE then Got([], i + 1)
    else match Char(text, i)
      case Got(bytes, j) => Behind(bytes, Chars(text, j))
      case Bad(m) => Bad(m)
  }

  function Behind(front: seq<byte>, r: Grok<seq<byte>>): Grok<seq<byte>> {
    match r
    case Got(s, j) => Got(front + s, j)
    case Bad(m) => Bad(m)
  }

  function GrokStr(text: seq<byte>, start: nat): (r: Grok<seq<byte>>)
    requires start <= |text|
    ensures r.Got? ==> start < r.next <= |text|
  {
    if !Is(text, start, QUOTE) then Bad("expected string's opening quote") else Chars(text, start + 1)
  }

  function DigitsEnd(text: seq<byte>, i: nat): (j: nat)
    requires i <= |text|
    ensures i <= j <= |text| && (forall k | i <= k < j :: Digit(text[k])) && (j < |text| ==> !Digit(text[j]))
    decreases |text| - i
  {
    if i < |text| && Digit(text[i]) then DigitsEnd(text, i + 1) else i
  }

  /** '^-?[1-9]%d*' or '^-?0'. */
  function IntegerEnd(text: seq<byte>, start: nat): (j: Option<nat>)
    requires start <= |text|
    ensures j.Some? ==> start < j.value <= |text|
  {
    var i := if Is(text, start, MINUS) then start + 1 else start;
    if i < |text| && 0x31 <= text[i] <= 0x39 then Some(DigitsEnd(text, i + 1))
    else if Is(text, i, 0x30) then Some(i + 1)
    else None
  }

  /** '^%.%d+', or nothing. */
  function FractionEnd(text: seq<byte>, i: nat): (j: nat)
    requires i <= |text|
    ensures i <= j <= |text|
  {
    if Is(text, i, 0x2E) && i + 1 < |text| && Digit(text[i + 1]) then DigitsEnd(text, i + 1) else i
  }

  /** '^[eE][-+]?%d+', or nothing. */
  function ExponentEnd(text: seq<byte>, i: nat): (j: nat)
    requires i <= |text|
    ensures i <= j <= |text|
  {
    if Is(text, i, 0x45) || Is(text, i, 0x65) then
      var k := if Is(text, i + 1, 0x2B) || Is(text, i + 1, 0x2D) then i + 2 else i + 1;
      if k < |text| && Digit(text[k]) then DigitsEnd(text, k) else i
    else i
  }

  /** tonumber of an integer or of any other number. */
  function ToNumber(integer: seq<byte>, rest: seq<byte>): Value {
    var digits := if integer != [] && integer[0] == MINUS then integer[1..] else integer;
    if rest == [] && (forall i | 0 <= i < |digits| :: Digit(digits[i])) && FromDecimal(digits) < LIMIT then
      Int(if digits == integer then FromDecimal(digits) else 0 - FromDecimal(digits))
    else Other(integer + rest)
  }

  function GrokNumber(text: seq<byte>, start: nat): (r: Grok<Value>)
    requires start <= |text|
    ensures r.Got? ==> start < r.next <= |text|
  {
    match IntegerEnd(text, start)
    case None => Bad("expected number")
    case Some(i) =>
      var j := ExponentEnd(text, FractionEnd(text, i));
      Got(ToNumber(text[start..i], text[i..j]), j)
  }

  /** VALUE[key] = val, where a nil removes the key. */
  function Assign(t: map<Key, Value>, k: Key, v: Value): map<Key, Value> {
    if v.Nil? then t - {k} else t[k := v]
  }

  /** grok_one. */
  function GrokOne(text: seq<byte>, start: nat): (r: Grok<Value>)
    requires start <= |text|
    ensures r.Got? ==> start < r.next <= |text|
    decreases |text| - start, 0
  {
    var i := Skip(text, start);
    if i == |text| then Bad("unexpected end of string")
    else if text[i] == QUOTE then
      match GrokStr(text, i)
      case Got(s, j) => Got(Str(s), j)
      case Bad(m) => Bad(m)
    else if text[i] == MINUS || Digit(text[i]) then GrokNumber(text, i)
    else if text[i] == LBRACE then
      var j := Skip(text, i + 1);
      if Is(text, j, RBRACE) then Got(Table(map[]), j + 1) else GrokMembers(text, j, map[])
    else if text[i] == LBRACKET then
      var j := Skip(text, i + 1);
      if Is(text, j, RBRACKET) then Got(Table(map[]), j + 1) else GrokItems(text, j, 0, map[])
    else if At(text, i, TRUE) then Got(Bool(true), i + 4)
    else if At(text, i, FALSE) then Got(Bool(false), i + 5)
    else if At(text, i, NULL) then Got(Nil, i + 4)
    else Bad("can't parse JSON")
  }

  /** The loop of grok_object, from the key at i on. */
  function GrokMembers(text: seq<byte>, i: nat, t: map<Key, Value>): (r: Grok<Value>)
    requires i <= |text|
    ensures r.Got? ==> i < r.next <= |text|
    decreases |text| - i, 1
  {
    if i == |text| then Bad("unclosed '{'")
    else match GrokStr(text, i)
      case Bad(m) => Bad(m)
      case Got(key, j) =>
        var c := Skip(text, j);
        if !Is(text, c, COLON) then Bad("expected colon")
        else match GrokOne(text, Skip(text, c + 1))
          case Bad(m) => Bad(m)
          case Got(v, k) =>
            var u := Assign(t, Name(key), v);
            var e := Skip(text, k);
            if Is(text, e, RBRACE) then Got(Table(u), e + 1)
            else if !Is(text, e, COMMA) then Bad("expected comma or '}'")
            else GrokMembers(text, Skip(text, e + 1), u)
  }

  /** The loop of grok_array, from the item at i on; t holds n items. */
  function GrokItems(text: seq<byte>, i: nat, n: nat, t: map<Key, Value>): (r: Grok<Value>)
    requires i <= |text|
    ensures r.Got? ==> i < r.next <= |text|
    decreases |text| - i, 1
  {
    if i == |text| then Bad("unclosed '['")
    else match GrokOne(text, i)
      case Bad(m) => Bad(m)
      case Got(v, k) =>
        var u := Assign(t, Index(n + 1), v);
        var m := if v.Nil? then n else n + 1;
        var e := Skip(text, k);
        if Is(text, e, RBRACKET) then Got(Table(u), e + 1)
        else if !Is(text, e, COMMA) then Bad("expected comma or '['")
        else GrokItems(text, Skip(text, e + 1), m, u)
  }

  /** What isspace accepts. */
  predicate Space(c: byte) { c == 0x20 || 9 <= c <= 13 }

  /** JSON:decode. It reads one value and does not look at what is behind it. */
  function Decode(text: seq<byte>): (r: Grok<Value>) {
    if forall i | 0 <= i < |text| :: Space(text[i]) then Got(Nil, |text|)
    else if exists i | 0 <= i < |text| :: text[i] == 0x3C && forall j | 0 <= j < i :: Space(text[j]) then
      Bad("html passed to JSON:decode()")
    else if text[0] == 0 || (|text| >= 2 && text[1] == 0) then Bad("JSON package groks only UTF-8, sorry")
    else GrokOne(text, 0)
  }

  // ---------------------------------------------------------------- the parser's loops

  lemma BehindTwice(a: seq<byte>, b: seq<byte>, r: Grok<seq<byte>>)
    ensures Behind(a, Behind(b, r)) == Behind(a + b, r)
    ensures Behind([], r) == r
  {
    if r.Got? {
      assert a + (b + r.value) == a + b + r.value;
      assert [] + r.value == r.value;
    }
  }

  lemma CharsUnfold(text: seq<byte>, i: nat)
    requires i <= |text|
    ensures i == |text| ==> Chars(text, i) == Bad("unclosed string")
    ensures i < |text| && text[i] == QUOTE ==> Chars(text, i) == Got([], i + 1)
    ensures i < |text| && text[i] != QUOTE ==>
      Chars(text, i) == match Char(text, i)
                        case Got(bytes, j) => Behind(bytes, Chars(text, j))
                        case Bad(m) => Bad(m)
  {
    hide Char, Behind;
  }

  method GrokString(text: seq<byte>, start: nat) returns (r: Grok<seq<byte>>)
    requires start <= |text|
    ensures r == GrokStr(text, start)
  {
    hide Chars, Char, Behind;
    if !Is(text, start, QUOTE) {
      return Bad("expected string's opening quote");
    }
    var i := start + 1;
    var value: seq<byte> := [];
    BehindTwice([], [], Chars(text, i));
    while i < |text|
      invariant start < i <= |text|
      invariant Chars(text, start + 1) == Behind(value, Chars(text, i))
    {
      CharsUnfold(text, i);
      if text[i] == QUOTE {
        BehindGot(value, [], i + 1);
        return Got(value, i + 1);
      }
      var c := Char(text, i);
      if c.Bad? {
        BehindBad(value, c.message);
        return c;
      }
      BehindTwice(value, c.value, Chars(text, c.next));
      value := value + c.value;
      i := c.next;
    }
    CharsUnfold(text, i);
    BehindBad(value, "unclosed string");
    r := Bad("unclosed string");
  }

  lemma BehindGot(a: seq<byte>, s: seq<byte>, j: nat)
    ensures Behind(a, Got(s, j)) == Got(a + s, j) && a + [] == a
  {
  }

  lemma BehindBad(a: seq<byte>, m: string)
    ensures Behind(a, Bad(m)) == Bad(m)
  {
  }

  lemma GrokOneUnfold(text: seq<byte>, start: nat)
    requires start <= |text|
    ensures var i := Skip(text, start);
      i < |text| && text[i] == LBRACE ==>
        var j := Skip(text, i + 1);
        GrokOne(text, start) == if Is(text, j, RBRACE) then Got(Table(map[]), j + 1) else GrokMembers(text, j, map[])
    ensures var i := Skip(text, start);
      i < |text| && text[i] == LBRACKET ==>
        var j := Skip(text, i + 1);
        GrokOne(text, start) == if Is(text, j, RBRACKET) then Got(Table(map[]), j + 1) else GrokItems(text, j, 0, map[])
  {
    hide GrokMembers, GrokItems, GrokStr, GrokNumber, Skip;
  }

  lemma MembersUnfold(text: seq<byte>, i: nat, t: map<Key, Value>)
    requires i < |text| && GrokStr(text, i).Got?
    ensures var k := GrokStr(text, i); var c := Skip(text, k.next);
      !Is(text, c, COLON) ==> GrokMembers(text, i, t) == Bad("expected colon")
    ensures var k := GrokStr(text, i); var c := Skip(text, k.next);
      Is(text, c, COLON) ==>
        var v := GrokOne(text, Skip(text, c + 1));
        GrokMembers(text, i, t) ==
          if v.Bad? then v
          else
            var u := Assign(t, Name(k.value), v.value);
            var e := Skip(text, v.next);
            if Is(text, e, RBRACE) then Got(Table(u), e + 1)
            else if !Is(text, e, COMMA) then Bad("expected comma or '}'")
            else GrokMembers(text, Skip(text, e + 1), u)
  {
    hide GrokStr, GrokOne, Skip, Assign;
  }

  lemma MembersFail(text: seq<byte>, i: nat, t: map<Key, Value>)
    requires i <= |text|
    ensures i == |text| ==> GrokMembers(text, i, t) == Bad("unclosed '{'")
    ensures i < |text| && GrokStr(text, i).Bad? ==> GrokMembers(text, i, t) == Bad(GrokStr(text, i).message)
  {
    hide GrokStr, GrokOne, Skip, Assign;
  }

  lemma ItemsUnfold(text: seq<byte>, i: nat, n: nat, t: map<Key, Value>)
    requires i <= |text|
    ensures i == |text| ==> GrokItems(text, i, n, t) == Bad("unclosed '['")
    ensures i < |text| ==>
      var v := GrokOne(text, i);
      GrokItems(text, i, n, t) ==
        if v.Bad? then v
        else
          var u := Assign(t, Index(n + 1), v.value);
          var e := Skip(text, v.next);
          if Is(text, e, RBRACKET) then Got(Table(u), e + 1)
          else if !Is(text, e, COMMA) then Bad("expected comma or '['")
          else GrokItems(text, Skip(text, e + 1), if v.value.Nil? then n else n + 1, u)
  {
    hide GrokOne, Skip, Assign;
  }

  method SkipWhitespace(text: seq<byte>, start: nat) returns (i: nat)
    requires start <= |text|
    ensures i == Skip(text, start)
  {
    i := start;
    while i < |text| && White(text[i])
      invariant start <= i <= |text| && Skip(text, i) == Skip(text, start)
    {
      i := i + 1;
    }
  }

  method GrokObject(text: seq<byte>, start: nat) returns (r: Grok<Value>)
    requires start < |text| && text[start] == LBRACE
    ensures r == GrokOne(text, start)
    decreases |text| - start, 0
  {
    hide Skip, GrokOne, GrokMembers, GrokStr, Assign;
    SkipNothing(text, start);
    GrokOneUnfold(text, start);
    var i := SkipWhitespace(text, start + 1);
    var value: map<Key, Value> := map[];
    if Is(text, i, RBRACE) {
      return Got(Table(value), i + 1);
    }
    while i < |text|
      invariant start < i <= |text| && GrokOne(text, start) == GrokMembers(text, i, value)
    {
      MembersFail(text, i, value);
      var key := GrokString(text, i);
      if key.Bad? {
        return Bad(key.message);
      }
      MembersUnfold(text, i, value);
      i := SkipWhitespace(text, key.next);
      if !Is(text, i, COLON) {
        return Bad("expected colon");
      }
      i := SkipWhitespace(text, i + 1);
      var val := ParseOne(text, i);
      if val.Bad? {
        return val;
      }
      value := Assign(value, Name(key.value), val.value);
      i := SkipWhitespace(text, val.next);
      if Is(text, i, RBRACE) {
        return Got(Table(value), i + 1);
      }
      if !Is(text, i, COMMA) {
        return Bad("expected comma or '}'");
      }
      i := SkipWhitespace(text, i + 1);
    }
    MembersFail(text, i, value);
    r := Bad("unclosed '{'");
  }

  lemma SkipNothing(text: seq<byte>, i: nat)
    requires i < |text| && !White(text[i])
    ensures Skip(text, i) == i
  {
  }

  method GrokArray(text: seq<byte>, start: nat) returns (r: Grok<Value>)
    requires start < |text| && text[start] == LBRACKET
    ensures r == GrokOne(text, start)
    decreases |text| - start, 0
  {
    hide Skip, GrokOne, GrokItems, Assign;
    SkipNothing(text, start);
    GrokOneUnfold(text, start);
    var i := SkipWhitespace(text, start + 1);
    var value: map<Key, Value> := map[];
    var n := 0;
    if Is(text, i, RBRACKET) {
      return Got(Table(value), i + 1);
    }
    while i < |text|
      invariant start < i <= |text| && n >= 0 && GrokOne(text, start) == GrokItems(text, i, n, value)
    {
      ItemsUnfold(text, i, n, value);
      var val := ParseOne(text, i);
      if val.Bad? {
        return val;
      }
      value := Assign(value, Index(n + 1), val.value);
      n := if val.value.Nil? then n else n + 1;
      i := SkipWhitespace(text, val.next);
      if Is(text, i, RBRACKET) {
        return Got(Table(value), i + 1);
      }
      if !Is(text, i, COMMA) {
        return Bad("expected comma or '['");
      }
      i := SkipWhitespace(text, i + 1);
    }
    ItemsUnfold(text, i, n, value);
    r := Bad("unclosed '['");
  }

  method ParseOne(text: seq<byte>, start: nat) returns (r: Grok<Value>)
    requires start <= |text|
    ensures r == GrokOne(text, start)
    decreases |text| - start, 1
  {
    hide GrokMembers, GrokItems, GrokStr, GrokNumber;
    var i := SkipWhitespace(text, start);
    if i == |text| {
      return Bad("unexpected end of string");
    }
    if text[i] == QUOTE {
      var s := GrokString(text, i);
      return if s.Got? then Got(Str(s.value), s.next) else Bad(s.message);
    }
    if text[i] == MINUS || Digit(text[i]) {
      return GrokNumber(text, i);
    }
    if text[i] == LBRACE {
      r := GrokObject(text, i);
      SkippedAlready(text, start);
    } else if text[i] == LBRACKET {
      r := GrokArray(text, i);
      SkippedAlready(text, start);
    } else if At(text, i, TRUE) {
      r := Got(Bool(true), i + 4);
    } else if At(text, i, FALSE) {
      r := Got(Bool(false), i + 5);
    } else if At(text, i, NULL) {
      r := Got(Nil, i + 4);
    } else {
      r := Bad("can't parse JSON");
    }
  }

  lemma SkippedAlready(text: seq<byte>, start: nat)
    requires start <= |text|
    ensures GrokOne(text, Skip(text, start)) == GrokOne(text, start)
  {
    hide GrokMembers, GrokItems, GrokStr, GrokNumber;
    assert Skip(text, Skip(text, start)) == Skip(text, start);
  }
}
