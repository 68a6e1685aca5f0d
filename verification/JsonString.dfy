/** String tokens of the JSON decoder: escapes, and what the text of a string stands for. */
module JsonString {
  import opened ByteSeq
  import opened Ascii
  import Utf8

  const U: byte := 0x75

  /** A NUL-terminated text: the bytes of a Lua string and the terminator. */
  predicate Terminated(text: seq<byte>) { text != [] && text[|text| - 1] == 0 }

  // ---------------------------------------------------------------- escapes

  /** decode_hex4 stops at the first byte that is no hex digit, a NUL included. */
  function Hex4(text: seq<byte>, p: nat): (n: Option<nat>)
    requires Terminated(text) && p < |text|
    ensures n.Some? ==> p + 4 < |text| && n.value < 0x1_0000
  {
    if HexValue(text[p]).None? then None
    else if HexValue(text[p + 1]).None? then None
    else if HexValue(text[p + 2]).None? then None
    else if HexValue(text[p + 3]).None? then None
    else Some(0x1000 * HexValue(text[p]).value + 0x100 * HexValue(text[p + 1]).value
              + 0x10 * HexValue(text[p + 2]).value + HexValue(text[p + 3]).value)
  }

  /** escape2char; 0 marks an invalid escape. */
  function EscapeChar(c: byte): byte {
    if c == 0x22 then 0x22 else if c == 0x5C then 0x5C else if c == 0x2F then 0x2F
    else if c == 0x62 then 8 else if c == 0x74 then 9 else if c == 0x6E then 10
    else if c == 0x66 then 12 else if c == 0x72 then 13 else if c == U then U
    else 0
  }

  /** The bytes a unicode escape appends and its length in the text. */
  datatype Escape = Escape(bytes: seq<byte>, length: nat)

  /** json_append_unicode_escape at a `\u`. */
  function UnicodeEscape(text: seq<byte>, p: nat): (e: Option<Escape>)
    requires Terminated(text) && p + 1 < |text| - 1
    ensures e.Some? ==> p + e.value.length < |text| && e.value.length in {6, 12} && |e.value.bytes| <= e.value.length
  {
    match Hex4(text, p + 2)
    case None => None
    case Some(cp) =>
      if 0xD800 <= cp < 0xE000 then
        if cp >= 0xDC00 then None
        else if text[p + 6] != BACKSLASH || text[p + 7] != U then None
        else match Hex4(text, p + 8)
          case None => None
          case Some(low) =>
            if low < 0xDC00 || low >= 0xE000 then None
            else Some(Escape(Utf8.FromCodepoint(cp % 0x400 * 0x400 + low % 0x400 + 0x1_0000), 12))
      else Some(Escape(Utf8.FromCodepoint(cp), 6))
  }

  /** The characters up to the closing quote, and the index behind it. */
  datatype Scanned = Scanned(value: seq<byte>, end: nat)

  function Scan(text: seq<byte>, p: nat): (r: Option<Scanned>)
    requires Terminated(text) && p < |text|
    ensures r.Some? ==> p < r.value.end < |text|
    decreases |text| - p
  {
    if text[p] == QUOTE then Some(Scanned([], p + 1))
    else if text[p] == 0 then None
    else if text[p] == BACKSLASH then
      var ch := EscapeChar(text[p + 1]);
      if ch == U then
        match UnicodeEscape(text, p)
        case None => None
        case Some(e) => Prefix(e.bytes, Scan(text, p + e.length))
      else if ch == 0 then None
      else Prefix([ch], Scan(text, p + 2))
    else Prefix([text[p]], Scan(text, p + 1))
  }

  function Prefix(front: seq<byte>, r: Option<Scanned>): Option<Scanned> {
    if r.None? then None else Some(Scanned(front + r.value.value, r.value.end))
  }

  /** Why a string token is refused. */
  function Refusal(text: seq<byte>, p: nat): string
    requires Terminated(text) && p < |text| && Scan(text, p).None?
    decreases |text| - p
  {
    if text[p] == 0 then "unexpected end of string"
    else if text[p] == BACKSLASH then
      var ch := EscapeChar(text[p + 1]);
      if ch == U then
        match UnicodeEscape(text, p)
        case None => "invalid unicode escape code"
        case Some(e) => Refusal(text, p + e.length)
      else if ch == 0 then "invalid escape code"
      else Refusal(text, p + 2)
    else Refusal(text, p + 1)
  }

  // ---------------------------------------------------------------- an independent grammar

  /** The parts of a string text (section 2.5 of RFC 4627): a plain byte, a two-character escape, an
      escaped UTF-16 code unit that is no surrogate, or an escaped surrogate pair. That section asks for
      control characters to be escaped and for text in Unicode; the decoder takes any plain byte but 0,
      the quote and the backslash, and so does this grammar. */
  datatype Piece =
    | Plain(c: byte)
    | Short(c: byte)
    | Unit(hex: seq<byte>)
    | Pair(high: seq<byte>, low: seq<byte>)

  function UnitValue(hex: seq<byte>): Option<nat> {
    if |hex| == 4 then Hex4(hex + [0], 0) else None
  }

  predicate Allowed(x: Piece) {
    match x
    case Plain(c) => c != 0 && c != QUOTE && c != BACKSLASH
    case Short(c) => c in {0x22, 0x5C, 0x2F, 0x62, 0x66, 0x6E, 0x72, 0x74}
    case Unit(hex) => UnitValue(hex).Some? && !(0xD800 <= UnitValue(hex).value <= 0xDFFF)
    case Pair(high, low) =>
      && UnitValue(high).Some? && 0xD800 <= UnitValue(high).value <= 0xDBFF
      && UnitValue(low).Some? && 0xDC00 <= UnitValue(low).value <= 0xDFFF
  }

  function Text(x: Piece): seq<byte> {
    match x
    case Plain(c) => [c]
    case Short(c) => [BACKSLASH, c]
    case Unit(hex) => [BACKSLASH, U] + hex
    case Pair(high, low) => [BACKSLASH, U] + high + [BACKSLASH, U] + low
  }

  /** The code point of an escape (section 2.2 of RFC 2781 for a pair). */
  function CodePoint(x: Piece): nat
    requires Allowed(x) && (x.Unit? || x.Pair?)
  {
    if x.Unit? then UnitValue(x.hex).value
    else 0x1_0000 + 0x400 * (UnitValue(x.high).value - 0xD800) + (UnitValue(x.low).value - 0xDC00)
  }

  function Meaning(x: Piece): seq<byte>
    requires Allowed(x)
  {
    match x
    case Plain(c) => [c]
    case Short(c) =>
      [if c == 0x62 then 8 else if c == 0x66 then 12 else if c == 0x6E then 10
       else if c == 0x72 then 13 else if c == 0x74 then 9 else c]
    case _ => Utf8.FromCodepoint(CodePoint(x))
  }

  function TextAll(xs: seq<Piece>): seq<byte> {
    if xs == [] then [] else Text(xs[0]) + TextAll(xs[1..])
  }

  predicate AllowedAll(xs: seq<Piece>) { forall x :: x in xs ==> Allowed(x) }

  function MeaningAll(xs: seq<Piece>): seq<byte>
    requires AllowedAll(xs)
  {
    if xs == [] then [] else Meaning(xs[0]) + MeaningAll(xs[1..])
  }

  /** Every escape denotes a Unicode scalar value, and appends the one well-formed UTF-8 sequence
      for it. */
  lemma EscapesAreScalars(x: Piece)
    requires Allowed(x) && (x.Unit? || x.Pair?)
    ensures Utf8.Scalar(CodePoint(x)) && Utf8.WellFormed(Meaning(x)) && Utf8.ToCodepoint(Meaning(x)) == CodePoint(x)
    ensures forall s: seq<byte> :: Utf8.WellFormed(s) && Utf8.ToCodepoint(s) == CodePoint(x) ==> s == Meaning(x)
  {
    Utf8.EncodesScalars(CodePoint(x));
    forall s: seq<byte> | Utf8.WellFormed(s) && Utf8.ToCodepoint(s) == CodePoint(x) ensures s == Meaning(x) {
      Utf8.OnlyEncoding(s);
    }
  }

  /** Every scalar value has an escape. */
  lemma ScalarsHaveEscapes(cp: nat) returns (x: Piece)
    requires Utf8.Scalar(cp)
    ensures Allowed(x) && (x.Unit? || x.Pair?) && CodePoint(x) == cp
  {
    if cp < 0x1_0000 {
      x := Unit(HexOf(cp));
      HexOfValue(cp);
    } else {
      var n := cp - 0x1_0000;
      x := Pair(HexOf(0xD800 + n / 0x400), HexOf(0xDC00 + n % 0x400));
      HexOfValue(0xD800 + n / 0x400);
      HexOfValue(0xDC00 + n % 0x400);
    }
  }

  function HexOf(n: nat): seq<byte>
    requires n < 0x1_0000
  {
    [LowerHex(n / 0x1000), LowerHex(n / 0x100 % 16), LowerHex(n / 0x10 % 16), LowerHex(n % 16)]
  }

  lemma HexOfValue(n: nat)
    requires n < 0x1_0000
    ensures UnitValue(HexOf(n)) == Some(n)
  {
    assert n / 0x100 == n / 0x10 / 16 && n / 0x1000 == n / 0x100 / 16;
  }

  // ---------------------------------------------------------------- scanning is exact

  lemma HexAt(text: seq<byte>, p: nat, hex: seq<byte>)
    requires Terminated(text) && At(text, p, hex) && |hex| == 4 && p + 4 < |text|
    ensures Hex4(text, p) == UnitValue(hex)
  {
    hide HexValue;
    assert forall i :: 0 <= i < 4 ==> text[p + i] == hex[i] == (hex + [0])[i];
  }

  /** What scanning does at a byte that is not the closing quote. */
  lemma ScanUnfold(text: seq<byte>, p: nat)
    requires Terminated(text) && p < |text| && text[p] != QUOTE
    ensures text[p] == 0 ==> Scan(text, p).None?
    ensures text[p] != 0 && text[p] != BACKSLASH ==> Scan(text, p) == Prefix([text[p]], Scan(text, p + 1))
    ensures text[p] == BACKSLASH && EscapeChar(text[p + 1]) == 0 ==> Scan(text, p).None?
    ensures text[p] == BACKSLASH && EscapeChar(text[p + 1]) !in {0, U} ==>
      p + 2 < |text| && Scan(text, p) == Prefix([EscapeChar(text[p + 1])], Scan(text, p + 2))
    ensures text[p] == BACKSLASH && EscapeChar(text[p + 1]) == U ==>
      var e := UnicodeEscape(text, p);
      if e.None? then Scan(text, p).None? else Scan(text, p) == Prefix(e.value.bytes, Scan(text, p + e.value.length))
  {
    hide UnicodeEscape, Prefix;
  }

  lemma ScanQuote(text: seq<byte>, p: nat)
    requires Terminated(text) && p < |text| && text[p] == QUOTE
    ensures p + 1 < |text| && Scan(text, p) == Some(Scanned([], p + 1))
  {
  }

  lemma UnitEscape(text: seq<byte>, p: nat, hex: seq<byte>)
    requires Terminated(text) && Allowed(Unit(hex)) && At(text, p, Text(Unit(hex))) && p + 6 < |text|
    ensures UnicodeEscape(text, p) == Some(Escape(Meaning(Unit(hex)), 6))
    ensures text[p] == BACKSLASH && text[p + 1] == U
  {
    hide Hex4, Utf8.FromCodepoint;
    assert text[p] == Text(Unit(hex))[0] && text[p + 1] == Text(Unit(hex))[1];
    AtParts(text, p, [BACKSLASH, U], hex);
    HexAt(text, p + 2, hex);
  }

  lemma PairParts(text: seq<byte>, p: nat, high: seq<byte>, low: seq<byte>)
    requires |high| == 4 && |low| == 4
    ensures At(text, p, Text(Pair(high, low))) <==>
      && At(text, p, [BACKSLASH, U]) && At(text, p + 2, high)
      && At(text, p + 6, [BACKSLASH, U]) && At(text, p + 8, low)
  {
    hide At;
    assert Text(Pair(high, low)) == [BACKSLASH, U] + (high + ([BACKSLASH, U] + low));
    AtParts(text, p, [BACKSLASH, U], high + ([BACKSLASH, U] + low));
    AtParts(text, p + 2, high, [BACKSLASH, U] + low);
    AtParts(text, p + 6, [BACKSLASH, U], low);
  }

  lemma AtSlash(text: seq<byte>, p: nat)
    ensures At(text, p, [BACKSLASH, U]) <==> p + 2 <= |text| && text[p] == BACKSLASH && text[p + 1] == U
  {
    if p + 2 <= |text| {
      assert |text[p..p + 2]| == 2 && text[p..p + 2][0] == text[p] && text[p..p + 2][1] == text[p + 1];
    }
  }

  lemma PairEscape(text: seq<byte>, p: nat, high: seq<byte>, low: seq<byte>)
    requires Terminated(text) && Allowed(Pair(high, low)) && At(text, p, Text(Pair(high, low))) && p + 12 < |text|
    ensures UnicodeEscape(text, p) == Some(Escape(Meaning(Pair(high, low)), 12))
    ensures text[p] == BACKSLASH && text[p + 1] == U
  {
    hide Hex4, Utf8.FromCodepoint, At;
    PairParts(text, p, high, low);
    AtSlash(text, p);
    AtSlash(text, p + 6);
    HexAt(text, p + 2, high);
    HexAt(text, p + 8, low);
    var h, l := UnitValue(high).value, UnitValue(low).value;
    assert h % 0x400 == h - 0xD800 && l % 0x400 == l - 0xDC00;
  }

  lemma ShortEscape(c: byte)
    requires Allowed(Short(c))
    ensures EscapeChar(c) !in {0, U} && Meaning(Short(c)) == [EscapeChar(c)]
  {
  }

  lemma EscapeOfU()
    ensures EscapeChar(U) == U
  {
  }

  /** One allowed piece is scanned as what it means. */
  lemma ScanPiece(text: seq<byte>, p: nat, x: Piece)
    requires Terminated(text) && Allowed(x) && At(text, p, Text(x)) && p + |Text(x)| < |text|
    ensures Scan(text, p) == Prefix(Meaning(x), Scan(text, p + |Text(x)|))
  {
    hide Scan, UnicodeEscape, Prefix, Hex4, Utf8.FromCodepoint, EscapeChar;
    match x
    case Plain(c) =>
      AtOne(text, p, c);
      ScanUnfold(text, p);
    case Short(c) =>
      assert text[p] == text[p..p + 2][0] && text[p + 1] == text[p..p + 2][1];
      ShortEscape(c);
      ScanUnfold(text, p);
    case Unit(hex) =>
      UnitEscape(text, p, hex);
      EscapeOfU();
      ScanUnfold(text, p);
    case Pair(high, low) =>
      PairEscape(text, p, high, low);
      EscapeOfU();
      ScanUnfold(text, p);
  }

  lemma {:induction false} ScanComplete(text: seq<byte>, p: nat, xs: seq<Piece>)
    requires Terminated(text) && AllowedAll(xs) && At(text, p, TextAll(xs) + [QUOTE])
    requires p + |TextAll(xs)| + 1 < |text|
    ensures Scan(text, p) == Some(Scanned(MeaningAll(xs), p + |TextAll(xs)| + 1))
    decreases xs
  {
    hide Scan, Allowed, Meaning, Text, At;
    if xs == [] {
      AtOne(text, p, QUOTE);
      assert TextAll(xs) + [QUOTE] == [QUOTE];
      ScanQuote(text, p);
    } else {
      assert TextAll(xs) + [QUOTE] == Text(xs[0]) + (TextAll(xs[1..]) + [QUOTE]);
      AtParts(text, p, Text(xs[0]), TextAll(xs[1..]) + [QUOTE]);
      ScanPiece(text, p, xs[0]);
      ScanComplete(text, p + |Text(xs[0])|, xs[1..]);
    }
  }

  /** The piece that scanning meets at p. */
  function PieceAt(text: seq<byte>, p: nat): Piece
    requires Terminated(text) && p < |text| && Scan(text, p).Some? && text[p] != QUOTE
  {
    if text[p] != BACKSLASH then Plain(text[p])
    else if text[p + 1] != U then Short(text[p + 1])
    else if UnicodeEscape(text, p).value.length == 6 then Unit(text[p + 2..p + 6])
    else Pair(text[p + 2..p + 6], text[p + 8..p + 12])
  }

  /** A unicode escape that is accepted is the text of an escaped code unit or of a surrogate pair. */
  lemma EscapeFits(text: seq<byte>, p: nat)
    requires Terminated(text) && p + 1 < |text| - 1 && text[p] == BACKSLASH && text[p + 1] == U
    requires UnicodeEscape(text, p).Some?
    ensures p + 6 < |text|
    ensures UnicodeEscape(text, p).value.length == 6 ==>
      var x := Unit(text[p + 2..p + 6]);
      Allowed(x) && At(text, p, Text(x))
    ensures UnicodeEscape(text, p).value.length == 12 ==> p + 12 < |text|
    ensures UnicodeEscape(text, p).value.length == 12 ==>
      var x := Pair(text[p + 2..p + 6], text[p + 8..p + 12]);
      Allowed(x) && At(text, p, Text(x))
  {
    hide Hex4, Utf8.FromCodepoint, At;
    HexSlice(text, p + 2);
    AtSlash(text, p);
    AtParts(text, p, [BACKSLASH, U], text[p + 2..p + 6]);
    if UnicodeEscape(text, p).value.length == 12 {
      HexSlice(text, p + 8);
      AtSlash(text, p + 6);
      PairParts(text, p, text[p + 2..p + 6], text[p + 8..p + 12]);
    }
  }

  lemma HexSlice(text: seq<byte>, p: nat)
    requires Terminated(text) && p < |text| && Hex4(text, p).Some?
    ensures At(text, p, text[p..p + 4]) && UnitValue(text[p..p + 4]) == Hex4(text, p)
  {
    HexAt(text, p, text[p..p + 4]);
  }

  lemma PieceFits(text: seq<byte>, p: nat)
    requires Terminated(text) && p < |text| && Scan(text, p).Some? && text[p] != QUOTE
    ensures var x := PieceAt(text, p);
      Allowed(x) && At(text, p, Text(x)) && p < p + |Text(x)| < |text| && Scan(text, p + |Text(x)|).Some?
  {
    hide Scan, UnicodeEscape, Hex4, Utf8.FromCodepoint;
    ScanUnfold(text, p);
    if text[p] == BACKSLASH && text[p + 1] == U {
      EscapeFits(text, p);
      HexLengths(text, p);
    }
  }

  lemma HexLengths(text: seq<byte>, p: nat)
    requires Terminated(text) && p + 1 < |text| - 1 && UnicodeEscape(text, p).Some?
    ensures UnicodeEscape(text, p).value.length in {6, 12}
  {
  }

  /** What is scanned is the text of allowed pieces and then the closing quote. */
  lemma {:induction false} ScanSound(text: seq<byte>, p: nat) returns (xs: seq<Piece>)
    requires Terminated(text) && p < |text| && Scan(text, p).Some?
    ensures AllowedAll(xs) && At(text, p, TextAll(xs) + [QUOTE])
    ensures Scan(text, p) == Some(Scanned(MeaningAll(xs), p + |TextAll(xs)| + 1))
    decreases |text| - p
  {
    hide Scan, Allowed, Meaning, Text, At, PieceAt;
    if text[p] == QUOTE {
      xs := [];
      ScanQuote(text, p);
      AtOne(text, p, QUOTE);
      assert TextAll(xs) + [QUOTE] == [QUOTE];
    } else {
      var x := PieceAt(text, p);
      PieceFits(text, p);
      ScanPiece(text, p, x);
      var rest := ScanSound(text, p + |Text(x)|);
      xs := [x] + rest;
      assert xs[1..] == rest;
      assert TextAll(xs) + [QUOTE] == Text(x) + (TextAll(rest) + [QUOTE]);
      AtParts(text, p, Text(x), TextAll(rest) + [QUOTE]);
    }
  }

  lemma QuoteInside(text: seq<byte>, p: nat, s: seq<byte>)
    requires Terminated(text) && At(text, p, s + [QUOTE])
    ensures p + |s| + 1 < |text|
  {
    AtParts(text, p, s, [QUOTE]);
    AtOne(text, p + |s|, QUOTE);
  }

  /** A string token is accepted exactly when it is the text of allowed pieces, and then its value is
      what they mean. */
  lemma ScanIsExact(text: seq<byte>, p: nat, r: Scanned)
    requires Terminated(text) && p < |text|
    ensures Scan(text, p) == Some(r) <==>
      exists xs :: AllowedAll(xs) && At(text, p, TextAll(xs) + [QUOTE]) &&
        r == Scanned(MeaningAll(xs), p + |TextAll(xs)| + 1)
  {
    hide Scan, AllowedAll, MeaningAll, TextAll, At;
    if Scan(text, p) == Some(r) {
      var xs := ScanSound(text, p);
    }
    forall xs | AllowedAll(xs) && At(text, p, TextAll(xs) + [QUOTE])
      && r == Scanned(MeaningAll(xs), p + |TextAll(xs)| + 1)
      ensures Scan(text, p) == Some(r)
    {
      QuoteInside(text, p, TextAll(xs));
      ScanComplete(text, p, xs);
    }
  }

  // ---------------------------------------------------------------- refusals

  /** What a string is refused for, at q: it ends there, or a backslash does not begin any allowed escape. */
  ghost predicate Refused(text: seq<byte>, q: nat, why: string)
    requires Terminated(text) && q < |text|
  {
    if text[q] == 0 then why == "unexpected end of string"
    else if text[q] != BACKSLASH then false
    else if text[q + 1] != U then
      text[q + 1] !in {0x22, 0x5C, 0x2F, 0x62, 0x66, 0x6E, 0x72, 0x74} && why == "invalid escape code"
    else
      why == "invalid unicode escape code" && forall x | Allowed(x) && (x.Unit? || x.Pair?) :: !At(text, q, Text(x))
  }

  lemma HexEnds(text: seq<byte>, q: nat, x: Piece)
    requires Terminated(text) && Allowed(x) && (x.Unit? || x.Pair?) && At(text, q, Text(x))
    ensures q + |Text(x)| < |text| && |Text(x)| in {6, 12}
  {
    var s := Text(x);
    var hex := if x.Unit? then x.hex else x.low;
    assert (hex + [0])[3] == hex[3] == s[|s| - 1];
    assert text[q..q + |s|][|s| - 1] == text[q + |s| - 1];
  }

  lemma NoEscape(text: seq<byte>, q: nat)
    requires Terminated(text) && q + 1 < |text| - 1 && text[q] == BACKSLASH && UnicodeEscape(text, q).None?
    ensures forall x | Allowed(x) && (x.Unit? || x.Pair?) :: !At(text, q, Text(x))
  {
    hide UnicodeEscape, Utf8.FromCodepoint;
    forall x | Allowed(x) && (x.Unit? || x.Pair?) ensures !At(text, q, Text(x)) {
      if At(text, q, Text(x)) {
        HexEnds(text, q, x);
        if x.Unit? { UnitEscape(text, q, x.hex); } else { PairEscape(text, q, x.high, x.low); }
      }
    }
  }

  lemma RefusalUnfold(text: seq<byte>, p: nat)
    requires Terminated(text) && p < |text| && Scan(text, p).None?
    ensures text[p] == 0 ==> Refusal(text, p) == "unexpected end of string"
    ensures text[p] != 0 && text[p] != BACKSLASH ==>
      p + 1 < |text| && Scan(text, p + 1).None? && Refusal(text, p) == Refusal(text, p + 1)
    ensures text[p] == BACKSLASH && EscapeChar(text[p + 1]) == 0 ==> Refusal(text, p) == "invalid escape code"
    ensures text[p] == BACKSLASH && EscapeChar(text[p + 1]) !in {0, U} ==>
      p + 2 < |text| && Scan(text, p + 2).None? && Refusal(text, p) == Refusal(text, p + 2)
    ensures text[p] == BACKSLASH && EscapeChar(text[p + 1]) == U ==>
      p + 1 < |text| - 1
      && var e := UnicodeEscape(text, p);
         if e.None? then Refusal(text, p) == "invalid unicode escape code"
         else Scan(text, p + e.value.length).None? && Refusal(text, p) == Refusal(text, p + e.value.length)
  {
    hide UnicodeEscape, Prefix;
    PrefixNone();
  }

  lemma PrefixNone()
    ensures forall s: seq<byte>, r :: Prefix(s, r).None? <==> r.None?
  {
  }

  lemma EscapeKinds(c: byte)
    ensures EscapeChar(c) !in {0, U} <==> Allowed(Short(c))
    ensures EscapeChar(c) == U <==> c == U
  {
  }

  lemma RefusedHere(text: seq<byte>, p: nat, why: string)
    requires Terminated(text) && p < |text|
    requires || (text[p] == 0 && why == "unexpected end of string")
      || (text[p] == BACKSLASH && EscapeChar(text[p + 1]) == 0 && why == "invalid escape code")
      || (text[p] == BACKSLASH && EscapeChar(text[p + 1]) == U && p + 1 < |text| - 1 && UnicodeEscape(text, p).None?
          && why == "invalid unicode escape code")
    ensures Refused(text, p, why)
  {
    hide UnicodeEscape, Text, At;
    if text[p] == BACKSLASH {
      EscapeKinds(text[p + 1]);
      if EscapeChar(text[p + 1]) == U {
        NoEscape(text, p);
      }
    }
  }

  lemma PieceThere(text: seq<byte>, p: nat, x: Piece)
    requires x.Plain? || x.Short?
    requires p + |Text(x)| <= |text| && text[p] == Text(x)[0] && (x.Short? ==> text[p + 1] == Text(x)[1])
    ensures At(text, p, Text(x))
  {
  }

  lemma NoPieces(text: seq<byte>, p: nat)
    requires p <= |text|
    ensures AllowedAll([]) && TextAll([]) == [] && At(text, p, TextAll([]))
  {
  }

  lemma TextIs(x: Piece)
    ensures x.Plain? ==> Text(x) == [x.c]
    ensures x.Short? ==> Text(x) == [BACKSLASH, x.c]
    ensures x.Unit? ==> Text(x) == [BACKSLASH, U] + x.hex
    ensures Allowed(x) && x.Unit? ==> |Text(x)| == 6
    ensures Allowed(x) && x.Pair? ==> |Text(x)| == 12
  {
  }

  lemma PlainAllowed(text: seq<byte>, p: nat)
    requires Terminated(text) && p < |text| && Scan(text, p).None? && text[p] != 0 && text[p] != BACKSLASH
    ensures Allowed(Plain(text[p]))
  {
  }

  lemma MorePieces(x: Piece, xs: seq<Piece>)
    requires Allowed(x) && AllowedAll(xs)
    ensures AllowedAll([x] + xs) && TextAll([x] + xs) == Text(x) + TextAll(xs)
  {
    hide Allowed, Text;
    assert ([x] + xs)[1..] == xs;
  }

  lemma {:induction false} RefusalBehind(text: seq<byte>, p: nat, x: Piece) returns (xs: seq<Piece>)
    requires Terminated(text) && Allowed(x) && At(text, p, Text(x)) && Text(x) != [] && p + |Text(x)| < |text|
    requires Scan(text, p).None? && Scan(text, p + |Text(x)|).None?
    requires Refusal(text, p) == Refusal(text, p + |Text(x)|)
    ensures AllowedAll(xs) && At(text, p, TextAll(xs)) && p + |TextAll(xs)| < |text|
    ensures Refused(text, p + |TextAll(xs)|, Refusal(text, p))
    decreases |text| - p, 0
  {
    hide Scan, Refusal, At, Allowed, Text, AllowedAll, TextAll, Refused;
    var rest := RefusalIsFirst(text, p + |Text(x)|);
    xs := [x] + rest;
    MorePieces(x, rest);
    AtParts(text, p, Text(x), TextAll(rest));
  }

  /** A string that is refused is allowed pieces up to what it is refused for. */
  lemma {:induction false} RefusalIsFirst(text: seq<byte>, p: nat) returns (xs: seq<Piece>)
    requires Terminated(text) && p < |text| && Scan(text, p).None?
    ensures AllowedAll(xs) && At(text, p, TextAll(xs)) && p + |TextAll(xs)| < |text|
    ensures Refused(text, p + |TextAll(xs)|, Refusal(text, p))
    decreases |text| - p, 1
  {
    hide Scan, Refusal, UnicodeEscape, EscapeChar, At, Allowed, Text, AllowedAll, TextAll, Utf8.FromCodepoint, Refused;
    RefusalUnfold(text, p);
    NoPieces(text, p);
    EscapeKinds(if p + 1 < |text| then text[p + 1] else 0);
    xs := [];
    if text[p] == 0 {
      RefusedHere(text, p, Refusal(text, p));
    } else if text[p] != BACKSLASH {
      TextIs(Plain(text[p]));
      PlainAllowed(text, p);
      PieceThere(text, p, Plain(text[p]));
      xs := RefusalBehind(text, p, Plain(text[p]));
    } else if EscapeChar(text[p + 1]) == U {
      if UnicodeEscape(text, p).None? {
        RefusedHere(text, p, Refusal(text, p));
      } else {
        EscapeFits(text, p);
        HexLengths(text, p);
        var x := if UnicodeEscape(text, p).value.length == 6 then Unit(text[p + 2..p + 6])
          else Pair(text[p + 2..p + 6], text[p + 8..p + 12]);
        TextIs(x);
        xs := RefusalBehind(text, p, x);
      }
    } else if EscapeChar(text[p + 1]) == 0 {
      RefusedHere(text, p, Refusal(text, p));
    } else {
      TextIs(Short(text[p + 1]));
      PieceThere(text, p, Short(text[p + 1]));
      xs := RefusalBehind(text, p, Short(text[p + 1]));
    }
  }
}
