/** Every JSON text of a value is parsed by the Lua module as that value, with the nulls left out. */
module LuaText {
  import opened ByteSeq
  import opened Ascii
  import opened JsonString
  import opened JsonGrammar
  import opened JsonText
  import L = LuaJson
  import P = LuaJsonPrinter
  import Utf8

  // ---------------------------------------------------------------- the value of a text

  /** tonumber: digits alone, below 10^14, are an integer; any other number is known by its text. */
  function NumberValue(text: seq<byte>): L.Value {
    var minus := text != [] && text[0] == 0x2D;
    var digits := if minus then text[1..] else text;
    if Digits(digits) && L.FromDecimal(digits) < L.LIMIT then
      L.Int(if minus then 0 - L.FromDecimal(digits) else L.FromDecimal(digits))
    else L.Other(text)
  }

  /** What a tree is in Lua. Null is nil, which a table does not hold: an array closes up, and a member
      takes away what an earlier one of its name has put there. */
  function ValueOf(v: Json): L.Value
    decreases v, 1
  {
    match v
    case JString(s) => L.Str(s)
    case JNumber(text) => NumberValue(text)
    case JBool(b) => L.Bool(b)
    case JNull => L.Nil
    case JObject(ms) => L.Table(MembersOf(ms, map[]))
    case JArray(xs) => L.Table(Filled(Kept(xs)))
  }

  function MembersOf(ms: seq<Member>, t: map<L.Key, L.Value>): map<L.Key, L.Value>
    decreases ms
  {
    if ms == [] then t else
    var k, w := L.Name(ms[0].key), ValueOf(ms[0].value);
    MembersOf(ms[1..], if w == L.Nil then t - {k} else t[k := w])
  }

  function Kept(xs: seq<Json>): seq<L.Value>
    decreases xs
  {
    if xs == [] then [] else (if ValueOf(xs[0]) == L.Nil then [] else [ValueOf(xs[0])]) + Kept(xs[1..])
  }

  /** The table of these items at 1, 2, 3. */
  function Filled(vs: seq<L.Value>): map<L.Key, L.Value> {
    map i: nat | 1 <= i <= |vs| :: L.Index(i) := vs[i - 1]
  }

  /** A name has the value of its last member, and is not there when that is null. */
  lemma {:induction false} MembersLastWins(ms: seq<Member>, t: map<L.Key, L.Value>, i: nat)
    requires i < |ms| && forall j | i < j < |ms| :: ms[j].key != ms[i].key
    ensures var k, w := L.Name(ms[i].key), ValueOf(ms[i].value);
      if w == L.Nil then k !in MembersOf(ms, t) else k in MembersOf(ms, t) && MembersOf(ms, t)[k] == w
    decreases ms
  {
    hide ValueOf;
    var k, w := L.Name(ms[0].key), ValueOf(ms[0].value);
    var u := if w == L.Nil then t - {k} else t[k := w];
    if i > 0 {
      assert ms[1..][i - 1] == ms[i];
      MembersLastWins(ms[1..], u, i - 1);
    } else {
      assert forall j | 0 <= j < |ms[1..]| :: ms[1..][j] == ms[j + 1];
      OtherNames(ms[1..], u, k);
    }
  }

  /** And nothing else changes. */
  lemma {:induction false} OtherNames(ms: seq<Member>, t: map<L.Key, L.Value>, k: L.Key)
    requires forall i | 0 <= i < |ms| :: L.Name(ms[i].key) != k
    ensures k in MembersOf(ms, t) <==> k in t
    ensures k in t ==> MembersOf(ms, t)[k] == t[k]
    decreases ms
  {
    hide ValueOf;
    if ms != [] {
      var x, w := L.Name(ms[0].key), ValueOf(ms[0].value);
      assert forall j | 0 <= j < |ms[1..]| :: ms[1..][j] == ms[j + 1];
      OtherNames(ms[1..], if w == L.Nil then t - {x} else t[x := w], k);
    }
  }

  // ---------------------------------------------------------------- strings

  lemma HexIs(text: seq<byte>, p: nat, hex: seq<byte>)
    requires At(text, p, [BACKSLASH, U] + hex) && |hex| == 4
    ensures p + 6 <= |text| && text[p] == BACKSLASH && text[p + 1] == U && L.Hex(text, p) == UnitValue(hex)
  {
    P.BytesAt(text, p, [BACKSLASH, U] + hex);
    var s := [BACKSLASH, U] + hex;
    assert text[p] == s[0] && text[p + 1] == s[1] && text[p + 2] == s[2] == hex[0];
    assert text[p + 3] == s[3] == hex[1] && text[p + 4] == s[4] == hex[2] && text[p + 5] == s[5] == hex[3];
    var h := hex + [0];
    assert h[0] == hex[0] && h[1] == hex[1] && h[2] == hex[2] && h[3] == hex[3];
  }

  lemma FourDigits(x: Piece)
    requires Allowed(x)
    ensures x.Unit? ==> |x.hex| == 4
    ensures x.Pair? ==> |x.high| == 4 && |x.low| == 4
  {
  }

  lemma ShortReads(text: seq<byte>, p: nat, c: byte)
    requires Allowed(Short(c)) && At(text, p, [BACKSLASH, c])
    ensures p < |text| && text[p] == BACKSLASH && L.Char(text, p) == L.Got(Meaning(Short(c)), p + 2)
  {
    hide L.Hex, L.CodepointAsUtf8, At;
    AtParts(text, p, [BACKSLASH], [c]);
    AtOne(text, p, BACKSLASH);
    AtOne(text, p + 1, c);
    assert [BACKSLASH] + [c] == [BACKSLASH, c];
    P.NoHex(text, p);
  }

  lemma UnitReads(text: seq<byte>, p: nat, hex: seq<byte>)
    requires Allowed(Unit(hex)) && At(text, p, [BACKSLASH, U] + hex)
    ensures p < |text| && text[p] == BACKSLASH && L.Char(text, p) == L.Got(Meaning(Unit(hex)), p + 6)
  {
    hide L.Hex, L.Char, L.CodepointAsUtf8, Utf8.FromCodepoint, UnitValue, At;
    FourDigits(Unit(hex));
    HexIs(text, p, hex);
    L.EscapeReads(text, p);
    EscapesAreScalars(Unit(hex));
  }

  lemma PairReads(text: seq<byte>, p: nat, high: seq<byte>, low: seq<byte>)
    requires Allowed(Pair(high, low)) && At(text, p, ([BACKSLASH, U] + high) + ([BACKSLASH, U] + low))
    ensures p < |text| && text[p] == BACKSLASH && L.Char(text, p) == L.Got(Meaning(Pair(high, low)), p + 12)
  {
    hide L.Hex, L.Char, L.CodepointAsUtf8, Utf8.FromCodepoint, UnitValue, At;
    FourDigits(Pair(high, low));
    AtParts(text, p, [BACKSLASH, U] + high, [BACKSLASH, U] + low);
    HexIs(text, p, high);
    HexIs(text, p + 6, low);
    L.EscapeReads(text, p);
  }

  /** An allowed piece of a string is read as what it means. */
  lemma PieceReads(text: seq<byte>, p: nat, x: Piece)
    requires Allowed(x) && At(text, p, Text(x))
    ensures p < |text| && text[p] != QUOTE && L.Char(text, p) == L.Got(Meaning(x), p + |Text(x)|)
  {
    hide Meaning, L.Char, At, Allowed, Text;
    FourDigits(x);
    TextIs(x);
    match x
    case Plain(c) => PlainReads(text, p, c);
    case Short(c) => ShortReads(text, p, c);
    case Unit(hex) => UnitReads(text, p, hex);
    case Pair(high, low) =>
      PairText(high, low);
      PairReads(text, p, high, low);
  }

  lemma PlainReads(text: seq<byte>, p: nat, c: byte)
    requires Allowed(Plain(c)) && At(text, p, [c])
    ensures p < |text| && text[p] == c != QUOTE && L.Char(text, p) == L.Got(Meaning(Plain(c)), p + 1)
  {
    hide L.Hex, At;
    AtOne(text, p, c);
  }

  lemma PairText(high: seq<byte>, low: seq<byte>)
    ensures Text(Pair(high, low)) == ([BACKSLASH, U] + high) + ([BACKSLASH, U] + low)
  {
  }

  lemma {:induction false} CharsRead(text: seq<byte>, p: nat, xs: seq<Piece>)
    requires AllowedAll(xs) && At(text, p, TextAll(xs) + [QUOTE])
    ensures L.Chars(text, p) == L.Got(MeaningAll(xs), p + |TextAll(xs)| + 1)
    decreases xs
  {
    hide L.Chars, L.Char, Allowed, Text, Meaning, At;
    if xs == [] {
      assert TextAll(xs) + [QUOTE] == [QUOTE];
      AtOne(text, p, QUOTE);
      L.CharsUnfold(text, p);
    } else {
      assert TextAll(xs) + [QUOTE] == Text(xs[0]) + (TextAll(xs[1..]) + [QUOTE]);
      AtParts(text, p, Text(xs[0]), TextAll(xs[1..]) + [QUOTE]);
      PieceReads(text, p, xs[0]);
      CharsRead(text, p + |Text(xs[0])|, xs[1..]);
      L.CharsUnfold(text, p);
    }
  }

  lemma StringReads(text: seq<byte>, p: nat, xs: seq<Piece>)
    requires AllowedAll(xs) && At(text, p, [QUOTE] + TextAll(xs) + [QUOTE])
    ensures p < |text| && text[p] == QUOTE
    ensures L.GrokStr(text, p) == L.Got(MeaningAll(xs), p + |TextAll(xs)| + 2)
  {
    hide L.Chars, AllowedAll, TextAll, MeaningAll, At;
    assert [QUOTE] + TextAll(xs) + [QUOTE] == [QUOTE] + (TextAll(xs) + [QUOTE]);
    AtParts(text, p, [QUOTE], TextAll(xs) + [QUOTE]);
    AtOne(text, p, QUOTE);
    CharsRead(text, p + 1, xs);
  }

  // ---------------------------------------------------------------- numbers

  /** No digit stands there. */
  predicate NoDigit(text: seq<byte>, p: nat) { p < |text| ==> !Digit(text[p]) }

  lemma {:induction false} DigitsRead(text: seq<byte>, p: nat, s: seq<byte>)
    requires At(text, p, s) && (forall i | 0 <= i < |s| :: Digit(s[i])) && NoDigit(text, p + |s|)
    ensures L.DigitsEnd(text, p) == p + |s|
    decreases |s|
  {
    if s != [] {
      P.BytesAt(text, p, s);
      assert text[p + 0] == s[0];
      assert s == [s[0]] + s[1..];
      AtParts(text, p, [s[0]], s[1..]);
      DigitsRead(text, p + 1, s[1..]);
    }
  }

  function Whole(n: Numeral): seq<byte> { (if n.minus then [0x2D] else []) + n.whole }

  lemma WholeReads(text: seq<byte>, p: nat, n: Numeral)
    requires Fine(n) && At(text, p, Whole(n)) && NoDigit(text, p + |Whole(n)|)
    ensures L.IntegerEnd(text, p) == Some(p + |Whole(n)|)
    ensures p < |text| && (text[p] == 0x2D || Digit(text[p]))
  {
    hide L.DigitsEnd, At;
    var k := if n.minus then 1 else 0;
    AtParts(text, p, if n.minus then [0x2D] else [], n.whole);
    AtOne(text, p, 0x2D);
    AtFirst(text, p + k, n.whole);
    assert n.whole == [n.whole[0]] + n.whole[1..];
    AtParts(text, p + k, [n.whole[0]], n.whole[1..]);
    DigitsRead(text, p + k + 1, n.whole[1..]);
  }

  lemma FractionReads(text: seq<byte>, p: nat, n: Numeral)
    requires Fine(n) && At(text, p, n.frac) && NoDigit(text, p + |n.frac|) && (n.frac == [] ==> !L.Is(text, p, 0x2E))
    ensures L.FractionEnd(text, p) == p + |n.frac|
  {
    hide L.DigitsEnd, At;
    Inside(text, p, n.frac);
    if n.frac != [] {
      assert n.frac == [n.frac[0]] + n.frac[1..];
      AtFirst(text, p, n.frac);
      AtParts(text, p, [n.frac[0]], n.frac[1..]);
      AtFirst(text, p + 1, n.frac[1..]);
      DigitsRead(text, p + 1, n.frac[1..]);
    }
  }

  lemma Inside(text: seq<byte>, p: nat, s: seq<byte>)
    requires At(text, p, s)
    ensures p + |s| <= |text|
  {
  }

  /** Where the digits of the exponent begin. */
  function Signed(exp: seq<byte>): nat
    requires |exp| > 1
  {
    if exp[1] in {0x2B, 0x2D} then 2 else 1
  }

  lemma ExponentReads(text: seq<byte>, p: nat, n: Numeral)
    requires Fine(n) && At(text, p, n.exp) && NoDigit(text, p + |n.exp|)
    requires n.exp == [] ==> !L.Is(text, p, 0x45) && !L.Is(text, p, 0x65)
    ensures L.ExponentEnd(text, p) == p + |n.exp|
  {
    hide L.DigitsEnd, At;
    Inside(text, p, n.exp);
    if n.exp != [] {
      var digits := n.exp[Signed(n.exp)..];
      ExponentLies(text, p, n.exp);
      DigitsRead(text, p + Signed(n.exp), digits);
    }
  }

  lemma ExponentLies(text: seq<byte>, p: nat, exp: seq<byte>)
    requires |exp| > 1 && At(text, p, exp) && Digits(exp[Signed(exp)..])
    ensures p + |exp| <= |text| && text[p] == exp[0] && text[p + 1] == exp[1]
    ensures var k := Signed(exp);
      At(text, p + k, exp[k..]) && text[p + k] == exp[k..][0] && Digit(text[p + k])
  {
    hide At;
    var k := Signed(exp);
    Inside(text, p, exp);
    P.BytesAt(text, p, exp);
    assert text[p + 0] == exp[0];
    assert exp == exp[..k] + exp[k..];
    AtParts(text, p, exp[..k], exp[k..]);
  }

  lemma WholeValue(n: Numeral)
    requires Fine(n)
    ensures L.ToNumber(Whole(n), []) == NumberValue(Whole(n))
  {
    hide L.FromDecimal;
    assert Whole(n)[0] == 0x2D <==> n.minus;
    assert (if n.minus then Whole(n)[1..] else Whole(n)) == n.whole;
  }

  lemma OtherValue(n: Numeral, rest: seq<byte>)
    requires Fine(n) && rest != [] && !Digit(rest[0])
    ensures L.ToNumber(Whole(n), rest) == L.Other(Whole(n) + rest) == NumberValue(Whole(n) + rest)
  {
    hide L.FromDecimal;
    var text := Whole(n) + rest;
    assert text[|Whole(n)|] == rest[0];
    assert text[0] == Whole(n)[0];
    assert Whole(n)[0] == 0x2D ==> text[1..][|Whole(n)| - 1] == rest[0];
  }

  lemma NumberIs(n: Numeral)
    requires Fine(n)
    ensures L.ToNumber(Whole(n), n.frac + n.exp) == NumberValue(NumberText(n))
  {
    hide L.ToNumber, NumberValue, Whole;
    var rest := n.frac + n.exp;
    TextParts(n);
    if rest == [] {
      WholeValue(n);
      assert Whole(n) + [] == Whole(n);
    } else {
      OtherValue(n, rest);
    }
  }

  lemma TextParts(n: Numeral)
    ensures NumberText(n) == Whole(n) + (n.frac + n.exp)
    ensures |Whole(n)| == (if n.minus then 1 else 0) + |n.whole|
  {
  }

  /** Where the parts of a numeral lie. */
  lemma PartsLie(text: seq<byte>, p: nat, n: Numeral, after: seq<byte>)
    requires At(text, p, NumberText(n) + after)
    ensures var i := p + |Whole(n)|; var f := i + |n.frac|;
      && At(text, p, Whole(n)) && At(text, i, n.frac) && At(text, f, n.exp) && At(text, f + |n.exp|, after)
      && At(text, i, n.frac + n.exp)
  {
    hide At, Whole;
    TextParts(n);
    var rest := n.frac + n.exp;
    AtParts(text, p, NumberText(n), after);
    AtParts(text, p, Whole(n), rest);
    AtParts(text, p + |Whole(n)|, n.frac, n.exp);
  }

  /** A numeral that a delimiter follows is read whole, and up to its last character. */
  lemma NumberReads(text: seq<byte>, p: nat, n: Numeral, after: seq<byte>)
    requires Fine(n) && At(text, p, NumberText(n) + after) && Delimited(after)
    requires p + |NumberText(n)| + |after| == |text|
    ensures p < |text| && (text[p] == 0x2D || Digit(text[p]))
    ensures L.GrokNumber(text, p) == L.Got(NumberValue(NumberText(n)), p + |NumberText(n)|)
  {
    hide L.DigitsEnd, L.IntegerEnd, L.FractionEnd, L.ExponentEnd, L.ToNumber, NumberValue, NumberText;
    hide At, Fine, Whole, Delimited, NoDigit, L.Is;
    var i := p + |Whole(n)|;
    var f := i + |n.frac|;
    TextParts(n);
    PartsLie(text, p, n, after);
    DelimitedEnds(text, f + |n.exp|, after);
    ExponentStarts(text, f, n);
    FractionStarts(text, i, n);
    WholeReads(text, p, n);
    FractionReads(text, i, n);
    ExponentReads(text, f, n);
    NumberIs(n);
    Sliced(text, p, Whole(n));
    Sliced(text, i, n.frac + n.exp);
  }

  lemma Sliced(text: seq<byte>, p: nat, s: seq<byte>)
    requires At(text, p, s)
    ensures p + |s| <= |text| && text[p..p + |s|] == s
  {
  }

  /** A delimiter, or the end of the text, is no part of a number. */
  lemma DelimitedEnds(text: seq<byte>, p: nat, after: seq<byte>)
    requires At(text, p, after) && p + |after| == |text| && Delimited(after)
    ensures NoDigit(text, p) && !L.Is(text, p, 0x2E) && !L.Is(text, p, 0x45) && !L.Is(text, p, 0x65)
  {
    if after != [] {
      AtFirst(text, p, after);
    }
  }

  lemma ExponentStarts(text: seq<byte>, p: nat, n: Numeral)
    requires Fine(n) && At(text, p, n.exp)
    requires n.exp == [] ==> NoDigit(text, p) && !L.Is(text, p, 0x2E)
    ensures NoDigit(text, p) && !L.Is(text, p, 0x2E)
  {
    if n.exp != [] {
      AtFirst(text, p, n.exp);
    }
  }

  lemma FractionStarts(text: seq<byte>, p: nat, n: Numeral)
    requires Fine(n) && At(text, p, n.frac)
    requires n.frac == [] ==> NoDigit(text, p)
    ensures NoDigit(text, p)
  {
    if n.frac != [] {
      AtFirst(text, p, n.frac);
    }
  }

  // ---------------------------------------------------------------- tokens

  /** From p on the text is that of the lexemes. */
  predicate Rest(text: seq<byte>, p: nat, xs: seq<Lexeme>, tail: seq<byte>) {
    At(text, p, Written(xs, tail)) && p + |Written(xs, tail)| == |text|
  }

  lemma {:induction false} SkipsWhite(text: seq<byte>, p: nat, w: seq<byte>)
    requires At(text, p, w) && AllWhite(w) && (p + |w| < |text| ==> !White(text[p + |w|]))
    ensures L.Skip(text, p) == p + |w|
    decreases |w|
  {
    if w != [] {
      assert w == [w[0]] + w[1..];
      AtFirst(text, p, w);
      AtParts(text, p, [w[0]], w[1..]);
      SkipsWhite(text, p + 1, w[1..]);
    }
  }

  lemma SpellingStarts(x: Lexeme)
    requires Proper(x)
    ensures Spelling(x) != [] && !White(Spelling(x)[0])
  {
    match x
    case Mark(_, _) =>
    case Quoted(_, _) =>
    case Numeric(_, n) => NumberShape(n);
  }

  lemma WrittenParts(xs: seq<Lexeme>, tail: seq<byte>)
    requires ProperAll(xs) && xs != []
    ensures Written(xs, tail) == xs[0].white + (Spelling(xs[0]) + Written(xs[1..], tail))
    ensures AllWhite(xs[0].white) && Proper(xs[0])
  {
    hide Spelling;
  }

  /** The next token begins behind the white space, and the others behind it. */
  lemma NextToken(text: seq<byte>, p: nat, xs: seq<Lexeme>, tail: seq<byte>)
    requires ProperAll(xs) && xs != [] && Rest(text, p, xs, tail)
    ensures p <= |text| && L.Skip(text, p) < |text|
    ensures var s := L.Skip(text, p);
      At(text, s, Spelling(xs[0])) && Rest(text, s + |Spelling(xs[0])|, xs[1..], tail) && !White(text[s])
  {
    hide At, Spelling, Written, ProperAll, Proper, AllWhite;
    var x, after := xs[0], Written(xs[1..], tail);
    WrittenParts(xs, tail);
    AtParts(text, p, x.white, Spelling(x) + after);
    AtParts(text, p + |x.white|, Spelling(x), after);
    Inside(text, p, x.white);
    SpellingStarts(x);
    AtFirst(text, p + |x.white|, Spelling(x));
    SkipsWhite(text, p, x.white);
  }

  function CharOf(t: Token): byte {
    match t
    case ObjBegin => L.LBRACE
    case ObjEnd => L.RBRACE
    case ArrBegin => L.LBRACKET
    case ArrEnd => L.RBRACKET
    case Colon => L.COLON
    case Comma => L.COMMA
    case _ => 0
  }

  /** A structural character. */
  lemma NextMark(text: seq<byte>, p: nat, xs: seq<Lexeme>, tail: seq<byte>)
    requires ProperAll(xs) && xs != [] && Rest(text, p, xs, tail) && CharOf(TokenOf(xs[0])) != 0
    ensures p <= |text|
    ensures var s := L.Skip(text, p);
      s < |text| && text[s] == CharOf(TokenOf(xs[0])) && Rest(text, s + 1, xs[1..], tail)
  {
    hide Rest;
    NextToken(text, p, xs, tail);
    MarkSpelling(xs[0]);
    AtFirst(text, L.Skip(text, p), Spelling(xs[0]));
  }

  lemma MarkSpelling(x: Lexeme)
    requires Proper(x) && CharOf(TokenOf(x)) != 0
    ensures Spelling(x) == [CharOf(TokenOf(x))]
  {
  }

  // ---------------------------------------------------------------- values

  /** From p on come the lexemes of these tokens, with a delimiter behind each number. */
  ghost predicate Stands(text: seq<byte>, p: nat, xs: seq<Lexeme>, tail: seq<byte>, ts: seq<Token>) {
    ProperAll(xs) && AllWhite(tail) && TokensOf(xs) == ts && Separated(ts) && Rest(text, p, xs, tail)
  }

  lemma StandsNext(text: seq<byte>, p: nat, q: nat, xs: seq<Lexeme>, tail: seq<byte>, t: Token, ts: seq<Token>)
    requires Stands(text, p, xs, tail, [t] + ts) && Rest(text, q, xs[1..], tail)
    ensures Stands(text, q, xs[1..], tail, ts)
  {
    hide Separated, Rest, TokenOf, Proper;
    SeparatedRest(xs);
    assert TokensOf(xs)[1..] == ([t] + ts)[1..];
  }

  lemma StandsFirst(text: seq<byte>, p: nat, xs: seq<Lexeme>, tail: seq<byte>, t: Token, ts: seq<Token>)
    requires Stands(text, p, xs, tail, [t] + ts)
    ensures xs != [] && TokenOf(xs[0]) == t
  {
    hide Separated, Rest, TokenOf;
    assert TokensOf(xs)[0] == t;
  }

  /** A structural character, and what stands behind it. */
  lemma MarkReads(text: seq<byte>, p: nat, xs: seq<Lexeme>, tail: seq<byte>, t: Token, ts: seq<Token>)
    requires Stands(text, p, xs, tail, [t] + ts) && CharOf(t) != 0
    ensures xs != [] && p <= |text|
    ensures var s := L.Skip(text, p);
      s < |text| && text[s] == CharOf(t) && Stands(text, s + 1, xs[1..], tail, ts)
  {
    hide Separated, Rest, Stands, CharOf;
    StandsFirst(text, p, xs, tail, t, ts);
    StandsParts(text, p, xs, tail, [t] + ts);
    NextMark(text, p, xs, tail);
    StandsNext(text, p, L.Skip(text, p) + 1, xs, tail, t, ts);
  }

  lemma StandsParts(text: seq<byte>, p: nat, xs: seq<Lexeme>, tail: seq<byte>, ts: seq<Token>)
    requires Stands(text, p, xs, tail, ts)
    ensures ProperAll(xs) && AllWhite(tail) && TokensOf(xs) == ts && Separated(ts) && Rest(text, p, xs, tail)
  {
  }

  /** A string, as a value or as a key. */
  lemma StrReads(text: seq<byte>, p: nat, xs: seq<Lexeme>, tail: seq<byte>, s: seq<byte>, ts: seq<Token>)
    returns (q: nat)
    requires Stands(text, p, xs, tail, [Str(s)] + ts)
    ensures xs != [] && p <= |text| && L.Skip(text, p) < |text| && text[L.Skip(text, p)] == QUOTE
    ensures L.GrokStr(text, L.Skip(text, p)) == L.Got(s, q) && Stands(text, q, xs[1..], tail, ts)
  {
    hide Separated, Rest, Stands, At, TextAll, MeaningAll, L.GrokStr;
    StandsFirst(text, p, xs, tail, Str(s), ts);
    StandsParts(text, p, xs, tail, [Str(s)] + ts);
    NextToken(text, p, xs, tail);
    var i := L.Skip(text, p);
    StringReads(text, i, xs[0].pieces);
    q := i + |Spelling(xs[0])|;
    StandsNext(text, p, q, xs, tail, Str(s), ts);
  }

  lemma NumReads(text: seq<byte>, p: nat, xs: seq<Lexeme>, tail: seq<byte>, s: seq<byte>, ts: seq<Token>)
    returns (q: nat)
    requires Stands(text, p, xs, tail, [Num(s)] + ts)
    ensures xs != [] && p <= |text| && L.Skip(text, p) < |text|
    ensures var c := text[L.Skip(text, p)]; c == 0x2D || Digit(c)
    ensures L.GrokNumber(text, L.Skip(text, p)) == L.Got(NumberValue(s), q) && Stands(text, q, xs[1..], tail, ts)
  {
    hide Separated, Rest, Stands, At, Spelling, NumberValue, L.GrokNumber, L.Skip, Proper, TokenOf, AllWhite, Digit;
    StandsFirst(text, p, xs, tail, Num(s), ts);
    StandsParts(text, p, xs, tail, [Num(s)] + ts);
    NextToken(text, p, xs, tail);
    NumberLexeme(xs[0], s);
    SeparatedRest(xs);
    q := NumberThere(text, L.Skip(text, p), xs, tail);
    StandsNext(text, p, q, xs, tail, Num(s), ts);
  }

  lemma NumberLexeme(x: Lexeme, s: seq<byte>)
    requires Proper(x) && TokenOf(x) == Num(s)
    ensures x.Numeric? && Spelling(x) == s
  {
  }

  lemma NumberThere(text: seq<byte>, i: nat, xs: seq<Lexeme>, tail: seq<byte>) returns (q: nat)
    requires ProperAll(xs) && xs != [] && xs[0].Numeric? && AllWhite(tail) && At(text, i, Spelling(xs[0]))
    requires Rest(text, i + |Spelling(xs[0])|, xs[1..], tail)
    requires |xs| > 1 ==> TokenOf(xs[1]) in {ObjEnd, ArrEnd, Comma}
    ensures q == i + |Spelling(xs[0])| && i < |text| && (text[i] == 0x2D || Digit(text[i]))
    ensures L.GrokNumber(text, i) == L.Got(NumberValue(Spelling(xs[0])), q)
  {
    hide Rest, At, Fine, NumberText, NumberValue, L.GrokNumber, Delimited, Written, AllWhite, TokenOf, Digit;
    q := i + |Spelling(xs[0])|;
    WrittenDelimits(xs[1..], tail);
    RestParts(text, q, xs[1..], tail);
    AtParts(text, i, Spelling(xs[0]), Written(xs[1..], tail));
    NumberReads(text, i, xs[0].n, Written(xs[1..], tail));
  }

  lemma RestParts(text: seq<byte>, p: nat, xs: seq<Lexeme>, tail: seq<byte>)
    requires Rest(text, p, xs, tail)
    ensures At(text, p, Written(xs, tail)) && p + |Written(xs, tail)| == |text|
  {
  }

  lemma WordReads(text: seq<byte>, p: nat, xs: seq<Lexeme>, tail: seq<byte>, t: Token, ts: seq<Token>) returns (q: nat)
    requires Stands(text, p, xs, tail, [t] + ts) && (t.Boolean? || t.Null?)
    ensures xs != [] && p <= |text|
    ensures L.GrokOne(text, L.Skip(text, p)) == L.Got(if t.Null? then L.Nil else L.Bool(t.b), q)
    ensures Stands(text, q, xs[1..], tail, ts)
  {
    hide Separated, Rest, Stands, At, L.GrokOne;
    StandsFirst(text, p, xs, tail, t, ts);
    StandsParts(text, p, xs, tail, [t] + ts);
    NextToken(text, p, xs, tail);
    var i := L.Skip(text, p);
    q := i + |Spelling(xs[0])|;
    P.GrokAtom(text, i, if t.Null? then L.Nil else L.Bool(t.b), Spelling(xs[0]));
    StandsNext(text, p, q, xs, tail, t, ts);
  }

  /** The value whose tokens stand at p is read, and nothing behind it. */
  lemma {:induction false} ValueReads(text: seq<byte>, p: nat, v: Json, xs: seq<Lexeme>, tail: seq<byte>,
                                      ts: seq<Token>)
    returns (q: nat, ys: seq<Lexeme>)
    requires Stands(text, p, xs, tail, Lin(v) + ts)
    ensures p <= |text| && L.GrokOne(text, p) == L.Got(ValueOf(v), q) && Stands(text, q, ys, tail, ts)
    decreases v, 1
  {
    hide Separated, Rest, Stands, At, L.GrokOne, L.GrokStr, L.GrokNumber, L.Skip, NumberValue, LinMembers, LinItems;
    ys := xs[|xs|..];
    match v
    case JString(s) =>
      q := StrReads(text, p, xs, tail, s, ts);
      ys := xs[1..];
      GrokLeaf(text, p);
    case JNumber(s) =>
      q := NumReads(text, p, xs, tail, s, ts);
      ys := xs[1..];
      GrokLeaf(text, p);
    case JBool(b) =>
      q := WordReads(text, p, xs, tail, Boolean(b), ts);
      ys := xs[1..];
      L.SkippedAlready(text, p);
    case JNull =>
      q := WordReads(text, p, xs, tail, Null, ts);
      ys := xs[1..];
      L.SkippedAlready(text, p);
    case JObject(ms) => q, ys := ObjectReads(text, p, ms, xs, tail, ts);
    case JArray(items) => q, ys := ArrayReads(text, p, items, xs, tail, ts);
  }

  lemma GrokLeaf(text: seq<byte>, p: nat)
    requires p <= |text| && L.Skip(text, p) < |text|
    ensures var i := L.Skip(text, p);
      text[i] == QUOTE && L.GrokStr(text, i).Got? ==>
        L.GrokOne(text, p) == L.Got(L.Str(L.GrokStr(text, i).value), L.GrokStr(text, i).next)
    ensures var i := L.Skip(text, p);
      text[i] == 0x2D || Digit(text[i]) ==> L.GrokOne(text, p) == L.GrokNumber(text, i)
  {
    hide L.GrokMembers, L.GrokItems, L.GrokStr, L.GrokNumber, L.Skip;
  }

  lemma {:induction false} ObjectReads(text: seq<byte>, p: nat, ms: seq<Member>, xs: seq<Lexeme>, tail: seq<byte>,
                                       ts: seq<Token>)
    returns (q: nat, ys: seq<Lexeme>)
    requires Stands(text, p, xs, tail, Lin(JObject(ms)) + ts)
    ensures p <= |text| && L.GrokOne(text, p) == L.Got(ValueOf(JObject(ms)), q) && Stands(text, q, ys, tail, ts)
    decreases ms, 1
  {
    hide Separated, Rest, Stands, At, L.GrokOne, L.GrokMembers, L.Skip, LinMembers, MembersOf;
    var body := if ms == [] then [ObjEnd] + ts else LinMembers(ms) + ([ObjEnd] + ts);
    assert Lin(JObject(ms)) + ts == [ObjBegin] + body;
    MarkReads(text, p, xs, tail, ObjBegin, body);
    var i := L.Skip(text, p);
    L.GrokOneUnfold(text, p);
    if ms == [] {
      MarkReads(text, i + 1, xs[1..], tail, ObjEnd, ts);
      q, ys := L.Skip(text, i + 1) + 1, xs[1..][1..];
      NoMembers();
    } else {
      q, ys := MembersRead(text, i + 1, ms, xs[1..], tail, ts, map[]);
    }
  }

  lemma NoMembers()
    ensures MembersOf([], map[]) == map[]
  {
  }

  lemma {:induction false} MembersRead(text: seq<byte>, p: nat, ms: seq<Member>, xs: seq<Lexeme>, tail: seq<byte>,
                                       ts: seq<Token>, t: map<L.Key, L.Value>)
    returns (q: nat, ys: seq<Lexeme>)
    requires ms != [] && Stands(text, p, xs, tail, LinMembers(ms) + ([ObjEnd] + ts))
    ensures p <= |text| && L.Skip(text, p) < |text| && text[L.Skip(text, p)] == QUOTE
    ensures L.GrokMembers(text, L.Skip(text, p), t) == L.Got(L.Table(MembersOf(ms, t)), q)
    ensures Stands(text, q, ys, tail, ts)
    decreases ms, 0
  {
    hide Separated, Rest, Stands, At, L.GrokOne, L.GrokMembers, L.GrokStr, L.Skip, Lin, LinMembers, ValueOf;
    var m := ms[0];
    var last := [ObjEnd] + ts;
    var after := if |ms| == 1 then last else [Comma] + (LinMembers(ms[1..]) + last);
    LinMembersUnfold(ms, last);
    var j := StrReads(text, p, xs, tail, m.key, [Colon] + (Lin(m.value) + after));
    MarkReads(text, j, xs[1..], tail, Colon, Lin(m.value) + after);
    var c := L.Skip(text, j);
    var k, zs := ValueReads(text, c + 1, m.value, xs[1..][1..], tail, after);
    L.SkippedAlready(text, c + 1);
    L.MembersUnfold(text, L.Skip(text, p), t);
    var u := L.Assign(t, L.Name(m.key), ValueOf(m.value));
    if |ms| == 1 {
      MarkReads(text, k, zs, tail, ObjEnd, ts);
      q, ys := L.Skip(text, k) + 1, zs[1..];
    } else {
      MarkReads(text, k, zs, tail, Comma, LinMembers(ms[1..]) + last);
      q, ys := MembersRead(text, L.Skip(text, k) + 1, ms[1..], zs[1..], tail, ts, u);
    }
  }

  lemma {:induction false} ArrayReads(text: seq<byte>, p: nat, items: seq<Json>, xs: seq<Lexeme>, tail: seq<byte>,
                                      ts: seq<Token>)
    returns (q: nat, ys: seq<Lexeme>)
    requires Stands(text, p, xs, tail, Lin(JArray(items)) + ts)
    ensures p <= |text| && L.GrokOne(text, p) == L.Got(ValueOf(JArray(items)), q) && Stands(text, q, ys, tail, ts)
    decreases items, 1
  {
    hide Separated, Rest, Stands, At, L.GrokOne, L.GrokItems, L.Skip, LinItems, Kept;
    var body := if items == [] then [ArrEnd] + ts else LinItems(items) + ([ArrEnd] + ts);
    assert Lin(JArray(items)) + ts == [ArrBegin] + body;
    MarkReads(text, p, xs, tail, ArrBegin, body);
    var i := L.Skip(text, p);
    L.GrokOneUnfold(text, p);
    NoItems();
    if items == [] {
      MarkReads(text, i + 1, xs[1..], tail, ArrEnd, ts);
      q, ys := L.Skip(text, i + 1) + 1, xs[1..][1..];
    } else {
      q, ys := ItemsRead(text, i + 1, items, xs[1..], tail, ts, []);
      assert [] + Kept(items) == Kept(items);
    }
  }

  lemma NoItems()
    ensures Kept([]) == [] && Filled([]) == map[]
  {
  }

  lemma OneMore(vs: seq<L.Value>, w: L.Value)
    ensures L.Assign(Filled(vs), L.Index(|vs| + 1), w) == Filled(if w.Nil? then vs else vs + [w])
  {
  }

  lemma {:induction false} ItemsRead(text: seq<byte>, p: nat, items: seq<Json>, xs: seq<Lexeme>, tail: seq<byte>,
                                     ts: seq<Token>, vs: seq<L.Value>)
    returns (q: nat, ys: seq<Lexeme>)
    requires items != [] && Stands(text, p, xs, tail, LinItems(items) + ([ArrEnd] + ts))
    ensures p <= |text| && L.Skip(text, p) < |text| && text[L.Skip(text, p)] != L.RBRACKET
    ensures L.GrokItems(text, L.Skip(text, p), |vs|, Filled(vs)) == L.Got(L.Table(Filled(vs + Kept(items))), q)
    ensures Stands(text, q, ys, tail, ts)
    decreases items, 0
  {
    hide Separated, Rest, Stands, At, L.GrokOne, L.GrokItems, L.Skip, L.Assign, Lin, LinItems, ValueOf, Filled, Kept;
    var last := [ArrEnd] + ts;
    var after := if |items| == 1 then last else [Comma] + (LinItems(items[1..]) + last);
    LinItemsUnfold(items, last);
    ItemStarts(text, p, items[0], xs, tail, after);
    var i := L.Skip(text, p);
    var k, zs := ValueReads(text, p, items[0], xs, tail, after);
    L.SkippedAlready(text, p);
    L.ItemsUnfold(text, i, |vs|, Filled(vs));
    var w := ValueOf(items[0]);
    OneMore(vs, w);
    var us := if w.Nil? then vs else vs + [w];
    KeptMore(vs, items);
    if |items| == 1 {
      MarkReads(text, k, zs, tail, ArrEnd, ts);
      q, ys := L.Skip(text, k) + 1, zs[1..];
      assert items[1..] == [] && us + [] == us;
    } else {
      MarkReads(text, k, zs, tail, Comma, LinItems(items[1..]) + last);
      q, ys := ItemsRead(text, L.Skip(text, k) + 1, items[1..], zs[1..], tail, ts, us);
    }
  }

  lemma KeptMore(vs: seq<L.Value>, items: seq<Json>)
    requires items != []
    ensures var w := ValueOf(items[0]); vs + Kept(items) == (if w.Nil? then vs else vs + [w]) + Kept(items[1..])
    ensures Kept([]) == []
  {
    hide ValueOf;
  }

  /** A value begins with no closing bracket. */
  lemma ItemStarts(text: seq<byte>, p: nat, v: Json, xs: seq<Lexeme>, tail: seq<byte>, ts: seq<Token>)
    requires Stands(text, p, xs, tail, Lin(v) + ts)
    ensures p <= |text| && L.Skip(text, p) < |text| && text[L.Skip(text, p)] != L.RBRACKET
  {
    hide Separated, Rest, Stands, At, LinMembers, LinItems;
    var t := Lin(v)[0];
    assert Lin(v) + ts == [t] + (Lin(v)[1..] + ts);
    StandsFirst(text, p, xs, tail, t, Lin(v)[1..] + ts);
    StandsParts(text, p, xs, tail, Lin(v) + ts);
    NextToken(text, p, xs, tail);
    StartOf(xs[0]);
    AtFirst(text, L.Skip(text, p), Spelling(xs[0]));
  }

  lemma StartOf(x: Lexeme)
    requires Proper(x) && TokenOf(x) != ArrEnd
    ensures Spelling(x) != [] && Spelling(x)[0] != L.RBRACKET
    ensures Spelling(x)[0] != 0x3C && !L.Space(Spelling(x)[0]) && Spelling(x)[0] != 0
  {
    match x
    case Mark(_, _) =>
    case Quoted(_, _) =>
    case Numeric(_, n) => NumberShape(n);
  }

  /** JSON:decode of any JSON text of a value gives the value. */
  lemma EveryTextIsParsed(v: Json, xs: seq<Lexeme>, tail: seq<byte>)
    requires ProperAll(xs) && AllWhite(tail) && TokensOf(xs) == Lin(v)
    ensures L.Decode(Written(xs, tail)) == L.Got(ValueOf(v), |Written(xs, [])|)
  {
    hide Lin, TokensOf, ProperAll, AllWhite, Written, Separated, ValueOf, L.GrokOne, Stands, L.Skip;
    var text := Written(xs, tail);
    assert Lin(v) + [] == Lin(v);
    NothingSeparated();
    LinSeparated(v, []);
    assert text[0..0 + |text|] == text;
    StandsAtStart(v, xs, tail);
    var q, ys := ValueReads(text, 0, v, xs, tail, []);
    NothingStands(text, q, ys, tail);
    WrittenLength(xs, tail);
    NoSpecialText(v, xs, tail);
  }

  lemma StandsAtStart(v: Json, xs: seq<Lexeme>, tail: seq<byte>)
    requires ProperAll(xs) && AllWhite(tail) && TokensOf(xs) == Lin(v) && Separated(Lin(v))
    ensures Stands(Written(xs, tail), 0, xs, tail, Lin(v) + [])
  {
    hide Lin, TokensOf, ProperAll, AllWhite, Written, Separated;
    var text := Written(xs, tail);
    assert text[0..0 + |text|] == text && Lin(v) + [] == Lin(v);
  }

  lemma NothingStands(text: seq<byte>, q: nat, ys: seq<Lexeme>, tail: seq<byte>)
    requires Stands(text, q, ys, tail, [])
    ensures q + |tail| == |text|
  {
  }

  lemma {:induction false} WrittenLength(xs: seq<Lexeme>, tail: seq<byte>)
    ensures Written(xs, tail) == Written(xs, []) + tail
  {
    hide Spelling;
    if xs != [] {
      WrittenLength(xs[1..], tail);
    }
  }

  /** A JSON text is neither blank nor HTML nor of wider characters. */
  lemma NoSpecialText(v: Json, xs: seq<Lexeme>, tail: seq<byte>)
    requires ProperAll(xs) && AllWhite(tail) && TokensOf(xs) == Lin(v) && Separated(Lin(v))
    ensures L.Decode(Written(xs, tail)) == L.GrokOne(Written(xs, tail), 0)
  {
    hide TokensOf, Written, Separated, L.GrokOne, Stands, LinMembers, LinItems, ProperAll, AllWhite, L.Skip, Rest,
      Spelling;
    var text := Written(xs, tail);
    StandsAtStart(v, xs, tail);
    var t := Lin(v)[0];
    assert Lin(v) + [] == [t] + (Lin(v)[1..] + []);
    StandsFirst(text, 0, xs, tail, t, Lin(v)[1..] + []);
    StandsParts(text, 0, xs, tail, Lin(v) + []);
    NextToken(text, 0, xs, tail);
    StartOf(xs[0]);
    AtFirst(text, L.Skip(text, 0), Spelling(xs[0]));
    WrittenNoNul(xs, tail);
    SkippedIsWhite(text, 0);
    assert text[0] in text && (|text| >= 2 ==> text[1] in text);
  }

  lemma {:induction false} SkippedIsWhite(text: seq<byte>, p: nat)
    requires p <= |text|
    ensures forall i | p <= i < L.Skip(text, p) :: White(text[i])
    decreases |text| - p
  {
    if p < |text| && White(text[p]) {
      SkippedIsWhite(text, p + 1);
    }
  }

  const ONE_AND_A_HALF := Numeral(false, [0x31], [0x2E, 0x35], [])

  /** [1.5] */
  lemma FractionExample()
    ensures var number := [0x31, 0x2E, 0x35];
      L.Decode([0x5B] + number + [0x5D]) == L.Got(L.Table(map[L.Index(1) := L.Other(number)]), 5)
  {
    hide L.Decode, TokensOf, Written, Filled, Kept, NumberValue, Fine, NumberText;
    var number := [0x31, 0x2E, 0x35];
    OneAndAHalf();
    var xs := [Mark([], ArrBegin), Numeric([], ONE_AND_A_HALF), Mark([], ArrEnd)];
    var v := JArray([JNumber(number)]);
    ThreeLexemes(xs);
    assert LinItems([JNumber(number)]) == Lin(JNumber(number)) + [];
    assert Lin(v) == [ArrBegin] + ([Num(number)] + [ArrEnd]);
    assert Written(xs, []) == [0x5B] + number + [0x5D];
    EveryTextIsParsed(v, xs, []);
    OneKept(number);
  }

  lemma OneAndAHalf()
    ensures var number := [0x31, 0x2E, 0x35];
      && Fine(ONE_AND_A_HALF) && NumberText(ONE_AND_A_HALF) == number && NumberValue(number) == L.Other(number)
  {
    assert !Digits([0x31, 0x2E, 0x35]) by { assert [0x31, 0x2E, 0x35][1] == 0x2E; }
  }

  lemma ThreeLexemes(xs: seq<Lexeme>)
    requires |xs| == 3 && ProperAll(xs)
    ensures TokensOf(xs) == [TokenOf(xs[0]), TokenOf(xs[1]), TokenOf(xs[2])]
    ensures Written(xs, []) == xs[0].white + Spelling(xs[0]) + (xs[1].white + Spelling(xs[1])
                                                                + (xs[2].white + Spelling(xs[2])))
  {
    hide TokenOf, Spelling, Proper;
    assert xs[1..][1..] == xs[2..] && xs[2..][1..] == [];
    assert Written(xs[2..], []) == xs[2].white + Spelling(xs[2]) + [];
    assert TokensOf(xs[2..]) == [TokenOf(xs[2])] + [];
    assert Written(xs[1..], []) == xs[1].white + Spelling(xs[1]) + Written(xs[2..], []);
    assert TokensOf(xs[1..]) == [TokenOf(xs[1])] + TokensOf(xs[2..]);
  }

  lemma OneKept(number: seq<byte>)
    requires NumberValue(number) == L.Other(number)
    ensures Filled(Kept([JNumber(number)])) == map[L.Index(1) := L.Other(number)]
  {
    hide NumberValue;
    assert [JNumber(number)][1..] == [];
  }
}
