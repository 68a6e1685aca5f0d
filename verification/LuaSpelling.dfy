/** Which texts the Lua module parses: only those of JSON, but for what it lets pass inside strings. */
module LuaSpelling {
  import opened ByteSeq
  import opened Ascii
  import opened JsonString
  import opened JsonGrammar
  import T = JsonText
  import L = LuaJson
  import P = LuaJsonPrinter
  import opened LuaText
  import Utf8

  // ---------------------------------------------------------------- what is spelled

  /** The characters of JSON's two-character escapes. */
  const SHORT: set<byte> := {0x22, 0x5C, 0x2F, 0x62, 0x66, 0x6E, 0x72, 0x74}

  /** A part of a string: a piece that JSON allows; a NUL; an escaped surrogate on its own, which becomes a
      question mark; or a backslash in front of any character, which stays as it is. */
  datatype Part = Fair(x: Piece) | Nul | Lone(hex: seq<byte>) | Passed(c: byte)

  predicate Legal(x: Part) {
    match x
    case Fair(y) => Allowed(y)
    case Nul => true
    case Lone(hex) => |hex| == 4 && UnitValue(hex).Some? && 0xD800 <= UnitValue(hex).value <= 0xDFFF
    case Passed(c) => c !in SHORT
  }

  function PartText(x: Part): (s: seq<byte>)
    ensures s != []
  {
    match x
    case Fair(y) => Text(y)
    case Nul => [0]
    case Lone(hex) => [BACKSLASH, U] + hex
    case Passed(c) => [BACKSLASH, c]
  }

  function PartMeaning(x: Part): seq<byte>
    requires Legal(x)
  {
    match x
    case Fair(y) => Meaning(y)
    case Nul => [0]
    case Lone(_) => [0x3F]
    case Passed(c) => [c]
  }

  predicate LegalAll(xs: seq<Part>) { forall i | 0 <= i < |xs| :: Legal(xs[i]) }

  function PartsText(xs: seq<Part>): seq<byte> {
    if xs == [] then [] else PartText(xs[0]) + PartsText(xs[1..])
  }

  function PartsMeaning(xs: seq<Part>): seq<byte>
    requires LegalAll(xs)
  {
    if xs == [] then [] else PartMeaning(xs[0]) + PartsMeaning(xs[1..])
  }

  /** A token as it is written: white space, then its spelling. */
  datatype Word = Word(white: seq<byte>, body: Body)
  datatype Body = Mark(t: Token) | Quoted(parts: seq<Part>) | Numeric(n: T.Numeral)

  predicate WordOk(w: Word) {
    && T.AllWhite(w.white)
    && match w.body
       case Mark(t) => !t.Str? && !t.Num? && !t.End? && !t.Error?
       case Quoted(parts) => LegalAll(parts)
       case Numeric(n) => T.Fine(n)
  }

  function Spelled(w: Word): seq<byte> {
    match w.body
    case Mark(t) => T.Spelling(T.Mark([], t))
    case Quoted(parts) => [QUOTE] + PartsText(parts) + [QUOTE]
    case Numeric(n) => T.NumberText(n)
  }

  function WordToken(w: Word): Token
    requires WordOk(w)
  {
    match w.body
    case Mark(t) => t
    case Quoted(parts) => Str(PartsMeaning(parts))
    case Numeric(n) => Num(T.NumberText(n))
  }

  predicate WordsOk(ws: seq<Word>) { forall i | 0 <= i < |ws| :: WordOk(ws[i]) }

  function WordsToken(ws: seq<Word>): seq<Token>
    requires WordsOk(ws)
  {
    if ws == [] then [] else [WordToken(ws[0])] + WordsToken(ws[1..])
  }

  function WordsText(ws: seq<Word>): seq<byte> {
    if ws == [] then [] else ws[0].white + Spelled(ws[0]) + WordsText(ws[1..])
  }

  /** From p to q the text is that of the words, and their tokens are these. */
  ghost predicate Spells(text: seq<byte>, p: nat, q: nat, ws: seq<Word>, ts: seq<Token>) {
    WordsOk(ws) && WordsToken(ws) == ts && At(text, p, WordsText(ws)) && q == p + |WordsText(ws)|
  }

  lemma WordsUnfold(w: Word, ws: seq<Word>)
    requires WordOk(w) && WordsOk(ws)
    ensures WordsOk([w] + ws) && WordsToken([w] + ws) == [WordToken(w)] + WordsToken(ws)
    ensures WordsText([w] + ws) == w.white + Spelled(w) + WordsText(ws)
  {
    hide WordOk, WordToken, Spelled;
    assert ([w] + ws)[1..] == ws;
  }

  lemma {:induction false} WordsConcat(a: seq<Word>, b: seq<Word>)
    requires WordsOk(a) && WordsOk(b)
    ensures WordsOk(a + b) && WordsToken(a + b) == WordsToken(a) + WordsToken(b)
    ensures WordsText(a + b) == WordsText(a) + WordsText(b)
    decreases |a|
  {
    hide WordOk, WordToken, Spelled, WordsToken, WordsText;
    if a == [] {
      assert a + b == b;
      NoWords();
    } else {
      var rest := a[1..];
      assert a == [a[0]] + rest && a + b == [a[0]] + (rest + b);
      WordsConcat(rest, b);
      WordsUnfold(a[0], rest);
      WordsUnfold(a[0], rest + b);
    }
  }

  lemma NoWords()
    ensures WordsToken([]) == [] && WordsText([]) == []
  {
  }

  lemma SpellsOn(text: seq<byte>, p: nat, q: nat, r: nat, a: seq<Word>, b: seq<Word>, s: seq<Token>, t: seq<Token>)
    requires Spells(text, p, q, a, s) && Spells(text, q, r, b, t)
    ensures Spells(text, p, r, a + b, s + t)
  {
    hide At, WordsText, WordsToken, WordsOk;
    WordsConcat(a, b);
    AtParts(text, p, WordsText(a), WordsText(b));
  }

  /** One word, behind its white space. */
  lemma OneWord(text: seq<byte>, p: nat, i: nat, q: nat, b: Body) returns (ws: seq<Word>)
    requires p <= i <= |text| && T.AllWhite(text[p..i]) && WordOk(Word([], b))
    requires At(text, i, Spelled(Word([], b))) && q == i + |Spelled(Word([], b))|
    ensures ws == [Word(text[p..i], b)] && Spells(text, p, q, ws, [WordToken(Word([], b))])
  {
    hide At, Spelled, WordToken, WordOk;
    var w := Word(text[p..i], b);
    ws := [w];
    SameBody(w);
    OneToken(w);
    Itself(text, p, i);
    AtParts(text, p, text[p..i], Spelled(w));
  }

  lemma OneToken(w: Word)
    requires WordOk(w)
    ensures WordsOk([w]) && WordsToken([w]) == [WordToken(w)] && WordsText([w]) == w.white + Spelled(w)
  {
    hide Spelled, WordToken, WordOk, WordsToken, WordsText;
    assert [w] + [] == [w];
    NoWords();
    WordsUnfold(w, []);
  }

  lemma SameBody(w: Word)
    requires WordOk(Word([], w.body)) && T.AllWhite(w.white)
    ensures WordOk(w) && WordToken(w) == WordToken(Word([], w.body)) && Spelled(w) == Spelled(Word([], w.body))
  {
  }

  lemma Itself(text: seq<byte>, p: nat, i: nat)
    requires p <= i <= |text|
    ensures At(text, p, text[p..i])
  {
  }

  lemma {:induction false} SkipIsWhite(text: seq<byte>, p: nat)
    requires p <= |text|
    ensures T.AllWhite(text[p..L.Skip(text, p)])
  {
    SkippedIsWhite(text, p);
  }

  /** A structural character behind white space. */
  lemma MarkIsWord(text: seq<byte>, p: nat, t: Token) returns (ws: seq<Word>)
    requires p <= |text| && CharOf(t) != 0 && L.Is(text, L.Skip(text, p), CharOf(t))
    ensures Spells(text, p, L.Skip(text, p) + 1, ws, [t])
  {
    hide L.Skip;
    SkipIsWhite(text, p);
    AtOne(text, L.Skip(text, p), CharOf(t));
    ws := OneWord(text, p, L.Skip(text, p), L.Skip(text, p) + 1, Mark(t));
  }

  // ---------------------------------------------------------------- strings

  /** The part that reading meets at p. */
  function PartAt(text: seq<byte>, p: nat): Part
    requires p < |text| && text[p] != QUOTE && L.Char(text, p).Got?
  {
    if text[p] == 0 then Nul
    else if text[p] != BACKSLASH then Fair(Plain(text[p]))
    else if p + 1 < |text| && text[p + 1] in SHORT then Fair(Short(text[p + 1]))
    else match L.Hex(text, p)
      case None => if p + 1 < |text| then Passed(text[p + 1]) else Nul
      case Some(n) =>
        if L.Char(text, p).next == p + 12 then Fair(Pair(text[p + 2..p + 6], text[p + 8..p + 12]))
        else if 0xD800 <= n <= 0xDFFF then Lone(text[p + 2..p + 6]) else Fair(Unit(text[p + 2..p + 6]))
  }

  lemma HexThere(text: seq<byte>, p: nat)
    requires L.Hex(text, p).Some?
    ensures p + 6 <= |text| && At(text, p, [BACKSLASH, U] + text[p + 2..p + 6])
    ensures UnitValue(text[p + 2..p + 6]) == L.Hex(text, p)
  {
    var hex := text[p + 2..p + 6];
    assert text[p..p + 6] == [BACKSLASH, U] + hex;
    HexIs(text, p, hex);
  }

  lemma PartIsLegal(text: seq<byte>, p: nat)
    requires p < |text| && text[p] != QUOTE && L.Char(text, p).Got?
    ensures var x := PartAt(text, p);
      Legal(x) && At(text, p, PartText(x)) && L.Char(text, p) == L.Got(PartMeaning(x), p + |PartText(x)|)
  {
    hide L.Hex, UnitValue, Utf8.FromCodepoint, L.CodepointAsUtf8, At;
    var x := PartAt(text, p);
    AtOne(text, p, text[p]);
    if x == Nul || (x.Fair? && x.x.Plain?) {
    } else if x.Passed? || (x.Fair? && x.x.Short?) {
      TwoThere(text, p);
    } else {
      HexThere(text, p);
      L.EscapeReads(text, p);
      if x.Fair? && x.x.Pair? {
        HexThere(text, p + 6);
        AtParts(text, p, [BACKSLASH, U] + x.x.high, [BACKSLASH, U] + x.x.low);
        assert Text(x.x) == ([BACKSLASH, U] + x.x.high) + ([BACKSLASH, U] + x.x.low);
      }
    }
  }

  lemma TwoThere(text: seq<byte>, p: nat)
    requires p + 1 < |text| && text[p] == BACKSLASH
    ensures At(text, p, [BACKSLASH, text[p + 1]])
    ensures text[p + 1] in SHORT ==> L.Hex(text, p).None?
  {
    assert text[p..p + 2] == [BACKSLASH, text[p + 1]];
  }

  lemma {:induction false} CharsAreParts(text: seq<byte>, p: nat) returns (xs: seq<Part>)
    requires p <= |text| && L.Chars(text, p).Got?
    ensures LegalAll(xs) && At(text, p, PartsText(xs) + [QUOTE])
    ensures L.Chars(text, p) == L.Got(PartsMeaning(xs), p + |PartsText(xs)| + 1)
    decreases |text| - p
  {
    hide L.Chars, L.Char, PartAt, Legal, PartText, PartMeaning, At;
    L.CharsUnfold(text, p);
    if text[p] == QUOTE {
      xs := [];
      AtOne(text, p, QUOTE);
      assert PartsText(xs) + [QUOTE] == [QUOTE];
    } else {
      var x := PartAt(text, p);
      PartIsLegal(text, p);
      var rest := CharsAreParts(text, p + |PartText(x)|);
      xs := [x] + rest;
      assert xs[1..] == rest;
      assert PartsText(xs) + [QUOTE] == PartText(x) + (PartsText(rest) + [QUOTE]);
      AtParts(text, p, PartText(x), PartsText(rest) + [QUOTE]);
    }
  }

  lemma StringIsWord(text: seq<byte>, p: nat) returns (ws: seq<Word>)
    requires p <= |text| && L.GrokStr(text, L.Skip(text, p)).Got?
    ensures var r := L.GrokStr(text, L.Skip(text, p)); Spells(text, p, r.next, ws, [Str(r.value)])
  {
    hide L.Skip, L.Chars, LegalAll, At, PartsText, PartsMeaning;
    var i := L.Skip(text, p);
    SkipIsWhite(text, p);
    var parts := CharsAreParts(text, i + 1);
    AtOne(text, i, QUOTE);
    assert [QUOTE] + PartsText(parts) + [QUOTE] == [QUOTE] + (PartsText(parts) + [QUOTE]);
    AtParts(text, i, [QUOTE], PartsText(parts) + [QUOTE]);
    ws := OneWord(text, p, i, L.GrokStr(text, i).next, Quoted(parts));
  }

  // ---------------------------------------------------------------- numbers

  lemma DigitsThere(text: seq<byte>, p: nat)
    requires p < |text| && Digit(text[p])
    ensures var j := L.DigitsEnd(text, p); p < j <= |text| && T.Digits(text[p..j])
  {
  }

  /** The numeral that reading takes at p. */
  function NumeralAt(text: seq<byte>, p: nat): T.Numeral
    requires p <= |text| && L.IntegerEnd(text, p).Some?
  {
    var i := L.IntegerEnd(text, p).value;
    var f := L.FractionEnd(text, i);
    var minus := L.Is(text, p, 0x2D);
    T.Numeral(minus, text[if minus then p + 1 else p..i], text[i..f], text[f..L.ExponentEnd(text, f)])
  }

  lemma WholeThere(text: seq<byte>, p: nat)
    requires p <= |text| && L.IntegerEnd(text, p).Some?
    ensures var i, k := L.IntegerEnd(text, p).value, if L.Is(text, p, 0x2D) then p + 1 else p;
      k < i <= |text| && T.Digits(text[k..i]) && (text[k] == 0x30 ==> i == k + 1)
  {
    hide L.DigitsEnd;
    var k := if L.Is(text, p, 0x2D) then p + 1 else p;
    DigitsThere(text, k);
    if 0x31 <= text[k] <= 0x39 {
      DigitsFrom(text, k);
    }
  }

  lemma DigitsFrom(text: seq<byte>, k: nat)
    requires k < |text| && Digit(text[k])
    ensures L.DigitsEnd(text, k) == L.DigitsEnd(text, k + 1)
  {
  }

  lemma FractionThere(text: seq<byte>, i: nat)
    requires i <= |text|
    ensures var s := text[i..L.FractionEnd(text, i)]; s != [] ==> s[0] == 0x2E && T.Digits(s[1..])
  {
    hide L.DigitsEnd;
    var j := L.FractionEnd(text, i);
    if j > i {
      DigitsThere(text, i + 1);
      assert text[i..j][1..] == text[i + 1..j];
    }
  }

  lemma ExponentThere(text: seq<byte>, f: nat)
    requires f <= |text|
    ensures var s := text[f..L.ExponentEnd(text, f)];
      s != [] ==> |s| > 1 && s[0] in {0x45, 0x65} && T.Digits(s[Signed(s)..])
  {
    hide L.DigitsEnd;
    var j := L.ExponentEnd(text, f);
    if j > f {
      var k := if L.Is(text, f + 1, 0x2B) || L.Is(text, f + 1, 0x2D) then f + 2 else f + 1;
      DigitsThere(text, k);
      var s := text[f..j];
      assert s[1] == text[f + 1];
      assert s[k - f..] == text[k..j];
    }
  }

  lemma NumeralIsFine(text: seq<byte>, p: nat)
    requires p <= |text| && L.IntegerEnd(text, p).Some?
    ensures T.Fine(NumeralAt(text, p))
  {
    hide L.IntegerEnd, L.FractionEnd, L.ExponentEnd, T.Digits;
    var i := L.IntegerEnd(text, p).value;
    var f := L.FractionEnd(text, i);
    WholeThere(text, p);
    FractionThere(text, i);
    ExponentThere(text, f);
  }

  lemma NumeralIsThere(text: seq<byte>, p: nat)
    requires p <= |text| && L.IntegerEnd(text, p).Some?
    ensures var n, i := NumeralAt(text, p), L.IntegerEnd(text, p).value;
      var j := L.ExponentEnd(text, L.FractionEnd(text, i));
      text[p..i] == Whole(n) && text[i..j] == n.frac + n.exp && text[p..j] == T.NumberText(n)
  {
    hide L.IntegerEnd, L.FractionEnd, L.ExponentEnd, Whole, T.NumberText;
    var n, i := NumeralAt(text, p), L.IntegerEnd(text, p).value;
    var f := L.FractionEnd(text, i);
    WholeIsThere(text, p);
    TextParts(n);
    assert text[i..L.ExponentEnd(text, f)] == text[i..f] + text[f..L.ExponentEnd(text, f)];
    assert text[p..L.ExponentEnd(text, f)] == text[p..i] + text[i..L.ExponentEnd(text, f)];
  }

  lemma WholeIsThere(text: seq<byte>, p: nat)
    requires p <= |text| && L.IntegerEnd(text, p).Some?
    ensures text[p..L.IntegerEnd(text, p).value] == Whole(NumeralAt(text, p))
  {
    hide L.IntegerEnd, L.FractionEnd, L.ExponentEnd;
    WholeThere(text, p);
  }

  lemma NumeralReads(text: seq<byte>, p: nat)
    requires p <= |text| && L.GrokNumber(text, p).Got?
    ensures L.IntegerEnd(text, p).Some?
    ensures var n := NumeralAt(text, p); var s := T.NumberText(n);
      T.Fine(n) && At(text, p, s) && L.GrokNumber(text, p) == L.Got(NumberValue(s), p + |s|)
  {
    hide L.IntegerEnd, L.FractionEnd, L.ExponentEnd, L.ToNumber, NumberValue, T.Fine, Whole, T.NumberText, NumeralAt;
    NumeralIsFine(text, p);
    NumeralIsThere(text, p);
    NumberIs(NumeralAt(text, p));
  }

  lemma NumberIsWord(text: seq<byte>, p: nat) returns (s: seq<byte>, ws: seq<Word>)
    requires p <= |text| && L.GrokNumber(text, L.Skip(text, p)).Got?
    ensures var r := L.GrokNumber(text, L.Skip(text, p));
      Spells(text, p, r.next, ws, [Num(s)]) && r.value == NumberValue(s)
  {
    hide L.Skip, At, T.Fine, T.NumberText, NumberValue, NumeralAt;
    var i := L.Skip(text, p);
    SkipIsWhite(text, p);
    NumeralReads(text, i);
    s := T.NumberText(NumeralAt(text, i));
    ws := OneWord(text, p, i, L.GrokNumber(text, i).next, Numeric(NumeralAt(text, i)));
  }

  // ---------------------------------------------------------------- values

  /** The word behind the white space is a literal. */
  predicate IsLiteral(text: seq<byte>, i: nat) { At(text, i, TRUE) || At(text, i, FALSE) || At(text, i, NULL) }

  lemma GrokCases(text: seq<byte>, p: nat)
    requires p <= |text| && L.GrokOne(text, p).Got?
    ensures var i, r := L.Skip(text, p), L.GrokOne(text, p);
      && i < |text|
      && (text[i] == QUOTE ==>
            var s := L.GrokStr(text, i);
            s.Got? && r == L.Got(L.Str(s.value), s.next))
      && (text[i] == L.MINUS || Digit(text[i]) ==> L.GrokNumber(text, i) == r)
      && (text[i] !in {QUOTE, L.MINUS, L.LBRACE, L.LBRACKET} && !Digit(text[i]) ==> IsLiteral(text, i))
  {
    hide L.GrokMembers, L.GrokItems, L.GrokStr, L.GrokNumber, L.Skip, At;
  }

  lemma LiteralIsWord(text: seq<byte>, p: nat) returns (v: Json, ws: seq<Word>)
    requires p <= |text| && IsLiteral(text, L.Skip(text, p))
    ensures L.GrokOne(text, p).Got? && L.GrokOne(text, p).value == ValueOf(v)
    ensures Spells(text, p, L.GrokOne(text, p).next, ws, Lin(v))
  {
    hide L.Skip, At, L.GrokOne;
    var i := L.Skip(text, p);
    SkipIsWhite(text, p);
    L.SkippedAlready(text, p);
    if At(text, i, TRUE) {
      P.GrokAtom(text, i, L.Bool(true), TRUE);
      v := JBool(true);
      ws := OneWord(text, p, i, i + 4, Mark(Boolean(true)));
    } else if At(text, i, FALSE) {
      P.GrokAtom(text, i, L.Bool(false), FALSE);
      v := JBool(false);
      ws := OneWord(text, p, i, i + 5, Mark(Boolean(false)));
    } else {
      P.GrokAtom(text, i, L.Nil, NULL);
      v := JNull;
      ws := OneWord(text, p, i, i + 4, Mark(Null));
    }
  }

  /** What is parsed is spelled there: the tokens of a tree that has this value. */
  lemma {:induction false} ValueIsSpelled(text: seq<byte>, p: nat) returns (v: Json, ws: seq<Word>)
    requires p <= |text| && L.GrokOne(text, p).Got?
    ensures Spells(text, p, L.GrokOne(text, p).next, ws, Lin(v)) && L.GrokOne(text, p).value == ValueOf(v)
    decreases |text| - p, 2
  {
    hide L.Skip, At, L.GrokOne, L.GrokMembers, L.GrokItems, L.GrokStr, L.GrokNumber, Spells, NumberValue, IsLiteral;
    hide LinMembers, LinItems, MembersOf, Kept, Filled;
    var i := L.Skip(text, p);
    GrokCases(text, p);
    if text[i] == QUOTE {
      ws := StringIsWord(text, p);
      v := JString(L.GrokStr(text, i).value);
    } else if text[i] == L.MINUS || Digit(text[i]) {
      var s;
      s, ws := NumberIsWord(text, p);
      v := JNumber(s);
    } else if text[i] == L.LBRACE {
      v, ws := ObjectIsSpelled(text, p);
    } else if text[i] == L.LBRACKET {
      v, ws := ArrayIsSpelled(text, p);
    } else {
      v, ws := LiteralIsWord(text, p);
    }
  }

  lemma {:induction false} ObjectIsSpelled(text: seq<byte>, p: nat) returns (v: Json, ws: seq<Word>)
    requires p <= |text| && L.GrokOne(text, p).Got? && L.Is(text, L.Skip(text, p), L.LBRACE)
    ensures Spells(text, p, L.GrokOne(text, p).next, ws, Lin(v)) && L.GrokOne(text, p).value == ValueOf(v)
    decreases |text| - p, 1
  {
    hide L.Skip, At, L.GrokOne, L.GrokMembers, Spells, LinMembers, MembersOf;
    var i := L.Skip(text, p);
    L.GrokOneUnfold(text, p);
    var open := MarkIsWord(text, p, ObjBegin);
    var j := L.Skip(text, i + 1);
    if L.Is(text, j, L.RBRACE) {
      var close := MarkIsWord(text, i + 1, ObjEnd);
      v, ws := JObject([]), open + close;
      SpellsOn(text, p, i + 1, j + 1, open, close, [ObjBegin], [ObjEnd]);
      assert Lin(v) == [ObjBegin] + [ObjEnd];
      NoMembers();
    } else {
      var ms, rest := MembersAreSpelled(text, i + 1, map[]);
      v, ws := JObject(ms), open + rest;
      SpellsOn(text, p, i + 1, L.GrokOne(text, p).next, open, rest, [ObjBegin], LinMembers(ms) + [ObjEnd]);
      assert Lin(v) == [ObjBegin] + (LinMembers(ms) + [ObjEnd]);
    }
  }

  lemma {:induction false} MembersAreSpelled(text: seq<byte>, p: nat, t: map<L.Key, L.Value>)
    returns (ms: seq<Member>, ws: seq<Word>)
    requires p <= |text| && L.GrokMembers(text, L.Skip(text, p), t).Got?
    ensures var r := L.GrokMembers(text, L.Skip(text, p), t);
      ms != [] && Spells(text, p, r.next, ws, LinMembers(ms) + [ObjEnd]) && r.value == L.Table(MembersOf(ms, t))
    decreases |text| - p, 3
  {
    hide L.Skip, At, L.GrokOne, L.GrokMembers, L.GrokStr, Spells, Lin, LinMembers, ValueOf;
    var i := L.Skip(text, p);
    L.MembersFail(text, i, t);
    L.MembersUnfold(text, i, t);
    var key := L.GrokStr(text, i);
    var ks := StringIsWord(text, p);
    var colon := MarkIsWord(text, key.next, Colon);
    var c := L.Skip(text, key.next) + 1;
    L.SkippedAlready(text, c);
    var v, vs := ValueIsSpelled(text, c);
    var k, u := L.GrokOne(text, c).next, L.Assign(t, L.Name(key.value), ValueOf(v));
    var e := L.Skip(text, k);
    var r := L.GrokMembers(text, i, t).next;
    var last, ts;
    if L.Is(text, e, L.RBRACE) {
      last := MarkIsWord(text, k, ObjEnd);
      ms, ts := [Member(key.value, v)], [ObjEnd];
    } else {
      var comma := MarkIsWord(text, k, Comma);
      var more, rest := MembersAreSpelled(text, e + 1, u);
      SpellsOn(text, k, e + 1, r, comma, rest, [Comma], LinMembers(more) + [ObjEnd]);
      last, ms, ts := comma + rest, [Member(key.value, v)] + more, [Comma] + (LinMembers(more) + [ObjEnd]);
      assert ms[1..] == more;
    }
    SpellsOn(text, c, k, r, vs, last, Lin(v), ts);
    SpellsOn(text, key.next, c, r, colon, vs + last, [Colon], Lin(v) + ts);
    SpellsOn(text, p, key.next, r, ks, colon + (vs + last), [Str(key.value)], [Colon] + (Lin(v) + ts));
    ws := ks + (colon + (vs + last));
    LinMembersUnfold(ms, [ObjEnd]);
  }

  lemma {:induction false} ArrayIsSpelled(text: seq<byte>, p: nat) returns (v: Json, ws: seq<Word>)
    requires p <= |text| && L.GrokOne(text, p).Got? && L.Is(text, L.Skip(text, p), L.LBRACKET)
    ensures Spells(text, p, L.GrokOne(text, p).next, ws, Lin(v)) && L.GrokOne(text, p).value == ValueOf(v)
    decreases |text| - p, 1
  {
    hide L.Skip, At, L.GrokOne, L.GrokItems, Spells, LinItems, Kept;
    var i := L.Skip(text, p);
    L.GrokOneUnfold(text, p);
    var open := MarkIsWord(text, p, ArrBegin);
    var j := L.Skip(text, i + 1);
    NoItems();
    if L.Is(text, j, L.RBRACKET) {
      var close := MarkIsWord(text, i + 1, ArrEnd);
      v, ws := JArray([]), open + close;
      SpellsOn(text, p, i + 1, j + 1, open, close, [ArrBegin], [ArrEnd]);
      assert Lin(v) == [ArrBegin] + [ArrEnd];
    } else {
      var items, rest := ItemsAreSpelled(text, i + 1, []);
      v, ws := JArray(items), open + rest;
      SpellsOn(text, p, i + 1, L.GrokOne(text, p).next, open, rest, [ArrBegin], LinItems(items) + [ArrEnd]);
      assert Lin(v) == [ArrBegin] + (LinItems(items) + [ArrEnd]);
      assert [] + Kept(items) == Kept(items);
    }
  }

  lemma {:induction false} ItemsAreSpelled(text: seq<byte>, p: nat, vs: seq<L.Value>)
    returns (items: seq<Json>, ws: seq<Word>)
    requires p <= |text| && L.GrokItems(text, L.Skip(text, p), |vs|, Filled(vs)).Got?
    ensures var r := L.GrokItems(text, L.Skip(text, p), |vs|, Filled(vs));
      && items != [] && Spells(text, p, r.next, ws, LinItems(items) + [ArrEnd])
      && r.value == L.Table(Filled(vs + Kept(items)))
    decreases |text| - p, 3
  {
    hide L.Skip, At, L.GrokOne, L.GrokItems, Spells, Lin, LinItems, ValueOf, L.Assign, Filled, Kept;
    var i := L.Skip(text, p);
    L.ItemsUnfold(text, i, |vs|, Filled(vs));
    L.SkippedAlready(text, p);
    var v, vws := ValueIsSpelled(text, p);
    var k, w := L.GrokOne(text, p).next, ValueOf(v);
    var us := if w.Nil? then vs else vs + [w];
    OneMore(vs, w);
    var e := L.Skip(text, k);
    var r := L.GrokItems(text, i, |vs|, Filled(vs)).next;
    var last, ts;
    if L.Is(text, e, L.RBRACKET) {
      last := MarkIsWord(text, k, ArrEnd);
      items, ts := [v], [ArrEnd];
      assert items[1..] == [] && us + [] == us;
    } else {
      var comma := MarkIsWord(text, k, Comma);
      var more, rest := ItemsAreSpelled(text, e + 1, us);
      SpellsOn(text, k, e + 1, r, comma, rest, [Comma], LinItems(more) + [ArrEnd]);
      last, items, ts := comma + rest, [v] + more, [Comma] + (LinItems(more) + [ArrEnd]);
      assert items[1..] == more;
    }
    KeptMore(vs, items);
    SpellsOn(text, p, k, r, vws, last, Lin(v), ts);
    ws := vws + last;
    LinItemsUnfold(items, [ArrEnd]);
  }

  /** JSON:decode of a text that is not blank gives a value only where the text spells the tokens of a tree
      that has it, with anything behind them. */
  lemma OnlySuchTextsAreParsed(text: seq<byte>)
    requires L.Decode(text).Got? && exists i :: 0 <= i < |text| && !L.Space(text[i])
    ensures var r := L.Decode(text);
      exists v, ws :: Spells(text, 0, r.next, ws, Lin(v)) && r.value == ValueOf(v)
  {
    hide L.GrokOne, Spells, ValueOf;
    var v, ws := ValueIsSpelled(text, 0);
  }

  /** What isspace accepts: a space, and tab to carriage return. */
  predicate Blank(c: byte) { c as char == ' ' || '\t' <= c as char <= '\r' }

  /** A text of blanks is nil, and one whose first other character opens a tag, or with a NUL among its first two,
      is refused. */
  lemma SpecialTexts(text: seq<byte>, i: nat)
    requires i <= |text| && forall k | 0 <= k < i :: Blank(text[k])
    ensures i == |text| ==> L.Decode(text) == L.Got(L.Nil, |text|)
    ensures i < |text| && text[i] as char == '<' ==> L.Decode(text).Bad?
    ensures i < |text| && !Blank(text[i]) && (text[0] == 0 || (|text| > 1 && text[1] == 0)) ==> L.Decode(text).Bad?
  {
    hide L.GrokOne;
    BlankIsSpace();
  }

  lemma BlankIsSpace()
    ensures forall c: byte :: L.Space(c) <==> Blank(c)
  {
  }
}
