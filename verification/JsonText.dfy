/** Every JSON text of a value is read as that value, whatever white space and escapes it uses. */
module JsonText {
  import opened ByteSeq
  import opened Ascii
  import opened JsonString
  import opened JsonGrammar
  import opened JsonDecoder

  /** A number (section 2.4 of RFC 4627). */
  datatype Numeral = Numeral(minus: bool, whole: seq<byte>, frac: seq<byte>, exp: seq<byte>)

  predicate Digits(s: seq<byte>) { s != [] && forall i | 0 <= i < |s| :: Digit(s[i]) }

  predicate Fine(n: Numeral) {
    && Digits(n.whole) && (n.whole[0] == 0x30 ==> |n.whole| == 1)
    && (n.frac != [] ==> n.frac[0] == 0x2E && Digits(n.frac[1..]))
    && (n.exp != [] ==> n.exp[0] in {0x45, 0x65} && |n.exp| > 1)
    && (n.exp != [] ==> Digits(if n.exp[1] in {0x2B, 0x2D} then n.exp[2..] else n.exp[1..]))
  }

  function NumberText(n: Numeral): seq<byte> {
    (if n.minus then [0x2D] else []) + n.whole + n.frac + n.exp
  }

  /** One token as it is written: white space, then its spelling. */
  datatype Lexeme =
    | Mark(white: seq<byte>, token: Token)
    | Quoted(white: seq<byte>, pieces: seq<Piece>)
    | Numeric(white: seq<byte>, n: Numeral)

  predicate AllWhite(s: seq<byte>) { forall i | 0 <= i < |s| :: White(s[i]) }

  predicate Proper(x: Lexeme) {
    && AllWhite(x.white)
    && match x
       case Mark(_, t) => t in {ObjBegin, ObjEnd, ArrBegin, ArrEnd, Boolean(true), Boolean(false), Null, Colon, Comma}
       case Quoted(_, pieces) => AllowedAll(pieces)
       case Numeric(_, n) => Fine(n)
  }

  function Spelling(x: Lexeme): seq<byte> {
    match x
    case Mark(_, t) =>
      if t == ObjBegin then [0x7B] else if t == ObjEnd then [0x7D] else if t == ArrBegin then [0x5B]
      else if t == ArrEnd then [0x5D] else if t == Colon then [0x3A] else if t == Comma then [0x2C]
      else if t == Boolean(true) then TRUE else if t == Boolean(false) then FALSE else NULL
    case Quoted(_, pieces) => [QUOTE] + TextAll(pieces) + [QUOTE]
    case Numeric(_, n) => NumberText(n)
  }

  function TokenOf(x: Lexeme): Token
    requires Proper(x)
  {
    match x
    case Mark(_, t) => t
    case Quoted(_, pieces) => Str(MeaningAll(pieces))
    case Numeric(_, n) => Num(NumberText(n))
  }

  predicate ProperAll(xs: seq<Lexeme>) { forall i | 0 <= i < |xs| :: Proper(xs[i]) }

  function TokensOf(xs: seq<Lexeme>): seq<Token>
    requires ProperAll(xs)
  {
    if xs == [] then [] else [TokenOf(xs[0])] + TokensOf(xs[1..])
  }

  /** The text of the lexemes, and white space behind them. */
  function Written(xs: seq<Lexeme>, tail: seq<byte>): seq<byte> {
    if xs == [] then tail else xs[0].white + Spelling(xs[0]) + Written(xs[1..], tail)
  }

  /** What strtod is for: it reads a whole number that something else follows. */
  predicate Delimited(after: seq<byte>) { after == [] || after[0] in {0x20, 0x09, 0x0A, 0x0D, 0x2C, 0x5D, 0x7D} }

  ghost predicate ReadsNumbers(cfg: Config) {
    forall n: Numeral, after: seq<byte> | Fine(n) && Delimited(after) ::
      cfg.strtod(NumberText(n) + after) == |NumberText(n)|
  }

  // ---------------------------------------------------------------- one token

  lemma {:induction false} SkipsWhite(text: seq<byte>, p: nat, w: seq<byte>)
    requires Terminated(text) && At(text, p, w) && p + |w| < |text| && AllWhite(w) && !White(text[p + |w|])
    ensures SkipWhite(text, p) == p + |w|
    decreases |w|
  {
    if w != [] {
      assert text[p] == text[p..p + |w|][0];
      assert text[p + 1..p + 1 + |w[1..]|] == text[p..p + |w|][1..];
      SkipsWhite(text, p + 1, w[1..]);
    }
  }

  lemma {:induction false} CStringIs(text: seq<byte>, p: nat, s: seq<byte>)
    requires Terminated(text) && At(text, p, s) && p + |s| + 1 == |text| && 0 !in s
    ensures CString(text, p) == s
    decreases |s|
  {
    if s != [] {
      assert text[p] == text[p..p + |s|][0];
      assert text[p + 1..p + 1 + |s[1..]|] == text[p..p + |s|][1..];
      CStringIs(text, p + 1, s[1..]);
    }
  }

  /** Reading one lexeme. */
  ghost predicate Reads(cfg: Config, text: seq<byte>, p: nat, x: Lexeme)
    requires Terminated(text) && p < |text| && Proper(x)
  {
    Classify(cfg, text, p) == Lexed(TokenOf(x), p + |Spelling(x)|)
  }

  lemma WordReads(text: seq<byte>, p: nat, word: seq<byte>)
    requires Terminated(text) && word in {TRUE, FALSE, NULL} && At(text, p, word)
    ensures p < |text| && Match(text, p, word, false) && text[p] == word[0]
  {
    assert text[p + |word| - 1] == text[p..p + |word|][|word| - 1];
    assert text[p] == text[p..p + |word|][0];
    MatchInside(text, p, word);
  }

  lemma WordsDiffer(text: seq<byte>, p: nat, w: seq<byte>)
    requires Terminated(text) && p < |text| && w in {TRUE, FALSE, NULL} && text[p] != w[0]
    ensures !Match(text, p, w, false)
  {
  }

  lemma MarkReads(cfg: Config, text: seq<byte>, p: nat, x: Lexeme)
    requires Terminated(text) && x.Mark? && Proper(x) && At(text, p, Spelling(x))
    ensures p < |text| && Reads(cfg, text, p, x) && !White(text[p])
  {
    hide Match, InvalidNumber, Number, Scan;
    assert Spelling(x)[0] == text[p..p + |Spelling(x)|][0];
    if x.token.Boolean? || x.token.Null? {
      WordReads(text, p, Spelling(x));
      if x.token != Boolean(true) {
        WordsDiffer(text, p, TRUE);
        if x.token != Boolean(false) {
          WordsDiffer(text, p, FALSE);
        }
      }
    }
  }

  lemma QuotedAt(text: seq<byte>, p: nat, s: seq<byte>)
    requires Terminated(text) && At(text, p, [QUOTE] + s + [QUOTE])
    ensures p < |text| && text[p] == QUOTE && At(text, p + 1, s + [QUOTE]) && p + 1 + |s| + 1 < |text|
  {
    hide At;
    assert [QUOTE] + s + [QUOTE] == [QUOTE] + (s + [QUOTE]);
    AtParts(text, p, [QUOTE], s + [QUOTE]);
    AtOne(text, p, QUOTE);
    QuoteInside(text, p + 1, s);
  }

  lemma QuotedReads(cfg: Config, text: seq<byte>, p: nat, x: Lexeme)
    requires Terminated(text) && x.Quoted? && Proper(x) && At(text, p, Spelling(x))
    ensures p < |text| && Reads(cfg, text, p, x) && !White(text[p])
  {
    hide Classify, Scan, TextAll, MeaningAll, At;
    QuotedAt(text, p, TextAll(x.pieces));
    ScanComplete(text, p + 1, x.pieces);
    QuoteStarts(cfg, text, p);
  }

  lemma QuoteStarts(cfg: Config, text: seq<byte>, p: nat)
    requires Terminated(text) && p + 1 < |text| && text[p] == QUOTE
    ensures Scan(text, p + 1).Some? ==>
      var r := Scan(text, p + 1).value;
      Classify(cfg, text, p) == Lexed(Str(r.value), r.end)
  {
    hide Match, InvalidNumber, Number, Scan;
  }

  lemma NumberShape(n: Numeral)
    requires Fine(n)
    ensures var s := NumberText(n);
      && s != [] && 0 !in s && (s[0] == 0x2D || Digit(s[0])) && n.minus == (s[0] == 0x2D)
      && |s| > (if n.minus then 1 else 0)
      && Digit(s[if n.minus then 1 else 0])
    ensures var s := NumberText(n); var k := if n.minus then 1 else 0;
      s[k] == 0x30 && |s| > k + 1 ==> s[k + 1] in {0x2E, 0x45, 0x65}
  {
    var k := if n.minus then 1 else 0;
    var s := NumberText(n);
    assert s[k] == n.whole[0];
    NoNul(n);
    if s[k] == 0x30 && |s| > k + 1 {
      assert s[k + 1] == (n.frac + n.exp)[0];
    }
  }

  lemma NoNul(n: Numeral)
    requires Fine(n)
    ensures 0 !in n.whole && 0 !in n.frac && 0 !in n.exp
  {
    if n.frac != [] {
      assert n.frac == [n.frac[0]] + n.frac[1..];
    }
    if n.exp != [] {
      if n.exp[1] in {0x2B, 0x2D} {
        assert n.exp == [n.exp[0], n.exp[1]] + n.exp[2..];
      } else {
        assert n.exp == [n.exp[0]] + n.exp[1..];
      }
    }
  }

  /** The strict check never refuses a JSON number. */
  lemma NeverInvalid(text: seq<byte>, p: nat, n: Numeral, after: seq<byte>)
    requires Terminated(text) && Fine(n) && At(text, p, NumberText(n)) && p + |NumberText(n)| < |text|
    requires text[p + |NumberText(n)|] !in {0x58, 0x78} && !Digit(text[p + |NumberText(n)|])
    ensures !InvalidNumber(text, p)
  {
    hide Match;
    NumberShape(n);
    var s := NumberText(n);
    var k := if n.minus then 1 else 0;
    assert text[p] == text[p..p + |s|][0] && text[p + k] == text[p..p + |s|][k];
    if |s| > k + 1 {
      assert text[p + k + 1] == text[p..p + |s|][k + 1];
    }
  }

  lemma NumericReads(cfg: Config, text: seq<byte>, p: nat, x: Lexeme, after: seq<byte>)
    requires Terminated(text) && x.Numeric? && Proper(x) && At(text, p, Spelling(x) + after)
    requires p + |Spelling(x)| + |after| + 1 == |text| && 0 !in after && Delimited(after) && ReadsNumbers(cfg)
    ensures p < |text| && Reads(cfg, text, p, x) && !White(text[p])
  {
    hide Match, InvalidNumber, Scan, NumberText, Fine, At;
    var s := Spelling(x);
    NumberShape(x.n);
    AtParts(text, p, s, after);
    AfterByte(text, p, s, after);
    NeverInvalid(text, p, x.n, after);
    CStringIs(text, p, s + after);
    assert cfg.strtod(NumberText(x.n) + after) == |NumberText(x.n)|;
    assert (s + after)[..|s|] == s;
    AtFirst(text, p, s);
  }

  lemma AfterByte(text: seq<byte>, p: nat, s: seq<byte>, after: seq<byte>)
    requires Terminated(text) && At(text, p + |s|, after) && p + |s| + |after| + 1 == |text| && Delimited(after)
    ensures text[p + |s|] !in {0x58, 0x78} && !Digit(text[p + |s|])
  {
    if after != [] {
      AtFirst(text, p + |s|, after);
    }
  }

  // ---------------------------------------------------------------- a whole text

  /** Behind a number comes the end, a comma or a closing bracket. */
  predicate Separated(ts: seq<Token>) {
    forall i | 0 <= i < |ts| - 1 && ts[i].Num? :: ts[i + 1] in {ObjEnd, ArrEnd, Comma}
  }

  lemma {:induction false} LinSeparated(v: Json, rest: seq<Token>)
    requires Separated(rest) && (rest == [] || rest[0] in {ObjEnd, ArrEnd, Comma})
    ensures Separated(Lin(v) + rest)
    decreases v, 1
  {
    hide LinMembers, LinItems, Separated;
    match v
    case JObject(ms) => ObjectSeparated(ms, rest);
    case JArray(xs) => ArraySeparated(xs, rest);
    case JString(s) => SeparatedFront(Str(s), rest);
    case JNumber(text) => SeparatedFront(Num(text), rest);
    case JBool(b) => SeparatedFront(Boolean(b), rest);
    case JNull => SeparatedFront(Null, rest);
  }

  lemma {:induction false} ObjectSeparated(ms: seq<Member>, rest: seq<Token>)
    requires Separated(rest)
    ensures Separated(Lin(JObject(ms)) + rest)
    decreases JObject(ms), 0
  {
    hide LinMembers, LinItems, Separated;
    var body := if ms == [] then [ObjEnd] + rest else LinMembers(ms) + ([ObjEnd] + rest);
    assert Lin(JObject(ms)) + rest == [ObjBegin] + body;
    SeparatedFront(ObjEnd, rest);
    if ms != [] {
      MembersSeparated(ms, [ObjEnd] + rest);
    }
    SeparatedFront(ObjBegin, body);
  }

  lemma {:induction false} ArraySeparated(xs: seq<Json>, rest: seq<Token>)
    requires Separated(rest)
    ensures Separated(Lin(JArray(xs)) + rest)
    decreases JArray(xs), 0
  {
    hide LinMembers, LinItems, Separated;
    var body := if xs == [] then [ArrEnd] + rest else LinItems(xs) + ([ArrEnd] + rest);
    assert Lin(JArray(xs)) + rest == [ArrBegin] + body;
    SeparatedFront(ArrEnd, rest);
    if xs != [] {
      ItemsSeparated(xs, [ArrEnd] + rest);
    }
    SeparatedFront(ArrBegin, body);
  }

  lemma SeparatedFront(t: Token, rest: seq<Token>)
    requires Separated(rest) && (t.Num? && rest != [] ==> rest[0] in {ObjEnd, ArrEnd, Comma})
    ensures Separated([t] + rest)
  {
    var ts := [t] + rest;
    forall i | 0 <= i < |ts| - 1 && ts[i].Num? ensures ts[i + 1] in {ObjEnd, ArrEnd, Comma} {
      if i > 0 {
        assert ts[i] == rest[i - 1] && ts[i + 1] == rest[i];
      }
    }
  }

  lemma {:induction false} MembersSeparated(ms: seq<Member>, rest: seq<Token>)
    requires ms != [] && Separated(rest) && rest != [] && rest[0] == ObjEnd
    ensures Separated(LinMembers(ms) + rest)
    decreases ms
  {
    hide Lin, LinMembers, Separated;
    LinMembersUnfold(ms, rest);
    var more := if |ms| == 1 then rest else [Comma] + (LinMembers(ms[1..]) + rest);
    if |ms| > 1 {
      MembersSeparated(ms[1..], rest);
      SeparatedFront(Comma, LinMembers(ms[1..]) + rest);
    }
    LinSeparated(ms[0].value, more);
    SeparatedFront(Colon, Lin(ms[0].value) + more);
    SeparatedFront(Str(ms[0].key), [Colon] + (Lin(ms[0].value) + more));
  }

  lemma {:induction false} ItemsSeparated(xs: seq<Json>, rest: seq<Token>)
    requires xs != [] && Separated(rest) && rest != [] && rest[0] == ArrEnd
    ensures Separated(LinItems(xs) + rest)
    decreases xs
  {
    hide Lin, LinItems, Separated;
    LinItemsUnfold(xs, rest);
    var more := if |xs| == 1 then rest else [Comma] + (LinItems(xs[1..]) + rest);
    if |xs| > 1 {
      ItemsSeparated(xs[1..], rest);
      SeparatedFront(Comma, LinItems(xs[1..]) + rest);
    }
    LinSeparated(xs[0], more);
  }

  lemma SeparatedRest(xs: seq<Lexeme>)
    requires ProperAll(xs) && xs != [] && Separated(TokensOf(xs))
    ensures ProperAll(xs[1..]) && Separated(TokensOf(xs[1..]))
    ensures xs[0].Numeric? && |xs| > 1 ==> TokenOf(xs[1]) in {ObjEnd, ArrEnd, Comma}
  {
    hide TokenOf;
    var ts, us := TokensOf(xs), TokensOf(xs[1..]);
    assert forall i | 0 <= i < |us| :: us[i] == ts[i + 1];
    if xs[0].Numeric? && |xs| > 1 {
      NumToken(xs[0]);
      assert ts[0] == TokenOf(xs[0]) && ts[1] == TokenOf(xs[1]);
    }
  }

  lemma NumToken(x: Lexeme)
    requires Proper(x)
    ensures x.Numeric? <==> TokenOf(x).Num?
  {
  }

  /** What is written behind a number delimits it. */
  lemma WrittenDelimits(xs: seq<Lexeme>, tail: seq<byte>)
    requires ProperAll(xs) && AllWhite(tail)
    requires xs != [] ==> TokenOf(xs[0]) in {ObjEnd, ArrEnd, Comma}
    ensures Delimited(Written(xs, tail))
  {
  }

  /** No spelling holds a NUL. */
  lemma {:induction false} WrittenNoNul(xs: seq<Lexeme>, tail: seq<byte>)
    requires ProperAll(xs) && AllWhite(tail)
    ensures 0 !in Written(xs, tail)
  {
    if xs != [] {
      hide Spelling;
      SpellingNoNul(xs[0]);
      WrittenNoNul(xs[1..], tail);
    }
  }

  lemma SpellingNoNul(x: Lexeme)
    requires Proper(x)
    ensures 0 !in Spelling(x)
  {
    match x
    case Mark(_, t) =>
    case Quoted(_, pieces) => TextNoNul(pieces);
    case Numeric(_, n) => NumberShape(n);
  }

  lemma {:induction false} TextNoNul(xs: seq<Piece>)
    requires AllowedAll(xs)
    ensures 0 !in TextAll(xs)
  {
    if xs != [] {
      hide Text, Allowed;
      PieceNoNul(xs[0]);
      TextNoNul(xs[1..]);
    }
  }

  lemma PieceNoNul(x: Piece)
    requires Allowed(x)
    ensures 0 !in Text(x)
  {
    match x
    case Plain(c) =>
    case Short(c) =>
    case Unit(hex) => HexNoNul(hex);
    case Pair(high, low) =>
      HexNoNul(high);
      HexNoNul(low);
  }

  lemma HexNoNul(hex: seq<byte>)
    requires UnitValue(hex).Some?
    ensures 0 !in hex
  {
    assert forall i | 0 <= i < 4 :: (hex + [0])[i] == hex[i];
  }

  lemma {:induction false} TextIsLexed(cfg: Config, text: seq<byte>, p: nat, xs: seq<Lexeme>, tail: seq<byte>)
    requires Terminated(text) && ProperAll(xs) && AllWhite(tail) && Separated(TokensOf(xs)) && ReadsNumbers(cfg)
    requires At(text, p, Written(xs, tail)) && p + |Written(xs, tail)| + 1 == |text|
    ensures Tokens(cfg, text, p) == TokensOf(xs) + [End]
    decreases |xs|
  {
    hide Separated, ReadsNumbers, At, Spelling, Classify, TokenOf, SkipWhite;
    if xs == [] {
      SkipsWhite(text, p, tail);
      EndReads(cfg, text, p + |tail|);
    } else {
      var x, after := xs[0], Written(xs[1..], tail);
      SeparatedRest(xs);
      assert Written(xs, tail) == x.white + (Spelling(x) + after);
      AtParts(text, p, x.white, Spelling(x) + after);
      AtParts(text, p + |x.white|, Spelling(x), after);
      LexemeReads(cfg, text, p + |x.white|, xs, tail);
      SkipsWhite(text, p, x.white);
      NeverLast(x);
      TextIsLexed(cfg, text, p + |x.white| + |Spelling(x)|, xs[1..], tail);
    }
  }

  lemma EndReads(cfg: Config, text: seq<byte>, p: nat)
    requires Terminated(text) && p + 1 == |text|
    ensures Classify(cfg, text, p) == Lexed(End, p)
  {
  }

  lemma NeverLast(x: Lexeme)
    requires Proper(x)
    ensures !Last(TokenOf(x))
  {
  }

  lemma LexemeReads(cfg: Config, text: seq<byte>, p: nat, xs: seq<Lexeme>, tail: seq<byte>)
    requires Terminated(text) && ProperAll(xs) && AllWhite(tail) && xs != [] && ReadsNumbers(cfg)
    requires xs[0].Numeric? && |xs| > 1 ==> TokenOf(xs[1]) in {ObjEnd, ArrEnd, Comma}
    requires At(text, p, Spelling(xs[0]) + Written(xs[1..], tail))
    requires p + |Spelling(xs[0])| + |Written(xs[1..], tail)| + 1 == |text|
    ensures p < |text| && Reads(cfg, text, p, xs[0]) && !White(text[p])
  {
    hide At, Written, Spelling, Reads, ReadsNumbers;
    var after := Written(xs[1..], tail);
    AtParts(text, p, Spelling(xs[0]), after);
    match xs[0]
    case Mark(_, _) => MarkReads(cfg, text, p, xs[0]);
    case Quoted(_, _) => QuotedReads(cfg, text, p, xs[0]);
    case Numeric(_, _) =>
      WrittenNoNul(xs[1..], tail);
      WrittenDelimits(xs[1..], tail);
      NumericReads(cfg, text, p, xs[0], after);
  }

  /** Every JSON text of a value is decoded to it, or refused for its depth; with any white space, any
      escapes and any numbers the standard allows, whether or not the strict number check is on. */
  lemma EveryTextIsDecoded(cfg: Config, v: Json, xs: seq<Lexeme>, tail: seq<byte>)
    requires ProperAll(xs) && AllWhite(tail) && TokensOf(xs) == Lin(v) && ReadsNumbers(cfg)
    ensures JsonGrammar.Decode(Tokens(cfg, Written(xs, tail) + [0], 0), cfg.limit)
         == if Depth(v) <= cfg.limit then Parsed(LuaOf(v), [End]) else TooDeep(cfg.limit + 1)
  {
    hide Lin, Tokens, TokensOf, ProperAll, AllWhite, Written, Separated, ReadsNumbers, ParseValue, LuaOf, Depth;
    var text := Written(xs, tail) + [0];
    assert Lin(v) + [] == Lin(v);
    NothingSeparated();
    LinSeparated(v, []);
    assert text[0..0 + |Written(xs, tail)|] == Written(xs, tail);
    TextIsLexed(cfg, text, 0, xs, tail);
    ValueComplete(v, [End], 0, cfg.limit);
  }

  lemma NothingSeparated()
    ensures Separated([])
  {
  }
}
