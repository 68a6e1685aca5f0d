/** Which texts the C decoder takes, byte for byte: what it lexes is exactly what is spelled. */
module JsonSpelling {
  import opened ByteSeq
  import opened Ascii
  import opened JsonString
  import opened JsonGrammar
  import opened JsonDecoder
  import opened JsonText

  // ---------------------------------------------------------------- what is spelled

  /** A number may begin here, and does not look like a literal: a sign or a digit, unless the strict
      check forbids it, or the letters of inf, nan and a plus sign where that check is off. */
  predicate NumberBegins(cfg: Config, text: seq<byte>, q: nat)
    requires Terminated(text) && q < |text|
  {
    if text[q] == 0x2D || Digit(text[q]) then cfg.invalidNumbers || !InvalidNumber(text, q)
    else
      && text[q] in {0x66, 0x69, 0x49, 0x6E, 0x4E, 0x74, 0x2B} && cfg.invalidNumbers && InvalidNumber(text, q)
      && !At(text, q, TRUE) && !At(text, q, FALSE) && !At(text, q, NULL)
  }

  /** The word of lower-case letters and digits stands at q, with letters of either case. */
  predicate Stands(text: seq<byte>, q: nat, word: string) {
    && q + |word| <= |text|
    && forall i | 0 <= i < |word| ::
      text[q + i] as int == word[i] as int || ('a' <= word[i] <= 'z' && text[q + i] as int + 0x20 == word[i] as int)
  }

  /** What the strict check refuses: a plus sign; and, behind an optional minus sign, a hexadecimal number, a
      leading zero, or a word that begins as infinity and NaN do. */
  lemma InvalidNumberIs(text: seq<byte>, p: nat)
    requires Terminated(text) && p < |text|
    ensures InvalidNumber(text, p) <==>
      || text[p] as char == '+'
      || var q := if text[p] as char == '-' then p + 1 else p;
         Stands(text, q, "0x") || (Stands(text, q, "0") && q + 1 < |text| && '0' <= text[q + 1] as char <= '9')
         || Stands(text, q, "inf") || Stands(text, q, "nan")
  {
    hide Match, Stands;
    var q := if text[p] == 0x2D then p + 1 else p;
    FoldedThree(text, q, INF, "inf");
    FoldedThree(text, q, NAN, "nan");
    FirstLetters(text, q);
  }

  lemma FirstLetters(text: seq<byte>, q: nat)
    ensures Stands(text, q, "0") <==> q < |text| && text[q] == 0x30
    ensures Stands(text, q, "0x") <==> q + 1 < |text| && text[q] == 0x30 && text[q + 1] in {0x58, 0x78}
    ensures Stands(text, q, "inf") ==> text[q] in {0x49, 0x69}
    ensures Stands(text, q, "nan") ==> text[q] in {0x4E, 0x6E}
  {
    assert "0"[0] == '0' && "0x"[0] == '0' && "0x"[1] == 'x' && "inf"[0] == 'i' && "nan"[0] == 'n';
    assert q < |text| ==> text[q + 0] == text[q];
  }

  lemma FoldedThree(text: seq<byte>, q: nat, word: seq<byte>, letters: string)
    requires Terminated(text) && q < |text| && |word| == |letters| == 3
    requires forall i | 0 <= i < 3 :: 'a' <= letters[i] <= 'z' && word[i] as int == letters[i] as int
    ensures Match(text, q, word, true) <==> Stands(text, q, letters)
  {
    hide Match;
    assert word[1..][1..] == word[2..] && word[2..][1..] == [];
    assert word[1..][0] == word[1] && word[2..][0] == word[2];
    MatchStep(text, q, word);
    if q + 1 < |text| {
      MatchStep(text, q + 1, word[1..]);
      if q + 2 < |text| {
        MatchStep(text, q + 2, word[2..]);
      }
    }
  }

  lemma MatchStep(text: seq<byte>, q: nat, word: seq<byte>)
    requires Terminated(text) && q < |text| && word != [] && 0 !in word
    ensures text[q] == 0 || Folded(text[q], true) != word[0] ==> !Match(text, q, word, true)
    ensures text[q] != 0 && Folded(text[q], true) == word[0] ==>
      (Match(text, q, word, true) <==> |word| == 1 || Match(text, q + 1, word[1..], true))
  {
  }

  /** strtod takes the n bytes here for a number, up to the end of the C string. */
  predicate Taken(cfg: Config, text: seq<byte>, q: nat, n: nat)
    requires Terminated(text) && q < |text|
  {
    var s := CString(text, q);
    0 < n <= |s| && n == if cfg.strtod(s) < |s| then cfg.strtod(s) else |s|
  }

  /** The n bytes at q are the spelling of the token. */
  ghost predicate SpelledAs(cfg: Config, text: seq<byte>, q: nat, n: nat, t: Token)
    requires Terminated(text) && q + n < |text|
  {
    match t
    case Str(s) =>
      exists xs :: AllowedAll(xs) && MeaningAll(xs) == s && text[q..q + n] == [QUOTE] + TextAll(xs) + [QUOTE]
    case Num(s) => NumberBegins(cfg, text, q) && Taken(cfg, text, q, n) && text[q..q + n] == s
    case End => n == 0 && text[q] == 0
    case Error(_) => false
    case _ => text[q..q + n] == Spelling(Mark([], t))
  }

  /** From p on the text spells the tokens, with white space in front of each, and ends with a NUL; what
      lies behind that does not matter. */
  ghost predicate Spells(cfg: Config, text: seq<byte>, p: nat, ts: seq<Token>)
    requires Terminated(text)
    decreases |ts|, 1
  {
    exists q: nat, n: nat :: SpellsFrom(cfg, text, p, ts, q, n)
  }

  ghost predicate SpellsFrom(cfg: Config, text: seq<byte>, p: nat, ts: seq<Token>, q: nat, n: nat)
    requires Terminated(text)
    decreases |ts|, 0
  {
    && ts != [] && p <= q && q + n < |text| && AllWhite(text[p..q]) && !White(text[q])
    && SpelledAs(cfg, text, q, n, ts[0])
    && if ts[0] == End then |ts| == 1 else Spells(cfg, text, q + n, ts[1..])
  }

  // ---------------------------------------------------------------- what is lexed is spelled

  predicate IsMark(t: Token) { !t.Str? && !t.Num? && !t.End? && !t.Error? }

  lemma NumberIs(cfg: Config, text: seq<byte>, q: nat)
    requires Terminated(text) && q < |text|
    ensures Number(cfg, text, q).token.Num? || Number(cfg, text, q).token.Error?
  {
    hide CString;
  }

  lemma MarkIsSpelled(cfg: Config, text: seq<byte>, q: nat)
    requires Terminated(text) && q < |text| && IsMark(Classify(cfg, text, q).token)
    ensures var x := Classify(cfg, text, q);
      q <= x.next && text[q..x.next] == Spelling(Mark([], x.token))
  {
    hide InvalidNumber, Number, Scan, Match;
    NumberIs(cfg, text, q);
    MatchInside(text, q, TRUE);
    MatchInside(text, q, FALSE);
    MatchInside(text, q, NULL);
  }

  lemma StringIsSpelled(cfg: Config, text: seq<byte>, q: nat)
    requires Terminated(text) && q < |text| && Classify(cfg, text, q).token.Str?
    ensures var x := Classify(cfg, text, q);
      q <= x.next && SpelledAs(cfg, text, q, x.next - q, x.token)
  {
    hide Classify, Scan, At, AllowedAll, MeaningAll, TextAll;
    StringBegins(cfg, text, q);
    var xs := ScanSound(text, q + 1);
    Quotes(text, q, TextAll(xs));
  }

  lemma StringBegins(cfg: Config, text: seq<byte>, q: nat)
    requires Terminated(text) && q < |text| && Classify(cfg, text, q).token.Str?
    ensures text[q] == QUOTE && q + 1 < |text| && Scan(text, q + 1).Some?
    ensures Classify(cfg, text, q) == Lexed(Str(Scan(text, q + 1).value.value), Scan(text, q + 1).value.end)
  {
    hide InvalidNumber, Number, Scan, Match;
    NumberIs(cfg, text, q);
  }

  lemma Quotes(text: seq<byte>, q: nat, s: seq<byte>)
    requires q < |text| && text[q] == QUOTE && At(text, q + 1, s + [QUOTE])
    ensures q + |s| + 2 <= |text| && text[q..q + |s| + 2] == [QUOTE] + s + [QUOTE]
  {
    assert text[q..q + |s| + 2] == [text[q]] + text[q + 1..q + 1 + |s + [QUOTE]|];
  }

  lemma NumberIsSpelled(cfg: Config, text: seq<byte>, q: nat)
    requires Terminated(text) && q < |text| && Classify(cfg, text, q).token.Num?
    ensures var x := Classify(cfg, text, q);
      q <= x.next && SpelledAs(cfg, text, q, x.next - q, x.token)
  {
    hide InvalidNumber, Scan, Match, CString;
    MatchInside(text, q, TRUE);
    MatchInside(text, q, FALSE);
    MatchInside(text, q, NULL);
  }

  /** Whatever token is read, other than an error, is spelled there. */
  lemma LexedIsSpelled(cfg: Config, text: seq<byte>, q: nat)
    requires Terminated(text) && q < |text| && !Classify(cfg, text, q).token.Error?
    ensures var x := Classify(cfg, text, q);
      q <= x.next && SpelledAs(cfg, text, q, x.next - q, x.token)
  {
    var x := Classify(cfg, text, q);
    hide Classify, Scan, NumberBegins, Taken;
    match x.token
    case Str(_) => StringIsSpelled(cfg, text, q);
    case Num(_) => NumberIsSpelled(cfg, text, q);
    case End => EndIsRead(cfg, text, q);
    case _ => MarkIsSpelled(cfg, text, q);
  }

  lemma EndIsRead(cfg: Config, text: seq<byte>, q: nat)
    requires Terminated(text) && q < |text|
    ensures Classify(cfg, text, q).token == End <==> text[q] == 0
    ensures text[q] == 0 ==> Classify(cfg, text, q) == Lexed(End, q)
  {
    hide InvalidNumber, Number, Scan, Match;
    NumberIs(cfg, text, q);
  }

  // ---------------------------------------------------------------- what is spelled is lexed

  lemma SpelledNumberIsLexed(cfg: Config, text: seq<byte>, q: nat, n: nat, s: seq<byte>)
    requires Terminated(text) && q + n < |text| && SpelledAs(cfg, text, q, n, Num(s))
    ensures Classify(cfg, text, q) == Lexed(Num(s), q + n)
  {
    hide InvalidNumber, Scan, Match, CString;
    MatchInside(text, q, TRUE);
    MatchInside(text, q, FALSE);
    MatchInside(text, q, NULL);
    var c := CString(text, q);
    assert c[..n] == text[q..q + |c|][..n] == text[q..q + n];
  }

  lemma SpelledIsLexed(cfg: Config, text: seq<byte>, q: nat, n: nat, t: Token)
    requires Terminated(text) && q + n < |text| && SpelledAs(cfg, text, q, n, t)
    ensures Classify(cfg, text, q) == Lexed(t, q + n) && !t.Error?
  {
    hide Classify, Scan, NumberBegins, Taken, TextAll, MeaningAll, AllowedAll, Spelling;
    match t
    case Str(s) =>
      var xs :| AllowedAll(xs) && MeaningAll(xs) == s && text[q..q + n] == [QUOTE] + TextAll(xs) + [QUOTE];
      QuotedIsLexed(cfg, text, q, n, xs);
    case Num(s) => SpelledNumberIsLexed(cfg, text, q, n, s);
    case End => EndIsRead(cfg, text, q);
    case Error(_) =>
    case _ => MarkIsLexed(cfg, text, q, n, t);
  }

  lemma MarkIsLexed(cfg: Config, text: seq<byte>, q: nat, n: nat, t: Token)
    requires Terminated(text) && q + n < |text| && IsMark(t) && text[q..q + n] == Spelling(Mark([], t))
    ensures Classify(cfg, text, q) == Lexed(t, q + n)
  {
    hide Classify;
    var x := Mark([], t);
    assert text[q..q + |Spelling(x)|] == Spelling(x);
    MarkReads(cfg, text, q, x);
  }

  lemma QuotedIsLexed(cfg: Config, text: seq<byte>, q: nat, n: nat, xs: seq<Piece>)
    requires Terminated(text) && q + n < |text| && AllowedAll(xs)
    requires text[q..q + n] == [QUOTE] + TextAll(xs) + [QUOTE]
    ensures Classify(cfg, text, q) == Lexed(Str(MeaningAll(xs)), q + n)
  {
    hide Classify, TextAll, MeaningAll, AllowedAll;
    var x := Quoted([], xs);
    assert |text[q..q + n]| == n;
    QuotedReads(cfg, text, q, x);
  }

  lemma WhiteIsSkipped(text: seq<byte>, p: nat, q: nat)
    requires Terminated(text) && p <= q < |text| && AllWhite(text[p..q]) && !White(text[q])
    ensures SkipWhite(text, p) == q
  {
    SkipsWhite(text, p, text[p..q]);
  }

  // ---------------------------------------------------------------- whole texts

  ghost predicate NoError(ts: seq<Token>) { forall t | t in ts :: !t.Error? }

  lemma {:induction false} TokensAreSpelled(cfg: Config, text: seq<byte>, p: nat)
    requires Terminated(text) && p < |text| && NoError(Tokens(cfg, text, p))
    ensures Spells(cfg, text, p, Tokens(cfg, text, p))
    decreases |text| - p
  {
    hide Classify, SpelledAs, SkipWhite, AllWhite;
    var ts, q := Tokens(cfg, text, p), SkipWhite(text, p);
    var x := Classify(cfg, text, q);
    assert x.token == ts[0] && ts[0] in ts;
    LexedIsSpelled(cfg, text, q);
    EndIsRead(cfg, text, q);
    SkippedWhite(text, p);
    NextInside(cfg, text, q);
    if !Last(x.token) {
      assert ts[1..] == Tokens(cfg, text, x.next);
      assert forall t | t in ts[1..] :: t in ts;
      TokensAreSpelled(cfg, text, x.next);
    }
    assert SpellsFrom(cfg, text, p, ts, q, x.next - q);
  }

  lemma SkippedWhite(text: seq<byte>, p: nat)
    requires Terminated(text) && p < |text|
    ensures AllWhite(text[p..SkipWhite(text, p)])
  {
    var q := SkipWhite(text, p);
    assert forall i | 0 <= i < |text[p..q]| :: text[p..q][i] == text[p + i];
  }

  lemma NextInside(cfg: Config, text: seq<byte>, q: nat)
    requires Terminated(text) && q < |text|
    ensures Classify(cfg, text, q).next < |text|
  {
    hide InvalidNumber, Scan, Match, CString;
  }

  lemma TokensUnfold(cfg: Config, text: seq<byte>, p: nat, q: nat, x: Lexed)
    requires Terminated(text) && p < |text| && SkipWhite(text, p) == q && Classify(cfg, text, q) == x
    ensures Last(x.token) ==> Tokens(cfg, text, p) == [x.token]
    ensures !Last(x.token) ==> x.next < |text| && Tokens(cfg, text, p) == [x.token] + Tokens(cfg, text, x.next)
  {
    hide Classify, SkipWhite;
  }

  lemma {:induction false} SpelledAreTokens(cfg: Config, text: seq<byte>, p: nat, ts: seq<Token>)
    requires Terminated(text) && p < |text| && Spells(cfg, text, p, ts)
    ensures Tokens(cfg, text, p) == ts && NoError(ts)
    decreases |ts|
  {
    hide Classify, SpelledAs, SkipWhite, Tokens, AllWhite;
    var q: nat, n: nat :| SpellsFrom(cfg, text, p, ts, q, n);
    var t, rest := ts[0], ts[1..];
    WhiteIsSkipped(text, p, q);
    SpelledIsLexed(cfg, text, q, n, t);
    TokensUnfold(cfg, text, p, q, Lexed(t, q + n));
    assert ts == [t] + rest;
    if t != End {
      SpelledAreTokens(cfg, text, q + n, rest);
    }
  }

  /** The tokens of a text without an error are those that it spells. */
  lemma LexingIsExact(cfg: Config, text: seq<byte>, p: nat, ts: seq<Token>)
    requires Terminated(text) && p < |text|
    ensures Spells(cfg, text, p, ts) <==> Tokens(cfg, text, p) == ts && NoError(ts)
  {
    hide Tokens, Spells;
    if Spells(cfg, text, p, ts) { SpelledAreTokens(cfg, text, p, ts); }
    if NoError(Tokens(cfg, text, p)) { TokensAreSpelled(cfg, text, p); }
  }

  /** The decoder gives a value exactly for the texts that spell the tokens of a tree of allowed depth,
      and it is that tree's. */
  lemma OnlySuchTextsAreDecoded(cfg: Config, data: seq<byte>, value: Lua)
    ensures JsonGrammar.Decode(Tokens(cfg, data + [0], 0), cfg.limit) == Parsed(value, [End]) <==>
      exists v :: Spells(cfg, data + [0], 0, Lin(v) + [End]) && Depth(v) <= cfg.limit && value == LuaOf(v)
  {
    hide Tokens, Spells, Lin, Depth, LuaOf, JsonGrammar.Decode;
    var text := data + [0];
    var ts := Tokens(cfg, text, 0);
    DecodeIsExact(ts, cfg.limit, value);
    forall v: Json ensures Spells(cfg, text, 0, Lin(v) + [End]) <==> ts == Lin(v) + [End] {
      LexingIsExact(cfg, text, 0, Lin(v) + [End]);
      LinNoError(v);
    }
  }

  lemma {:induction false} LinNoError(v: Json)
    ensures NoError(Lin(v) + [End])
    decreases v
  {
    LinHasNoError(v);
    forall t | t in Lin(v) + [End] ensures !t.Error? {
      assert t in Lin(v) || t == End;
    }
  }

  lemma {:induction false} LinHasNoError(v: Json)
    ensures NoError(Lin(v))
    decreases v
  {
    match v
    case JObject(ms) => if ms != [] { MembersNoError(ms); }
    case JArray(xs) => if xs != [] { ItemsNoError(xs); }
    case _ =>
  }

  lemma {:induction false} MembersNoError(ms: seq<Member>)
    requires ms != []
    ensures NoError(LinMembers(ms))
    decreases ms
  {
    hide Lin;
    LinHasNoError(ms[0].value);
    if |ms| > 1 { MembersNoError(ms[1..]); }
  }

  lemma {:induction false} ItemsNoError(xs: seq<Json>)
    requires xs != []
    ensures NoError(LinItems(xs))
    decreases xs
  {
    hide Lin;
    LinHasNoError(xs[0]);
    if |xs| > 1 { ItemsNoError(xs[1..]); }
  }

  // ---------------------------------------------------------------- texts that are no JSON

  lemma SpellOne(cfg: Config, text: seq<byte>, q: nat, n: nat, t: Token, rest: seq<Token>)
    requires Terminated(text) && q + n < |text| && !White(text[q]) && t != End
    requires SpelledAs(cfg, text, q, n, t) && Spells(cfg, text, q + n, rest)
    ensures Spells(cfg, text, q, [t] + rest)
  {
    hide SpelledAs, Spells;
    assert ([t] + rest)[1..] == rest && text[q..q] == [];
    assert SpellsFrom(cfg, text, q, [t] + rest, q, n);
    OneIsSpelled(cfg, text, q, [t] + rest, n);
  }

  lemma OneIsSpelled(cfg: Config, text: seq<byte>, q: nat, ts: seq<Token>, n: nat)
    requires Terminated(text) && SpellsFrom(cfg, text, q, ts, q, n)
    ensures Spells(cfg, text, q, ts)
  {
    hide SpellsFrom;
  }

  lemma SpellEnd(cfg: Config, text: seq<byte>, q: nat)
    requires Terminated(text) && q < |text| && text[q] == 0
    ensures Spells(cfg, text, q, [End])
  {
    assert text[q..q] == [];
    assert SpellsFrom(cfg, text, q, [End], q, 0);
  }

  lemma SpellBracket(cfg: Config, text: seq<byte>, q: nat, t: Token, rest: seq<Token>)
    requires Terminated(text) && q + 1 < |text| && t in {ArrBegin, ArrEnd} && [text[q]] == Spelling(Mark([], t))
    requires Spells(cfg, text, q + 1, rest)
    ensures Spells(cfg, text, q, [t] + rest)
  {
    hide Spells;
    assert text[q..q + 1] == [text[q]];
    SpellOne(cfg, text, q, 1, t, rest);
  }

  /** The text [1.] is no JSON, and neither is [] with a NUL and anything behind it; both are taken. */
  lemma NotJsonExamples(cfg: Config, rest: seq<byte>)
    requires cfg.strtod([0x31, 0x2E, 0x5D]) == 2
    ensures Spells(cfg, [0x5B, 0x31, 0x2E, 0x5D, 0], 0, [ArrBegin, Num([0x31, 0x2E]), ArrEnd, End])
    ensures Spells(cfg, [0x5B, 0x5D, 0] + rest + [0], 0, [ArrBegin, ArrEnd, End])
  {
    hide Spells, SpelledAs;
    OneDot(cfg);
    var text := [0x5B, 0x5D, 0] + rest + [0];
    assert text[0] == 0x5B && text[1] == 0x5D && text[2] == 0;
    SpellEnd(cfg, text, 2);
    SpellBracket(cfg, text, 1, ArrEnd, [End]);
    SpellBracket(cfg, text, 0, ArrBegin, [ArrEnd] + [End]);
    assert [ArrBegin] + ([ArrEnd] + [End]) == [ArrBegin, ArrEnd, End];
  }

  lemma OneDot(cfg: Config)
    requires cfg.strtod([0x31, 0x2E, 0x5D]) == 2
    ensures Spells(cfg, [0x5B, 0x31, 0x2E, 0x5D, 0], 0, [ArrBegin, Num([0x31, 0x2E]), ArrEnd, End])
  {
    hide Spells, SpelledAs;
    var text: seq<byte> := [0x5B, 0x31, 0x2E, 0x5D, 0];
    var num := Num([0x31, 0x2E]);
    OneDotIsTaken(cfg, text);
    SpellEnd(cfg, text, 4);
    SpellBracket(cfg, text, 3, ArrEnd, [End]);
    SpellOne(cfg, text, 1, 2, num, [ArrEnd] + [End]);
    SpellBracket(cfg, text, 0, ArrBegin, [num] + ([ArrEnd] + [End]));
    assert [ArrBegin] + ([num] + ([ArrEnd] + [End])) == [ArrBegin, num, ArrEnd, End];
  }

  lemma OneDotIsTaken(cfg: Config, text: seq<byte>)
    requires text == [0x5B, 0x31, 0x2E, 0x5D, 0] && cfg.strtod([0x31, 0x2E, 0x5D]) == 2
    ensures SpelledAs(cfg, text, 1, 2, Num([0x31, 0x2E]))
  {
    assert CString(text, 4) == [] && CString(text, 3) == [0x5D] && CString(text, 2) == [0x2E, 0x5D];
    assert CString(text, 1) == [0x31, 0x2E, 0x5D];
    assert text[1..3] == [0x31, 0x2E];
  }
}
