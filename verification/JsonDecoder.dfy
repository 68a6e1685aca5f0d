/** The JSON decoder: its lexer over a NUL-terminated text, its scratch buffer and its recursion. */
module JsonDecoder {
  import opened ByteSeq
  import opened Ascii
  import opened JsonString
  import Utf8
  import opened JsonGrammar

  /** The settings of the decoder, and strtod: how many bytes of a string it takes for a number. */
  datatype Config = Config(limit: nat, invalidNumbers: bool, strtod: seq<byte> -> nat)

  // ---------------------------------------------------------------- the lexer

  function SkipWhite(text: seq<byte>, p: nat): (q: nat)
    requires Terminated(text) && p < |text|
    ensures p <= q < |text| && !White(text[q]) && forall i | p <= i < q :: White(text[i])
    decreases |text| - p
  {
    if White(text[p]) then SkipWhite(text, p + 1) else p
  }

  /** strncmp or strncasecmp against a lower-case word: it stops at the first difference. */
  predicate Match(text: seq<byte>, p: nat, word: seq<byte>, fold: bool)
    requires Terminated(text) && p < |text| && 0 !in word
    decreases |word|
  {
    word == [] || (Folded(text[p], fold) == word[0] && text[p] != 0 && Match(text, p + 1, word[1..], fold))
  }

  function Folded(c: byte, fold: bool): byte { if fold && 0x41 <= c <= 0x5A then c + 0x20 else c }

  const INF: seq<byte> := [0x69, 0x6E, 0x66]
  const NAN: seq<byte> := [0x6E, 0x61, 0x6E]

  /** json_is_invalid_number. Bytes from 0x80 are negative characters there. */
  predicate InvalidNumber(text: seq<byte>, p: nat)
    requires Terminated(text) && p < |text|
  {
    if text[p] == 0x2B then true
    else
      var q := if text[p] == 0x2D then p + 1 else p;
      if text[q] == 0x30 then text[q + 1] in {0x58, 0x78} || Digit(text[q + 1])
      else if text[q] <= 0x39 || text[q] >= 0x80 then false
      else Match(text, q, INF, true) || Match(text, q, NAN, true)
  }

  /** The C string at p. */
  function CString(text: seq<byte>, p: nat): (s: seq<byte>)
    requires Terminated(text) && p < |text|
    ensures p + |s| < |text| && s == text[p..p + |s|] && 0 !in s
    decreases |text| - p
  {
    if text[p] == 0 then [] else [text[p]] + CString(text, p + 1)
  }

  /** A token and the position behind it; at the end and at an error the lexer stays. */
  datatype Lexed = Lexed(token: Token, next: nat)

  predicate Last(t: Token) { t.End? || t.Error? }

  function Number(cfg: Config, text: seq<byte>, p: nat): (x: Lexed)
    requires Terminated(text) && p < |text|
    ensures !Last(x.token) ==> p < x.next < |text|
  {
    var s := CString(text, p);
    var n := cfg.strtod(s);
    var taken := if n < |s| then n else |s|;
    if taken == 0 then Lexed(Error("invalid number"), p) else Lexed(Num(s[..taken]), p + taken)
  }

  function Lex(cfg: Config, text: seq<byte>, p: nat): (x: Lexed)
    requires Terminated(text) && p < |text|
    ensures !Last(x.token) ==> p < x.next < |text|
  {
    Classify(cfg, text, SkipWhite(text, p))
  }

  function Classify(cfg: Config, text: seq<byte>, q: nat): (x: Lexed)
    requires Terminated(text) && q < |text|
    ensures !Last(x.token) ==> q < x.next < |text|
  {
    var c := text[q];
    if c == 0 then Lexed(End, q)
    else if c == 0x7B then Lexed(ObjBegin, q + 1)
    else if c == 0x7D then Lexed(ObjEnd, q + 1)
    else if c == 0x5B then Lexed(ArrBegin, q + 1)
    else if c == 0x5D then Lexed(ArrEnd, q + 1)
    else if c == 0x2C then Lexed(Comma, q + 1)
    else if c == 0x3A then Lexed(Colon, q + 1)
    else if c == QUOTE then
      match Scan(text, q + 1)
      case Some(r) => Lexed(Str(r.value), r.end)
      case None => Lexed(Error(Refusal(text, q + 1)), q)
    else if c == 0x2D || Digit(c) then
      if !cfg.invalidNumbers && InvalidNumber(text, q) then Lexed(Error("invalid number"), q)
      else Number(cfg, text, q)
    else if Match(text, q, TRUE, false) then Word(text, q, TRUE, Boolean(true))
    else if Match(text, q, FALSE, false) then Word(text, q, FALSE, Boolean(false))
    else if Match(text, q, NULL, false) then Word(text, q, NULL, Null)
    else if c in {0x66, 0x69, 0x49, 0x6E, 0x4E, 0x74, 0x2B} && cfg.invalidNumbers && InvalidNumber(text, q) then
      Number(cfg, text, q)
    else Lexed(Error("invalid token"), q)
  }

  function Word(text: seq<byte>, p: nat, word: seq<byte>, t: Token): (x: Lexed)
    requires Terminated(text) && p < |text| && 0 !in word && word != [] && Match(text, p, word, false)
    ensures x.token == t && p < x.next < |text|
  {
    MatchInside(text, p, word);
    Lexed(t, p + |word|)
  }

  lemma {:induction false} MatchInside(text: seq<byte>, p: nat, word: seq<byte>)
    requires Terminated(text) && p < |text| && 0 !in word
    ensures Match(text, p, word, false) <==> p + |word| < |text| && text[p..p + |word|] == word
    decreases |word|
  {
    if word != [] && text[p] == word[0] {
      MatchInside(text, p + 1, word[1..]);
      if p + |word| < |text| {
        assert text[p..p + |word|] == [text[p]] + text[p + 1..p + |word|];
      }
      assert word == [word[0]] + word[1..];
    }
  }

  /** The tokens of the text from p on. */
  function Tokens(cfg: Config, text: seq<byte>, p: nat): (ts: seq<Token>)
    requires Terminated(text) && p < |text|
    ensures Closed(ts)
    decreases |text| - p
  {
    var x := Lex(cfg, text, p);
    if Last(x.token) then [x.token] else [x.token] + Tokens(cfg, text, x.next)
  }

  /** The tokens left when t has been read and the lexer is at p. */
  function Pending(cfg: Config, text: seq<byte>, t: Token, p: nat): (ts: seq<Token>)
    requires Terminated(text) && p < |text|
    ensures Peek(ts) == t
    ensures !Last(t) ==> Next(ts) == Tokens(cfg, text, p)
  {
    if Last(t) then [t] else [t] + Tokens(cfg, text, p)
  }

  // ---------------------------------------------------------------- the decoder

  /** What a parsing step ends with: a value, or the error it throws. */
  datatype Reply = Value(v: Lua) | Expected(wanted: Wanted, found: Token) | Nested(depth: nat) | NotUtf8

  predicate Agrees(r: Reply, o: Outcome, left: seq<Token>) {
    match o
    case Parsed(v, rest) => r == Value(v) && rest == left
    case Fault(wanted, found) => r == Expected(wanted, found)
    case TooDeep(d) => r == Nested(d)
  }

  lemma AgreesValue(v: Lua, left: seq<Token>)
    ensures Agrees(Value(v), Parsed(v, left), left)
  {
  }

  lemma AgreesFault(wanted: Wanted, found: Token, left: seq<Token>)
    ensures Agrees(Expected(wanted, found), Fault(wanted, found), left)
  {
  }

  lemma AgreesNested(d: nat, left: seq<Token>)
    ensures Agrees(Nested(d), TooDeep(d), left)
  {
  }

  lemma AgreesHasValue(r: Reply, o: Outcome, left: seq<Token>)
    requires Agrees(r, o, left) && r.Value?
    ensures o == Parsed(r.v, left)
  {
  }

  lemma AgreesFails(r: Reply, o: Outcome, whole: Outcome, left: seq<Token>)
    requires Agrees(r, o, left) && !r.Value? && (!o.Parsed? ==> whole == o)
    ensures Agrees(r, whole, left)
  {
  }

  lemma ParseObject(ts: seq<Token>, depth: nat, limit: nat)
    requires Peek(ts) == ObjBegin
    ensures ParseValue(ts, depth, limit)
         == if depth + 1 > limit then TooDeep(depth + 1)
            else if Peek(Next(ts)) == ObjEnd then Parsed(Table(map[]), Next(Next(ts)))
            else ParseMembers(Next(ts), map[], depth + 1, limit)
  {
    hide ParseMembers, Peek, Next;
  }

  lemma ParseArray(ts: seq<Token>, depth: nat, limit: nat)
    requires Peek(ts) == ArrBegin
    ensures ParseValue(ts, depth, limit)
         == if depth + 1 > limit then TooDeep(depth + 1)
            else if Peek(Next(ts)) == ArrEnd then Parsed(Table(map[]), Next(Next(ts)))
            else ParseItems(Next(ts), 1, map[], depth + 1, limit)
  {
    hide ParseItems, Peek, Next;
  }

  lemma MembersUnfold(ts: seq<Token>, t: map<Key, Lua>, depth: nat, limit: nat)
    ensures !Peek(ts).Str? ==> ParseMembers(ts, t, depth, limit) == Fault(ObjectKey, Peek(ts))
    ensures Peek(ts).Str? && Peek(Next(ts)) != Colon ==>
      ParseMembers(ts, t, depth, limit) == Fault(AColon, Peek(Next(ts)))
    ensures Peek(ts).Str? && Peek(Next(ts)) == Colon ==>
      var o := ParseValue(Next(Next(ts)), depth, limit);
      ParseMembers(ts, t, depth, limit) ==
        if !o.Parsed? then o
        else if Peek(o.rest) == ObjEnd then Parsed(Table(t[Name(Peek(ts).s) := o.value]), Next(o.rest))
        else if Peek(o.rest) != Comma then Fault(CommaOrObjectEnd, Peek(o.rest))
        else ParseMembers(Next(o.rest), t[Name(Peek(ts).s) := o.value], depth, limit)
  {
    hide ParseValue, Peek, Next;
  }

  lemma ItemsUnfold(ts: seq<Token>, i: nat, t: map<Key, Lua>, depth: nat, limit: nat)
    ensures var o := ParseValue(ts, depth, limit);
      ParseItems(ts, i, t, depth, limit) ==
        if !o.Parsed? then o
        else if Peek(o.rest) == ArrEnd then Parsed(Table(t[Index(i) := o.value]), Next(o.rest))
        else if Peek(o.rest) != Comma then Fault(CommaOrArrayEnd, Peek(o.rest))
        else ParseItems(Next(o.rest), i + 1, t[Index(i) := o.value], depth, limit)
  {
    hide ParseValue, Peek, Next;
  }

  lemma RefusalUnfold(text: seq<byte>, p: nat)
    requires Terminated(text) && p < |text| && text[p] != QUOTE && Scan(text, p).None?
    ensures text[p] == 0 ==> Refusal(text, p) == "unexpected end of string"
    ensures text[p] != 0 && text[p] != BACKSLASH ==>
      Scan(text, p + 1).None? && Refusal(text, p) == Refusal(text, p + 1)
    ensures text[p] == BACKSLASH && EscapeChar(text[p + 1]) == 0 ==> Refusal(text, p) == "invalid escape code"
    ensures text[p] == BACKSLASH && EscapeChar(text[p + 1]) !in {0, U} ==>
      p + 2 < |text| && Scan(text, p + 2).None? && Refusal(text, p) == Refusal(text, p + 2)
    ensures text[p] == BACKSLASH && EscapeChar(text[p + 1]) == U ==>
      var e := UnicodeEscape(text, p);
      if e.None? then Refusal(text, p) == "invalid unicode escape code"
      else Scan(text, p + e.value.length).None? && Refusal(text, p) == Refusal(text, p + e.value.length)
  {
    hide UnicodeEscape;
  }

  /** Scanning from start has come to p and has gathered got. */
  ghost predicate Reading(text: seq<byte>, start: nat, p: nat, got: seq<byte>)
    requires Terminated(text) && start < |text| && p < |text|
  {
    match Scan(text, p)
    case Some(r) => Scan(text, start) == Some(Scanned(got + r.value, r.end))
    case None => Scan(text, start).None? && Refusal(text, start) == Refusal(text, p)
  }

  lemma ReadingStarts(text: seq<byte>, p: nat)
    requires Terminated(text) && p < |text|
    ensures Reading(text, p, p, [])
  {
    if Scan(text, p).Some? {
      assert [] + Scan(text, p).value.value == Scan(text, p).value.value;
    }
  }

  lemma ReadingGoesOn(text: seq<byte>, start: nat, p: nat, got: seq<byte>, bytes: seq<byte>, next: nat)
    requires Terminated(text) && start < |text| && p < |text| && next < |text| && Reading(text, start, p, got)
    requires Scan(text, p) == Prefix(bytes, Scan(text, next))
    requires Scan(text, p).None? ==> Refusal(text, p) == Refusal(text, next)
    ensures Reading(text, start, next, got + bytes)
  {
    hide Scan, Refusal;
    if Scan(text, next).Some? {
      var r := Scan(text, next).value;
      assert got + (bytes + r.value) == got + bytes + r.value;
    }
  }

  lemma ReadingChar(text: seq<byte>, start: nat, p: nat, got: seq<byte>)
    requires Terminated(text) && start < |text| && p < |text| && Reading(text, start, p, got)
    requires text[p] !in {0, QUOTE, BACKSLASH}
    ensures Reading(text, start, p + 1, got + [text[p]])
  {
    hide Scan, Refusal, Reading, EscapeChar, UnicodeEscape;
    ScanUnfold(text, p);
    if Scan(text, p).None? {
      RefusalUnfold(text, p);
    }
    ReadingGoesOn(text, start, p, got, [text[p]], p + 1);
  }

  lemma ReadingShort(text: seq<byte>, start: nat, p: nat, got: seq<byte>)
    requires Terminated(text) && start < |text| && p < |text| && Reading(text, start, p, got)
    requires text[p] == BACKSLASH && EscapeChar(text[p + 1]) !in {0, U}
    ensures p + 2 < |text| && Reading(text, start, p + 2, got + [EscapeChar(text[p + 1])])
  {
    hide Scan, Refusal, Reading, UnicodeEscape;
    ScanUnfold(text, p);
    if Scan(text, p).None? {
      RefusalUnfold(text, p);
    }
    ReadingGoesOn(text, start, p, got, [EscapeChar(text[p + 1])], p + 2);
  }

  lemma ReadingEscape(text: seq<byte>, start: nat, p: nat, got: seq<byte>)
    requires Terminated(text) && start < |text| && p < |text| && Reading(text, start, p, got)
    requires text[p] == BACKSLASH && EscapeChar(text[p + 1]) == U
    ensures text[p + 1] == U && p + 1 < |text| - 1
    ensures var e := UnicodeEscape(text, p);
      e.Some? ==> Reading(text, start, p + e.value.length, got + e.value.bytes)
  {
    hide Scan, Refusal, Reading, UnicodeEscape;
    ScanUnfold(text, p);
    if UnicodeEscape(text, p).Some? {
      var e := UnicodeEscape(text, p).value;
      if Scan(text, p).None? {
        RefusalUnfold(text, p);
      }
      ReadingGoesOn(text, start, p, got, e.bytes, p + e.length);
    }
  }

  lemma ReadingEnds(text: seq<byte>, start: nat, p: nat, got: seq<byte>)
    requires Terminated(text) && start < |text| && p < |text| && Reading(text, start, p, got) && text[p] == QUOTE
    ensures p + 1 < |text| && Scan(text, start) == Some(Scanned(got, p + 1))
  {
    hide Refusal;
    ScanQuote(text, p);
    assert got + [] == got;
  }

  /** The three ways in which a string token goes wrong. */
  lemma ReadingFails(text: seq<byte>, start: nat, p: nat, got: seq<byte>)
    requires Terminated(text) && start < |text| && p < |text| && Reading(text, start, p, got)
    requires text[p] == 0 || text[p] == BACKSLASH
    ensures text[p] == 0 ==> Scan(text, start).None? && Refusal(text, start) == "unexpected end of string"
    ensures text[p] == BACKSLASH && EscapeChar(text[p + 1]) == 0 ==>
      Scan(text, start).None? && Refusal(text, start) == "invalid escape code"
    ensures text[p] == BACKSLASH && EscapeChar(text[p + 1]) == U && UnicodeEscape(text, p).None? ==>
      Scan(text, start).None? && Refusal(text, start) == "invalid unicode escape code"
  {
    hide Scan, Refusal, UnicodeEscape;
    ScanUnfold(text, p);
    if Scan(text, p).None? {
      RefusalUnfold(text, p);
    }
  }

  class Decoder {
    const cfg: Config
    const text: seq<byte>
    const tmp: array<byte>
    var ptr: nat
    var length: nat
    var depth: nat

    predicate Valid()
      reads this
    {
      Terminated(text) && ptr < |text| <= tmp.Length && length <= tmp.Length
    }

    /** The scratch buffer has a byte for every byte of the data and one for a final NUL. */
    constructor (cfg: Config, data: seq<byte>)
      ensures Valid() && fresh(tmp) && this.cfg == cfg && text == data + [0] && ptr == 0 && depth == 0
      ensures tmp.Length == if data == [] then 1023 else |data| + 1
    {
      this.cfg := cfg;
      text := data + [0];
      tmp := new byte[if data == [] then 1023 else |data| + 1];
      ptr, length, depth := 0, 0, 0;
    }

    method DecodeHex4(p: nat) returns (n: Option<nat>)
      requires Valid() && p < |text|
      ensures n == Hex4(text, p)
    {
      var digit: seq<nat> := [];
      while |digit| < 4
        invariant |digit| <= 4 && p + |digit| < |text|
        invariant forall k | 0 <= k < |digit| :: HexValue(text[p + k]) == Some(digit[k])
        decreases 4 - |digit|
      {
        var d := HexValue(text[p + |digit|]);
        if d.None? {
          return None;
        }
        digit := digit + [d.value];
      }
      n := Some(0x1000 * digit[0] + 0x100 * digit[1] + 0x10 * digit[2] + digit[3]);
    }

    method AppendChar(c: byte)
      requires length < tmp.Length
      modifies tmp, this`length
      ensures length == old(length) + 1 && tmp[..length] == old(tmp[..length]) + [c]
    {
      tmp[length] := c;
      length := length + 1;
    }

    method AppendMem(c: seq<byte>)
      requires length + |c| <= tmp.Length
      modifies tmp, this`length
      ensures length == old(length) + |c| && tmp[..length] == old(tmp[..length]) + c
    {
      forall i | 0 <= i < |c| {
        tmp[length + i] := c[i];
      }
      length := length + |c|;
    }

    /** json_append_unicode_escape: no byte is written that the escape did not pay for. */
    method AppendUnicodeEscape() returns (ok: bool)
      requires Valid() && ptr + 1 < |text| - 1 && text[ptr] == BACKSLASH && text[ptr + 1] == U
      requires length <= ptr
      modifies tmp, this`ptr, this`length
      ensures ok == UnicodeEscape(text, old(ptr)).Some?
      ensures ok ==>
        var e := UnicodeEscape(text, old(ptr)).value;
        && ptr == old(ptr) + e.length < |text| && length == old(length) + |e.bytes| <= tmp.Length
        && tmp[..length] == old(tmp[..length]) + e.bytes
      ensures !ok ==> ptr == old(ptr) && length == old(length) && tmp[..] == old(tmp[..])
    {
      hide Hex4, Utf8.FromCodepoint;
      var escapeLen := 6;
      var unit := DecodeHex4(ptr + 2);
      if unit.None? {
        return false;
      }
      var codepoint := unit.value;
      if codepoint / 0x800 == 0x1B {
        if codepoint / 0x400 % 2 == 1 {
          return false;
        }
        if text[ptr + escapeLen] != BACKSLASH || text[ptr + escapeLen + 1] != U {
          return false;
        }
        var low := DecodeHex4(ptr + 2 + escapeLen);
        if low.None? || low.value / 0x400 != 0x37 {
          return false;
        }
        codepoint := codepoint % 0x400 * 0x400 + low.value % 0x400 + 0x1_0000;
        escapeLen := 12;
      }
      assert UnicodeEscape(text, ptr) == Some(Escape(Utf8.FromCodepoint(codepoint), escapeLen));
      AppendMem(Utf8.FromCodepoint(codepoint));
      ptr := ptr + escapeLen;
      ok := true;
    }

    /** json_next_string_token: at most as many bytes are written as are read, and the final NUL
        has room. */
    method NextStringToken() returns (t: Token)
      requires Valid() && text[ptr] == QUOTE
      modifies tmp, this`ptr, this`length
      ensures Valid() && ptr > old(ptr) && length <= ptr - old(ptr) - 1
      ensures match Scan(text, old(ptr) + 1)
        case Some(r) => t == Str(r.value) && ptr == r.end && tmp[..length] == r.value && tmp[length] == 0
        case None => t == Error(Refusal(text, old(ptr) + 1))
    {
      hide Scan, Refusal, UnicodeEscape, Reading, EscapeChar;
      ghost var start := ptr + 1;
      ptr := ptr + 1;
      length := 0;
      assert tmp[..0] == [];
      ReadingStarts(text, start);
      while text[ptr] != QUOTE
        invariant start <= ptr < |text| && length <= ptr - start
        invariant Reading(text, start, ptr, tmp[..length])
        decreases |text| - ptr
      {
        var ch := text[ptr];
        if ch == 0 {
          ReadingFails(text, start, ptr, tmp[..length]);
          return Error("unexpected end of string");
        }
        if ch == BACKSLASH {
          ch := EscapeChar(text[ptr + 1]);
          if ch == U {
            ReadingEscape(text, start, ptr, tmp[..length]);
            ReadingFails(text, start, ptr, tmp[..length]);
            var ok := AppendUnicodeEscape();
            if ok {
              continue;
            }
            return Error("invalid unicode escape code");
          }
          if ch == 0 {
            ReadingFails(text, start, ptr, tmp[..length]);
            return Error("invalid escape code");
          }
          ReadingShort(text, start, ptr, tmp[..length]);
          ptr := ptr + 1;
        } else {
          ReadingChar(text, start, ptr, tmp[..length]);
        }
        AppendChar(ch);
        ptr := ptr + 1;
      }
      ReadingEnds(text, start, ptr, tmp[..length]);
      ptr := ptr + 1;
      tmp[length] := 0;
      t := Str(tmp[..length]);
    }

    method SkipWhiteSpace()
      requires Valid()
      modifies this`ptr
      ensures ptr == SkipWhite(text, old(ptr))
    {
      while White(text[ptr])
        invariant ptr < |text| && SkipWhite(text, ptr) == SkipWhite(text, old(ptr))
        decreases |text| - ptr
      {
        ptr := ptr + 1;
      }
    }

    /** json_next_token. */
    method NextToken() returns (t: Token)
      requires Valid()
      modifies tmp, this`ptr, this`length
      ensures Valid() && t == Lex(cfg, text, old(ptr)).token && ptr >= old(ptr)
      ensures !Last(t) ==> ptr == Lex(cfg, text, old(ptr)).next
      ensures Tokens(cfg, text, old(ptr)) == Pending(cfg, text, t, ptr)
    {
      hide Scan, Refusal, InvalidNumber, Match, Number;
      SkipWhiteSpace();
      var c := text[ptr];
      var x := Classify(cfg, text, ptr);
      if c == QUOTE {
        t := NextStringToken();
      } else {
        t := x.token;
        ptr := if Last(t) then ptr else x.next;
      }
    }

    /** json_process_value, for the token just read. */
    method ProcessValue(token: Token) returns (r: Reply)
      requires Valid() && depth <= cfg.limit
      modifies tmp, this`ptr, this`length, this`depth
      ensures Valid() && ptr >= old(ptr)
      ensures Agrees(r, ParseValue(Pending(cfg, text, token, old(ptr)), old(depth), cfg.limit), Tokens(cfg, text, ptr))
      ensures r.Value? ==> depth == old(depth)
      decreases |text| - ptr, if Last(token) then 0 else 2
    {
      hide Lex, Tokens, Pending, ParseMembers, ParseItems;
      match token
      case Str(s) => r := Value(LString(s));
      case Num(n) => r := Value(LNumber(n));
      case Boolean(b) => r := Value(LBool(b));
      case Null => r := Value(LNull);
      case ObjBegin => r := ParseObjectContext();
      case ArrBegin => r := ParseArrayContext();
      case ObjEnd => r := Expected(AValue, token);
      case ArrEnd => r := Expected(AValue, token);
      case Colon => r := Expected(AValue, token);
      case Comma => r := Expected(AValue, token);
      case End => r := Expected(AValue, token);
      case Error(why) => r := Expected(AValue, token);
    }

    method ParseObjectContext() returns (r: Reply)
      requires Valid() && depth <= cfg.limit
      modifies tmp, this`ptr, this`length, this`depth
      ensures Valid() && ptr >= old(ptr)
      ensures Agrees(r, ParseValue(Pending(cfg, text, ObjBegin, old(ptr)), old(depth), cfg.limit), Tokens(cfg, text,
        ptr))
      ensures r.Value? ==> depth == old(depth)
      decreases |text| - ptr, 1
    {
      hide Lex, Tokens, Pending, ParseValue, ParseMembers, ParseItems, Peek, Next, Agrees;
      ghost var whole := ParseValue(Pending(cfg, text, ObjBegin, ptr), depth, cfg.limit);
      ParseObject(Pending(cfg, text, ObjBegin, ptr), depth, cfg.limit);
      depth := depth + 1;
      if depth > cfg.limit {
        AgreesNested(depth, Tokens(cfg, text, ptr));
        return Nested(depth);
      }
      var token := NextToken();
      if token == ObjEnd {
        depth := depth - 1;
        AgreesValue(Table(map[]), Tokens(cfg, text, ptr));
        return Value(Table(map[]));
      }
      var t: map<Key, Lua> := map[];
      while true
        invariant Valid() && ptr >= old(ptr) && depth == old(depth) + 1 <= cfg.limit
        invariant !Last(token) ==> ptr > old(ptr)
        invariant whole == ParseMembers(Pending(cfg, text, token, ptr), t, depth, cfg.limit)
        decreases |text| - ptr, if Last(token) then 0 else 1
      {
        ghost var ts := Pending(cfg, text, token, ptr);
        MembersUnfold(ts, t, depth, cfg.limit);
        if !token.Str? {
          AgreesFault(ObjectKey, token, Tokens(cfg, text, ptr));
          return Expected(ObjectKey, token);
        }
        var key := token.s;
        token := NextToken();
        if token != Colon {
          AgreesFault(AColon, token, Tokens(cfg, text, ptr));
          return Expected(AColon, token);
        }
        token := NextToken();
        r := ProcessValue(token);
        if !r.Value? {
          AgreesFails(r, ParseValue(Next(Next(ts)), old(depth) + 1, cfg.limit), whole, Tokens(cfg, text, ptr));
          return;
        }
        AgreesHasValue(r, ParseValue(Next(Next(ts)), depth, cfg.limit), Tokens(cfg, text, ptr));
        t := t[Name(key) := r.v];
        token := NextToken();
        if token == ObjEnd {
          depth := depth - 1;
          AgreesValue(Table(t), Tokens(cfg, text, ptr));
          return Value(Table(t));
        }
        if token != Comma {
          AgreesFault(CommaOrObjectEnd, token, Tokens(cfg, text, ptr));
          return Expected(CommaOrObjectEnd, token);
        }
        token := NextToken();
      }
    }

    method ParseArrayContext() returns (r: Reply)
      requires Valid() && depth <= cfg.limit
      modifies tmp, this`ptr, this`length, this`depth
      ensures Valid() && ptr >= old(ptr)
      ensures Agrees(r, ParseValue(Pending(cfg, text, ArrBegin, old(ptr)), old(depth), cfg.limit), Tokens(cfg, text,
        ptr))
      ensures r.Value? ==> depth == old(depth)
      decreases |text| - ptr, 1
    {
      hide Lex, Tokens, Pending, ParseValue, ParseMembers, ParseItems, Peek, Next, Agrees;
      ghost var whole := ParseValue(Pending(cfg, text, ArrBegin, ptr), depth, cfg.limit);
      ParseArray(Pending(cfg, text, ArrBegin, ptr), depth, cfg.limit);
      depth := depth + 1;
      if depth > cfg.limit {
        AgreesNested(depth, Tokens(cfg, text, ptr));
        return Nested(depth);
      }
      var token := NextToken();
      if token == ArrEnd {
        depth := depth - 1;
        AgreesValue(Table(map[]), Tokens(cfg, text, ptr));
        return Value(Table(map[]));
      }
      var t: map<Key, Lua> := map[];
      var i := 1;
      while true
        invariant Valid() && ptr >= old(ptr) && depth == old(depth) + 1 <= cfg.limit && i >= 1
        invariant !Last(token) ==> ptr > old(ptr)
        invariant whole == ParseItems(Pending(cfg, text, token, ptr), i, t, depth, cfg.limit)
        decreases |text| - ptr, if Last(token) then 0 else 1
      {
        ghost var ts := Pending(cfg, text, token, ptr);
        ItemsUnfold(ts, i, t, depth, cfg.limit);
        r := ProcessValue(token);
        if !r.Value? {
          AgreesFails(r, ParseValue(ts, old(depth) + 1, cfg.limit), whole, Tokens(cfg, text, ptr));
          return;
        }
        AgreesHasValue(r, ParseValue(ts, depth, cfg.limit), Tokens(cfg, text, ptr));
        t := t[Index(i) := r.v];
        token := NextToken();
        if token == ArrEnd {
          depth := depth - 1;
          AgreesValue(Table(t), Tokens(cfg, text, ptr));
          return Value(Table(t));
        }
        if token != Comma {
          AgreesFault(CommaOrArrayEnd, token, Tokens(cfg, text, ptr));
          return Expected(CommaOrArrayEnd, token);
        }
        token := NextToken();
        i := i + 1;
      }
    }
  }

  /** json_decode: it accepts exactly the texts whose tokens are those of one value nested at most
      `limit` deep, and gives that value. A larger text has no scratch buffer: the slab has no block
      for it. */
  method Decode(cfg: Config, data: seq<byte>) returns (r: Reply)
    requires |data| < 0x10_0000
    ensures |data| >= 2 && (data[0] == 0 || data[1] == 0) <==> r == NotUtf8
    ensures r != NotUtf8 ==> Agrees(r, JsonGrammar.Decode(Tokens(cfg, data + [0], 0), cfg.limit), [End])
    ensures r.Value? ==>
      exists v :: Tokens(cfg, data + [0], 0) == Lin(v) + [End] && Depth(v) <= cfg.limit && r.v == LuaOf(v)
    ensures forall v |
      r != NotUtf8 && Tokens(cfg, data + [0], 0) == Lin(v) + [End] && Depth(v) <= cfg.limit :: r == Value(LuaOf(v))
  {
    hide Lex, Tokens, Pending, ParseValue, Lin, LuaOf, Depth;
    if |data| >= 2 && (data[0] == 0 || data[1] == 0) {
      return NotUtf8;
    }
    ghost var ts := Tokens(cfg, data + [0], 0);
    ghost var whole := JsonGrammar.Decode(ts, cfg.limit);
    var json := new Decoder(cfg, data);
    var token := json.NextToken();
    r := json.ProcessValue(token);
    if r.Value? {
      token := json.NextToken();
      if token != End {
        r := Expected(TheEnd, token);
      }
    }
    Deciding(ts, cfg.limit);
  }

  lemma Deciding(ts: seq<Token>, limit: nat)
    requires Closed(ts)
    ensures JsonGrammar.Decode(ts, limit).Parsed? ==> JsonGrammar.Decode(ts, limit).rest == [End]
    ensures JsonGrammar.Decode(ts, limit).Parsed? ==>
      exists v :: ts == Lin(v) + [End] && Depth(v) <= limit && JsonGrammar.Decode(ts, limit).value == LuaOf(v)
    ensures forall v | ts == Lin(v) + [End] && Depth(v) <= limit ::
      JsonGrammar.Decode(ts, limit) == Parsed(LuaOf(v), [End])
  {
    hide JsonGrammar.Decode, Lin, LuaOf, Depth;
    var o := JsonGrammar.Decode(ts, limit);
    DecodeIsExact(ts, limit, if o.Parsed? then o.value else LNull);
    forall v | ts == Lin(v) + [End] && Depth(v) <= limit
      ensures JsonGrammar.Decode(ts, limit) == Parsed(LuaOf(v), [End])
    {
      DecodeIsExact(ts, limit, LuaOf(v));
    }
  }
}
