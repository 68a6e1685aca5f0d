/** What the Lua module prints is JSON: the text of the value's tree, which the C decoder takes as well. */
module LuaPrintedText {
  import opened ByteSeq
  import opened Ascii
  import opened JsonString
  import opened JsonGrammar
  import opened JsonText
  import JsonDecoder
  import L = LuaJson
  import P = LuaJsonPrinter
  import LuaText

  // ---------------------------------------------------------------- strings

  /** How a character of a string is written: nothing is escaped but what section 2.5 of RFC 4627 wants
      escaped, and that in its shortest form. */
  function PieceOf(c: byte): Piece {
    if c == 8 then Short(0x62) else if c == 9 then Short(0x74) else if c == 10 then Short(0x6E)
    else if c == 12 then Short(0x66) else if c == 13 then Short(0x72)
    else if c == QUOTE || c == BACKSLASH then Short(c)
    else if c < 32 then Unit(HexOf(c as nat))
    else Plain(c)
  }

  function PiecesOf(s: seq<byte>): seq<Piece> {
    if s == [] then [] else [PieceOf(s[0])] + PiecesOf(s[1..])
  }

  lemma EscapedIsPiece(c: byte)
    ensures Allowed(PieceOf(c)) && Text(PieceOf(c)) == P.Escaped(c) && Meaning(PieceOf(c)) == [c]
  {
    if PieceOf(c).Unit? {
      HexOfValue(c as nat);
      LowerZero();
    }
  }

  lemma LowerZero()
    ensures LowerHex(0) == 0x30
  {
  }

  lemma PiecesUnfold(x: Piece, xs: seq<Piece>)
    requires Allowed(x) && AllowedAll(xs)
    ensures AllowedAll([x] + xs) && TextAll([x] + xs) == Text(x) + TextAll(xs)
    ensures MeaningAll([x] + xs) == Meaning(x) + MeaningAll(xs)
  {
    hide Allowed, Text, Meaning;
    assert ([x] + xs)[1..] == xs;
  }

  lemma {:induction false} EscapedIsText(s: seq<byte>)
    ensures AllowedAll(PiecesOf(s)) && TextAll(PiecesOf(s)) == P.EscapedAll(s) && MeaningAll(PiecesOf(s)) == s
  {
    hide PieceOf, Allowed, Text, Meaning, P.Escaped, AllowedAll, TextAll, MeaningAll;
    if s == [] {
      NoPieces();
    } else {
      EscapedIsPiece(s[0]);
      EscapedIsText(s[1..]);
      PiecesUnfold(PieceOf(s[0]), PiecesOf(s[1..]));
    }
  }

  lemma NoPieces()
    ensures AllowedAll([]) && TextAll([]) == [] && MeaningAll([]) == []
  {
  }

  /** Text without control characters, quotes and backslashes is printed as it is. */
  lemma {:induction false} PlainStays(s: seq<byte>)
    requires forall i | 0 <= i < |s| :: s[i] >= 32 && s[i] != QUOTE && s[i] != BACKSLASH
    ensures P.EscapedAll(s) == s
  {
    if s != [] {
      PlainStays(s[1..]);
      assert s == [s[0]] + s[1..];
    }
  }

  // ---------------------------------------------------------------- numbers

  function NumeralOf(n: int): Numeral { Numeral(n < 0, L.Decimal(if n < 0 then 0 - n else n), [], []) }

  lemma IntegerIsNumeral(n: int)
    ensures Fine(NumeralOf(n)) && NumberText(NumeralOf(n)) == P.IntText(n)
  {
    hide L.Decimal;
    P.DecimalZero();
  }

  // ---------------------------------------------------------------- values

  /** The tree of a printable value: a table of names is an object, in the printer's order; any other is the
      array of 1 to its largest index, with null for a hole. */
  ghost function JsonOf(sort: P.Sorter, v: L.Value): Json
    requires P.Printable(v) && P.Sorts(sort)
    decreases v, 1
  {
    match v
    case Bool(b) => JBool(b)
    case Int(n) => JNumber(P.IntText(n))
    case Str(s) => JString(s)
    case Table(t) =>
      if t == map[] then JArray([])
      else if P.AllNames(t) then JObject(MembersFrom(sort, t, sort(P.NamesOf(t))))
      else if P.AllIndices(t) then JArray(ItemsFrom(sort, t, 1, P.MaxIndex(t)))
      else JNull
    case _ => JNull
  }

  ghost function MembersFrom(sort: P.Sorter, t: map<L.Key, L.Value>, keys: seq<seq<byte>>): (ms: seq<Member>)
    requires P.Printable(L.Table(t)) && P.Sorts(sort) && forall k | k in keys :: L.Name(k) in t
    ensures |ms| == |keys|
    decreases L.Table(t), 0, |keys|
  {
    if keys == [] then [] else [Member(keys[0], JsonOf(sort, t[L.Name(keys[0])]))] + MembersFrom(sort, t, keys[1..])
  }

  ghost function ItemsFrom(sort: P.Sorter, t: map<L.Key, L.Value>, i: nat, max: nat): (xs: seq<Json>)
    requires P.Printable(L.Table(t)) && P.Sorts(sort) && i <= max + 1
    ensures |xs| == max + 1 - i
    decreases L.Table(t), 0, max + 1 - i
  {
    if i == max + 1 then []
    else [if L.Index(i) in t then JsonOf(sort, t[L.Index(i)]) else JNull] + ItemsFrom(sort, t, i + 1, max)
  }

  /** The lexemes write the text, and are the tokens. */
  ghost predicate Writes(xs: seq<Lexeme>, text: seq<byte>, ts: seq<Token>) {
    ProperAll(xs) && Written(xs, []) == text && TokensOf(xs) == ts
  }

  lemma LexemeUnfold(x: Lexeme, xs: seq<Lexeme>)
    requires Proper(x) && ProperAll(xs)
    ensures ProperAll([x] + xs) && TokensOf([x] + xs) == [TokenOf(x)] + TokensOf(xs)
    ensures Written([x] + xs, []) == x.white + Spelling(x) + Written(xs, [])
  {
    hide Proper, TokenOf, Spelling;
    assert ([x] + xs)[1..] == xs;
  }

  lemma NoLexemes()
    ensures ProperAll([]) && TokensOf([]) == [] && Written([], []) == []
  {
  }

  lemma {:induction false} WritesMore(a: seq<Lexeme>, b: seq<Lexeme>, s: seq<byte>, t: seq<byte>, ts: seq<Token>,
                                      us: seq<Token>)
    requires Writes(a, s, ts) && Writes(b, t, us)
    ensures Writes(a + b, s + t, ts + us)
    decreases |a|
  {
    hide Proper, TokenOf, Spelling, TokensOf, Written;
    if a == [] {
      NoLexemes();
      assert a + b == b && s + t == t && ts + us == us;
    } else {
      var rest := a[1..];
      assert a == [a[0]] + rest && a + b == [a[0]] + (rest + b);
      LexemeUnfold(a[0], rest);
      WritesMore(rest, b, Written(rest, []), t, TokensOf(rest), us);
      LexemeUnfold(a[0], rest + b);
    }
  }

  lemma WritesOne(x: Lexeme) returns (xs: seq<Lexeme>)
    requires Proper(x) && x.white == []
    ensures Writes(xs, Spelling(x), [TokenOf(x)])
  {
    hide Proper, TokenOf, Spelling, TokensOf, Written;
    xs := [x] + [];
    NoLexemes();
    LexemeUnfold(x, []);
  }

  lemma WritesMark(t: Token) returns (xs: seq<Lexeme>)
    requires LuaText.CharOf(t) != 0
    ensures Writes(xs, [LuaText.CharOf(t)], [t])
  {
    hide Writes;
    xs := WritesOne(Mark([], t));
  }

  lemma WritesLiteral(s: seq<byte>) returns (xs: seq<Lexeme>)
    ensures Writes(xs, P.Literal(s), [Str(s)])
  {
    hide Writes, P.EscapedAll, TextAll, MeaningAll, AllowedAll;
    EscapedIsText(s);
    xs := WritesOne(Quoted([], PiecesOf(s)));
  }

  lemma WritesNumber(n: int) returns (xs: seq<Lexeme>)
    ensures Writes(xs, P.IntText(n), [Num(P.IntText(n))])
  {
    hide Writes, Fine, NumberText, P.IntText;
    IntegerIsNumeral(n);
    xs := WritesOne(Numeric([], NumeralOf(n)));
  }

  lemma WritesWord(t: Token) returns (xs: seq<Lexeme>)
    requires t.Boolean? || t.Null?
    ensures Writes(xs, if t.Null? then NULL else if t.b then TRUE else FALSE, [t])
  {
    hide Writes;
    assert t.Boolean? ==> t == Boolean(true) || t == Boolean(false);
    xs := WritesOne(Mark([], t));
  }

  /** The printed text is the text of the value's tree. */
  lemma {:induction false} ValueIsWritten(sort: P.Sorter, v: L.Value) returns (xs: seq<Lexeme>)
    requires P.Printable(v) && P.Sorts(sort) && P.Encode(sort, v).Some?
    ensures Writes(xs, P.Encode(sort, v).value, Lin(JsonOf(sort, v)))
    decreases v, 2
  {
    hide Writes, P.Literal, P.IntText, LinMembers, LinItems, P.EncodeParts, P.EncodeItems, P.Sorts;
    xs := [];
    match v
    case Nil => xs := WritesWord(Null);
    case Bool(b) => xs := WritesWord(Boolean(b));
    case Int(n) => xs := WritesNumber(n);
    case Str(s) => xs := WritesLiteral(s);
    case Table(t) =>
      if t == map[] {
        xs := EmptyIsWritten();
      } else if P.AllNames(t) {
        xs := ObjectIsWritten(sort, t);
      } else {
        xs := ArrayIsWritten(sort, t);
      }
    case Other(_) =>
  }

  lemma EmptyIsWritten() returns (xs: seq<Lexeme>)
    ensures Writes(xs, [L.LBRACKET, L.RBRACKET], Lin(JArray([])))
  {
    hide Writes;
    var a := WritesMark(ArrBegin);
    var b := WritesMark(ArrEnd);
    WritesMore(a, b, [L.LBRACKET], [L.RBRACKET], [ArrBegin], [ArrEnd]);
    xs := a + b;
    assert [L.LBRACKET] + [L.RBRACKET] == [L.LBRACKET, L.RBRACKET];
    assert Lin(JArray([])) == [ArrBegin] + [ArrEnd];
  }

  lemma {:induction false} ObjectIsWritten(sort: P.Sorter, t: map<L.Key, L.Value>) returns (xs: seq<Lexeme>)
    requires P.Printable(L.Table(t)) && P.Sorts(sort) && t != map[] && P.AllNames(t)
    requires P.Encode(sort, L.Table(t)).Some?
    ensures Writes(xs, P.Encode(sort, L.Table(t)).value, Lin(JsonOf(sort, L.Table(t))))
    decreases L.Table(t), 1
  {
    hide Writes, LinMembers, P.EncodeParts, P.Sorts, P.Join, P.Printable;
    var keys := sort(P.NamesOf(t));
    P.SortedKeys(sort, t);
    var ms, parts := MembersFrom(sort, t, keys), P.EncodeParts(sort, t, keys).value;
    var a := WritesMark(ObjBegin);
    var b := MembersAreWritten(sort, t, keys);
    var c := WritesMark(ObjEnd);
    WritesMore(a, b, [L.LBRACE], P.Join(parts), [ObjBegin], LinMembers(ms));
    WritesMore(a + b, c, [L.LBRACE] + P.Join(parts), [L.RBRACE], [ObjBegin] + LinMembers(ms), [ObjEnd]);
    xs := a + b + c;
  }

  lemma {:induction false} MembersAreWritten(sort: P.Sorter, t: map<L.Key, L.Value>, keys: seq<seq<byte>>)
    returns (xs: seq<Lexeme>)
    requires P.Printable(L.Table(t)) && P.Sorts(sort) && keys != [] && forall k | k in keys :: L.Name(k) in t
    requires P.EncodeParts(sort, t, keys).Some?
    ensures Writes(xs, P.Join(P.EncodeParts(sort, t, keys).value), LinMembers(MembersFrom(sort, t, keys)))
    decreases L.Table(t), 0, |keys|
  {
    hide Writes, Lin, LinMembers, P.EncodeParts, P.Encode, P.Sorts, P.Join, P.Printable, P.Literal, JsonOf;
    var w := t[L.Name(keys[0])];
    var ms, parts := MembersFrom(sort, t, keys), P.EncodeParts(sort, t, keys).value;
    P.NameNotNil(t, keys[0]);
    P.PartText(sort, t, keys);
    P.PartsCount(sort, t, keys);
    var s, ts := P.Encode(sort, w).value, Lin(JsonOf(sort, w));
    var a := WritesLiteral(keys[0]);
    var b := WritesMark(Colon);
    var c := ValueIsWritten(sort, w);
    WritesMore(b, c, [L.COLON], s, [Colon], ts);
    WritesMore(a, b + c, P.Literal(keys[0]), [L.COLON] + s, [Str(keys[0])], [Colon] + ts);
    xs := a + (b + c);
    LinMembersUnfold(ms, []);
    JoinUnfold(parts);
    assert LinMembers(ms) + [] == LinMembers(ms) && ts + [] == ts;
    if |keys| > 1 {
      var d := WritesMark(Comma);
      var e := MembersAreWritten(sort, t, keys[1..]);
      var more := MembersFrom(sort, t, keys[1..]);
      assert ms[1..] == more;
      WritesMore(d, e, [L.COMMA], P.Join(parts[1..]), [Comma], LinMembers(more));
      WritesMore(xs, d + e, parts[0], [L.COMMA] + P.Join(parts[1..]), [Str(keys[0])] + ([Colon] + ts),
        [Comma] + LinMembers(more));
      xs := xs + (d + e);
      assert LinMembers(more) + [] == LinMembers(more);
      assert [Str(keys[0])] + ([Colon] + ts) + ([Comma] + LinMembers(more))
          == [Str(keys[0])] + ([Colon] + (ts + ([Comma] + LinMembers(more))));
    }
  }

  lemma JoinUnfold(parts: seq<seq<byte>>)
    requires parts != []
    ensures |parts| == 1 ==> P.Join(parts) == parts[0]
    ensures |parts| > 1 ==> P.Join(parts) == parts[0] + ([L.COMMA] + P.Join(parts[1..]))
  {
    Regrouped(parts[0], [L.COMMA], P.Join(parts[1..]));
  }

  lemma Regrouped(a: seq<byte>, b: seq<byte>, c: seq<byte>)
    ensures a + b + c == a + (b + c)
  {
  }

  lemma {:induction false} ArrayIsWritten(sort: P.Sorter, t: map<L.Key, L.Value>) returns (xs: seq<Lexeme>)
    requires P.Printable(L.Table(t)) && P.Sorts(sort) && t != map[] && !P.AllNames(t)
    requires P.Encode(sort, L.Table(t)).Some?
    ensures Writes(xs, P.Encode(sort, L.Table(t)).value, Lin(JsonOf(sort, L.Table(t))))
    decreases L.Table(t), 1
  {
    hide Writes, LinItems, P.EncodeItems, P.Sorts, P.Join, P.Printable;
    var max := P.MaxIndex(t);
    var items, parts := ItemsFrom(sort, t, 1, max), P.EncodeItems(sort, t, 1, max).value;
    P.ItemsCount(sort, t, 1, max);
    if max == 0 {
      xs := EmptyIsWritten();
      P.JoinNothing();
      assert parts == [] && items == [];
      assert [L.LBRACKET] + [] + [L.RBRACKET] == [L.LBRACKET, L.RBRACKET];
    } else {
      var a := WritesMark(ArrBegin);
      var b := ItemsAreWritten(sort, t, 1, max);
      var c := WritesMark(ArrEnd);
      WritesMore(a, b, [L.LBRACKET], P.Join(parts), [ArrBegin], LinItems(items));
      WritesMore(a + b, c, [L.LBRACKET] + P.Join(parts), [L.RBRACKET], [ArrBegin] + LinItems(items), [ArrEnd]);
      xs := a + b + c;
    }
  }

  lemma {:induction false} ItemsAreWritten(sort: P.Sorter, t: map<L.Key, L.Value>, i: nat, max: nat)
    returns (xs: seq<Lexeme>)
    requires P.Printable(L.Table(t)) && P.Sorts(sort) && i <= max && P.EncodeItems(sort, t, i, max).Some?
    ensures Writes(xs, P.Join(P.EncodeItems(sort, t, i, max).value), LinItems(ItemsFrom(sort, t, i, max)))
    decreases L.Table(t), 0, max + 1 - i
  {
    hide Writes, Lin, LinItems, P.EncodeItems, P.Encode, P.Sorts, P.Join, P.Printable, JsonOf;
    var items, parts := ItemsFrom(sort, t, i, max), P.EncodeItems(sort, t, i, max).value;
    P.ItemText(sort, t, i, max);
    P.ItemsCount(sort, t, i, max);
    var ts := Lin(items[0]);
    xs := ItemIsWritten(sort, t, i, parts[0]);
    LinItemsUnfold(items, []);
    JoinUnfold(parts);
    assert LinItems(items) + [] == LinItems(items) && ts + [] == ts;
    if i < max {
      var d := WritesMark(Comma);
      var e := ItemsAreWritten(sort, t, i + 1, max);
      var more := ItemsFrom(sort, t, i + 1, max);
      assert items[1..] == more;
      WritesMore(d, e, [L.COMMA], P.Join(parts[1..]), [Comma], LinItems(more));
      WritesMore(xs, d + e, parts[0], [L.COMMA] + P.Join(parts[1..]), ts, [Comma] + LinItems(more));
      xs := xs + (d + e);
      assert LinItems(more) + [] == LinItems(more);
    }
  }

  lemma {:induction false} ItemIsWritten(sort: P.Sorter, t: map<L.Key, L.Value>, i: nat, s: seq<byte>)
    returns (xs: seq<Lexeme>)
    requires P.Printable(L.Table(t)) && P.Sorts(sort)
    requires var w := if L.Index(i) in t then t[L.Index(i)] else L.Nil; P.Printable(w) && P.Encode(sort, w) == Some(s)
    ensures Writes(xs, s, Lin(if L.Index(i) in t then JsonOf(sort, t[L.Index(i)]) else JNull))
    decreases L.Table(t), 0, 0
  {
    hide Writes, P.Sorts;
    if L.Index(i) in t {
      xs := ValueIsWritten(sort, t[L.Index(i)]);
    } else {
      xs := WritesWord(Null);
    }
  }

  /** The C decoder reads what the Lua module prints, up to its limit of depth. */
  lemma DecoderTakesPrinted(cfg: JsonDecoder.Config, sort: P.Sorter, v: L.Value)
    requires P.Printable(v) && P.Sorts(sort) && P.Encode(sort, v).Some? && ReadsNumbers(cfg)
    ensures var j := JsonOf(sort, v);
      Decode(JsonDecoder.Tokens(cfg, P.Encode(sort, v).value + [0], 0), cfg.limit)
      == if Depth(j) <= cfg.limit then Parsed(LuaOf(j), [End]) else TooDeep(cfg.limit + 1)
  {
    hide P.Encode, JsonOf, Lin, LuaOf, Depth, JsonDecoder.Tokens, Decode, TokensOf, Written, ProperAll, ReadsNumbers;
    var xs := ValueIsWritten(sort, v);
    EveryTextIsDecoded(cfg, JsonOf(sort, v), xs, []);
  }

  /** And the tree it writes means the value, but for the holes in its arrays. */
  lemma TreeMeansValue(sort: P.Sorter, v: L.Value)
    requires P.Printable(v) && P.Sorts(sort) && P.Encode(sort, v).Some?
    ensures LuaText.ValueOf(JsonOf(sort, v)) == P.Normal(v)
  {
    hide P.Encode, JsonOf, Lin, LuaText.ValueOf, P.Normal, TokensOf, Written, ProperAll, L.Decode;
    var xs := ValueIsWritten(sort, v);
    LuaText.EveryTextIsParsed(JsonOf(sort, v), xs, []);
    P.DecodesToNormal(sort, v);
  }
}
