/** The printer of the Lua JSON module, and what printing and parsing again gives. */
module LuaJsonPrinter {
  import opened ByteSeq
  import opened Ascii
  import opened LuaJson
  import Utf8

  // ---------------------------------------------------------------- the printer

  /** backslash_replacement_function, and every byte that it does not see. */
  function Escaped(c: byte): (s: seq<byte>)
    ensures s != []
  {
    if c == 10 then [BACKSLASH, 0x6E] else if c == 13 then [BACKSLASH, 0x72]
    else if c == 9 then [BACKSLASH, 0x74] else if c == 8 then [BACKSLASH, 0x62]
    else if c == 12 then [BACKSLASH, 0x66] else if c == QUOTE then [BACKSLASH, QUOTE]
    else if c == BACKSLASH then [BACKSLASH, BACKSLASH]
    else if c < 32 then [BACKSLASH, 0x75, 0x30, 0x30, LowerHex(c as nat / 16), LowerHex(c as nat % 16)]
    else [c]
  }

  function EscapedAll(s: seq<byte>): seq<byte> {
    if s == [] then [] else Escaped(s[0]) + EscapedAll(s[1..])
  }

  /** json_string_literal. */
  function Literal(s: seq<byte>): seq<byte> { [QUOTE] + EscapedAll(s) + [QUOTE] }

  function IntText(n: int): seq<byte> { if n < 0 then [MINUS] + Decimal(0 - n) else Decimal(n) }

  /** table.sort on the string keys: the keys, each once, in an order that depends on nothing else. */
  type Sorter = set<seq<byte>> -> seq<seq<byte>>

  ghost predicate Lists(l: seq<seq<byte>>, keys: set<seq<byte>>) {
    && (forall k :: k in keys <==> k in l)
    && (forall i, j | 0 <= i < j < |l| :: l[i] != l[j])
  }

  ghost predicate Sorts(sort: Sorter) { forall keys :: Lists(sort(keys), keys) }

  /** A table holds no nil; the numbers are those that print as decimals. */
  ghost predicate Printable(v: Value) {
    match v
    case Int(n) => -(LIMIT as int) < n < LIMIT
    case Other(_) => false
    case Table(t) => forall k | k in t :: !t[k].Nil? && Printable(t[k])
    case _ => true
  }

  predicate AllNames(t: map<Key, Value>) { forall k | k in t :: k.Name? }
  predicate AllIndices(t: map<Key, Value>) { forall k | k in t :: k.Index? }

  function NamesOf(t: map<Key, Value>): (s: set<seq<byte>>)
    ensures forall x :: x in s <==> Name(x) in t
  {
    set k | k in t && k.Name? :: k.s
  }

  ghost predicate IsMax(t: map<Key, Value>, m: nat) { Index(m) in t && forall i: nat | Index(i) in t :: i <= m }

  lemma {:induction false} HasMax(t: map<Key, Value>) returns (m: nat)
    requires AllIndices(t) && t != map[]
    ensures IsMax(t, m)
    decreases |t|
  {
    var k :| k in t;
    var u := t - {k};
    if u == map[] {
      forall i: nat | Index(i) in t ensures i <= k.i {
        assert Index(i) == k || Index(i) in u;
      }
      m := k.i;
    } else {
      assert u.Keys == t.Keys - {k} && |u.Keys| == |t.Keys| - 1;
      m := HasMax(u);
      assert forall i: nat | Index(i) in t :: Index(i) == k || Index(i) in u;
      if k.i > m {
        m := k.i;
      }
    }
  }

  ghost function MaxIndex(t: map<Key, Value>): (m: nat)
    requires AllIndices(t) && t != map[]
    ensures IsMax(t, m)
  {
    assert exists m :: IsMax(t, m) by {
      var m := HasMax(t);
    }
    var m :| IsMax(t, m);
    m
  }

  function Join(parts: seq<seq<byte>>): seq<byte> {
    if parts == [] then [] else if |parts| == 1 then parts[0] else parts[0] + [COMMA] + Join(parts[1..])
  }

  /** encode_value; None is the error for a table with both kinds of key. */
  ghost function Encode(sort: Sorter, v: Value): (r: Option<seq<byte>>)
    requires Printable(v) && Sorts(sort)
    decreases v, 1
  {
    match v
    case Nil => Some(NULL)
    case Bool(b) => Some(if b then TRUE else FALSE)
    case Int(n) => Some(IntText(n))
    case Str(s) => Some(Literal(s))
    case Table(t) =>
      if t == map[] then Some([LBRACKET, RBRACKET])
      else if AllNames(t) then
        match EncodeParts(sort, t, sort(NamesOf(t)))
        case Some(parts) => Some([LBRACE] + Join(parts) + [RBRACE])
        case None => None
      else if AllIndices(t) then
        match EncodeItems(sort, t, 1, MaxIndex(t))
        case Some(items) => Some([LBRACKET] + Join(items) + [RBRACKET])
        case None => None
      else None
  }

  ghost function EncodeParts(sort: Sorter, t: map<Key, Value>, keys: seq<seq<byte>>): (r: Option<seq<seq<byte>>>)
    requires Printable(Table(t)) && Sorts(sort) && forall k | k in keys :: Name(k) in t
    ensures r.Some? ==> |r.value| == |keys|
    decreases Table(t), 0, |keys|
  {
    if keys == [] then Some([])
    else
      var first := Encode(sort, t[Name(keys[0])]);
      var rest := EncodeParts(sort, t, keys[1..]);
      if first.None? || rest.None? then None
      else Some([Literal(keys[0]) + [COLON] + first.value] + rest.value)
  }

  ghost function EncodeItems(sort: Sorter, t: map<Key, Value>, i: nat, max: nat): (r: Option<seq<seq<byte>>>)
    requires Printable(Table(t)) && Sorts(sort) && i <= max + 1
    ensures r.Some? ==> |r.value| == max + 1 - i
    decreases Table(t), 0, max + 1 - i
  {
    if i == max + 1 then Some([])
    else
      var first := if Index(i) in t then Encode(sort, t[Index(i)]) else Some(NULL);
      var rest := EncodeItems(sort, t, i + 1, max);
      if first.None? || rest.None? then None else Some([first.value] + rest.value)
  }

  // ---------------------------------------------------------------- what is read back

  /** Arrays lose their holes; everything else stays. */
  ghost function Normal(v: Value): (w: Value)
    requires Printable(v)
    ensures w.Nil? <==> v.Nil?
    ensures !v.Table? ==> w == v
    decreases v, 1
  {
    match v
    case Table(t) =>
      if t != map[] && AllIndices(t) then Table(Compact(t, 1, MaxIndex(t), 0, map[]))
      else Table(map k | k in t :: Normal(t[k]))
    case _ => v
  }

  ghost function Compact(t: map<Key, Value>, i: nat, max: nat, n: nat, acc: map<Key, Value>): map<Key, Value>
    requires Printable(Table(t)) && i <= max + 1
    decreases Table(t), 0, max + 1 - i
  {
    if i == max + 1 then acc
    else if Index(i) in t then Compact(t, i + 1, max, n + 1, acc[Index(n + 1) := Normal(t[Index(i)])])
    else Compact(t, i + 1, max, n, acc)
  }

  /** The indices are 1 to m. */
  ghost predicate Counted(t: map<Key, Value>, m: nat) { forall i: nat :: Index(i) in t <==> 1 <= i <= m }

  /** Every array is without holes and starts at 1. */
  ghost predicate Whole(v: Value) {
    match v
    case Table(t) =>
      (forall k | k in t :: Whole(t[k])) && (t != map[] && AllIndices(t) ==> exists m :: Counted(t, m))
    case _ => true
  }

  // ---------------------------------------------------------------- strings

  lemma IsAt(text: seq<byte>, p: nat, c: byte)
    ensures At(text, p, [c]) <==> Is(text, p, c)
  {
    if p < |text| {
      assert text[p..p + 1][0] == text[p];
    }
  }

  lemma BytesAt(text: seq<byte>, p: nat, s: seq<byte>)
    requires At(text, p, s)
    ensures forall i | 0 <= i < |s| :: text[p + i] == s[i]
  {
    forall i | 0 <= i < |s| ensures text[p + i] == s[i] {
      assert text[p..p + |s|][i] == s[i];
    }
  }

  /** An escaped byte is read back as that byte. */
  lemma CharReads(text: seq<byte>, p: nat, c: byte)
    requires At(text, p, Escaped(c))
    ensures p < |text| && text[p] != QUOTE && Char(text, p) == Got([c], p + |Escaped(c)|)
  {
    hide Hex;
    BytesAt(text, p, Escaped(c));
    assert text[p] == Escaped(c)[0];
    if |Escaped(c)| == 6 {
      ControlReads(text, p, c);
    } else if |Escaped(c)| == 2 {
      assert text[p + 1] == Escaped(c)[1];
      NoHex(text, p);
    }
  }

  lemma NoHex(text: seq<byte>, p: nat)
    requires p + 1 < |text| && text[p + 1] != 0x75
    ensures Hex(text, p).None?
  {
  }

  lemma ControlReads(text: seq<byte>, p: nat, c: byte)
    requires c < 32 && |Escaped(c)| == 6 && At(text, p, Escaped(c))
    ensures p + 6 <= |text| && text[p] == BACKSLASH && text[p + 1] == 0x75 && Hex(text, p) == Some(c as nat)
    ensures CodepointAsUtf8(c as nat) == [c]
  {
    BytesAt(text, p, Escaped(c));
    var e := Escaped(c);
    assert text[p] == e[0] && text[p + 1] == e[1] && text[p + 2] == e[2];
    assert text[p + 3] == e[3] && text[p + 4] == e[4] && text[p + 5] == e[5];
  }

  lemma {:induction false} CharsRead(text: seq<byte>, p: nat, s: seq<byte>)
    requires At(text, p, EscapedAll(s) + [QUOTE])
    ensures Chars(text, p) == Got(s, p + |EscapedAll(s)| + 1)
    decreases |s|
  {
    hide Chars, Char, Escaped, Is, At;
    if s == [] {
      assert EscapedAll(s) + [QUOTE] == [QUOTE];
      IsAt(text, p, QUOTE);
      QuoteIs(text, p);
      CharsUnfold(text, p);
    } else {
      assert EscapedAll(s) + [QUOTE] == Escaped(s[0]) + (EscapedAll(s[1..]) + [QUOTE]);
      AtParts(text, p, Escaped(s[0]), EscapedAll(s[1..]) + [QUOTE]);
      CharReads(text, p, s[0]);
      CharsUnfold(text, p);
      CharsRead(text, p + |Escaped(s[0])|, s[1..]);
      assert [s[0]] + s[1..] == s;
    }
  }

  lemma QuoteIs(text: seq<byte>, p: nat)
    requires Is(text, p, QUOTE)
    ensures p < |text| && text[p] == QUOTE
  {
  }

  lemma LiteralReads(text: seq<byte>, p: nat, s: seq<byte>)
    requires At(text, p, Literal(s))
    ensures p < |text| && text[p] == QUOTE && GrokStr(text, p) == Got(s, p + |Literal(s)|)
  {
    hide Chars, EscapedAll, At;
    assert Literal(s) == [QUOTE] + (EscapedAll(s) + [QUOTE]);
    AtParts(text, p, [QUOTE], EscapedAll(s) + [QUOTE]);
    IsAt(text, p, QUOTE);
    CharsRead(text, p + 1, s);
  }

  // ---------------------------------------------------------------- numbers

  /** Nothing that follows could belong to a number. */
  predicate Ends(text: seq<byte>, p: nat) {
    p >= |text| || (!Digit(text[p]) && text[p] !in {0x2E, 0x45, 0x65})
  }

  lemma {:induction false} DigitsEndAt(text: seq<byte>, i: nat, j: nat)
    requires i <= j <= |text| && (forall k | i <= k < j :: Digit(text[k])) && Ends(text, j)
    ensures DigitsEnd(text, i) == j
    decreases j - i
  {
    if i < j {
      DigitsEndAt(text, i + 1, j);
    }
  }

  lemma IntegerReads(text: seq<byte>, p: nat, n: int)
    requires At(text, p, IntText(n)) && Ends(text, p + |IntText(n)|)
    ensures IntegerEnd(text, p) == Some(p + |IntText(n)|)
  {
    hide DigitsEnd, Decimal;
    BytesAt(text, p, IntText(n));
    var i := if n < 0 then p + 1 else p;
    var d := Decimal(if n < 0 then 0 - n else n);
    assert |IntText(n)| == i - p + |d|;
    assert n < 0 ==> text[p] == IntText(n)[0] == MINUS;
    assert forall k | 0 <= k < |d| :: text[i + k] == IntText(n)[i - p + k] == d[k];
    assert text[i] == d[0] && Digit(d[0]);
    if n == 0 {
      DecimalZero();
      assert text[p] == 0x30 && |d| == 1;
    } else {
      assert 0x31 <= text[i] <= 0x39;
      assert forall k | i + 1 <= k < i + |d| :: text[k] == d[k - i];
      DigitsEndAt(text, i + 1, i + |d|);
    }
  }

  lemma DecimalZero()
    ensures Decimal(0) == [0x30]
  {
  }

  lemma ToNumberReads(n: int)
    requires -(LIMIT as int) < n < LIMIT
    ensures ToNumber(IntText(n), []) == Int(n)
  {
    hide Decimal, FromDecimal;
    DecimalInverts(if n < 0 then 0 - n else n);
    if n < 0 {
      assert IntText(n)[1..] == Decimal(0 - n);
    } else {
      assert Digit(IntText(n)[0]);
    }
  }

  lemma NumberReads(text: seq<byte>, p: nat, n: int)
    requires At(text, p, IntText(n)) && Ends(text, p + |IntText(n)|) && -(LIMIT as int) < n < LIMIT
    ensures p < |text| && (text[p] == MINUS || Digit(text[p]))
    ensures GrokNumber(text, p) == Got(Int(n), p + |IntText(n)|)
  {
    hide IntegerEnd, DigitsEnd, ToNumber;
    IntegerReads(text, p, n);
    ToNumberReads(n);
    BytesAt(text, p, IntText(n));
    assert text[p] == IntText(n)[0];
    var j := p + |IntText(n)|;
    assert FractionEnd(text, j) == j && ExponentEnd(text, j) == j;
    assert text[p..j] == IntText(n) && text[j..j] == [];
  }

  // ---------------------------------------------------------------- values

  /** How a printed value starts: never with white space or a closing bracket. */
  lemma EncodeStarts(sort: Sorter, v: Value)
    requires Printable(v) && Sorts(sort) && Encode(sort, v).Some?
    ensures var s := Encode(sort, v).value;
      s != [] && !White(s[0]) && s[0] !in {RBRACE, RBRACKET}
  {
    hide EncodeItems, EncodeParts, EscapedAll, Join, Decimal;
  }

  lemma SkipHere(text: seq<byte>, p: nat)
    requires p <= |text| && (p < |text| ==> !White(text[p]))
    ensures Skip(text, p) == p
  {
  }

  lemma GrokAtom(text: seq<byte>, p: nat, v: Value, s: seq<byte>)
    requires At(text, p, s)
    requires (v == Bool(true) && s == TRUE) || (v == Bool(false) && s == FALSE) || (v.Nil? && s == NULL)
    ensures GrokOne(text, p) == Got(v, p + |s|)
  {
    hide GrokMembers, GrokItems, GrokStr, GrokNumber;
    BytesAt(text, p, s);
    assert text[p] == s[0];
    SkipHere(text, p);
    if s != TRUE {
      NotAt(text, p, TRUE);
      if s != FALSE {
        NotAt(text, p, FALSE);
      }
    }
  }

  lemma NotAt(text: seq<byte>, p: nat, word: seq<byte>)
    requires p < |text| && word != [] && text[p] != word[0]
    ensures !At(text, p, word)
  {
    assert p + |word| <= |text| ==> text[p..p + |word|][0] == text[p];
  }

  lemma GrokLeaf(text: seq<byte>, p: nat)
    requires p < |text|
    ensures text[p] == QUOTE && GrokStr(text, p).Got? ==>
      GrokOne(text, p) == Got(Str(GrokStr(text, p).value), GrokStr(text, p).next)
    ensures text[p] == MINUS || Digit(text[p]) ==> GrokOne(text, p) == GrokNumber(text, p)
  {
    hide GrokMembers, GrokItems, GrokStr, GrokNumber, Skip;
    if !White(text[p]) {
      SkipHere(text, p);
    }
  }

  /** Whatever follows, a printed value is read as its normal form, and up to its own last byte. */
  lemma {:induction false} ValueReads(sort: Sorter, v: Value, text: seq<byte>, p: nat, s: seq<byte>)
    requires Printable(v) && Sorts(sort) && Encode(sort, v) == Some(s)
    requires At(text, p, s) && Ends(text, p + |s|)
    ensures GrokOne(text, p) == Got(Normal(v), p + |s|)
    decreases v, 2
  {
    hide GrokOne, GrokStr, GrokNumber, Literal, IntText, Printable, Compact, EncodeItems, EncodeParts, Join, Sorts;
    hide At, Ends;
    match v
    case Nil => GrokAtom(text, p, v, s);
    case Bool(b) => GrokAtom(text, p, v, s);
    case Int(n) =>
      IntInRange(n);
      NumberReads(text, p, n);
      GrokLeaf(text, p);
    case Str(b) =>
      LiteralReads(text, p, b);
      GrokLeaf(text, p);
    case Table(t) =>
      if t == map[] {
        EmptyReads(text, p);
      } else if AllNames(t) {
        ObjectReads(sort, t, text, p, s);
      } else {
        ArrayReads(sort, t, text, p, s);
      }
    case Other(_) =>
      NoOther(v);
  }

  lemma IntInRange(n: int)
    requires Printable(Int(n))
    ensures -(LIMIT as int) < n < LIMIT
  {
  }

  lemma NoOther(v: Value)
    requires Printable(v)
    ensures !v.Other?
  {
  }

  lemma EmptyReads(text: seq<byte>, p: nat)
    requires At(text, p, [LBRACKET, RBRACKET])
    ensures GrokOne(text, p) == Got(Table(map[]), p + 2)
  {
    hide GrokOne, GrokItems;
    BytesAt(text, p, [LBRACKET, RBRACKET]);
    assert text[p] == LBRACKET && text[p + 1] == RBRACKET;
    SkipHere(text, p);
    SkipHere(text, p + 1);
    GrokOneUnfold(text, p);
  }

  lemma ItemText(sort: Sorter, t: map<Key, Value>, i: nat, max: nat)
    requires Printable(Table(t)) && Sorts(sort) && i <= max && EncodeItems(sort, t, i, max).Some?
    ensures var items := EncodeItems(sort, t, i, max).value; var w := if Index(i) in t then t[Index(i)] else Nil;
      && Printable(w) && Encode(sort, w) == Some(items[0]) && EncodeItems(sort, t, i + 1, max) == Some(items[1..])
      && items[0] != [] && !White(items[0][0]) && items[0][0] != RBRACKET
  {
    hide Sorts;
    EncodeStarts(sort, if Index(i) in t then t[Index(i)] else Nil);
  }

  lemma JoinParts(parts: seq<seq<byte>>, last: byte)
    requires parts != []
    ensures |parts| == 1 ==> Join(parts) + [last] == parts[0] + [last]
    ensures |parts| > 1 ==> Join(parts) + [last] == parts[0] + ([COMMA] + (Join(parts[1..]) + [last]))
    ensures parts[0] != [] ==> Join(parts) != [] && Join(parts)[0] == parts[0][0]
  {
  }

  lemma EndsAt(text: seq<byte>, p: nat, c: byte)
    requires Is(text, p, c) && c in {COMMA, RBRACE, RBRACKET}
    ensures Ends(text, p) && Skip(text, p) == p && p < |text|
    ensures forall d | d in {COMMA, RBRACE, RBRACKET} :: Is(text, p, d) <==> c == d
  {
  }

  /** An item starts at p, so there is no white space to skip there. */
  lemma JoinStarts(text: seq<byte>, p: nat, parts: seq<seq<byte>>, last: byte)
    requires parts != [] && parts[0] != [] && !White(parts[0][0]) && At(text, p, Join(parts) + [last])
    ensures p < |text| && text[p] == parts[0][0] && Skip(text, p) == p
  {
    hide Join, Skip;
    JoinParts(parts, last);
    BytesAt(text, p, Join(parts) + [last]);
    assert text[p + 0] == (Join(parts) + [last])[0];
    SkipHere(text, p);
  }

  lemma {:induction false} ItemsRead(sort: Sorter, t: map<Key, Value>, i: nat, max: nat, text: seq<byte>, p: nat,
                                     n: nat,
                                     acc: map<Key, Value>)
    requires Printable(Table(t)) && Sorts(sort) && i <= max && EncodeItems(sort, t, i, max).Some?
    requires At(text, p, Join(EncodeItems(sort, t, i, max).value) + [RBRACKET])
    requires forall k | k in acc :: k.Index? && k.i <= n
    ensures p < |text| && GrokItems(text, p, n, acc)
         == Got(Table(Compact(t, i, max, n, acc)), p + |Join(EncodeItems(sort, t, i, max).value)| + 1)
    decreases Table(t), 0, max + 1 - i
  {
    hide GrokOne, GrokItems, EncodeItems, Encode, Join, At, Ends, Skip, Printable, Sorts, Normal, White, Is;
    var items := EncodeItems(sort, t, i, max).value;
    var w := if Index(i) in t then t[Index(i)] else Nil;
    ItemText(sort, t, i, max);
    ItemsCount(sort, t, i, max);
    JoinParts(items, RBRACKET);
    JoinStarts(text, p, items, RBRACKET);
    var e := p + |items[0]|;
    var after := if i == max then [RBRACKET] else [COMMA] + (Join(items[1..]) + [RBRACKET]);
    AtParts(text, p, items[0], after);
    var c := if i == max then RBRACKET else COMMA;
    if i == max {
      IsAt(text, e, RBRACKET);
    } else {
      AtParts(text, e, [COMMA], Join(items[1..]) + [RBRACKET]);
      IsAt(text, e, COMMA);
    }
    EndsAt(text, e, c);
    if Index(i) in t {
      ValueReads(sort, w, text, p, items[0]);
    } else {
      AbsentReads(sort, text, p, items[0]);
    }
    ItemsUnfold(text, p, n, acc);
    NormalNil(w);
    if i < max {
      ItemText(sort, t, i + 1, max);
      JoinStarts(text, e + 1, items[1..], RBRACKET);
      var m, u := if w.Nil? then n else n + 1, Assign(acc, Index(n + 1), Normal(w));
      AssignItem(acc, n, Normal(w));
      NeverNil(t, i);
      ItemsRead(sort, t, i + 1, max, text, e + 1, m, u);
    } else {
      AssignItem(acc, n, Normal(w));
      NeverNil(t, i);
    }
  }

  lemma AbsentReads(sort: Sorter, text: seq<byte>, p: nat, s: seq<byte>)
    requires Sorts(sort) && Encode(sort, Nil) == Some(s) && At(text, p, s)
    ensures GrokOne(text, p) == Got(Normal(Nil), p + |s|)
  {
    hide GrokOne, At, Sorts;
    GrokAtom(text, p, Nil, s);
  }

  lemma ItemsCount(sort: Sorter, t: map<Key, Value>, i: nat, max: nat)
    requires Printable(Table(t)) && Sorts(sort) && i <= max + 1 && EncodeItems(sort, t, i, max).Some?
    ensures |EncodeItems(sort, t, i, max).value| == max + 1 - i
  {
  }

  lemma NormalNil(w: Value)
    requires Printable(w)
    ensures Normal(w).Nil? <==> w.Nil?
  {
  }

  lemma NeverNil(t: map<Key, Value>, i: nat)
    requires Printable(Table(t))
    ensures Index(i) in t ==> !t[Index(i)].Nil? && Printable(t[Index(i)])
  {
  }

  lemma AssignItem(acc: map<Key, Value>, n: nat, v: Value)
    requires forall k | k in acc :: k.Index? && k.i <= n
    ensures v.Nil? ==> Assign(acc, Index(n + 1), v) == acc
    ensures !v.Nil? ==> Assign(acc, Index(n + 1), v) == acc[Index(n + 1) := v]
  {
  }

  lemma ArrayReads(sort: Sorter, t: map<Key, Value>, text: seq<byte>, p: nat, s: seq<byte>)
    requires Printable(Table(t)) && Sorts(sort) && t != map[] && !AllNames(t)
    requires Encode(sort, Table(t)) == Some(s) && At(text, p, s)
    ensures GrokOne(text, p) == Got(Normal(Table(t)), p + |s|)
    decreases Table(t), 1
  {
    hide GrokOne, GrokItems, EncodeItems, Join, At, Ends, Skip, Printable, Sorts;
    var max := MaxIndex(t);
    var items := EncodeItems(sort, t, 1, max).value;
    ItemsCount(sort, t, 1, max);
    if max == 0 {
      assert items == [];
      JoinNothing();
      assert s == [LBRACKET, RBRACKET];
      EmptyReads(text, p);
      CompactNothing(t);
    } else {
      assert s == [LBRACKET] + (Join(items) + [RBRACKET]);
      AtParts(text, p, [LBRACKET], Join(items) + [RBRACKET]);
      IsAt(text, p, LBRACKET);
      ItemText(sort, t, 1, max);
      JoinStarts(text, p + 1, items, RBRACKET);
      SkipHere(text, p);
      GrokOneUnfold(text, p);
      ItemsRead(sort, t, 1, max, text, p + 1, 0, map[]);
    }
  }

  lemma JoinNothing()
    ensures Join([]) == []
  {
  }

  lemma CompactNothing(t: map<Key, Value>)
    requires Printable(Table(t))
    ensures Compact(t, 1, 0, 0, map[]) == map[]
  {
  }

  // ---------------------------------------------------------------- objects

  ghost function Gather(t: map<Key, Value>, keys: seq<seq<byte>>, acc: map<Key, Value>): map<Key, Value>
    requires Printable(Table(t)) && forall k | k in keys :: Name(k) in t
    decreases |keys|
  {
    if keys == [] then acc else Gather(t, keys[1..], acc[Name(keys[0]) := Normal(t[Name(keys[0])])])
  }

  lemma {:induction false} Gathered(t: map<Key, Value>, keys: seq<seq<byte>>, acc: map<Key, Value>)
    requires Printable(Table(t)) && forall k | k in keys :: Name(k) in t
    requires forall k | k in acc :: k in t && acc[k] == Normal(t[k])
    ensures var g := Gather(t, keys, acc);
      && (forall k :: k in g <==> k in acc || (k.Name? && k.s in keys))
      && (forall k | k in g :: k in t && g[k] == Normal(t[k]))
    decreases |keys|
  {
    hide Normal, Printable;
    if keys != [] {
      NameNotNil(t, keys[0]);
      assert forall k :: k in keys <==> k == keys[0] || k in keys[1..];
      Gathered(t, keys[1..], acc[Name(keys[0]) := Normal(t[Name(keys[0])])]);
    }
  }

  lemma NameNotNil(t: map<Key, Value>, k: seq<byte>)
    requires Printable(Table(t)) && Name(k) in t
    ensures !t[Name(k)].Nil? && Printable(t[Name(k)])
  {
  }

  lemma PartText(sort: Sorter, t: map<Key, Value>, keys: seq<seq<byte>>)
    requires Printable(Table(t)) && Sorts(sort) && keys != [] && forall k | k in keys :: Name(k) in t
    requires EncodeParts(sort, t, keys).Some?
    ensures var parts := EncodeParts(sort, t, keys).value; var w := t[Name(keys[0])];
      && Printable(w) && Encode(sort, w).Some? && parts[0] == Literal(keys[0]) + ([COLON] + Encode(sort, w).value)
      && EncodeParts(sort, t, keys[1..]) == Some(parts[1..])
      && parts[0] != [] && parts[0][0] == QUOTE && !White(parts[0][0])
      && Encode(sort, w).value != [] && !White(Encode(sort, w).value[0])
  {
    hide Sorts;
    EncodeStarts(sort, t[Name(keys[0])]);
  }

  lemma {:induction false} MembersRead(sort: Sorter, t: map<Key, Value>, keys: seq<seq<byte>>, text: seq<byte>, p: nat,
                                       acc: map<Key, Value>)
    requires Printable(Table(t)) && Sorts(sort) && keys != [] && forall k | k in keys :: Name(k) in t
    requires EncodeParts(sort, t, keys).Some?
    requires At(text, p, Join(EncodeParts(sort, t, keys).value) + [RBRACE])
    ensures p < |text| && GrokMembers(text, p, acc)
         == Got(Table(Gather(t, keys, acc)), p + |Join(EncodeParts(sort, t, keys).value)| + 1)
    decreases Table(t), 0, |keys|
  {
    hide GrokOne, GrokMembers, GrokStr, EncodeParts, Encode, Join, Literal;
    hide At, Ends, Skip, Printable, Sorts, Normal, White, Is;
    var parts := EncodeParts(sort, t, keys).value;
    var w := t[Name(keys[0])];
    PartText(sort, t, keys);
    PartsCount(sort, t, keys);
    JoinParts(parts, RBRACE);
    JoinStarts(text, p, parts, RBRACE);
    var s := Encode(sort, w).value;
    var c := if |keys| == 1 then RBRACE else COMMA;
    var after := if |keys| == 1 then [RBRACE] else [COMMA] + (Join(parts[1..]) + [RBRACE]);
    AtParts(text, p, parts[0], after);
    var e := p + |parts[0]|;
    if |keys| == 1 {
      IsAt(text, e, RBRACE);
    } else {
      AtParts(text, e, [COMMA], Join(parts[1..]) + [RBRACE]);
      IsAt(text, e, COMMA);
    }
    EndsAt(text, e, c);
    PartReads(text, p, keys[0], s);
    ValueReads(sort, w, text, p + |Literal(keys[0])| + 1, s);
    MembersUnfold(text, p, acc);
    NormalNil(w);
    NameNotNil(t, keys[0]);
    if |keys| > 1 {
      PartText(sort, t, keys[1..]);
      JoinStarts(text, e + 1, parts[1..], RBRACE);
      MembersRead(sort, t, keys[1..], text, e + 1, acc[Name(keys[0]) := Normal(w)]);
    }
  }

  lemma PartsCount(sort: Sorter, t: map<Key, Value>, keys: seq<seq<byte>>)
    requires Printable(Table(t)) && Sorts(sort) && forall k | k in keys :: Name(k) in t
    requires EncodeParts(sort, t, keys).Some?
    ensures |EncodeParts(sort, t, keys).value| == |keys|
  {
  }

  /** A key, its colon, and the start of the value. */
  lemma PartReads(text: seq<byte>, p: nat, key: seq<byte>, s: seq<byte>)
    requires At(text, p, Literal(key) + ([COLON] + s)) && s != [] && !White(s[0])
    ensures GrokStr(text, p) == Got(key, p + |Literal(key)|)
    ensures var c := p + |Literal(key)|;
      && c + 1 <= |text| && Skip(text, c) == c && Is(text, c, COLON)
      && Skip(text, c + 1) == c + 1 && At(text, c + 1, s)
  {
    hide Literal, GrokStr, At;
    var c := p + |Literal(key)|;
    AtParts(text, p, Literal(key), [COLON] + s);
    AtParts(text, c, [COLON], s);
    IsAt(text, c, COLON);
    LiteralReads(text, p, key);
    BytesAt(text, c + 1, s);
    AtFirst(text, c + 1, s);
    SkipHere(text, c);
    SkipHere(text, c + 1);
  }

  lemma ObjectReads(sort: Sorter, t: map<Key, Value>, text: seq<byte>, p: nat, s: seq<byte>)
    requires Printable(Table(t)) && Sorts(sort) && t != map[] && AllNames(t)
    requires Encode(sort, Table(t)) == Some(s) && At(text, p, s)
    ensures GrokOne(text, p) == Got(Normal(Table(t)), p + |s|)
    decreases Table(t), 1
  {
    hide GrokOne, GrokMembers, EncodeParts, Join, At, Ends, Skip, Printable, Sorts, Normal, Gather, Literal;
    var keys := sort(NamesOf(t));
    SortedKeys(sort, t);
    var parts := EncodeParts(sort, t, keys).value;
    assert s == [LBRACE] + (Join(parts) + [RBRACE]);
    AtParts(text, p, [LBRACE], Join(parts) + [RBRACE]);
    IsAt(text, p, LBRACE);
    PartText(sort, t, keys);
    PartsCount(sort, t, keys);
    JoinStarts(text, p + 1, parts, RBRACE);
    SkipHere(text, p);
    GrokOneUnfold(text, p);
    MembersRead(sort, t, keys, text, p + 1, map[]);
    Gathered(t, keys, map[]);
    GatheredAll(sort, t);
  }

  lemma SortedKeys(sort: Sorter, t: map<Key, Value>)
    requires Sorts(sort) && AllNames(t)
    ensures forall k :: k in sort(NamesOf(t)) <==> Name(k) in t
    ensures t != map[] ==> sort(NamesOf(t)) != []
  {
    assert Lists(sort(NamesOf(t)), NamesOf(t));
    if t != map[] {
      var k :| k in t;
      assert k.s in NamesOf(t);
    }
  }

  lemma GatheredAll(sort: Sorter, t: map<Key, Value>)
    requires Printable(Table(t)) && Sorts(sort) && AllNames(t) && t != map[]
    ensures (forall k | k in sort(NamesOf(t)) :: Name(k) in t)
    ensures Normal(Table(t)) == Table(Gather(t, sort(NamesOf(t)), map[]))
  {
    hide Sorts;
    SortedKeys(sort, t);
    Gathered(t, sort(NamesOf(t)), map[]);
    var g := Gather(t, sort(NamesOf(t)), map[]);
    assert !AllIndices(t) by {
      var k :| k in t;
    }
    assert forall k :: k in g <==> k in t;
    assert g == map k | k in t :: Normal(t[k]);
  }

  // ---------------------------------------------------------------- what printing and parsing gives

  lemma {:induction false} NoNul(sort: Sorter, v: Value)
    requires Printable(v) && Sorts(sort) && Encode(sort, v).Some?
    ensures 0 !in Encode(sort, v).value
    decreases v, 1
  {
    hide EncodeParts, EncodeItems, Join, Sorts, Literal, IntText;
    match v
    case Nil =>
    case Bool(b) =>
    case Int(n) => NumberNoNul(n);
    case Str(s) => LiteralNoNul(s);
    case Table(t) =>
      if t == map[] {
      } else if AllNames(t) {
        SortedKeys(sort, t);
        PartsNoNul(sort, t, sort(NamesOf(t)));
      } else {
        ItemsNoNul(sort, t, 1, MaxIndex(t));
      }
    case Other(_) =>
  }

  lemma NumberNoNul(n: int)
    ensures 0 !in IntText(n)
  {
    hide Decimal;
  }

  lemma {:induction false} EscapedNoNul(s: seq<byte>)
    ensures 0 !in EscapedAll(s)
  {
    if s != [] {
      EscapedNoNul(s[1..]);
    }
  }

  lemma LiteralNoNul(s: seq<byte>)
    ensures 0 !in Literal(s)
  {
    EscapedNoNul(s);
  }

  lemma {:induction false} PartsNoNul(sort: Sorter, t: map<Key, Value>, keys: seq<seq<byte>>)
    requires Printable(Table(t)) && Sorts(sort) && forall k | k in keys :: Name(k) in t
    requires EncodeParts(sort, t, keys).Some?
    ensures 0 !in Join(EncodeParts(sort, t, keys).value)
    decreases Table(t), 0, |keys|
  {
    hide Literal, Sorts, Encode;
    if keys != [] {
      NameNotNil(t, keys[0]);
      NoNul(sort, t[Name(keys[0])]);
      LiteralNoNul(keys[0]);
      PartsNoNul(sort, t, keys[1..]);
      PartText(sort, t, keys);
    }
  }

  lemma {:induction false} ItemsNoNul(sort: Sorter, t: map<Key, Value>, i: nat, max: nat)
    requires Printable(Table(t)) && Sorts(sort) && i <= max + 1 && EncodeItems(sort, t, i, max).Some?
    ensures 0 !in Join(EncodeItems(sort, t, i, max).value)
    decreases Table(t), 0, max + 1 - i
  {
    hide Sorts, Encode;
    if i <= max {
      if Index(i) in t {
        NeverNil(t, i);
        NoNul(sort, t[Index(i)]);
      }
      ItemsNoNul(sort, t, i + 1, max);
      ItemText(sort, t, i, max);
    }
  }

  /** Decoding what was printed gives the value, but for the holes in its arrays. */
  lemma DecodesToNormal(sort: Sorter, v: Value)
    requires Printable(v) && Sorts(sort) && Encode(sort, v).Some?
    ensures Decode(Encode(sort, v).value) == Got(Normal(v), |Encode(sort, v).value|)
  {
    hide GrokOne, Encode, Normal, Sorts, Printable;
    var s := Encode(sort, v).value;
    PrintedStarts(sort, v);
    NoNul(sort, v);
    assert s[..] == s && s[0..0 + |s|] == s;
    ValueReads(sort, v, s, 0, s);
    assert !Space(s[0]);
    assert |s| >= 2 ==> s[1] in s;
    assert forall i | 0 <= i < |s| && s[i] == 0x3C && i > 0 :: !Space(s[0]);
  }

  lemma PrintedStarts(sort: Sorter, v: Value)
    requires Printable(v) && Sorts(sort) && Encode(sort, v).Some?
    ensures var s := Encode(sort, v).value;
      s != [] && !Space(s[0]) && s[0] != 0 && s[0] != 0x3C
  {
    hide EncodeItems, EncodeParts, EscapedAll, Join, Decimal;
  }

  /** Without a hole every item stays where it is. */
  lemma {:induction false} CompactFull(t: map<Key, Value>, i: nat, max: nat, acc: map<Key, Value>)
    requires Printable(Table(t)) && 1 <= i <= max + 1 && forall j: nat | i <= j <= max :: Index(j) in t
    requires forall k :: k in acc <==> k.Index? && 1 <= k.i < i
    ensures var c := Compact(t, i, max, i - 1, acc);
      && (forall k :: k in c <==> k.Index? && 1 <= k.i <= max)
      && (forall k | k in acc :: k in c && c[k] == acc[k])
      && (forall k | k in c && k.i >= i :: k in t && c[k] == Normal(t[k]))
    decreases max + 1 - i
  {
    hide Normal, Printable;
    if i <= max {
      NeverNil(t, i);
      var acc' := acc[Index(i) := Normal(t[Index(i)])];
      CompactFull(t, i + 1, max, acc');
      assert Index(i) in acc';
    }
  }

  /** Behind a hole the items move down. */
  lemma {:induction false} CompactShort(t: map<Key, Value>, i: nat, max: nat, n: nat, acc: map<Key, Value>)
    requires Printable(Table(t)) && n + 1 <= i <= max + 1
    requires forall k | k in acc :: k.Index? && 1 <= k.i <= n
    requires n + 1 < i || exists j: nat :: i <= j <= max && Index(j) !in t
    ensures forall k | k in Compact(t, i, max, n, acc) :: k.Index? && 1 <= k.i < max
    decreases max + 1 - i
  {
    hide Normal, Printable;
    if i <= max {
      NeverNil(t, i);
      if Index(i) in t {
        CompactShort(t, i + 1, max, n + 1, acc[Index(n + 1) := Normal(t[Index(i)])]);
      } else {
        CompactShort(t, i + 1, max, n, acc);
      }
    }
  }

  /** Exactly the values whose arrays have no holes are their own normal form. */
  lemma {:induction false} NormalIsWhole(v: Value)
    requires Printable(v)
    ensures Normal(v) == v <==> Whole(v)
    decreases v
  {
    if v.Table? {
      hide Compact, Normal, Whole;
      var t := v.t;
      forall k | k in t ensures Normal(t[k]) == t[k] <==> Whole(t[k]) {
        NormalIsWhole(t[k]);
      }
      if t != map[] && AllIndices(t) {
        ArrayIsWhole(t);
      } else {
        ObjectIsWhole(t);
      }
    }
  }

  lemma ObjectIsWhole(t: map<Key, Value>)
    requires Printable(Table(t)) && !(t != map[] && AllIndices(t))
    requires forall k | k in t :: Normal(t[k]) == t[k] <==> Whole(t[k])
    ensures Normal(Table(t)) == Table(t) <==> Whole(Table(t))
  {
    var u := map k | k in t :: Normal(t[k]);
    assert Normal(Table(t)) == Table(u);
    if u == t {
      assert forall k | k in t :: u[k] == Normal(t[k]);
    }
  }

  lemma ArrayIsWhole(t: map<Key, Value>)
    requires Printable(Table(t)) && t != map[] && AllIndices(t)
    requires forall k | k in t :: Normal(t[k]) == t[k] <==> Whole(t[k])
    ensures Normal(Table(t)) == Table(t) <==> Whole(Table(t))
  {
    hide Compact, Printable, Normal, Whole, IsMax, Counted;
    var max := MaxIndex(t);
    NormalArray(t);
    WholeArray(t);
    if Index(0) in t || exists j: nat :: 1 <= j <= max && Index(j) !in t {
      HoleIsNotCounted(t, max);
      HoleChanges(t);
    } else {
      CompactFull(t, 1, max, map[]);
      NoHole(t);
      var c := Compact(t, 1, max, 0, map[]);
      assert c == t <==> forall k | k in t :: c[k] == t[k] by {
        assert forall k :: k in c <==> k in t;
      }
    }
  }

  lemma NormalArray(t: map<Key, Value>)
    requires Printable(Table(t)) && t != map[] && AllIndices(t)
    ensures Normal(Table(t)) == Table(Compact(t, 1, MaxIndex(t), 0, map[]))
  {
    hide Compact;
  }

  lemma WholeArray(t: map<Key, Value>)
    requires t != map[] && AllIndices(t)
    ensures Whole(Table(t)) <==> (forall k | k in t :: Whole(t[k])) && exists m :: Counted(t, m)
  {
    hide Counted;
  }

  lemma NoHole(t: map<Key, Value>)
    requires t != map[] && AllIndices(t) && Index(0) !in t
    requires forall j: nat | 1 <= j <= MaxIndex(t) :: Index(j) in t
    ensures Counted(t, MaxIndex(t)) && forall k :: k in t <==> k.Index? && 1 <= k.i <= MaxIndex(t)
  {
    forall k ensures k in t <==> k.Index? && 1 <= k.i <= MaxIndex(t) {
      if k in t {
        assert k == Index(k.i);
      }
    }
  }

  lemma HoleChanges(t: map<Key, Value>)
    requires Printable(Table(t)) && t != map[] && AllIndices(t)
    requires Index(0) in t || exists j: nat :: 1 <= j <= MaxIndex(t) && Index(j) !in t
    ensures Compact(t, 1, MaxIndex(t), 0, map[]) != t
  {
    hide Compact, Printable;
    var max := MaxIndex(t);
    if exists j: nat :: 1 <= j <= max && Index(j) !in t {
      CompactShort(t, 1, max, 0, map[]);
      assert Index(max) in t;
    } else {
      CompactFull(t, 1, max, map[]);
    }
  }

  lemma HoleIsNotCounted(t: map<Key, Value>, max: nat)
    requires IsMax(t, max) && (Index(0) in t || exists j: nat :: 1 <= j <= max && Index(j) !in t)
    ensures forall m :: !Counted(t, m)
  {
  }

  /** Printing and then parsing gives the value back exactly when none of its arrays has a hole. */
  lemma RoundTrip(sort: Sorter, v: Value)
    requires Printable(v) && Sorts(sort) && Encode(sort, v).Some?
    ensures Decode(Encode(sort, v).value) == Got(v, |Encode(sort, v).value|) <==> Whole(v)
  {
    hide Decode, Encode, Normal, Whole, Sorts, Printable;
    DecodesToNormal(sort, v);
    NormalIsWhole(v);
  }

  /** {[2] = true} is printed as [null,true] and read back as {true}. */
  lemma HoleExample(sort: Sorter)
    requires Sorts(sort)
    ensures var v := Table(map[Index(2) := Bool(true)]); var s := [LBRACKET] + NULL + [COMMA] + TRUE + [RBRACKET];
      Printable(v) && Encode(sort, v) == Some(s) && Decode(s) == Got(Table(map[Index(1) := Bool(true)]), |s|)
  {
    hide Decode, Sorts, Encode, Compact;
    var t := map[Index(2) := Bool(true)];
    assert Index(2) in t;
    OneMax(t, 2);
    HoleText(sort, t);
    HoleCloses(t);
    DecodesToNormal(sort, Table(t));
  }

  lemma HoleText(sort: Sorter, t: map<Key, Value>)
    requires Sorts(sort) && t == map[Index(2) := Bool(true)] && Printable(Table(t))
    requires Index(2) in t && MaxIndex(t) == 2
    ensures Encode(sort, Table(t)) == Some([LBRACKET] + NULL + [COMMA] + TRUE + [RBRACKET])
  {
    hide Sorts;
    assert Encode(sort, t[Index(2)]) == Some(TRUE);
    assert EncodeItems(sort, t, 3, 2) == Some([]);
    assert EncodeItems(sort, t, 2, 2) == Some([TRUE] + []);
    assert Index(1) !in t && [TRUE] + [] == [TRUE];
    assert EncodeItems(sort, t, 1, 2) == Some([NULL] + [TRUE]);
    assert ([NULL] + [TRUE])[1..] == [TRUE] && Join([TRUE]) == TRUE;
    assert Join([NULL] + [TRUE]) == NULL + [COMMA] + TRUE;
    assert !AllNames(t) && AllIndices(t) && t != map[];
    assert [LBRACKET] + (NULL + [COMMA] + TRUE) + [RBRACKET] == [LBRACKET] + NULL + [COMMA] + TRUE + [RBRACKET];
  }

  lemma HoleCloses(t: map<Key, Value>)
    requires t == map[Index(2) := Bool(true)] && Printable(Table(t)) && Index(2) in t && MaxIndex(t) == 2
    ensures Compact(t, 1, 2, 0, map[]) == map[Index(1) := Bool(true)]
  {
    var one := map[Index(1) := Bool(true)];
    assert Normal(t[Index(2)]) == Bool(true);
    assert Compact(t, 3, 2, 1, one) == one;
    assert map[][Index(1) := Bool(true)] == one;
    assert Compact(t, 2, 2, 0, map[]) == one;
  }

  /** No table has both string and number keys; the printer never looks at index 0. */
  ghost predicate Uniform(v: Value) {
    match v
    case Table(t) => (AllNames(t) || AllIndices(t)) && forall k | k in t && k != Index(0) :: Uniform(t[k])
    case _ => true
  }

  /** A value is printed exactly when no table in it mixes the two kinds of key. */
  lemma {:induction false} PrintsUniform(sort: Sorter, v: Value)
    requires Printable(v) && Sorts(sort)
    ensures Encode(sort, v).Some? <==> Uniform(v)
    decreases v, 1
  {
    if v.Table? {
      hide EncodeParts, EncodeItems, Sorts, Join;
      var t := v.t;
      if t != map[] && AllNames(t) {
        SortedKeys(sort, t);
        PartsUniform(sort, t, sort(NamesOf(t)));
        assert forall k | k in t :: k == Name(k.s) && k.s in sort(NamesOf(t));
      } else if t != map[] && AllIndices(t) {
        ItemsUniform(sort, t, 1, MaxIndex(t));
        assert forall k | k in t && k != Index(0) :: k == Index(k.i) && 1 <= k.i <= MaxIndex(t);
      }
    }
  }

  lemma {:induction false} PartsUniform(sort: Sorter, t: map<Key, Value>, keys: seq<seq<byte>>)
    requires Printable(Table(t)) && Sorts(sort) && forall k | k in keys :: Name(k) in t
    ensures EncodeParts(sort, t, keys).Some? <==> forall k | k in keys :: Uniform(t[Name(k)])
    decreases Table(t), 0, |keys|
  {
    hide Sorts, Encode, Uniform;
    if keys != [] {
      NameNotNil(t, keys[0]);
      PrintsUniform(sort, t[Name(keys[0])]);
      PartsUniform(sort, t, keys[1..]);
      assert forall k :: k in keys <==> k == keys[0] || k in keys[1..];
    }
  }

  lemma {:induction false} ItemsUniform(sort: Sorter, t: map<Key, Value>, i: nat, max: nat)
    requires Printable(Table(t)) && Sorts(sort) && i <= max + 1
    ensures EncodeItems(sort, t, i, max).Some? <==>
      forall j: nat | i <= j <= max && Index(j) in t :: Uniform(t[Index(j)])
    decreases Table(t), 0, max + 1 - i
  {
    hide Sorts, Encode, Uniform;
    if i <= max {
      if Index(i) in t {
        NeverNil(t, i);
        PrintsUniform(sort, t[Index(i)]);
      } else {
        NilPrints(sort);
      }
      ItemsUniform(sort, t, i + 1, max);
    }
  }

  lemma NilPrints(sort: Sorter)
    requires Sorts(sort)
    ensures Encode(sort, Nil) == Some(NULL)
  {
  }

  // ---------------------------------------------------------------- the printer's loops

  /** What object_or_array says about a table. */
  datatype Shape = Mixed | AnArray(max: nat) | Empty | AnObject(keys: seq<seq<byte>>)

  method ObjectOrArray(sort: Sorter, t: map<Key, Value>) returns (shape: Shape)
    requires Sorts(sort)
    ensures shape.Mixed? <==> !AllNames(t) && !AllIndices(t)
    ensures shape.Empty? <==> t == map[]
    ensures shape.AnArray? <==> t != map[] && AllIndices(t)
    ensures shape.AnArray? ==> IsMax(t, shape.max)
    ensures shape.AnObject? ==> shape.keys == sort(NamesOf(t))
  {
    var stringKeys: seq<seq<byte>> := [];
    var maximum: Option<nat> := None;
    var rest := t.Keys;
    while rest != {}
      invariant rest <= t.Keys
      invariant forall s :: s in stringKeys <==> Name(s) in t && Name(s) !in rest
      invariant maximum.None? <==> forall i: nat | Index(i) in t :: Index(i) in rest
      invariant maximum.Some? ==> Index(maximum.value) in t && Index(maximum.value) !in rest
      invariant maximum.Some? ==> forall i: nat | Index(i) in t && Index(i) !in rest :: i <= maximum.value
      decreases |rest|
    {
      var key :| key in rest;
      rest := rest - {key};
      match key
      case Index(i) =>
        if maximum.None? || maximum.value < i {
          maximum := Some(i);
        }
      case Name(s) => stringKeys := stringKeys + [s];
    }
    if maximum.Some? && |stringKeys| > 0 {
      assert stringKeys[0] in stringKeys;
      assert Name(stringKeys[0]) in t && Index(maximum.value) in t;
      return Mixed;
    }
    if stringKeys == [] {
      assert AllIndices(t);
      if maximum.Some? {
        return AnArray(maximum.value);
      }
      assert forall k :: k !in t;
      return Empty;
    }
    assert Name(stringKeys[0]) in t;
    assert (set s | s in stringKeys) == NamesOf(t);
    shape := AnObject(sort(set s | s in stringKeys));
  }

  function Before(front: seq<seq<byte>>, rest: Option<seq<seq<byte>>>): Option<seq<seq<byte>>> {
    if rest.None? then None else Some(front + rest.value)
  }

  lemma BeforeItems(sort: Sorter, t: map<Key, Value>, i: nat, max: nat, front: seq<seq<byte>>, first: Option<seq<byte>>)
    requires Printable(Table(t)) && Sorts(sort) && i <= max
    requires first == if Index(i) in t then Encode(sort, t[Index(i)]) else Some(NULL)
    ensures Before(front, EncodeItems(sort, t, i, max))
         == if first.None? then None else Before(front + [first.value], EncodeItems(sort, t, i + 1, max))
  {
    hide Encode, Printable, Sorts;
    var rest := EncodeItems(sort, t, i + 1, max);
    if first.Some? && rest.Some? {
      assert front + ([first.value] + rest.value) == front + [first.value] + rest.value;
    }
  }

  lemma BeforeParts(sort: Sorter, t: map<Key, Value>, keys: seq<seq<byte>>, front: seq<seq<byte>>)
    requires Printable(Table(t)) && Sorts(sort) && keys != [] && forall k | k in keys :: Name(k) in t
    ensures var first := Encode(sort, t[Name(keys[0])]);
      Before(front, EncodeParts(sort, t, keys))
        == if first.None? then None
           else Before(front + [Literal(keys[0]) + [COLON] + first.value], EncodeParts(sort, t, keys[1..]))
  {
    hide Encode, Sorts, Literal;
    NameNotNil(t, keys[0]);
    var first, rest := Encode(sort, t[Name(keys[0])]), EncodeParts(sort, t, keys[1..]);
    if first.Some? && rest.Some? {
      var part := Literal(keys[0]) + [COLON] + first.value;
      assert front + ([part] + rest.value) == front + [part] + rest.value;
    }
  }

  lemma BeforeNothing(front: seq<seq<byte>>, r: Option<seq<seq<byte>>>)
    ensures Before([], r) == r && Before(front, Some([])) == Some(front)
  {
    if r.Some? {
      assert [] + r.value == r.value;
    }
    assert front + [] == front;
  }

  lemma EncodeTable(sort: Sorter, t: map<Key, Value>)
    requires Printable(Table(t)) && Sorts(sort) && t != map[]
    ensures AllNames(t) ==>
      var parts := EncodeParts(sort, t, sort(NamesOf(t)));
      Encode(sort, Table(t)) == if parts.None? then None else Some([LBRACE] + Join(parts.value) + [RBRACE])
    ensures AllIndices(t) ==>
      var items := EncodeItems(sort, t, 1, MaxIndex(t));
      Encode(sort, Table(t)) == if items.None? then None else Some([LBRACKET] + Join(items.value) + [RBRACKET])
  {
    hide EncodeItems, EncodeParts, Join, Printable;
    var k :| k in t;
    assert k.Name? || k.Index?;
  }

  /** encode_value. */
  method EncodeValue(sort: Sorter, v: Value) returns (r: Option<seq<byte>>)
    requires Printable(v) && Sorts(sort)
    ensures r == Encode(sort, v)
    decreases v, 1
  {
    match v
    case Nil => r := Some(NULL);
    case Bool(b) => r := Some(if b then TRUE else FALSE);
    case Int(n) => r := Some(IntText(n));
    case Str(s) => r := Some(Literal(s));
    case Other(text) => r := None;
    case Table(t) =>
      hide Encode, EncodeItems, EncodeParts, Printable, Sorts, IsMax;
      var shape := ObjectOrArray(sort, t);
      match shape
      case Mixed => r := None; MixedFails(sort, t);
      case Empty => r := Some([LBRACKET, RBRACKET]); EmptyPrints(sort);
      case AnArray(max) => r := EncodeArray(sort, t, max);
      case AnObject(keys) => r := EncodeObject(sort, t, keys);
  }

  method EncodeArray(sort: Sorter, t: map<Key, Value>, max: nat) returns (r: Option<seq<byte>>)
    requires Printable(Table(t)) && Sorts(sort) && t != map[] && AllIndices(t) && IsMax(t, max)
    ensures r == Encode(sort, Table(t))
    decreases Table(t), 0
  {
    hide Encode, EncodeItems, EncodeParts, Join, Before, Printable, Sorts, IsMax;
    EncodeTable(sort, t);
    OneMax(t, max);
    var items: seq<seq<byte>> := [];
    BeforeNothing([], EncodeItems(sort, t, 1, max));
    var i := 1;
    while i <= max
      invariant 1 <= i <= max + 1
      invariant EncodeItems(sort, t, 1, max) == Before(items, EncodeItems(sort, t, i, max))
    {
      var item := Some(NULL);
      if Index(i) in t {
        NeverNil(t, i);
        item := EncodeValue(sort, t[Index(i)]);
      }
      BeforeItems(sort, t, i, max, items, item);
      if item.None? {
        return None;
      }
      items := items + [item.value];
      i := i + 1;
    }
    NoItems(sort, t, max);
    BeforeNothing(items, None);
    r := Some([LBRACKET] + Join(items) + [RBRACKET]);
  }

  method EncodeObject(sort: Sorter, t: map<Key, Value>, keys: seq<seq<byte>>) returns (r: Option<seq<byte>>)
    requires Printable(Table(t)) && Sorts(sort) && t != map[] && AllNames(t) && keys == sort(NamesOf(t))
    ensures r == Encode(sort, Table(t))
    decreases Table(t), 0
  {
    hide Encode, EncodeItems, EncodeParts, Join, Before, Printable, Sorts, Literal;
    EncodeTable(sort, t);
    SortedKeys(sort, t);
    var parts: seq<seq<byte>> := [];
    BeforeNothing([], EncodeParts(sort, t, keys));
    assert keys[0..] == keys;
    var i := 0;
    while i < |keys|
      invariant 0 <= i <= |keys|
      invariant EncodeParts(sort, t, keys) == Before(parts, EncodeParts(sort, t, keys[i..]))
    {
      BeforeParts(sort, t, keys[i..], parts);
      NameNotNil(t, keys[i]);
      var part := EncodeValue(sort, t[Name(keys[i])]);
      if part.None? {
        return None;
      }
      parts := parts + [Literal(keys[i]) + [COLON] + part.value];
      i := i + 1;
    }
    NoParts(sort, t, keys[i..]);
    BeforeNothing(parts, None);
    r := Some([LBRACE] + Join(parts) + [RBRACE]);
  }

  lemma OneMax(t: map<Key, Value>, max: nat)
    requires t != map[] && AllIndices(t) && IsMax(t, max)
    ensures max == MaxIndex(t)
  {
  }

  lemma MixedFails(sort: Sorter, t: map<Key, Value>)
    requires Printable(Table(t)) && Sorts(sort) && !AllNames(t) && !AllIndices(t)
    ensures Encode(sort, Table(t)) == None
  {
  }

  lemma EmptyPrints(sort: Sorter)
    requires Sorts(sort)
    ensures Printable(Table(map[])) && Encode(sort, Table(map[])) == Some([LBRACKET, RBRACKET])
  {
  }

  lemma NoItems(sort: Sorter, t: map<Key, Value>, max: nat)
    requires Printable(Table(t)) && Sorts(sort)
    ensures EncodeItems(sort, t, max + 1, max) == Some([])
  {
  }

  lemma NoParts(sort: Sorter, t: map<Key, Value>, keys: seq<seq<byte>>)
    requires Printable(Table(t)) && Sorts(sort) && keys == []
    ensures EncodeParts(sort, t, keys) == Some([])
  {
  }
}
