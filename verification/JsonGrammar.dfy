/** The recursive descent of the JSON decoder over tokens, and the grammar it decides. */
module JsonGrammar {
  import opened ByteSeq

  datatype Token =
    | ObjBegin | ObjEnd | ArrBegin | ArrEnd
    | Str(s: seq<byte>) | Num(text: seq<byte>) | Boolean(b: bool) | Null
    | Colon | Comma | End | Error(why: string)

  /** Syntax trees (sections 2.1 to 2.3 of RFC 4627, any type at top level). A number is the text
      that was read. */
  datatype Json =
    | JString(s: seq<byte>)
    | JNumber(text: seq<byte>)
    | JBool(b: bool)
    | JNull
    | JObject(members: seq<Member>)
    | JArray(items: seq<Json>)

  datatype Member = Member(key: seq<byte>, value: Json)

  /** What the decoder builds. An empty object and an empty array are the same table; null is a
      light userdata, so it can be stored in one. */
  datatype Key = Name(s: seq<byte>) | Index(i: nat)
  datatype Lua =
    | LString(s: seq<byte>)
    | LNumber(text: seq<byte>)
    | LBool(b: bool)
    | LNull
    | Table(fields: map<Key, Lua>)

  // ---------------------------------------------------------------- the grammar

  function Lin(v: Json): seq<Token> {
    match v
    case JString(s) => [Str(s)]
    case JNumber(text) => [Num(text)]
    case JBool(b) => [Boolean(b)]
    case JNull => [Null]
    case JObject(ms) => [ObjBegin] + (if ms == [] then [] else LinMembers(ms)) + [ObjEnd]
    case JArray(xs) => [ArrBegin] + (if xs == [] then [] else LinItems(xs)) + [ArrEnd]
  }

  function LinMembers(ms: seq<Member>): seq<Token>
    requires ms != []
  {
    [Str(ms[0].key), Colon] + Lin(ms[0].value) + (if |ms| == 1 then [] else [Comma] + LinMembers(ms[1..]))
  }

  function LinItems(xs: seq<Json>): seq<Token>
    requires xs != []
  {
    Lin(xs[0]) + (if |xs| == 1 then [] else [Comma] + LinItems(xs[1..]))
  }

  /** How deeply containers are nested. */
  function Depth(v: Json): nat {
    match v
    case JObject(ms) => 1 + DepthMembers(ms)
    case JArray(xs) => 1 + DepthItems(xs)
    case _ => 0
  }

  function DepthMembers(ms: seq<Member>): nat {
    if ms == [] then 0 else Max(Depth(ms[0].value), DepthMembers(ms[1..]))
  }

  function DepthItems(xs: seq<Json>): nat {
    if xs == [] then 0 else Max(Depth(xs[0]), DepthItems(xs[1..]))
  }

  function Max(a: nat, b: nat): nat { if a < b then b else a }

  function LuaOf(v: Json): Lua {
    match v
    case JString(s) => LString(s)
    case JNumber(text) => LNumber(text)
    case JBool(b) => LBool(b)
    case JNull => LNull
    case JObject(ms) => Table(Fields(ms, map[]))
    case JArray(xs) => Table(Slots(xs, 1, map[]))
  }

  function Fields(ms: seq<Member>, t: map<Key, Lua>): map<Key, Lua>
    decreases ms
  {
    if ms == [] then t else Fields(ms[1..], t[Name(ms[0].key) := LuaOf(ms[0].value)])
  }

  function Slots(xs: seq<Json>, i: nat, t: map<Key, Lua>): map<Key, Lua>
    decreases xs
  {
    if xs == [] then t else Slots(xs[1..], i + 1, t[Index(i) := LuaOf(xs[0])])
  }

  /** A key of an object has the value of its last member. */
  lemma {:induction false} FieldsLastWins(ms: seq<Member>, t: map<Key, Lua>, k: Key)
    ensures k in Fields(ms, t) <==> k in t || exists i :: 0 <= i < |ms| && Name(ms[i].key) == k
    ensures forall i | 0 <= i < |ms| && Name(ms[i].key) == k && (forall j | i < j < |ms| :: ms[j].key != ms[i].key) ::
      Fields(ms, t)[k] == LuaOf(ms[i].value)
    ensures (forall i | 0 <= i < |ms| :: Name(ms[i].key) != k) && k in t ==> Fields(ms, t)[k] == t[k]
    decreases ms
  {
    hide LuaOf;
    if ms != [] {
      FieldsLastWins(ms[1..], t[Name(ms[0].key) := LuaOf(ms[0].value)], k);
      assert forall i | 1 <= i < |ms| :: ms[i] == ms[1..][i - 1];
      forall i | 0 <= i < |ms| && Name(ms[i].key) == k && (forall j | i < j < |ms| :: ms[j].key != ms[i].key)
        ensures Fields(ms, t)[k] == LuaOf(ms[i].value)
      {
        if i > 0 {
          assert ms[i] == ms[1..][i - 1];
        } else {
          assert forall j | 0 <= j < |ms[1..]| :: ms[1..][j] == ms[j + 1];
        }
      }
    }
  }

  /** The items of an array are at 1, 2, 3, and nothing else is. */
  lemma {:induction false} SlotsInOrder(xs: seq<Json>, i: nat, t: map<Key, Lua>, k: Key)
    ensures k in Slots(xs, i, t) <==> k in t || (k.Index? && i <= k.i < i + |xs|)
    ensures k.Index? && i <= k.i < i + |xs| ==> Slots(xs, i, t)[k] == LuaOf(xs[k.i - i])
    ensures k in t && !(k.Index? && i <= k.i < i + |xs|) ==> Slots(xs, i, t)[k] == t[k]
    decreases xs
  {
    hide LuaOf;
    if xs != [] {
      SlotsInOrder(xs[1..], i + 1, t[Index(i) := LuaOf(xs[0])], k);
    }
  }

  // ---------------------------------------------------------------- recursive descent

  datatype Wanted = ObjectKey | AColon | AValue | CommaOrObjectEnd | CommaOrArrayEnd | TheEnd

  datatype Outcome =
    | Parsed(value: Lua, rest: seq<Token>)
    | Fault(wanted: Wanted, found: Token)
    | TooDeep(depth: nat)

  /** The lexer stays at the end of the text, so a missing token reads as the end. */
  function Peek(ts: seq<Token>): Token { if ts == [] then End else ts[0] }

  function Next(ts: seq<Token>): (r: seq<Token>)
    ensures ts != [] ==> |r| < |ts|
  {
    if ts == [] then [] else ts[1..]
  }

  /** json_process_value, the token already read being the first of ts. */
  function ParseValue(ts: seq<Token>, depth: nat, limit: nat): (r: Outcome)
    ensures r.Parsed? ==> |r.rest| < |ts|
    decreases |ts|, 0
  {
    match Peek(ts)
    case Str(s) => Parsed(LString(s), Next(ts))
    case Num(text) => Parsed(LNumber(text), Next(ts))
    case Boolean(b) => Parsed(LBool(b), Next(ts))
    case Null => Parsed(LNull, Next(ts))
    case ObjBegin =>
      if depth + 1 > limit then TooDeep(depth + 1)
      else if Peek(Next(ts)) == ObjEnd then Parsed(Table(map[]), Next(Next(ts)))
      else ParseMembers(Next(ts), map[], depth + 1, limit)
    case ArrBegin =>
      if depth + 1 > limit then TooDeep(depth + 1)
      else if Peek(Next(ts)) == ArrEnd then Parsed(Table(map[]), Next(Next(ts)))
      else ParseItems(Next(ts), 1, map[], depth + 1, limit)
    case _ => Fault(AValue, Peek(ts))
  }

  function ParseMembers(ts: seq<Token>, t: map<Key, Lua>, depth: nat, limit: nat): (r: Outcome)
    ensures r.Parsed? ==> |r.rest| < |ts|
    decreases |ts|, 1
  {
    if !Peek(ts).Str? then Fault(ObjectKey, Peek(ts))
    else if Peek(Next(ts)) != Colon then Fault(AColon, Peek(Next(ts)))
    else
      match ParseValue(Next(Next(ts)), depth, limit)
      case Parsed(v, rest) =>
        var u := t[Name(Peek(ts).s) := v];
        if Peek(rest) == ObjEnd then Parsed(Table(u), Next(rest))
        else if Peek(rest) != Comma then Fault(CommaOrObjectEnd, Peek(rest))
        else ParseMembers(Next(rest), u, depth, limit)
      case Fault(wanted, found) => Fault(wanted, found)
      case TooDeep(d) => TooDeep(d)
  }

  function ParseItems(ts: seq<Token>, i: nat, t: map<Key, Lua>, depth: nat, limit: nat): (r: Outcome)
    ensures r.Parsed? ==> |r.rest| < |ts|
    decreases |ts|, 1
  {
    match ParseValue(ts, depth, limit)
    case Parsed(v, rest) =>
      var u := t[Index(i) := v];
      if Peek(rest) == ArrEnd then Parsed(Table(u), Next(rest))
      else if Peek(rest) != Comma then Fault(CommaOrArrayEnd, Peek(rest))
      else ParseItems(Next(rest), i + 1, u, depth, limit)
    case Fault(wanted, found) => Fault(wanted, found)
    case TooDeep(d) => TooDeep(d)
  }

  /** json_decode over the tokens of the text. */
  function Decode(ts: seq<Token>, limit: nat): Outcome {
    match ParseValue(ts, 0, limit)
    case Parsed(v, rest) => if Peek(rest) == End then Parsed(v, rest) else Fault(TheEnd, Peek(rest))
    case Fault(wanted, found) => Fault(wanted, found)
    case TooDeep(d) => TooDeep(d)
  }

  // ---------------------------------------------------------------- the descent decides the grammar

  lemma FirstToken(t: Token, r: seq<Token>)
    ensures Peek([t] + r) == t && Next([t] + r) == r
  {
  }

  lemma LinStarts(v: Json)
    ensures Lin(v) != [] && Lin(v)[0] !in {ObjEnd, ArrEnd, Comma, Colon, End}
  {
  }

  /** The tokens of a value, whatever follows, are parsed as that value, unless it is nested too deep. */
  lemma {:induction false} ValueComplete(v: Json, rest: seq<Token>, depth: nat, limit: nat)
    requires depth <= limit
    ensures ParseValue(Lin(v) + rest, depth, limit)
         == if depth + Depth(v) <= limit then Parsed(LuaOf(v), rest) else TooDeep(limit + 1)
    decreases v, 1
  {
    hide ParseMembers, ParseItems, LinMembers, LinItems, Peek, Next, Slots, Fields;
    match v
    case JObject(ms) => ObjectComplete(ms, rest, depth, limit);
    case JArray(xs) => ArrayComplete(xs, rest, depth, limit);
    case JString(s) => FirstToken(Str(s), rest);
    case JNumber(text) => FirstToken(Num(text), rest);
    case JBool(b) => FirstToken(Boolean(b), rest);
    case JNull => FirstToken(Null, rest);
  }

  lemma {:induction false} ObjectComplete(ms: seq<Member>, rest: seq<Token>, depth: nat, limit: nat)
    requires depth <= limit
    ensures ParseValue(Lin(JObject(ms)) + rest, depth, limit)
         == if depth + Depth(JObject(ms)) <= limit then Parsed(LuaOf(JObject(ms)), rest) else TooDeep(limit + 1)
    decreases JObject(ms), 0
  {
    hide ParseMembers, ParseItems, LinMembers, LinItems, Peek, Next, Slots, Fields, DepthMembers;
    var body := if ms == [] then [ObjEnd] + rest else LinMembers(ms) + ([ObjEnd] + rest);
    assert Lin(JObject(ms)) + rest == [ObjBegin] + body;
    FirstToken(ObjBegin, body);
    if ms == [] {
      FirstToken(ObjEnd, rest);
      EmptyTables();
    } else {
      MembersStart(ms, [ObjEnd] + rest);
      if depth < limit {
        MembersComplete(ms, rest, map[], depth + 1, limit);
      }
    }
  }

  lemma {:induction false} ArrayComplete(xs: seq<Json>, rest: seq<Token>, depth: nat, limit: nat)
    requires depth <= limit
    ensures ParseValue(Lin(JArray(xs)) + rest, depth, limit)
         == if depth + Depth(JArray(xs)) <= limit then Parsed(LuaOf(JArray(xs)), rest) else TooDeep(limit + 1)
    decreases JArray(xs), 0
  {
    hide ParseMembers, ParseItems, LinMembers, LinItems, Peek, Next, Slots, Fields, DepthItems;
    var body := if xs == [] then [ArrEnd] + rest else LinItems(xs) + ([ArrEnd] + rest);
    assert Lin(JArray(xs)) + rest == [ArrBegin] + body;
    FirstToken(ArrBegin, body);
    if xs == [] {
      FirstToken(ArrEnd, rest);
      EmptyTables();
    } else {
      ItemsStart(xs, [ArrEnd] + rest);
      if depth < limit {
        ItemsComplete(xs, rest, 1, map[], depth + 1, limit);
      }
    }
  }

  lemma EmptyTables()
    ensures Fields([], map[]) == map[] && Slots([], 1, map[]) == map[]
    ensures DepthMembers([]) == 0 && DepthItems([]) == 0
  {
  }

  lemma MembersStart(ms: seq<Member>, rest: seq<Token>)
    requires ms != []
    ensures Peek(LinMembers(ms) + rest) == Str(ms[0].key)
  {
  }

  lemma ItemsStart(xs: seq<Json>, rest: seq<Token>)
    requires xs != []
    ensures Peek(LinItems(xs) + rest) == Lin(xs[0])[0] && Peek(LinItems(xs) + rest) != ArrEnd
  {
    hide Lin;
    LinStarts(xs[0]);
  }

  lemma {:induction false} MembersComplete(ms: seq<Member>, rest: seq<Token>, t: map<Key, Lua>, depth: nat, limit: nat)
    requires ms != [] && depth <= limit
    ensures ParseMembers(LinMembers(ms) + ([ObjEnd] + rest), t, depth, limit)
         == if depth + DepthMembers(ms) <= limit then Parsed(Table(Fields(ms, t)), rest) else TooDeep(limit + 1)
    decreases ms
  {
    hide ParseValue, Lin, Peek, Next, Depth, LuaOf, LinMembers;
    var m := ms[0];
    var more := if |ms| == 1 then [ObjEnd] + rest else [Comma] + (LinMembers(ms[1..]) + ([ObjEnd] + rest));
    var ts := LinMembers(ms) + ([ObjEnd] + rest);
    LinMembersUnfold(ms, [ObjEnd] + rest);
    FirstToken(Str(m.key), [Colon] + (Lin(m.value) + more));
    FirstToken(Colon, Lin(m.value) + more);
    ValueComplete(m.value, more, depth, limit);
    if |ms| == 1 {
      FirstToken(ObjEnd, rest);
    } else {
      FirstToken(Comma, LinMembers(ms[1..]) + ([ObjEnd] + rest));
      if depth + Depth(m.value) <= limit {
        MembersComplete(ms[1..], rest, t[Name(m.key) := LuaOf(m.value)], depth, limit);
      }
    }
  }

  lemma LinMembersUnfold(ms: seq<Member>, rest: seq<Token>)
    requires ms != []
    ensures LinMembers(ms) + rest
         == [Str(ms[0].key)] + ([Colon] + (Lin(ms[0].value)
                                           + if |ms| == 1 then rest else [Comma] + (LinMembers(ms[1..]) + rest)))
  {
    hide Lin, LinMembers;
    LinMembersOnce(ms);
    if |ms| == 1 {
      Regroup(Str(ms[0].key), Lin(ms[0].value), [], rest);
      assert [] + rest == rest;
    } else {
      Regroup(Str(ms[0].key), Lin(ms[0].value), [Comma] + LinMembers(ms[1..]), rest);
      assert [Comma] + LinMembers(ms[1..]) + rest == [Comma] + (LinMembers(ms[1..]) + rest);
    }
  }

  lemma LinMembersOnce(ms: seq<Member>)
    requires ms != []
    ensures LinMembers(ms)
         == [Str(ms[0].key), Colon] + Lin(ms[0].value) + (if |ms| == 1 then [] else [Comma] + LinMembers(ms[1..]))
  {
  }

  lemma Regroup(k: Token, v: seq<Token>, more: seq<Token>, rest: seq<Token>)
    ensures [k, Colon] + v + more + rest == [k] + ([Colon] + (v + (more + rest)))
  {
  }

  lemma LinItemsUnfold(xs: seq<Json>, rest: seq<Token>)
    requires xs != []
    ensures LinItems(xs) + rest
         == Lin(xs[0]) + if |xs| == 1 then rest else [Comma] + (LinItems(xs[1..]) + rest)
  {
    hide Lin;
  }

  lemma {:induction false} ItemsComplete(xs: seq<Json>, rest: seq<Token>, i: nat, t: map<Key, Lua>, depth: nat,
                                         limit: nat)
    requires xs != [] && depth <= limit
    ensures ParseItems(LinItems(xs) + ([ArrEnd] + rest), i, t, depth, limit)
         == if depth + DepthItems(xs) <= limit then Parsed(Table(Slots(xs, i, t)), rest) else TooDeep(limit + 1)
    decreases xs
  {
    hide ParseValue, Lin, Peek, Next, Depth, LuaOf, LinItems;
    var more := if |xs| == 1 then [ArrEnd] + rest else [Comma] + (LinItems(xs[1..]) + ([ArrEnd] + rest));
    LinItemsUnfold(xs, [ArrEnd] + rest);
    ValueComplete(xs[0], more, depth, limit);
    if |xs| == 1 {
      FirstToken(ArrEnd, rest);
    } else {
      FirstToken(Comma, LinItems(xs[1..]) + ([ArrEnd] + rest));
      if depth + Depth(xs[0]) <= limit {
        ItemsComplete(xs[1..], rest, i + 1, t[Index(i) := LuaOf(xs[0])], depth, limit);
      }
    }
  }

  lemma Split(ts: seq<Token>)
    requires Peek(ts) != End
    ensures ts == [Peek(ts)] + Next(ts)
  {
  }

  /** What is parsed is the tokens of a value that is not nested too deep. */
  lemma {:induction false} ValueSound(ts: seq<Token>, depth: nat, limit: nat) returns (v: Json)
    requires depth <= limit && ParseValue(ts, depth, limit).Parsed?
    ensures var r := ParseValue(ts, depth, limit);
      ts == Lin(v) + r.rest && depth + Depth(v) <= limit && r.value == LuaOf(v)
    decreases |ts|, 0
  {
    hide ParseMembers, ParseItems, LinMembers, LinItems, Next, Peek, Slots, Fields;
    Split(ts);
    match Peek(ts)
    case Str(s) => v := JString(s);
    case Num(text) => v := JNumber(text);
    case Boolean(b) => v := JBool(b);
    case Null => v := JNull;
    case ObjBegin =>
      EmptyTables();
      if Peek(Next(ts)) == ObjEnd {
        Split(Next(ts));
        v := JObject([]);
      } else {
        var ms := MembersSound(Next(ts), map[], depth + 1, limit);
        v := JObject(ms);
      }
    case ArrBegin =>
      EmptyTables();
      if Peek(Next(ts)) == ArrEnd {
        Split(Next(ts));
        v := JArray([]);
      } else {
        var xs := ItemsSound(Next(ts), 1, map[], depth + 1, limit);
        v := JArray(xs);
      }
    case ObjEnd => v := JNull;
    case ArrEnd => v := JNull;
    case Colon => v := JNull;
    case Comma => v := JNull;
    case End => v := JNull;
    case Error(why) => v := JNull;
  }

  lemma {:induction false} MembersSound(ts: seq<Token>, t: map<Key, Lua>, depth: nat, limit: nat)
      returns (ms: seq<Member>)
    requires depth <= limit && ParseMembers(ts, t, depth, limit).Parsed?
    ensures ms != []
    ensures var r := ParseMembers(ts, t, depth, limit);
      && ts == LinMembers(ms) + ([ObjEnd] + r.rest) && depth + DepthMembers(ms) <= limit
      && r.value == Table(Fields(ms, t))
    decreases |ts|, 1
  {
    hide ParseValue, Lin, Next, Peek, LuaOf, Depth, LinMembers;
    Split(ts);
    Split(Next(ts));
    var v := ValueSound(Next(Next(ts)), depth, limit);
    var m := Member(Peek(ts).s, v);
    var rest := ParseValue(Next(Next(ts)), depth, limit).rest;
    var u := t[Name(m.key) := LuaOf(v)];
    Split(rest);
    if Peek(rest) == ObjEnd {
      ms := [m];
      LinMembersUnfold(ms, [ObjEnd] + Next(rest));
    } else {
      var more := MembersSound(Next(rest), u, depth, limit);
      ms := [m] + more;
      assert ms[1..] == more;
      LinMembersUnfold(ms, [ObjEnd] + ParseMembers(ts, t, depth, limit).rest);
    }
  }

  lemma {:induction false} ItemsSound(ts: seq<Token>, i: nat, t: map<Key, Lua>, depth: nat, limit: nat)
      returns (xs: seq<Json>)
    requires depth <= limit && ParseItems(ts, i, t, depth, limit).Parsed?
    ensures xs != []
    ensures var r := ParseItems(ts, i, t, depth, limit);
      && ts == LinItems(xs) + ([ArrEnd] + r.rest) && depth + DepthItems(xs) <= limit
      && r.value == Table(Slots(xs, i, t))
    decreases |ts|, 1
  {
    hide ParseValue, Lin, Next, Peek, LuaOf, Depth, LinItems;
    var v := ValueSound(ts, depth, limit);
    var rest := ParseValue(ts, depth, limit).rest;
    Split(rest);
    if Peek(rest) == ArrEnd {
      xs := [v];
      LinItemsUnfold(xs, [ArrEnd] + Next(rest));
    } else {
      var more := ItemsSound(Next(rest), i + 1, t[Index(i) := LuaOf(v)], depth, limit);
      xs := [v] + more;
      assert xs[1..] == more;
      LinItemsUnfold(xs, [ArrEnd] + ParseItems(ts, i, t, depth, limit).rest);
    }
  }

  /** What the lexer delivers: only the last token is the end or an error. */
  predicate Closed(ts: seq<Token>) {
    && ts != [] && (ts[|ts| - 1].End? || ts[|ts| - 1].Error?)
    && forall i | 0 <= i < |ts| - 1 :: !ts[i].End? && !ts[i].Error?
  }

  /** The decoder accepts exactly the tokens of one value nested at most `limit` deep, and builds
      that value. */
  lemma DecodeIsExact(ts: seq<Token>, limit: nat, value: Lua)
    requires Closed(ts)
    ensures Decode(ts, limit) == Parsed(value, [End]) <==>
      exists v :: ts == Lin(v) + [End] && Depth(v) <= limit && value == LuaOf(v)
    ensures Decode(ts, limit).Parsed? ==> Decode(ts, limit).rest == [End]
  {
    hide ParseValue, Lin, Depth, LuaOf;
    var r := Decode(ts, limit);
    if r.Parsed? {
      var v := ValueSound(ts, 0, limit);
      assert r.rest == ts[|Lin(v)|..];
      if r.rest == [] {
        assert ts == Lin(v);
        LinNotClosed(v);
        assert false;
      }
      assert r.rest[0] == ts[|Lin(v)|];
      assert r.rest == [End];
    }
    forall v | ts == Lin(v) + [End] && Depth(v) <= limit && value == LuaOf(v)
      ensures r == Parsed(value, [End])
    {
      ValueComplete(v, [End], 0, limit);
    }
  }

  lemma {:induction false} LinNotClosed(v: Json)
    ensures Lin(v) != [] && !Lin(v)[|Lin(v)| - 1].End? && !Lin(v)[|Lin(v)| - 1].Error?
  {
  }

  /** One token sequence is one value: nothing that follows a value can be taken for a part of it. */
  lemma LinIsUnique(v: Json, w: Json, r: seq<Token>, q: seq<Token>)
    requires Lin(v) + r == Lin(w) + q
    ensures r == q && Lin(v) == Lin(w) && LuaOf(v) == LuaOf(w)
  {
    hide ParseValue, Lin, Depth, LuaOf;
    var limit := Depth(v) + Depth(w);
    ValueComplete(v, r, 0, limit);
    ValueComplete(w, q, 0, limit);
    assert |Lin(v)| == |Lin(w)|;
    assert Lin(v) == (Lin(v) + r)[..|Lin(v)|];
    assert Lin(w) == (Lin(w) + q)[..|Lin(w)|];
  }
}
