/** A parse error names the first token at which no document can go on. */
module JsonFaults {
  import opened ByteSeq
  import opened JsonGrammar

  /** us goes on as ts did for k tokens, and then with `found`. */
  predicate Follows(us: seq<Token>, ts: seq<Token>, k: nat, found: Token) {
    k <= |ts| && ts[..k] + [found] <= us
  }

  lemma FollowsNext(us: seq<Token>, ts: seq<Token>, k: nat, found: Token)
    requires Follows(us, ts, k, found) && k > 0
    ensures ts != [] && us != [] && Peek(us) == Peek(ts) && Follows(Next(us), Next(ts), k - 1, found)
  {
    var a := ts[..k] + [found];
    assert a[0] == us[0] && a[0] == ts[0];
    assert a[1..] == Next(ts)[..k - 1] + [found];
    assert a[1..] <= us[1..];
  }

  lemma FollowsHere(us: seq<Token>, ts: seq<Token>, found: Token)
    requires Follows(us, ts, 0, found)
    ensures Peek(us) == found
  {
    assert (ts[..0] + [found])[0] == us[0];
  }

  /** Behind a whole value. */
  lemma FollowsValue(us: seq<Token>, ts: seq<Token>, v: Json, rest: seq<Token>, k: nat, found: Token)
    requires ts == Lin(v) + rest && Follows(us, ts, |Lin(v)| + k, found)
    ensures us == Lin(v) + us[|Lin(v)|..] && Follows(us[|Lin(v)|..], rest, k, found)
  {
    hide Lin;
    var n := |Lin(v)|;
    var a := ts[..n + k] + [found];
    assert a[..n] == Lin(v) && a[..n] == us[..n];
    assert a[n..] == rest[..k] + [found];
    assert a[n..] <= us[n..];
  }

  lemma Peeked(ts: seq<Token>, k: nat)
    requires k < |ts|
    ensures Peek(ts[k + 1..]) == Peek(Next(ts)[k..]) && Next(ts)[k..] == ts[k + 1..]
  {
  }

  /** The tokens before the fault begin the tokens of some value that is not nested too deep. */
  ghost predicate Viable(ts: seq<Token>, k: nat, v: Json, depth: nat, limit: nat) {
    k <= |ts| && ts[..k] <= Lin(v) && depth + Depth(v) <= limit
  }

  ghost predicate ViableMembers(ts: seq<Token>, k: nat, ms: seq<Member>, depth: nat, limit: nat) {
    ms != [] && k <= |ts| && ts[..k] <= LinMembers(ms) + [ObjEnd] && depth + DepthMembers(ms) <= limit
  }

  ghost predicate ViableItems(ts: seq<Token>, k: nat, xs: seq<Json>, depth: nat, limit: nat) {
    xs != [] && k <= |ts| && ts[..k] <= LinItems(xs) + [ArrEnd] && depth + DepthItems(xs) <= limit
  }

  lemma {:induction false} ValueFault(ts: seq<Token>, depth: nat, limit: nat) returns (k: nat, v: Json)
    requires depth <= limit && ParseValue(ts, depth, limit).Fault?
    ensures k <= |ts| && ParseValue(ts, depth, limit).found == Peek(ts[k..]) && Viable(ts, k, v, depth, limit)
    ensures forall us | Follows(us, ts, k, ParseValue(ts, depth, limit).found) ::
      ParseValue(us, depth, limit) == ParseValue(ts, depth, limit)
    decreases |ts|, 0
  {
    hide ParseMembers, ParseItems, Peek, Next, Follows, Viable, ViableMembers, ViableItems;
    var found := ParseValue(ts, depth, limit).found;
    if Peek(ts) == ObjBegin {
      Split(ts);
      var j, ms := MembersFault(Next(ts), map[], depth + 1, limit);
      k, v := j + 1, JObject(ms);
      Peeked(ts, j);
      ObjectViable(ts, j, ms, depth, limit);
      forall us | Follows(us, ts, k, found) ensures ParseValue(us, depth, limit) == ParseValue(ts, depth, limit) {
        FollowsNext(us, ts, k, found);
        if j == 0 {
          FollowsHere(Next(us), Next(ts), found);
          assert Next(ts)[0..] == Next(ts);
        } else {
          FollowsNext(Next(us), Next(ts), j, found);
        }
      }
    } else if Peek(ts) == ArrBegin {
      Split(ts);
      var j, xs := ItemsFault(Next(ts), 1, map[], depth + 1, limit);
      k, v := j + 1, JArray(xs);
      Peeked(ts, j);
      ArrayViable(ts, j, xs, depth, limit);
      forall us | Follows(us, ts, k, found) ensures ParseValue(us, depth, limit) == ParseValue(ts, depth, limit) {
        FollowsNext(us, ts, k, found);
        if j == 0 {
          FollowsHere(Next(us), Next(ts), found);
          assert Next(ts)[0..] == Next(ts);
        } else {
          FollowsNext(Next(us), Next(ts), j, found);
        }
      }
    } else {
      k, v := 0, JNull;
      assert ts[0..] == ts;
      NothingViable(ts, depth, limit);
      forall us | Follows(us, ts, 0, found) ensures ParseValue(us, depth, limit) == ParseValue(ts, depth, limit) {
        FollowsHere(us, ts, found);
      }
    }
  }

  lemma NothingViable(ts: seq<Token>, depth: nat, limit: nat)
    requires depth <= limit
    ensures Viable(ts, 0, JNull, depth, limit)
  {
    assert ts[..0] == [];
  }

  lemma ObjectViable(ts: seq<Token>, j: nat, ms: seq<Member>, depth: nat, limit: nat)
    requires Peek(ts) == ObjBegin && ViableMembers(Next(ts), j, ms, depth + 1, limit)
    ensures Viable(ts, j + 1, JObject(ms), depth, limit)
  {
    hide LinMembers, DepthMembers;
    assert ts[..j + 1] == [ObjBegin] + Next(ts)[..j];
    assert Lin(JObject(ms)) == [ObjBegin] + (LinMembers(ms) + [ObjEnd]);
  }

  lemma ArrayViable(ts: seq<Token>, j: nat, xs: seq<Json>, depth: nat, limit: nat)
    requires Peek(ts) == ArrBegin && ViableItems(Next(ts), j, xs, depth + 1, limit)
    ensures Viable(ts, j + 1, JArray(xs), depth, limit)
  {
    hide LinItems, DepthItems;
    assert ts[..j + 1] == [ArrBegin] + Next(ts)[..j];
    assert Lin(JArray(xs)) == [ArrBegin] + (LinItems(xs) + [ArrEnd]);
  }

  /** What ParseMembers does behind its key and colon, for a known first value. */
  lemma MembersBehind(ts: seq<Token>, t: map<Key, Lua>, depth: nat, limit: nat, v: Json, rest: seq<Token>)
    requires Peek(ts).Str? && Peek(Next(ts)) == Colon && Next(Next(ts)) == Lin(v) + rest
    requires depth + Depth(v) <= limit
    ensures var u := t[Name(Peek(ts).s) := LuaOf(v)];
      ParseMembers(ts, t, depth, limit) ==
        if Peek(rest) == ObjEnd then Parsed(Table(u), Next(rest))
        else if Peek(rest) != Comma then Fault(CommaOrObjectEnd, Peek(rest))
        else ParseMembers(Next(rest), u, depth, limit)
  {
    hide ParseValue, Lin, Depth, LuaOf, Peek, Next;
    ValueComplete(v, rest, depth, limit);
  }

  lemma ItemsBehind(ts: seq<Token>, i: nat, t: map<Key, Lua>, depth: nat, limit: nat, v: Json, rest: seq<Token>)
    requires ts == Lin(v) + rest && depth + Depth(v) <= limit
    ensures var u := t[Index(i) := LuaOf(v)];
      ParseItems(ts, i, t, depth, limit) ==
        if Peek(rest) == ArrEnd then Parsed(Table(u), Next(rest))
        else if Peek(rest) != Comma then Fault(CommaOrArrayEnd, Peek(rest))
        else ParseItems(Next(rest), i + 1, u, depth, limit)
  {
    hide ParseValue, Lin, Depth, LuaOf, Peek, Next;
    ValueComplete(v, rest, depth, limit);
  }

  /** What ParseMembers does before its first value. */
  lemma MembersBefore(ts: seq<Token>, t: map<Key, Lua>, depth: nat, limit: nat)
    ensures !Peek(ts).Str? ==> ParseMembers(ts, t, depth, limit) == Fault(ObjectKey, Peek(ts))
    ensures Peek(ts).Str? && Peek(Next(ts)) != Colon ==>
      ParseMembers(ts, t, depth, limit) == Fault(AColon, Peek(Next(ts)))
    ensures Peek(ts).Str? && Peek(Next(ts)) == Colon && !ParseValue(Next(Next(ts)), depth, limit).Parsed? ==>
      ParseMembers(ts, t, depth, limit) == ParseValue(Next(Next(ts)), depth, limit)
  {
    hide ParseValue, Peek, Next;
  }

  lemma {:induction false} MembersFault(ts: seq<Token>, t: map<Key, Lua>, depth: nat, limit: nat)
      returns (k: nat, ms: seq<Member>)
    requires depth <= limit && ParseMembers(ts, t, depth, limit).Fault?
    ensures k <= |ts| && ParseMembers(ts, t, depth, limit).found == Peek(ts[k..])
    ensures ViableMembers(ts, k, ms, depth, limit)
    ensures forall us | Follows(us, ts, k, ParseMembers(ts, t, depth, limit).found) ::
      ParseMembers(us, t, depth, limit) == ParseMembers(ts, t, depth, limit)
    decreases |ts|, 1
  {
    hide ParseValue, ParseMembers, Lin, LinMembers, Depth, DepthMembers, LuaOf, Peek, Next, Follows, Viable;
    hide ViableMembers;
    var r := ParseMembers(ts, t, depth, limit);
    MembersBefore(ts, t, depth, limit);
    if !Peek(ts).Str? {
      k, ms := KeyFault(ts, t, depth, limit);
    } else if Peek(Next(ts)) != Colon {
      k, ms := ColonFault(ts, t, depth, limit);
    } else {
      Split(ts);
      Split(Next(ts));
      var key, vs := Peek(ts).s, Next(Next(ts));
      if ParseValue(vs, depth, limit).Fault? {
        var j, v := ValueFault(vs, depth, limit);
        k, ms := j + 2, [Member(key, v)];
        PeekedTwice(ts, j);
        MemberViable(ts, j, key, v, depth, limit);
        forall us | Follows(us, ts, k, r.found) ensures ParseMembers(us, t, depth, limit) == r {
          FollowsNext(us, ts, k, r.found);
          FollowsNext(Next(us), Next(ts), k - 1, r.found);
          MembersBefore(us, t, depth, limit);
        }
      } else {
        var v := ValueSound(vs, depth, limit);
        var rest := ParseValue(vs, depth, limit).rest;
        MembersBehind(ts, t, depth, limit, v, rest);
        var u := t[Name(key) := LuaOf(v)];
        var n := |Lin(v)|;
        if Peek(rest) == Comma {
          Split(rest);
          var j, more := MembersFault(Next(rest), u, depth, limit);
          k, ms := n + 3 + j, [Member(key, v)] + more;
          PeekedBehind(ts, v, rest, j + 1);
          Peeked(rest, j);
          MoreViable(ts, key, v, rest, j, more, depth, limit);
          forall us | Follows(us, ts, k, r.found) ensures ParseMembers(us, t, depth, limit) == r {
            FollowsNext(us, ts, k, r.found);
            FollowsNext(Next(us), Next(ts), k - 1, r.found);
            FollowsValue(Next(Next(us)), vs, v, rest, j + 1, r.found);
            var us' := Next(Next(us))[n..];
            FollowsNext(us', rest, j + 1, r.found);
            MembersBehind(us, t, depth, limit, v, us');
          }
        } else {
          k, ms := n + 2, [Member(key, v)];
          PeekedBehind(ts, v, rest, 0);
          assert rest[0..] == rest;
          WholeViable(ts, key, v, rest, depth, limit);
          forall us | Follows(us, ts, k, r.found) ensures ParseMembers(us, t, depth, limit) == r {
            FollowsNext(us, ts, k, r.found);
            FollowsNext(Next(us), Next(ts), k - 1, r.found);
            FollowsValue(Next(Next(us)), vs, v, rest, 0, r.found);
            var us' := Next(Next(us))[n..];
            FollowsHere(us', rest, r.found);
            MembersBehind(us, t, depth, limit, v, us');
          }
        }
      }
    }
  }

  lemma KeyFault(ts: seq<Token>, t: map<Key, Lua>, depth: nat, limit: nat) returns (k: nat, ms: seq<Member>)
    requires depth <= limit && !Peek(ts).Str?
    ensures k <= |ts| && ParseMembers(ts, t, depth, limit) == Fault(ObjectKey, Peek(ts[k..]))
    ensures ViableMembers(ts, k, ms, depth, limit)
    ensures forall us | Follows(us, ts, k, Peek(ts)) ::
      ParseMembers(us, t, depth, limit) == ParseMembers(ts, t, depth, limit)
    ensures k == 0
  {
    hide ParseMembers, Peek, Next, Follows;
    k, ms := 0, [Member([], JNull)];
    assert ts[0..] == ts && ts[..0] == [];
    MembersBefore(ts, t, depth, limit);
    forall us | Follows(us, ts, 0, Peek(ts))
      ensures ParseMembers(us, t, depth, limit) == ParseMembers(ts, t, depth, limit) {
      FollowsHere(us, ts, Peek(ts));
      MembersBefore(us, t, depth, limit);
    }
  }

  lemma ColonFault(ts: seq<Token>, t: map<Key, Lua>, depth: nat, limit: nat) returns (k: nat, ms: seq<Member>)
    requires depth <= limit && Peek(ts).Str? && Peek(Next(ts)) != Colon
    ensures k <= |ts| && ParseMembers(ts, t, depth, limit) == Fault(AColon, Peek(ts[k..]))
    ensures ViableMembers(ts, k, ms, depth, limit)
    ensures forall us | Follows(us, ts, k, Peek(ts[k..])) ::
      ParseMembers(us, t, depth, limit) == ParseMembers(ts, t, depth, limit)
  {
    hide ParseMembers, Next, Follows;
    var key := Peek(ts).s;
    k, ms := 1, [Member(key, JNull)];
    Split(ts);
    Peeked(ts, 0);
    assert Next(ts)[0..] == Next(ts);
    OneMember(key);
    assert ts[..1] == [Str(key)];
    MembersBefore(ts, t, depth, limit);
    forall us | Follows(us, ts, 1, Peek(Next(ts)))
      ensures ParseMembers(us, t, depth, limit) == ParseMembers(ts, t, depth, limit) {
      FollowsNext(us, ts, 1, Peek(Next(ts)));
      FollowsHere(Next(us), Next(ts), Peek(Next(ts)));
      MembersBefore(us, t, depth, limit);
    }
  }

  lemma OneMember(key: seq<byte>)
    ensures LinMembers([Member(key, JNull)]) == [Str(key), Colon, Null] && DepthMembers([Member(key, JNull)]) == 0
  {
  }

  lemma PeekedTwice(ts: seq<Token>, j: nat)
    requires |ts| >= 2 && j <= |ts| - 2
    ensures ts[j + 2..] == Next(Next(ts))[j..]
  {
  }

  lemma PeekedBehind(ts: seq<Token>, v: Json, rest: seq<Token>, j: nat)
    requires |ts| >= 2 && Next(Next(ts)) == Lin(v) + rest && j <= |rest|
    ensures |Lin(v)| + 2 + j <= |ts| && ts[|Lin(v)| + 2 + j..] == rest[j..]
  {
    hide Lin;
    assert ts[2..] == Lin(v) + rest;
    assert ts[|Lin(v)| + 2 + j..] == ts[2..][|Lin(v)| + j..];
  }

  lemma MemberViable(ts: seq<Token>, j: nat, key: seq<byte>, v: Json, depth: nat, limit: nat)
    requires Peek(ts) == Str(key) && Peek(Next(ts)) == Colon && Viable(Next(Next(ts)), j, v, depth, limit)
    ensures ViableMembers(ts, j + 2, [Member(key, v)], depth, limit)
  {
    hide Lin, Depth, LinMembers;
    var ms := [Member(key, v)];
    LinMembersUnfold(ms, [ObjEnd]);
    DepthOne(key, v);
    assert ts[..j + 2] == [Str(key)] + ([Colon] + Next(Next(ts))[..j]);
    PrefixGrows(key, Next(Next(ts))[..j], Lin(v), [ObjEnd]);
  }

  lemma DepthOne(key: seq<byte>, v: Json)
    ensures DepthMembers([Member(key, v)]) == Depth(v) && DepthItems([v]) == Depth(v)
  {
    hide Depth;
    assert [Member(key, v)][1..] == [] && [v][1..] == [];
  }

  lemma PrefixGrows(key: seq<byte>, a: seq<Token>, b: seq<Token>, c: seq<Token>)
    requires a <= b
    ensures a <= b + c && [Str(key)] + ([Colon] + a) <= [Str(key)] + ([Colon] + (b + c))
  {
  }

  lemma WholeViable(ts: seq<Token>, key: seq<byte>, v: Json, rest: seq<Token>, depth: nat, limit: nat)
    requires Peek(ts) == Str(key) && Peek(Next(ts)) == Colon && Next(Next(ts)) == Lin(v) + rest
    requires depth + Depth(v) <= limit
    ensures ViableMembers(ts, |Lin(v)| + 2, [Member(key, v)], depth, limit)
  {
    hide Lin, Depth, LinMembers;
    assert (Lin(v) + rest)[..|Lin(v)|] == Lin(v);
    MemberViable(ts, |Lin(v)|, key, v, depth, limit);
  }

  lemma MoreViable(ts: seq<Token>, key: seq<byte>, v: Json, rest: seq<Token>, j: nat, more: seq<Member>, depth: nat,
                   limit: nat)
    requires Peek(ts) == Str(key) && Peek(Next(ts)) == Colon && Next(Next(ts)) == Lin(v) + rest
    requires Peek(rest) == Comma && depth + Depth(v) <= limit && ViableMembers(Next(rest), j, more, depth, limit)
    ensures ViableMembers(ts, |Lin(v)| + 3 + j, [Member(key, v)] + more, depth, limit)
  {
    hide Lin, Depth, LinMembers;
    var ms := [Member(key, v)] + more;
    assert ms[1..] == more;
    LinMembersUnfold(ms, [ObjEnd]);
    DepthMore(key, v, more);
    var n := |Lin(v)|;
    assert ts == [Str(key), Colon] + (Lin(v) + ([Comma] + Next(rest)));
    assert ts[..n + 3 + j] == [Str(key)] + ([Colon] + (Lin(v) + ([Comma] + Next(rest)[..j])));
    PrefixInside(key, Lin(v), Next(rest)[..j], LinMembers(more) + [ObjEnd]);
  }

  lemma DepthMore(key: seq<byte>, v: Json, more: seq<Member>)
    ensures DepthMembers([Member(key, v)] + more) == Max(Depth(v), DepthMembers(more))
  {
    hide Depth;
    assert ([Member(key, v)] + more)[1..] == more;
  }

  lemma PrefixInside(key: seq<byte>, v: seq<Token>, a: seq<Token>, b: seq<Token>)
    requires a <= b
    ensures [Str(key)] + ([Colon] + (v + ([Comma] + a))) <= [Str(key)] + ([Colon] + (v + ([Comma] + b)))
  {
  }

  lemma {:induction false} ItemsFault(ts: seq<Token>, i: nat, t: map<Key, Lua>, depth: nat, limit: nat)
      returns (k: nat, xs: seq<Json>)
    requires depth <= limit && ParseItems(ts, i, t, depth, limit).Fault?
    ensures k <= |ts| && ParseItems(ts, i, t, depth, limit).found == Peek(ts[k..])
    ensures ViableItems(ts, k, xs, depth, limit)
    ensures forall us | Follows(us, ts, k, ParseItems(ts, i, t, depth, limit).found) ::
      ParseItems(us, i, t, depth, limit) == ParseItems(ts, i, t, depth, limit)
    decreases |ts|, 1
  {
    hide ParseValue, ParseItems, Lin, LinItems, Depth, DepthItems, LuaOf, Peek, Next, Follows, Viable, ViableItems;
    var r := ParseItems(ts, i, t, depth, limit);
    ItemsBefore(ts, i, t, depth, limit);
    if ParseValue(ts, depth, limit).Fault? {
      var j, v := ValueFault(ts, depth, limit);
      k, xs := j, [v];
      ItemViable(ts, j, v, depth, limit);
      forall us | Follows(us, ts, k, r.found) ensures ParseItems(us, i, t, depth, limit) == r {
        ItemsBefore(us, i, t, depth, limit);
      }
    } else {
      var v := ValueSound(ts, depth, limit);
      var rest := ParseValue(ts, depth, limit).rest;
      ItemsBehind(ts, i, t, depth, limit, v, rest);
      var u := t[Index(i) := LuaOf(v)];
      var n := |Lin(v)|;
      if Peek(rest) == Comma {
        Split(rest);
        var j, more := ItemsFault(Next(rest), i + 1, u, depth, limit);
        k, xs := n + 1 + j, [v] + more;
        assert ts[n + (j + 1)..] == rest[j + 1..];
        Peeked(rest, j);
        MoreItemsViable(ts, v, rest, j, more, depth, limit);
        forall us | Follows(us, ts, k, r.found) ensures ParseItems(us, i, t, depth, limit) == r {
          FollowsValue(us, ts, v, rest, j + 1, r.found);
          FollowsNext(us[n..], rest, j + 1, r.found);
          ItemsBehind(us, i, t, depth, limit, v, us[n..]);
        }
      } else {
        k, xs := n, [v];
        assert ts[n..] == rest && ts[..n] == Lin(v);
        WholeItemViable(ts, v, rest, depth, limit);
        forall us | Follows(us, ts, k, r.found) ensures ParseItems(us, i, t, depth, limit) == r {
          FollowsValue(us, ts, v, rest, 0, r.found);
          FollowsHere(us[n..], rest, r.found);
          ItemsBehind(us, i, t, depth, limit, v, us[n..]);
        }
      }
    }
  }

  lemma ItemsBefore(ts: seq<Token>, i: nat, t: map<Key, Lua>, depth: nat, limit: nat)
    ensures !ParseValue(ts, depth, limit).Parsed? ==> ParseItems(ts, i, t, depth, limit) == ParseValue(ts, depth, limit)
  {
    hide ParseValue, Peek, Next;
  }

  lemma ItemViable(ts: seq<Token>, j: nat, v: Json, depth: nat, limit: nat)
    requires Viable(ts, j, v, depth, limit)
    ensures ViableItems(ts, j, [v], depth, limit)
  {
    hide Lin, Depth;
    assert LinItems([v]) == Lin(v) + [] == Lin(v);
    DepthOne([], v);
    PrefixGrows([], ts[..j], Lin(v), [ArrEnd]);
  }

  lemma WholeItemViable(ts: seq<Token>, v: Json, rest: seq<Token>, depth: nat, limit: nat)
    requires ts == Lin(v) + rest && depth + Depth(v) <= limit
    ensures ViableItems(ts, |Lin(v)|, [v], depth, limit)
  {
    hide Lin, Depth, LinItems;
    assert ts[..|Lin(v)|] == Lin(v);
    ItemViable(ts, |Lin(v)|, v, depth, limit);
  }

  lemma MoreItemsViable(ts: seq<Token>, v: Json, rest: seq<Token>, j: nat, more: seq<Json>, depth: nat, limit: nat)
    requires ts == Lin(v) + rest && Peek(rest) == Comma && depth + Depth(v) <= limit
    requires ViableItems(Next(rest), j, more, depth, limit)
    ensures ViableItems(ts, |Lin(v)| + 1 + j, [v] + more, depth, limit)
  {
    hide Lin, Depth, LinItems;
    var xs := [v] + more;
    assert xs[1..] == more;
    LinItemsUnfold(xs, [ArrEnd]);
    var n := |Lin(v)|;
    assert ts == Lin(v) + ([Comma] + Next(rest));
    assert ts[..n + 1 + j] == Lin(v) + ([Comma] + Next(rest)[..j]);
    ItemPrefixInside(Lin(v), Next(rest)[..j], LinItems(more) + [ArrEnd]);
    assert DepthItems(xs) == Max(Depth(v), DepthItems(more));
  }

  lemma ItemPrefixInside(v: seq<Token>, a: seq<Token>, b: seq<Token>)
    requires a <= b
    ensures v + ([Comma] + a) <= v + ([Comma] + b)
  {
  }

  /** An error is reported at the first offending token: what was read before it begins some document
      that is not nested too deep, and no document at all goes on with the token that was found. */
  lemma FaultsAtFirstOffender(ts: seq<Token>, limit: nat) returns (k: nat, w: Json)
    requires Decode(ts, limit).Fault?
    ensures k <= |ts| && Decode(ts, limit).found == Peek(ts[k..])
    ensures ts[..k] <= Lin(w) + [End] && Depth(w) <= limit
    ensures forall v :: !(ts[..k] + [Decode(ts, limit).found] <= Lin(v) + [End])
  {
    hide ParseValue, Lin, Depth, LuaOf, Peek, Next, Follows;
    var r := Decode(ts, limit);
    if ParseValue(ts, 0, limit).Fault? {
      k, w := ValueFault(ts, 0, limit);
      assert ts[..k] <= Lin(w) + [End];
      forall v ensures !(ts[..k] + [r.found] <= Lin(v) + [End]) {
        ValueComplete(v, [End], 0, limit);
        FollowsMeans(Lin(v) + [End], ts, k, r.found);
      }
    } else {
      w := ValueSound(ts, 0, limit);
      var rest := ParseValue(ts, 0, limit).rest;
      k := |Lin(w)|;
      assert ts[k..] == rest && ts[..k] == Lin(w);
      forall v ensures !(ts[..k] + [r.found] <= Lin(v) + [End]) {
        NothingBehind(w, v, r.found);
      }
    }
  }

  lemma FollowsMeans(us: seq<Token>, ts: seq<Token>, k: nat, found: Token)
    requires k <= |ts|
    ensures Follows(us, ts, k, found) <==> ts[..k] + [found] <= us
  {
  }

  /** Only the end follows a whole value. */
  lemma NothingBehind(w: Json, v: Json, found: Token)
    requires found != End
    ensures !(Lin(w) + [found] <= Lin(v) + [End])
  {
    hide Lin, LuaOf, Depth;
    var us, n := Lin(v) + [End], |Lin(w)|;
    if Lin(w) <= us {
      assert us == Lin(w) + us[n..];
      LinIsUnique(w, v, us[n..], [End]);
      assert (Lin(w) + [found])[n] == found;
      assert us[n] == End;
    }
  }
}
