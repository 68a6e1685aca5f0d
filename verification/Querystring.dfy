/** Form coding of query strings. */
module Querystring {
  import opened Ascii
  import opened ByteSeq

  const CR: byte := 13
  const LF: byte := 10
  const SPACE: byte := 0x20
  const PLUS: byte := 0x2B
  const PERCENT: byte := 0x25
  const AMPERSAND: byte := 0x26
  const EQUALS: byte := 0x3D

  // ---------------------------------------------------------------- the passes

  predicate Alphanumeric(c: byte) { Digit(c) || 0x41 <= c <= 0x5A || 0x61 <= c <= 0x7A }

  function Replace(s: seq<byte>, from: byte, to: byte): (r: seq<byte>)
    ensures |r| == |s| && forall i | 0 <= i < |s| :: r[i] == if s[i] == from then to else s[i]
  {
    if s == [] then [] else [if s[0] == from then to else s[0]] + Replace(s[1..], from, to)
  }

  /** gsub(str, '\n', '\r\n') */
  function Expand(s: seq<byte>): seq<byte> {
    if s == [] then [] else (if s[0] == LF then [CR, LF] else [s[0]]) + Expand(s[1..])
  }

  /** gsub(str, '\r\n', '\n') */
  function Collapse(s: seq<byte>): seq<byte> {
    if s == [] then []
    else if s[0] == CR && |s| > 1 && s[1] == LF then [LF] + Collapse(s[2..])
    else [s[0]] + Collapse(s[1..])
  }

  function Percent(c: byte): seq<byte> {
    if Alphanumeric(c) || c == SPACE then [c] else [PERCENT, UpperHex(c as nat / 16), UpperHex(c as nat % 16)]
  }

  /** gsub(str, '([^%w ])', '%%%02X') */
  function PercentEncode(s: seq<byte>): seq<byte> {
    if s == [] then [] else Percent(s[0]) + PercentEncode(s[1..])
  }

  /** gsub(str, '%%(%x%x)', char); anything else stays. */
  function PercentDecode(s: seq<byte>): seq<byte> {
    if s == [] then []
    else if s[0] == PERCENT && |s| > 2 && HexValue(s[1]).Some? && HexValue(s[2]).Some? then
      [(16 * HexValue(s[1]).value + HexValue(s[2]).value) as byte] + PercentDecode(s[3..])
    else [s[0]] + PercentDecode(s[1..])
  }

  function UrlDecode(s: seq<byte>): seq<byte> { Collapse(PercentDecode(Replace(s, PLUS, SPACE))) }

  function UrlEncode(s: seq<byte>): seq<byte> { Replace(PercentEncode(Expand(s)), SPACE, PLUS) }

  // ---------------------------------------------------------------- the round trip

  lemma {:induction false} CollapseExpands(s: seq<byte>)
    ensures Collapse(Expand(s)) == s
  {
    if s != [] {
      CollapseExpands(s[1..]);
      if s[0] == LF {
        assert Expand(s)[2..] == Expand(s[1..]);
      } else {
        assert Expand(s)[1..] == Expand(s[1..]);
        ExpandStarts(s[1..]);
      }
    }
  }

  /** A line feed is never the first byte that expanding leaves. */
  lemma ExpandStarts(s: seq<byte>)
    ensures Expand(s) == [] || Expand(s)[0] != LF
  {
  }

  lemma HexReads(d: nat)
    requires d < 16
    ensures HexValue(UpperHex(d)) == Some(d) && Alphanumeric(UpperHex(d))
  {
  }

  lemma {:induction false} PercentInverts(s: seq<byte>)
    ensures PercentDecode(PercentEncode(s)) == s
  {
    if s != [] {
      hide HexValue, UpperHex, Alphanumeric;
      var rest := PercentEncode(s[1..]);
      PercentInverts(s[1..]);
      PercentOne(s[0], rest);
    }
  }

  lemma PercentOne(c: byte, rest: seq<byte>)
    ensures PercentDecode(Percent(c) + rest) == [c] + PercentDecode(rest)
  {
    hide HexValue, UpperHex;
    HexReads(c as nat / 16);
    HexReads(c as nat % 16);
    var s := Percent(c) + rest;
    if |Percent(c)| == 1 {
      assert s[1..] == rest;
    } else {
      assert s[3..] == rest && s[1] == UpperHex(c as nat / 16) && s[2] == UpperHex(c as nat % 16);
    }
  }

  lemma {:induction false} EncodedBytes(s: seq<byte>)
    ensures forall c | c in PercentEncode(s) :: Alphanumeric(c) || c in {SPACE, PERCENT}
  {
    if s != [] {
      hide UpperHex, Alphanumeric;
      EncodedBytes(s[1..]);
      HexReads(s[0] as nat / 16);
      HexReads(s[0] as nat % 16);
    }
  }

  /** The alphabet of an encoded string: in particular no separator is left in it. */
  lemma UrlEncodedBytes(s: seq<byte>)
    ensures forall c | c in UrlEncode(s) :: Alphanumeric(c) || c in {PLUS, PERCENT}
  {
    EncodedBytes(Expand(s));
    var e := PercentEncode(Expand(s));
    forall c | c in UrlEncode(s) ensures Alphanumeric(c) || c in {PLUS, PERCENT} {
      var i :| 0 <= i < |e| && UrlEncode(s)[i] == c;
      assert e[i] in e;
    }
  }

  /** Decoding undoes encoding on every byte string: a plus sign is still escaped when pluses become
      spaces, and a carriage return before a line feed survives the line feed's own. */
  lemma RoundTrip(s: seq<byte>)
    ensures UrlDecode(UrlEncode(s)) == s
  {
    var e := PercentEncode(Expand(s));
    EncodedBytes(Expand(s));
    var back := Replace(UrlEncode(s), PLUS, SPACE);
    forall i | 0 <= i < |e| ensures back[i] == e[i] {
      assert e[i] in e;
    }
    assert back == e;
    PercentInverts(Expand(s));
    CollapseExpands(s);
  }

  /** No two byte strings have the same encoding. */
  lemma Injective(s: seq<byte>, t: seq<byte>)
    ensures UrlEncode(s) == UrlEncode(t) <==> s == t
  {
    RoundTrip(s);
    RoundTrip(t);
  }

  // ---------------------------------------------------------------- parsing

  type Vars = map<seq<byte>, seq<byte>>

  /** The first position from i on that holds c, or the end. */
  function Find(s: seq<byte>, i: nat, c: byte): (j: nat)
    requires i <= |s|
    ensures i <= j <= |s| && (forall k | i <= k < j :: s[k] != c) && (j < |s| ==> s[j] == c)
    decreases |s| - i
  {
    if i == |s| || s[i] == c then i else Find(s, i + 1, c)
  }

  /** What one pair does to the table. */
  function Assign(vars: Vars, pair: seq<byte>): Vars {
    var e := Find(pair, 0, EQUALS);
    if e == |pair| then vars[UrlDecode(pair) := []]
    else vars[UrlDecode(pair[..e]) := UrlDecode(pair[e + 1..])]
  }

  /** The runs between separators, from i on, put into the table one after the other. */
  function Pairs(s: seq<byte>, i: nat, vars: Vars): Vars
    requires i <= |s|
    decreases |s| - i
  {
    if i == |s| then vars
    else if s[i] == AMPERSAND then Pairs(s, i + 1, vars)
    else
      var j := Find(s, i, AMPERSAND);
      Pairs(s, j, Assign(vars, s[i..j]))
  }

  lemma PairsUnfold(s: seq<byte>, i: nat, vars: Vars)
    requires i <= |s|
    ensures i == |s| ==> Pairs(s, i, vars) == vars
    ensures i < |s| && s[i] == AMPERSAND ==> Pairs(s, i, vars) == Pairs(s, i + 1, vars)
    ensures i < |s| && s[i] != AMPERSAND ==>
      var j := Find(s, i, AMPERSAND);
      i < j && Pairs(s, i, vars) == Pairs(s, j, Assign(vars, s[i..j]))
  {
    hide Assign;
  }

  method Parse(s: seq<byte>) returns (vars: Vars)
    ensures vars == Pairs(s, 0, map[])
  {
    hide Pairs, Assign;
    vars := map[];
    var i := 0;
    while i < |s|
      invariant i <= |s| && Pairs(s, i, vars) == Pairs(s, 0, map[])
      decreases |s| - i
    {
      PairsUnfold(s, i, vars);
      if s[i] == AMPERSAND {
        i := i + 1;
      } else {
        var j := i;
        while j < |s| && s[j] != AMPERSAND
          invariant i <= j <= |s| && Find(s, j, AMPERSAND) == Find(s, i, AMPERSAND)
        {
          j := j + 1;
        }
        vars := Assign(vars, s[i..j]);
        i := j;
      }
    }
    PairsUnfold(s, i, vars);
  }

  datatype Pair = Pair(key: seq<byte>, value: seq<byte>)

  function Joined(ps: seq<Pair>): seq<byte> {
    if ps == [] then []
    else Coded(ps[0]) + (if |ps| == 1 then [] else [AMPERSAND] + Joined(ps[1..]))
  }

  function Coded(p: Pair): seq<byte> { UrlEncode(p.key) + [EQUALS] + UrlEncode(p.value) }

  function LastWins(ps: seq<Pair>, vars: Vars): Vars
    decreases |ps|
  {
    if ps == [] then vars else LastWins(ps[1..], vars[ps[0].key := ps[0].value])
  }

  lemma AssignCoded(vars: Vars, p: Pair)
    ensures Assign(vars, Coded(p)) == vars[p.key := p.value]
  {
    hide UrlEncode, UrlDecode, Alphanumeric;
    var k, v := UrlEncode(p.key), UrlEncode(p.value);
    NoSeparator(p.key);
    FindBehind(Coded(p), 0, |k|, EQUALS);
    assert Coded(p)[..|k|] == k && Coded(p)[|k| + 1..] == v;
    RoundTrip(p.key);
    RoundTrip(p.value);
  }

  lemma NoSeparator(s: seq<byte>)
    ensures AMPERSAND !in UrlEncode(s) && EQUALS !in UrlEncode(s)
  {
    hide UrlEncode;
    UrlEncodedBytes(s);
  }

  lemma {:induction false} FindBehind(s: seq<byte>, i: nat, j: nat, c: byte)
    requires i <= j <= |s| && (forall k | i <= k < j :: s[k] != c) && (j < |s| ==> s[j] == c)
    ensures Find(s, i, c) == j
    decreases j - i
  {
    if i < j {
      FindBehind(s, i + 1, j, c);
    }
  }

  lemma CodedShape(p: Pair)
    ensures Coded(p) != [] && AMPERSAND !in Coded(p)
  {
    hide UrlEncode;
    NoSeparator(p.key);
    NoSeparator(p.value);
  }

  lemma {:induction false} PairsJoined(s: seq<byte>, i: nat, ps: seq<Pair>, vars: Vars)
    requires i <= |s| && s[i..] == Joined(ps)
    ensures Pairs(s, i, vars) == LastWins(ps, vars)
    decreases |ps|
  {
    hide Pairs, Assign, Coded;
    PairsUnfold(s, i, vars);
    if ps != [] {
      CodedShape(ps[0]);
      var j := i + |Coded(ps[0])|;
      assert forall k | 0 <= k < |Joined(ps)| :: s[i + k] == Joined(ps)[k];
      assert forall k | i <= k < j :: s[k] == Coded(ps[0])[k - i];
      FindBehind(s, i, j, AMPERSAND);
      assert s[i..j] == Coded(ps[0]);
      AssignCoded(vars, ps[0]);
      var next := vars[ps[0].key := ps[0].value];
      PairsUnfold(s, j, next);
      if |ps| > 1 {
        assert s[j + 1..] == Joined(ps[1..]);
        PairsJoined(s, j + 1, ps[1..], next);
      } else {
        assert ps[1..] == [];
      }
    }
  }

  /** Parsing the encoded pairs gives back the pairs, the last one of a key winning. */
  lemma ParsesJoined(ps: seq<Pair>)
    ensures Pairs(Joined(ps), 0, map[]) == LastWins(ps, map[])
  {
    hide Pairs, Joined;
    assert Joined(ps)[0..] == Joined(ps);
    PairsJoined(Joined(ps), 0, ps, map[]);
  }

  lemma {:induction false} LastWinsMeans(ps: seq<Pair>, vars: Vars, k: seq<byte>)
    ensures k in LastWins(ps, vars) <==> k in vars || exists i :: 0 <= i < |ps| && ps[i].key == k
    ensures forall i | 0 <= i < |ps| && ps[i].key == k && (forall j | i < j < |ps| :: ps[j].key != k) ::
      LastWins(ps, vars)[k] == ps[i].value
    ensures (forall i | 0 <= i < |ps| :: ps[i].key != k) && k in vars ==> LastWins(ps, vars)[k] == vars[k]
    decreases |ps|
  {
    if ps != [] {
      LastWinsMeans(ps[1..], vars[ps[0].key := ps[0].value], k);
      assert forall i | 1 <= i < |ps| :: ps[i] == ps[1..][i - 1];
      assert forall i | 0 <= i < |ps[1..]| :: ps[1..][i] == ps[i + 1];
    }
  }

  // ---------------------------------------------------------------- any text

  /** A character of an encoded text: one that stands for itself, the plus sign of a space, or an escape with
      hexadecimal digits of either case. */
  datatype Sign = Itself(c: byte) | Space | Escape(high: byte, low: byte)

  predicate Fine(x: Sign) {
    match x
    case Itself(c) => c != PLUS && c != PERCENT
    case Space => true
    case Escape(high, low) => HexValue(high).Some? && HexValue(low).Some?
  }

  function Sent(x: Sign): seq<byte> {
    match x case Itself(c) => [c] case Space => [PLUS] case Escape(high, low) => [PERCENT, high, low]
  }

  function Meant(x: Sign): byte
    requires Fine(x)
  {
    match x
    case Itself(c) => c
    case Space => SPACE
    case Escape(high, low) => (16 * HexValue(high).value + HexValue(low).value) as byte
  }

  predicate AllFine(xs: seq<Sign>) { forall i | 0 <= i < |xs| :: Fine(xs[i]) }

  function SentAll(xs: seq<Sign>): seq<byte> { if xs == [] then [] else Sent(xs[0]) + SentAll(xs[1..]) }

  function MeantAll(xs: seq<Sign>): (s: seq<byte>)
    requires AllFine(xs)
    ensures |s| == |xs|
  {
    if xs == [] then [] else [Meant(xs[0])] + MeantAll(xs[1..])
  }

  /** However a text is spelled, it is decoded to what it means, with its line ends made line feeds. */
  lemma AnySpellingDecodes(xs: seq<Sign>)
    requires AllFine(xs)
    ensures UrlDecode(SentAll(xs)) == Collapse(MeantAll(xs))
  {
    SpellingDecodes(xs);
  }

  lemma {:induction false} SpellingDecodes(xs: seq<Sign>)
    requires AllFine(xs)
    ensures PercentDecode(Replace(SentAll(xs), PLUS, SPACE)) == MeantAll(xs)
  {
    hide HexValue, Sent, Meant, Replace, PercentDecode, Fine;
    if xs == [] {
      NothingDecodes();
    } else {
      SpellingDecodes(xs[1..]);
      ReplaceParts(Sent(xs[0]), SentAll(xs[1..]), PLUS, SPACE);
      SignDecodes(xs[0], Replace(SentAll(xs[1..]), PLUS, SPACE));
    }
  }

  lemma NothingDecodes()
    ensures PercentDecode(Replace([], PLUS, SPACE)) == []
  {
  }

  lemma ReplaceParts(a: seq<byte>, b: seq<byte>, from: byte, to: byte)
    ensures Replace(a + b, from, to) == Replace(a, from, to) + Replace(b, from, to)
  {
    hide Replace;
  }

  lemma SignDecodes(x: Sign, rest: seq<byte>)
    requires Fine(x)
    ensures PercentDecode(Replace(Sent(x), PLUS, SPACE) + rest) == [Meant(x)] + PercentDecode(rest)
  {
    var s := Replace(Sent(x), PLUS, SPACE) + rest;
    if x.Escape? {
      assert Replace(Sent(x), PLUS, SPACE) == [PERCENT, x.high, x.low] by { SignsStay(x); }
      assert s[3..] == rest;
    } else {
      assert s[1..] == rest;
    }
  }

  lemma SignsStay(x: Sign)
    requires Fine(x) && x.Escape?
    ensures x.high != PLUS && x.low != PLUS
  {
  }

  /** How a byte is encoded: a space as a plus sign, a line feed as an escaped line end, a letter or a digit as
      itself, and any other as an escape with upper-case digits. */
  function Code(c: byte): seq<byte> {
    if c == SPACE then [PLUS]
    else if c == LF then [PERCENT, 0x30, 0x44, PERCENT, 0x30, 0x41]
    else if '0' <= (c as char) <= '9' || 'A' <= (c as char) <= 'Z' || 'a' <= (c as char) <= 'z' then [c]
    else [PERCENT, UPPER_DIGITS[c / 16] as int as byte, UPPER_DIGITS[c % 16] as int as byte]
  }

  const UPPER_DIGITS := "0123456789ABCDEF"

  function CodeAll(s: seq<byte>): seq<byte> { if s == [] then [] else Code(s[0]) + CodeAll(s[1..]) }

  lemma UpperDigit(d: nat)
    requires d < 16
    ensures UpperHex(d) == UPPER_DIGITS[d] as int as byte
  {
  }

  lemma LineEndEncodes()
    ensures PercentEncode([CR, LF]) == [PERCENT, 0x30, 0x44, PERCENT, 0x30, 0x41]
  {
    OneEncodes(LF);
    assert [CR, LF][1..] == [LF];
    assert Percent(CR) == [PERCENT, 0x30, 0x44] && Percent(LF) == [PERCENT, 0x30, 0x41];
  }

  lemma ByteEncodes(c: byte)
    ensures Replace(PercentEncode(Expand([c])), SPACE, PLUS) == Code(c)
  {
    hide PercentEncode, Replace, Code, Percent;
    assert [c][1..] == [];
    assert Expand([c]) == if c == LF then [CR, LF] else [c];
    LineEndEncodes();
    OneEncodes(c);
    CodeIs(c);
  }

  lemma CodeIs(c: byte)
    ensures c == LF ==> Replace([PERCENT, 0x30, 0x44, PERCENT, 0x30, 0x41], SPACE, PLUS) == Code(c)
    ensures c != LF ==> Replace(Percent(c), SPACE, PLUS) == Code(c)
  {
    hide UpperHex, HexValue;
    UpperDigit(c as nat / 16);
    UpperDigit(c as nat % 16);
    HexReads(c as nat / 16);
    HexReads(c as nat % 16);
  }

  lemma OneEncodes(c: byte)
    ensures PercentEncode([c]) == Percent(c)
  {
    assert [c][1..] == [];
  }

  lemma NothingEncodes()
    ensures UrlEncode([]) == []
  {
  }

  lemma {:induction false} PercentParts(a: seq<byte>, b: seq<byte>)
    ensures PercentEncode(a + b) == PercentEncode(a) + PercentEncode(b)
  {
    hide Percent;
    if a == [] {
      assert a + b == b;
    } else {
      assert (a + b)[1..] == a[1..] + b;
      PercentParts(a[1..], b);
    }
  }

  /** An encoded string is the codes of its bytes, one after the other. */
  lemma {:induction false} EncodesBytes(s: seq<byte>)
    ensures UrlEncode(s) == CodeAll(s)
  {
    hide Percent, PercentEncode, Replace, Code;
    if s == [] {
      NothingEncodes();
    } else {
      EncodesBytes(s[1..]);
      assert Expand(s) == Expand([s[0]]) + Expand(s[1..]);
      PercentParts(Expand([s[0]]), Expand(s[1..]));
      ReplaceParts(PercentEncode(Expand([s[0]])), PercentEncode(Expand(s[1..])), SPACE, PLUS);
      ByteEncodes(s[0]);
    }
  }

  // ---------------------------------------------------------------- parsing any text

  /** A pair as it stands in a text, behind separators: a key, and what follows its first equals sign. */
  datatype Run = Run(separators: nat, key: seq<byte>, value: Option<seq<byte>>)

  function RunBytes(r: Run): seq<byte> {
    r.key + match r.value case None => [] case Some(v) => [EQUALS] + v
  }

  predicate RunOk(r: Run) {
    AMPERSAND !in RunBytes(r) && EQUALS !in r.key && RunBytes(r) != []
  }

  function Ampersands(n: nat): (s: seq<byte>)
    ensures |s| == n
  {
    seq(n, _ => AMPERSAND)
  }

  /** At least one separator stands between two runs. */
  predicate RunsOk(rs: seq<Run>) {
    forall i | 0 <= i < |rs| :: RunOk(rs[i]) && (i > 0 ==> rs[i].separators > 0)
  }

  function RunsText(rs: seq<Run>, tail: nat): seq<byte> {
    if rs == [] then Ampersands(tail) else Ampersands(rs[0].separators) + (RunBytes(rs[0]) + RunsText(rs[1..], tail))
  }

  /** A key without an equals sign gets the empty string. */
  function Assigned(rs: seq<Run>, vars: Vars): Vars
    decreases |rs|
  {
    if rs == [] then vars
    else Assigned(rs[1..], vars[UrlDecode(rs[0].key) := if rs[0].value.None? then [] else UrlDecode(rs[0].value.value)])
  }

  lemma AssignRun(vars: Vars, r: Run)
    requires RunOk(r)
    ensures Assign(vars, RunBytes(r))
         == vars[UrlDecode(r.key) := if r.value.None? then [] else UrlDecode(r.value.value)]
  {
    hide UrlDecode;
    var s := RunBytes(r);
    FindBehind(s, 0, |r.key|, EQUALS);
    if r.value.None? {
      assert s == r.key;
    } else {
      assert s[..|r.key|] == r.key && s[|r.key| + 1..] == r.value.value;
    }
  }

  lemma {:induction false} PastSeparators(s: seq<byte>, i: nat, n: nat, vars: Vars)
    requires At(s, i, Ampersands(n))
    ensures i + n <= |s| && Pairs(s, i, vars) == Pairs(s, i + n, vars)
    decreases n
  {
    hide Pairs;
    if n > 0 {
      assert Ampersands(n) == [AMPERSAND] + Ampersands(n - 1);
      AtParts(s, i, [AMPERSAND], Ampersands(n - 1));
      AtOne(s, i, AMPERSAND);
      PairsUnfold(s, i, vars);
      PastSeparators(s, i + 1, n - 1, vars);
    }
  }

  lemma PastRun(s: seq<byte>, i: nat, r: Run, vars: Vars)
    requires RunOk(r) && At(s, i, RunBytes(r))
    requires i + |RunBytes(r)| == |s| || s[i + |RunBytes(r)|] == AMPERSAND
    ensures Pairs(s, i, vars) == Pairs(s, i + |RunBytes(r)|,
        vars[UrlDecode(r.key) := if r.value.None? then [] else UrlDecode(r.value.value)])
  {
    hide Pairs, UrlDecode, Assign;
    var b := RunBytes(r);
    assert forall k | i <= k < i + |b| :: s[k] == s[i..i + |b|][k - i] == b[k - i];
    FindBehind(s, i, i + |b|, AMPERSAND);
    PairsUnfold(s, i, vars);
    AssignRun(vars, r);
  }

  /** The runs of a text are assigned in order, each decoded. */
  lemma {:induction false} RunsAreAssigned(s: seq<byte>, i: nat, rs: seq<Run>, tail: nat, vars: Vars)
    requires RunsOk(rs) && At(s, i, RunsText(rs, tail)) && i + |RunsText(rs, tail)| == |s|
    ensures Pairs(s, i, vars) == Assigned(rs, vars)
    decreases |rs|
  {
    hide Pairs, UrlDecode, RunBytes, RunOk, RunsText, At, Ampersands, RunsOk;
    NoRuns(tail);
    if rs == [] {
      PastSeparators(s, i, tail, vars);
      PairsUnfold(s, i + tail, vars);
    } else {
      var r, more := rs[0], rs[1..];
      assert rs == [r] + more;
      RunsRest(r, more);
      ConsRun(r, more, tail);
      var rest := RunsText(more, tail);
      AtParts(s, i, Ampersands(r.separators), RunBytes(r) + rest);
      AtParts(s, i + r.separators, RunBytes(r), rest);
      PastSeparators(s, i, r.separators, vars);
      var j := i + r.separators + |RunBytes(r)|;
      RunsFollow(more, tail);
      if rest != [] {
        AtFirst(s, j, rest);
      }
      PastRun(s, i + r.separators, r, vars);
      RunsAreAssigned(s, j, more, tail,
        vars[UrlDecode(r.key) := if r.value.None? then [] else UrlDecode(r.value.value)]);
    }
  }

  lemma RunsFollow(rs: seq<Run>, tail: nat)
    requires rs != [] ==> rs[0].separators > 0
    ensures RunsText(rs, tail) != [] ==> RunsText(rs, tail)[0] == AMPERSAND
  {
    hide RunBytes;
  }

  function RunOf(b: seq<byte>): Run {
    var e := Find(b, 0, EQUALS);
    Run(0, b[..e], if e == |b| then None else Some(b[e + 1..]))
  }

  /** Every text is runs between separators. */
  lemma {:induction false} HasRuns(s: seq<byte>) returns (rs: seq<Run>, tail: nat)
    ensures RunsOk(rs) && s == RunsText(rs, tail) && (s == [] ==> rs == [])
    ensures rs != [] && s[0] == AMPERSAND ==> rs[0].separators > 0
    decreases |s|
  {
    hide RunBytes, RunOk, RunsText, Ampersands, RunsOk;
    rs, tail := [], 0;
    NoRuns(0);
    if s != [] && s[0] == AMPERSAND {
      rs, tail := HasRuns(s[1..]);
      if rs == [] {
        NoRuns(tail);
        NoRuns(tail + 1);
        tail := tail + 1;
      } else {
        var first := rs[0].(separators := rs[0].separators + 1);
        assert rs == [rs[0]] + rs[1..];
        MoreSeparators(rs[0], rs[1..], tail);
        rs := [first] + rs[1..];
      }
    } else if s != [] {
      var j := Find(s, 0, AMPERSAND);
      var r := RunOf(s[..j]);
      RunOfBytes(s[..j]);
      var more;
      more, tail := HasRuns(s[j..]);
      ConsRun(r, more, tail);
      rs := [r] + more;
      assert s == [] + (s[..j] + s[j..]);
    }
  }

  lemma NoRuns(n: nat)
    ensures RunsOk([]) && RunsText([], n) == Ampersands(n) && Ampersands(0) == []
    ensures Ampersands(n + 1) == [AMPERSAND] + Ampersands(n)
  {
  }

  lemma ConsRun(r: Run, rs: seq<Run>, tail: nat)
    requires RunOk(r) && RunsOk(rs) && (rs != [] ==> rs[0].separators > 0)
    ensures RunsOk([r] + rs)
    ensures RunsText([r] + rs, tail) == Ampersands(r.separators) + (RunBytes(r) + RunsText(rs, tail))
  {
    hide RunOk, RunBytes;
    assert ([r] + rs)[1..] == rs;
  }

  lemma RunOfBytes(b: seq<byte>)
    requires b != [] && AMPERSAND !in b
    ensures RunOk(RunOf(b)) && RunBytes(RunOf(b)) == b
  {
    var e := Find(b, 0, EQUALS);
    assert EQUALS !in b[..e];
    assert e < |b| ==> b == b[..e] + ([EQUALS] + b[e + 1..]);
  }

  lemma MoreSeparators(r: Run, rs: seq<Run>, tail: nat)
    requires RunsOk([r] + rs)
    ensures var more := [r.(separators := r.separators + 1)] + rs;
      RunsOk(more) && RunsText(more, tail) == [AMPERSAND] + RunsText([r] + rs, tail)
  {
    hide RunOk, RunBytes, RunsText, Ampersands;
    RunsRest(r, rs);
    SameBytes(r, r.separators + 1);
    ConsRun(r, rs, tail);
    ConsRun(r.(separators := r.separators + 1), rs, tail);
    NoRuns(r.separators);
  }

  lemma RunsRest(r: Run, rs: seq<Run>)
    requires RunsOk([r] + rs)
    ensures RunOk(r) && RunsOk(rs) && (rs != [] ==> rs[0].separators > 0)
  {
    hide RunOk;
    var all := [r] + rs;
    assert forall i | 0 <= i < |rs| :: rs[i] == all[i + 1];
    assert all[0] == r;
  }

  lemma SameBytes(r: Run, n: nat)
    ensures RunBytes(r.(separators := n)) == RunBytes(r) && RunOk(r.(separators := n)) == RunOk(r)
  {
  }

  /** What parsing makes of any text. */
  lemma ParsesAnyText(s: seq<byte>) returns (rs: seq<Run>, tail: nat)
    ensures RunsOk(rs) && s == RunsText(rs, tail) && Pairs(s, 0, map[]) == Assigned(rs, map[])
  {
    hide Pairs, Assigned, RunsText;
    rs, tail := HasRuns(s);
    assert s[0..0 + |s|] == s;
    RunsAreAssigned(s, 0, rs, tail, map[]);
  }
}
