/** The recursive cursor decoder: mprbuf_unpack_anytype, _array and _map. */
module MpackReader {
  import opened ByteSeq
  import opened MpackNumber
  import opened MpackWire

  /** The fields of the read buffer that decoding changes, and whether a Lua error has been raised,
      which ends the call at once. */
  datatype Cursor = Cursor(ofs: nat, err: bool, keying: bool, raised: bool)

  /** A decoded value, or a table's decoded elements, and the cursor behind it. */
  datatype One = One(v: Value, c: Cursor)
  datatype Many = Many(vs: seq<Value>, c: Cursor)

  /** An element count passes through an int; a negative one makes the loop run zero times. */
  function LoopCount(n: nat): nat { if n < MAX_COUNT then n else 0 }

  function StrValue(bytes: seq<byte>, sliced: bool, keying: bool): Value {
    if sliced && !keying && bytes == [] then Stray else Str(bytes)
  }

  /** What the type byte at `ofs`, and the size bytes behind it, announce; `ofs` here is where
      reading goes on. */
  datatype Head =
    | Leaf(v: Value, ofs: nat)
    | RawHead(n: nat, ofs: nat)
    | TableHead(isMap: bool, n: nat, ofs: nat)
    | Bad(ofs: nat)

  function ReadHead(data: seq<byte>, ofs: nat): (h: Head)
    requires ofs <= |data|
    ensures ofs <= h.ofs <= |data| && (h.Bad? || ofs < h.ofs)
  {
    if ofs == |data| then Bad(ofs) else
    var t := data[ofs];
    if IsSmall(t) then Leaf(SmallValue(t), ofs + 1)
    else if t <= 0x8f then TableHead(true, t - 0x80, ofs + 1)
    else if t <= 0x9f then TableHead(false, t - 0x90, ofs + 1)
    else if t <= 0xbf then RawHead(t - 0xa0, ofs + 1)
    else if 0xca <= t <= 0xd3 then
      var n := PayloadSize(t);
      if |data| - ofs - 1 < n then Bad(ofs + 1)
      else Leaf(Number(t, data[ofs + 1..ofs + 1 + n]), ofs + 1 + n)
    else if 0xda <= t <= 0xdf then
      var k := if t % 2 == 0 then 2 else 4;
      if |data| - ofs - 1 < k then Bad(ofs + 1) else
      var n := FromBigEndian(data[ofs + 1..ofs + 1 + k]);
      if t <= 0xdb then RawHead(n, ofs + 1 + k)
      else TableHead(t >= 0xde, LoopCount(n), ofs + 1 + k)
    else Bad(ofs + 1)
  }

  /** Decodes one value at the cursor. `sliced` says that the bytes belong to a memory block, so
      that strings outside map keys become buffers over it instead of copied strings. */
  function UnpackAny(data: seq<byte>, c: Cursor, sliced: bool): (r: One)
    requires c.ofs <= |data|
    ensures c.ofs <= r.c.ofs <= |data| && (c.err ==> r.c.err)
    decreases |data| - c.ofs, 0
  {
    match ReadHead(data, c.ofs)
    case Leaf(v, o) => One(v, c.(ofs := o))
    case RawHead(n, o) => UnpackRaw(data, c.(ofs := o), n, sliced)
    case TableHead(isMap, n, o) => UnpackTable(data, c.(ofs := o), isMap, n, sliced)
    case Bad(o) => One(Nil, c.(ofs := o, err := true))
  }

  function UnpackRaw(data: seq<byte>, c: Cursor, n: nat, sliced: bool): (r: One)
    requires c.ofs <= |data|
    ensures c.ofs <= r.c.ofs <= |data| && (c.err ==> r.c.err)
  {
    if |data| - c.ofs < n then One(Nil, c.(err := true))
    else One(StrValue(data[c.ofs..c.ofs + n], sliced, c.keying), c.(ofs := c.ofs + n))
  }

  function UnpackTable(data: seq<byte>, c: Cursor, isMap: bool, n: nat, sliced: bool): (r: One)
    requires c.ofs <= |data|
    ensures c.ofs <= r.c.ofs <= |data| && (c.err ==> r.c.err)
    decreases |data| - c.ofs, n + 2
  {
    var r := if isMap then UnpackPairs(data, c, n, sliced) else UnpackItems(data, c, n, sliced);
    One(TableOf(isMap, r.vs), r.c)
  }

  /** The next n elements of an array, up to the first that leaves the error flag set. */
  function UnpackItems(data: seq<byte>, c: Cursor, n: nat, sliced: bool): (r: Many)
    requires c.ofs <= |data|
    ensures c.ofs <= r.c.ofs <= |data| && (c.err ==> r.c.err)
    decreases |data| - c.ofs, n + 1
  {
    if n == 0 then Many([], c) else
    var x := UnpackAny(data, c, sliced);
    if x.c.raised || x.c.err then Many([], x.c) else
    var rest := UnpackItems(data, x.c, n - 1, sliced);
    Many([x.v] + rest.vs, rest.c)
  }

  /** The next n keys and values of a map, which never looks at the error flag. */
  function UnpackPairs(data: seq<byte>, c: Cursor, n: nat, sliced: bool): (r: Many)
    requires c.ofs <= |data|
    ensures c.ofs <= r.c.ofs <= |data| && (c.err ==> r.c.err)
    decreases |data| - c.ofs, n + 1
  {
    if n == 0 then Many([], c) else
    var p := UnpackPair(data, c, sliced);
    if p.c.raised then Many([], p.c) else
    var rest := UnpackPairs(data, p.c, n - 1, sliced);
    Many(p.vs + rest.vs, rest.c)
  }

  /** A key and its value. Storing under a nil or NaN key raises. */
  function UnpackPair(data: seq<byte>, c: Cursor, sliced: bool): (r: Many)
    requires c.ofs <= |data|
    ensures c.ofs <= r.c.ofs <= |data| && (c.err ==> r.c.err)
    decreases |data| - c.ofs, 1
  {
    var k := UnpackAny(data, c.(keying := true), sliced);
    if k.c.raised then Many([], k.c) else
    var x := UnpackAny(data, k.c.(keying := false), sliced);
    if x.c.raised then Many([], x.c) else
    if !x.c.err && BadKey(k.v) then Many([], x.c.(raised := true)) else Many([k.v, x.v], x.c)
  }

  lemma LoopsEnd(data: seq<byte>, c: Cursor, sliced: bool)
    requires c.ofs <= |data|
    ensures UnpackItems(data, c, 0, sliced) == Many([], c) && UnpackPairs(data, c, 0, sliced) == Many([], c)
  {
  }

  lemma ItemStep(data: seq<byte>, c: Cursor, n: nat, sliced: bool)
    requires c.ofs <= |data| && n > 0
    ensures var x := UnpackAny(data, c, sliced);
      UnpackItems(data, c, n, sliced) ==
        if x.c.raised || x.c.err then Many([], x.c)
        else Many([x.v] + UnpackItems(data, x.c, n - 1, sliced).vs, UnpackItems(data, x.c, n - 1, sliced).c)
  {
    hide UnpackAny;
  }

  lemma PairsStep(data: seq<byte>, c: Cursor, n: nat, sliced: bool)
    requires c.ofs <= |data| && n > 0
    ensures var p := UnpackPair(data, c, sliced);
      UnpackPairs(data, c, n, sliced) ==
        if p.c.raised then Many([], p.c)
        else Many(p.vs + UnpackPairs(data, p.c, n - 1, sliced).vs, UnpackPairs(data, p.c, n - 1, sliced).c)
  {
    hide UnpackPair;
  }

  lemma PairParts(data: seq<byte>, c: Cursor, sliced: bool, k: One)
    requires c.ofs <= |data| && k == UnpackAny(data, c.(keying := true), sliced)
    ensures k.c.raised ==> UnpackPair(data, c, sliced) == Many([], k.c)
    ensures !k.c.raised ==>
      var x := UnpackAny(data, k.c.(keying := false), sliced);
      UnpackPair(data, c, sliced) ==
        if x.c.raised then Many([], x.c)
        else if !x.c.err && BadKey(k.v) then Many([], x.c.(raised := true)) else Many([k.v, x.v], x.c)
  {
    hide UnpackAny, BadKey;
  }

  lemma TableLoop(data: seq<byte>, c: Cursor, isMap: bool, n: nat, sliced: bool)
    requires c.ofs <= |data|
    ensures var r := if isMap then UnpackPairs(data, c, n, sliced) else UnpackItems(data, c, n, sliced);
      UnpackTable(data, c, isMap, n, sliced) == One(TableOf(isMap, r.vs), r.c)
  {
    hide UnpackItems, UnpackPairs;
  }

  // ---------------------------------------------------------------- the decoder's loops

  class Reader {
    const data: seq<byte>
    const sliced: bool
    var ofs: nat
    var err: bool
    var keying: bool
    var raised: bool

    ghost predicate Valid() reads this { ofs <= |data| }

    ghost function At(): Cursor reads this { Cursor(ofs, err, keying, raised) }

    constructor (data: seq<byte>, sliced: bool)
      ensures Valid() && this.data == data && this.sliced == sliced
      ensures At() == START
    {
      this.data, this.sliced, ofs, err, keying, raised := data, sliced, 0, false, false, false;
    }

    method UnpackAnytype() returns (v: Value)
      requires Valid()
      modifies this
      ensures Valid() && One(v, At()) == UnpackAny(data, old(At()), sliced)
      decreases |data| - ofs, 0
    {
      hide UnpackTable, Number, SmallValue, FromBigEndian, PayloadSize, StrValue, LoopCount;
      if |data| - ofs < 1 {
        err := true;
        return Nil;
      }
      var t := data[ofs];
      ofs := ofs + 1;
      if IsSmall(t) {
        return SmallValue(t);
      } else if t <= 0x8f {
        v := UnpackMapLoop(t - 0x80);
        return;
      } else if t <= 0x9f {
        v := UnpackArrayLoop(t - 0x90);
        return;
      } else if t <= 0xbf {
        v := UnpackString(t - 0xa0);
        return;
      } else if 0xca <= t <= 0xd3 {
        var n := PayloadSize(t);
        if |data| - ofs >= n {
          v := Number(t, data[ofs..ofs + n]);
          ofs := ofs + n;
          return;
        }
      } else if 0xda <= t <= 0xdf {
        var k := if t % 2 == 0 then 2 else 4;
        if |data| - ofs >= k {
          var n := FromBigEndian(data[ofs..ofs + k]);
          ofs := ofs + k;
          if t <= 0xdb {
            v := UnpackString(n);
          } else if t <= 0xdd {
            v := UnpackArrayLoop(LoopCount(n));
          } else {
            v := UnpackMapLoop(LoopCount(n));
          }
          return;
        }
      }
      err := true;
      v := Nil;
    }

    method UnpackString(n: nat) returns (v: Value)
      requires Valid()
      modifies this
      ensures Valid() && One(v, At()) == UnpackRaw(data, old(At()), n, sliced)
    {
      if |data| - ofs < n {
        err := true;
        return Nil;
      }
      v := StrValue(data[ofs..ofs + n], sliced, keying);
      ofs := ofs + n;
    }

    method UnpackArrayLoop(n: nat) returns (v: Value)
      requires Valid()
      modifies this
      ensures Valid() && One(v, At()) == UnpackTable(data, old(At()), false, n, sliced)
      decreases |data| - ofs, n + 2
    {
      hide ReadHead, UnpackAny, UnpackItems, UnpackTable;
      TableLoop(data, At(), false, n, sliced);
      var items, i := [], 0;
      ghost var all := UnpackItems(data, At(), n, sliced);
      ghost var rest := all;
      while i < n
        invariant Valid() && i <= n && old(ofs) <= ofs
        invariant rest == UnpackItems(data, At(), n - i, sliced)
        invariant all.vs == items + rest.vs && all.c == rest.c
      {
        ItemStep(data, At(), n - i, sliced);
        var x := UnpackAnytype();
        if raised || err {
          rest := Many([], At());
          break;
        }
        rest := UnpackItems(data, At(), n - i - 1, sliced);
        items := items + [x];
        i := i + 1;
      }
      LoopsEnd(data, At(), sliced);
      assert all == Many(items, At());
      v := TableOf(false, items);
    }

    /** A raised error leaves the loop, and every call around it, at once. */
    method UnpackMapLoop(n: nat) returns (v: Value)
      requires Valid()
      modifies this
      ensures Valid() && One(v, At()) == UnpackTable(data, old(At()), true, n, sliced)
      decreases |data| - ofs, n + 2
    {
      hide ReadHead, UnpackAny, UnpackPair, UnpackPairs, UnpackTable, BadKey;
      TableLoop(data, At(), true, n, sliced);
      var entries, i := [], 0;
      ghost var all := UnpackPairs(data, At(), n, sliced);
      ghost var rest := all;
      while i < n
        invariant Valid() && i <= n && old(ofs) <= ofs
        invariant rest == UnpackPairs(data, At(), n - i, sliced)
        invariant all.vs == entries + rest.vs && all.c == rest.c
      {
        PairsStep(data, At(), n - i, sliced);
        var pair := UnpackEntry();
        if raised {
          rest := Many([], At());
          break;
        }
        rest := UnpackPairs(data, At(), n - i - 1, sliced);
        entries := entries + pair;
        i := i + 1;
      }
      LoopsEnd(data, At(), sliced);
      assert all == Many(entries, At());
      v := TableOf(true, entries);
    }

    /** One turn of the map loop. */
    method UnpackEntry() returns (pair: seq<Value>)
      requires Valid()
      modifies this
      ensures Valid() && Many(pair, At()) == UnpackPair(data, old(At()), sliced)
      decreases |data| - ofs, 1
    {
      hide ReadHead, UnpackAny, UnpackPair, BadKey;
      ghost var c := At();
      keying := true;
      var k := UnpackAnytype();
      PairParts(data, c, sliced, One(k, At()));
      if raised {
        return [];
      }
      keying := false;
      var x := UnpackAnytype();
      if raised {
        return [];
      }
      if !err && BadKey(k) {
        raised := true;
        return [];
      }
      pair := [k, x];
    }
  }

  // ---------------------------------------------------------------- what decoding means

  /** What decoding makes of a message, and whether it leaves the reader inside a map key. */
  datatype Sight = Sight(v: Value, keying: bool)
  datatype Sights = Sights(vs: seq<Value>, keying: bool)

  function Seen(w: Wire, sliced: bool, keying: bool): Sight
    requires WellFormed(w)
    decreases w
  {
    match w
    case Raw(_, bytes) => Sight(StrValue(bytes, sliced, keying), keying)
    case Container(isMap, _, items) =>
      var r := SeenAll(items, isMap, sliced, keying);
      Sight(TableOf(isMap, r.vs), r.keying)
    case _ => Sight(ValueOf(w), keying)
  }

  /** map_keying while an element is read that has n - 1 elements of its table behind it. */
  function KeyFlag(isMap: bool, n: nat, keying: bool): bool {
    if isMap then n % 2 == 0 else keying
  }

  function SeenAll(ws: seq<Wire>, isMap: bool, sliced: bool, keying: bool): (r: Sights)
    requires forall x :: x in ws ==> WellFormed(x)
    ensures |r.vs| == |ws|
    decreases ws
  {
    if ws == [] then Sights([], keying) else
    var x := Seen(ws[0], sliced, KeyFlag(isMap, |ws|, keying));
    var rest := SeenAll(ws[1..], isMap, sliced, x.keying);
    Sights([x.v] + rest.vs, rest.keying)
  }

  lemma HoldsParts(data: seq<byte>, ofs: nat, a: seq<byte>, b: seq<byte>)
    requires At(data, ofs, a + b)
    ensures At(data, ofs, a) && At(data, ofs + |a|, b)
    ensures a != [] ==> data[ofs] == a[0]
  {
    assert data[ofs..ofs + |a|] == data[ofs..ofs + |a + b|][..|a|] == a;
    assert data[ofs + |a|..ofs + |a| + |b|] == data[ofs..ofs + |a + b|][|a|..] == b;
    if a != [] { assert data[ofs] == (a + b)[0]; }
  }

  lemma RawHeaderReads(data: seq<byte>, ofs: nat, width: Width, n: nat)
    requires WellFormedRaw(width, n) && At(data, ofs, RawHeader(width, n))
    ensures ReadHead(data, ofs) == RawHead(n, ofs + |RawHeader(width, n)|)
  {
    hide BigEndian, FromBigEndian, Number, SmallValue;
    HoldsParts(data, ofs, [RawHeader(width, n)[0]], SizeBytes(width, n));
    if width != Fix { SizeInverts(n, if width == Wide16 then 2 else 4); }
  }

  lemma TableHeaderReads(data: seq<byte>, ofs: nat, isMap: bool, width: Width, n: nat)
    requires WellFormedCount(width, n) && At(data, ofs, ContainerHeader(isMap, width, n))
    ensures ReadHead(data, ofs) == TableHead(isMap, n, ofs + |ContainerHeader(isMap, width, n)|)
  {
    hide BigEndian, FromBigEndian, Number, SmallValue;
    HoldsParts(data, ofs, [ContainerHeader(isMap, width, n)[0]], SizeBytes(width, n));
    if width != Fix { SizeInverts(n, if width == Wide16 then 2 else 4); }
  }

  lemma LeafReads(data: seq<byte>, ofs: nat, w: Wire)
    requires w.Small? || w.Scalar?
    requires WellFormed(w) && At(data, ofs, Bytes(w))
    ensures ReadHead(data, ofs) == Leaf(ValueOf(w), ofs + |Bytes(w)|)
  {
    HoldsParts(data, ofs, [w.tag], if w.Small? then [] else w.payload);
  }

  lemma UnpackByHead(data: seq<byte>, c: Cursor, h: Head, sliced: bool)
    requires c.ofs <= |data| && h == ReadHead(data, c.ofs)
    ensures h.Leaf? ==> UnpackAny(data, c, sliced) == One(h.v, c.(ofs := h.ofs))
    ensures h.RawHead? ==> UnpackAny(data, c, sliced) == UnpackRaw(data, c.(ofs := h.ofs), h.n, sliced)
    ensures h.TableHead? ==> UnpackAny(data, c, sliced) == UnpackTable(data, c.(ofs := h.ofs), h.isMap, h.n, sliced)
  {
    hide ReadHead;
  }

  /** The cursor behind a message, where `keying` is how its reading leaves the key flag. */
  function Past(c: Cursor, n: nat, keying: bool): Cursor { Cursor(c.ofs + n, false, keying, false) }

  /** Wherever the bytes of a well-formed message lie, decoding reads exactly those bytes and gives
      what they mean if no map in the message has a nil or NaN key, and raises an error if one has. */
  lemma {:induction false} UnpackWire(data: seq<byte>, c: Cursor, w: Wire, sliced: bool)
    requires c.ofs <= |data| && WellFormed(w) && !c.err && !c.raised && At(data, c.ofs, Bytes(w))
    ensures Keyed(w) ==>
      var s := Seen(w, sliced, c.keying);
      UnpackAny(data, c, sliced) == One(s.v, Past(c, |Bytes(w)|, s.keying))
    ensures UnpackAny(data, c, sliced).c.raised <==> !Keyed(w)
    decreases w, 1
  {
    hide ReadHead, UnpackAny, UnpackTable, SeenAll, RawHeader, ContainerHeader, Number, SmallValue;
    match w
    case Raw(width, bytes) =>
      RawUnpacks(data, c, width, bytes, sliced);
    case Container(_, _, _) =>
      hide Bytes, Keyed, Seen, WellFormed;
      ContainerUnpacks(data, c, w, sliced);
    case _ =>
      LeafReads(data, c.ofs, w);
      UnpackByHead(data, c, Leaf(ValueOf(w), c.ofs + |Bytes(w)|), sliced);
  }

  lemma {:induction false} ContainerUnpacks(data: seq<byte>, c: Cursor, w: Wire, sliced: bool)
    requires w.Container?
    requires c.ofs <= |data| && WellFormed(w) && !c.err && !c.raised && At(data, c.ofs, Bytes(w))
    ensures Keyed(w) ==>
      var s := Seen(w, sliced, c.keying);
      UnpackAny(data, c, sliced) == One(s.v, Past(c, |Bytes(w)|, s.keying))
    ensures UnpackAny(data, c, sliced).c.raised <==> !Keyed(w)
    decreases w, 0
  {
    hide ReadHead, UnpackAny, UnpackTable, SeenAll, ContainerHeader, BytesAll, BadKey, ValueOf, WellFormedCount;
    var isMap, items, h := w.isMap, w.items, c.ofs + |Header(w)|;
    var n := Count(isMap, |items|);
    HoldsParts(data, c.ofs, Header(w), BytesAll(items));
    TableHeaderReads(data, c.ofs, isMap, w.width, n);
    UnpackByHead(data, c, TableHead(isMap, n, h), sliced);
    TableLoop(data, c.(ofs := h), isMap, n, sliced);
    if isMap {
      UnpackWirePairs(data, c.(ofs := h), items, sliced);
    } else {
      UnpackWireItems(data, c.(ofs := h), items, sliced);
    }
  }

  lemma RawUnpacks(data: seq<byte>, c: Cursor, width: Width, bytes: seq<byte>, sliced: bool)
    requires c.ofs <= |data| && WellFormedRaw(width, |bytes|) && !c.err
    requires At(data, c.ofs, Bytes(Raw(width, bytes)))
    ensures UnpackAny(data, c, sliced)
         == One(StrValue(bytes, sliced, c.keying), c.(ofs := c.ofs + |Bytes(Raw(width, bytes))|))
  {
    hide ReadHead, UnpackAny, UnpackRaw, RawHeader, Bytes, At, StrValue;
    var head := RawHeader(width, |bytes|);
    RawBytes(width, bytes);
    HoldsParts(data, c.ofs, head, bytes);
    RawHeaderReads(data, c.ofs, width, |bytes|);
    UnpackByHead(data, c, RawHead(|bytes|, c.ofs + |head|), sliced);
    RawReads(data, c.(ofs := c.ofs + |head|), bytes, sliced);
  }

  lemma RawBytes(width: Width, bytes: seq<byte>)
    ensures Bytes(Raw(width, bytes)) == RawHeader(width, |bytes|) + bytes
  {
  }

  lemma RawReads(data: seq<byte>, c: Cursor, bytes: seq<byte>, sliced: bool)
    requires c.ofs <= |data| && At(data, c.ofs, bytes)
    ensures UnpackRaw(data, c, |bytes|, sliced)
         == One(StrValue(bytes, sliced, c.keying), c.(ofs := c.ofs + |bytes|))
  {
  }

  lemma {:induction false} UnpackWireItems(data: seq<byte>, c: Cursor, ws: seq<Wire>, sliced: bool)
    requires c.ofs <= |data| && !c.err && !c.raised && At(data, c.ofs, BytesAll(ws))
    requires forall x :: x in ws ==> WellFormed(x)
    ensures var r := UnpackItems(data, c, |ws|, sliced); var s := SeenAll(ws, false, sliced, c.keying);
      (forall x :: x in ws ==> Keyed(x)) ==> r == Many(s.vs, Past(c, |BytesAll(ws)|, s.keying))
    ensures UnpackItems(data, c, |ws|, sliced).c.raised <==> exists x :: x in ws && !Keyed(x)
    decreases ws
  {
    hide ReadHead, UnpackAny, UnpackItems, Seen, Keyed, WellFormed, Bytes;
    if ws == [] {
      LoopsEnd(data, c, sliced);
    } else {
      assert forall x :: x in ws <==> x == ws[0] || x in ws[1..];
      HoldsParts(data, c.ofs, Bytes(ws[0]), BytesAll(ws[1..]));
      ItemStep(data, c, |ws|, sliced);
      UnpackWire(data, c, ws[0], sliced);
      if Keyed(ws[0]) {
        UnpackWireItems(data, UnpackAny(data, c, sliced).c, ws[1..], sliced);
      }
    }
  }

  /** A key and its value that can be stored. */
  ghost predicate Storable(k: Wire, x: Wire)
    requires WellFormed(k) && WellFormed(x)
  {
    Keyed(k) && Keyed(x) && !BadKey(ValueOf(k))
  }

  /** Some key of a list of keys and values cannot be one, or part of it raises by itself. */
  ghost predicate Raises(ws: seq<Wire>)
    requires forall x :: x in ws ==> WellFormed(x)
  {
    (exists x :: x in ws && !Keyed(x)) || exists i :: 0 <= i < |ws| && i % 2 == 0 && BadKey(ValueOf(ws[i]))
  }

  lemma RaisesSplit(ws: seq<Wire>)
    requires |ws| >= 2 && forall x :: x in ws ==> WellFormed(x)
    ensures Raises(ws) <==> !Storable(ws[0], ws[1]) || Raises(ws[2..])
  {
    hide WellFormed, Keyed, ValueOf, BadKey;
    var rest := ws[2..];
    assert forall x :: x in ws <==> x == ws[0] || x == ws[1] || x in rest;
    if i :| 0 <= i < |rest| && i % 2 == 0 && BadKey(ValueOf(rest[i])) {
      assert rest[i] == ws[i + 2] && (i + 2) % 2 == 0;
    }
    if i :| 0 <= i < |ws| && i % 2 == 0 && BadKey(ValueOf(ws[i])) {
      assert i == 0 || (rest[i - 2] == ws[i] && (i - 2) % 2 == 0);
    }
  }

  lemma NothingRaises(sliced: bool, keying: bool)
    ensures !Raises([]) && BytesAll([]) == [] && SeenAll([], true, sliced, keying) == Sights([], keying)
  {
  }

  lemma {:induction false} UnpackWirePair(data: seq<byte>, c: Cursor, ws: seq<Wire>, sliced: bool)
    requires |ws| >= 2 && WellFormed(ws[0]) && WellFormed(ws[1]) && c.ofs <= |data| && !c.err && !c.raised
    requires At(data, c.ofs, Bytes(ws[0])) && At(data, c.ofs + |Bytes(ws[0])|, Bytes(ws[1]))
    ensures Storable(ws[0], ws[1]) ==>
      var k := Seen(ws[0], sliced, true); var x := Seen(ws[1], sliced, false);
      UnpackPair(data, c, sliced) == Many([k.v, x.v], Past(c, |Bytes(ws[0])| + |Bytes(ws[1])|, x.keying))
    ensures UnpackPair(data, c, sliced).c.raised <==> !Storable(ws[0], ws[1])
    decreases ws, 0
  {
    hide ReadHead, UnpackAny, UnpackPair, Seen, Keyed, WellFormed, Bytes, BadKey, ValueOf;
    var c0 := c.(keying := true);
    var r := UnpackAny(data, c0, sliced);
    PairParts(data, c, sliced, r);
    UnpackWire(data, c0, ws[0], sliced);
    if Keyed(ws[0]) {
      KeySeen(ws[0], sliced, true);
      UnpackWire(data, r.c.(keying := false), ws[1], sliced);
    }
  }

  lemma {:induction false} UnpackWirePairs(data: seq<byte>, c: Cursor, ws: seq<Wire>, sliced: bool)
    requires c.ofs <= |data| && !c.err && !c.raised && At(data, c.ofs, BytesAll(ws)) && |ws| % 2 == 0
    requires forall x :: x in ws ==> WellFormed(x)
    ensures var r := UnpackPairs(data, c, |ws| / 2, sliced); var s := SeenAll(ws, true, sliced, c.keying);
      !Raises(ws) ==> r == Many(s.vs, Past(c, |BytesAll(ws)|, s.keying))
    ensures UnpackPairs(data, c, |ws| / 2, sliced).c.raised <==> Raises(ws)
    decreases ws, 1
  {
    hide ReadHead, UnpackAny, UnpackPair, UnpackPairs, Seen, SeenAll, Storable, WellFormed, Bytes, BytesAll, At, Raises;
    if ws == [] {
      LoopsEnd(data, c, sliced);
      NothingRaises(sliced, c.keying);
    } else {
      RaisesSplit(ws);
      SeenPair(ws, sliced, c.keying);
      PairBytes(ws);
      HoldsParts(data, c.ofs, Bytes(ws[0]), Bytes(ws[1]) + BytesAll(ws[2..]));
      HoldsParts(data, c.ofs + |Bytes(ws[0])|, Bytes(ws[1]), BytesAll(ws[2..]));
      PairsStep(data, c, |ws| / 2, sliced);
      UnpackWirePair(data, c, ws, sliced);
      if Storable(ws[0], ws[1]) {
        UnpackWirePairs(data, UnpackPair(data, c, sliced).c, ws[2..], sliced);
      }
    }
  }

  lemma PairBytes(ws: seq<Wire>)
    requires |ws| >= 2
    ensures BytesAll(ws) == Bytes(ws[0]) + (Bytes(ws[1]) + BytesAll(ws[2..]))
  {
    hide Bytes;
    assert ws[1..][1..] == ws[2..];
  }

  /** How a key is read does not make it good or bad. */
  lemma KeySeen(w: Wire, sliced: bool, keying: bool)
    requires WellFormed(w)
    ensures BadKey(Seen(w, sliced, keying).v) <==> BadKey(ValueOf(w))
  {
  }

  lemma SeenStep(ws: seq<Wire>, isMap: bool, sliced: bool, keying: bool)
    requires ws != [] && forall x :: x in ws ==> WellFormed(x)
    ensures var x := Seen(ws[0], sliced, KeyFlag(isMap, |ws|, keying));
      var rest := SeenAll(ws[1..], isMap, sliced, x.keying);
      SeenAll(ws, isMap, sliced, keying) == Sights([x.v] + rest.vs, rest.keying)
  {
    hide Seen, WellFormed;
  }

  lemma KeyFlags(n: nat, keying: bool)
    requires n >= 2 && n % 2 == 0
    ensures KeyFlag(true, n, keying) && !KeyFlag(true, n - 1, keying)
  {
  }

  lemma SeenPair(ws: seq<Wire>, sliced: bool, keying: bool)
    requires |ws| >= 2 && |ws| % 2 == 0 && forall x :: x in ws ==> WellFormed(x)
    ensures var k := Seen(ws[0], sliced, true); var x := Seen(ws[1], sliced, false);
      var rest := SeenAll(ws[2..], true, sliced, x.keying);
      SeenAll(ws, true, sliced, keying) == Sights([k.v, x.v] + rest.vs, rest.keying)
  {
    hide Seen, SeenAll, WellFormed, KeyFlag;
    KeyFlags(|ws|, keying);
    var k := Seen(ws[0], sliced, true);
    KeyFlags(|ws|, k.keying);
    SeenStep(ws, true, sliced, keying);
    var more := ws[1..];
    assert more[0] == ws[1] && more[1..] == ws[2..];
    SeenStep(more, true, sliced, k.keying);
    var x := Seen(ws[1], sliced, false);
    JoinPair(k.v, x.v, SeenAll(ws[2..], true, sliced, x.keying).vs);
  }

  lemma JoinPair(k: Value, x: Value, rest: seq<Value>)
    ensures [k] + ([x] + rest) == [k, x] + rest
  {
  }

  // ---------------------------------------------------------------- round trips

  /** No empty string is met outside a map key, and whether the reader is left inside one. */
  datatype Cleanness = Cleanness(ok: bool, keying: bool)

  function Clean(w: Wire, keying: bool): Cleanness
    decreases w
  {
    match w
    case Raw(_, bytes) => Cleanness(bytes != [] || keying, keying)
    case Container(isMap, _, items) => CleanAll(items, isMap, keying)
    case _ => Cleanness(true, keying)
  }

  function CleanAll(ws: seq<Wire>, isMap: bool, keying: bool): Cleanness
    decreases ws
  {
    if ws == [] then Cleanness(true, keying) else
    var x := Clean(ws[0], KeyFlag(isMap, |ws|, keying));
    var rest := CleanAll(ws[1..], isMap, x.keying);
    Cleanness(x.ok && rest.ok, rest.keying)
  }

  /** Copied strings give the message's value; sliced ones do exactly when the message is clean. */
  lemma {:induction false} SeenIsValue(w: Wire, sliced: bool, keying: bool)
    requires WellFormed(w)
    ensures Seen(w, sliced, keying).v == ValueOf(w) <==> !sliced || Clean(w, keying).ok
    ensures Seen(w, sliced, keying).keying == Clean(w, keying).keying
    decreases w
  {
    match w
    case Container(isMap, _, items) => SeenAreValues(items, isMap, sliced, keying);
    case _ =>
  }

  lemma {:induction false} SeenAreValues(ws: seq<Wire>, isMap: bool, sliced: bool, keying: bool)
    requires forall x :: x in ws ==> WellFormed(x)
    ensures SeenAll(ws, isMap, sliced, keying).vs == ValuesOf(ws) <==> !sliced || CleanAll(ws, isMap, keying).ok
    ensures SeenAll(ws, isMap, sliced, keying).keying == CleanAll(ws, isMap, keying).keying
    decreases ws
  {
    if ws != [] {
      var k := KeyFlag(isMap, |ws|, keying);
      SeenIsValue(ws[0], sliced, k);
      SeenAreValues(ws[1..], isMap, sliced, Seen(ws[0], sliced, k).keying);
      var s, v := SeenAll(ws, isMap, sliced, keying).vs, ValuesOf(ws);
      assert s == v <==> s[0] == v[0] && s[1..] == v[1..];
    }
  }

  const START := Cursor(0, false, false, false)

  /** Round trip with any bytes behind it: decoding reads exactly the packed bytes, and gives back the
      value exactly when none of its integers is lost on the way through long long and none of its
      tables has further entries beside its items. */
  lemma RoundTrip(cast: Cast, v: Value, tail: seq<byte>)
    requires Packable(v) && Faults(v) == {}
    ensures var r := UnpackAny(Encode(cast, v) + tail, START, false);
      r == One(Received(cast, v), Cursor(|Encode(cast, v)|, false, r.c.keying, false))
    ensures UnpackAny(Encode(cast, v) + tail, START, false).v == v <==> Faithful(cast, v)
  {
    hide UnpackAny, Bytes, WireOf, Received, Faithful, Packable, Faults, ValueOf, WellFormed, Keyed, Seen;
    var w := WireOf(cast, v);
    PackedMeans(cast, v);
    ReceivedIsValue(cast, v);
    HoldsAtStart(Bytes(w), tail);
    UnpackWire(Encode(cast, v) + tail, START, w, false);
    SeenIsValue(w, false, false);
  }

  lemma HoldsAtStart(s: seq<byte>, tail: seq<byte>)
    ensures At(s + tail, 0, s)
  {
    assert (s + tail)[0..|s|] == s;
  }

  /** On a machine whose out-of-range conversion gives -2^63, the round trip is the identity exactly on
      the values without an integral number outside the range of long long and without a table that has
      both items and further entries. */
  lemma RoundTripInRange(cast: Cast, v: Value, tail: seq<byte>)
    requires Packable(v) && Faults(v) == {} && cast(TWO63) == -TWO63
    ensures UnpackAny(Encode(cast, v) + tail, START, false).v == v <==> AllInRange(v) && Unmixed(v)
  {
    RoundTrip(cast, v, tail);
    SurvivingIsInRange(cast, v);
  }

  /** 1e300 is packed as an eight-byte integer and comes back as another number. */
  lemma RoundTripFails(cast: Cast)
    ensures var v := DoubleValue(HUGE);
      && v.Int? && Packable(v) && Faults(v) == {} && UnpackAny(Encode(cast, v), START, false).v != v
    ensures cast(IntegerOf(HUGE)) == -TWO63 ==>
      Encode(cast, DoubleValue(HUGE)) == [0xd3, 0x80, 0, 0, 0, 0, 0, 0, 0]
      && UnpackAny(Encode(cast, DoubleValue(HUGE)), START, false).v == Int(-TWO63)
  {
    hide UnpackAny, Integral, IntegerOf, Rounded, Representable;
    var v := DoubleValue(HUGE);
    HugeIsOutOfRange();
    DoublesArePackable(HUGE);
    RoundTrip(cast, v, []);
    assert Encode(cast, v) + [] == Encode(cast, v);
    if cast(v.n) == -TWO63 {
      TopIsRepresentable();
      RoundedIsExact(-TWO63);
      LeastBytes();
    }
  }

  /** {1, x = 2} comes back as {1}, and so does {1, nil, 3, nil} with its border behind the 1. */
  lemma RoundTripDrops(cast: Cast)
    ensures forall v | v in {MIXED, BROKEN} ::
      Packable(v) && Faults(v) == {} && AllSurvive(cast, v) && Encode(cast, v) == [0x91, 1]
      && UnpackAny(Encode(cast, v), START, false).v == Table([Int(1)], []) != v
  {
    hide UnpackAny, Encode, Received, Packable, Faults, AllSurvive;
    forall v | v in {MIXED, BROKEN}
      ensures Packable(v) && Faults(v) == {} && AllSurvive(cast, v) && Encode(cast, v) == [0x91, 1]
      ensures UnpackAny(Encode(cast, v), START, false).v == Table([Int(1)], [])
    {
      MixedIsPackable(cast, v);
      MixedIsCut(cast, v.entries);
      RoundTrip(cast, v, []);
      assert Encode(cast, v) + [] == Encode(cast, v);
    }
  }

  lemma LeastBytes()
    ensures Bytes(IntWire(-TWO63)) == [0xd3, 0x80, 0, 0, 0, 0, 0, 0, 0]
  {
    var n := 0x8000_0000_0000_0000;
    assert BigEndian(n, 8) == [0x80, 0, 0, 0, 0, 0, 0, 0] by {
      hide BigEndian;
      LowByte(0, 0);
      LowByte(0x80, 1);
      LowByte(0x8000, 2);
      LowByte(0x80_0000, 3);
      LowByte(0x8000_0000, 4);
      LowByte(0x80_0000_0000, 5);
      LowByte(0x8000_0000_0000, 6);
      LowByte(0x80_0000_0000_0000, 7);
      LowByte(n, 8);
    }
  }

  lemma LowByte(n: nat, k: nat)
    ensures BigEndian(n, k) == if k == 0 then [] else BigEndian(n / 0x100, k - 1) + [n % 0x100]
  {
  }

  /** What mp.unpack makes of a packed value (nothing, where mp.pack refuses it). */
  ghost function Opened(cast: Cast, v: Value): Value {
    if WellFormed(WireOf(cast, v)) then Seen(WireOf(cast, v), true, false).v else Nil
  }

  /** mp.unpack on a buffer reads exactly the packed bytes, and gives the packed value back, each of its
      strings as a buffer over the same bytes, exactly when in addition no empty string lies outside the
      map keys. */
  lemma BufferRoundTrip(cast: Cast, v: Value, tail: seq<byte>)
    requires Packable(v) && Faults(v) == {}
    ensures var r := UnpackAny(Encode(cast, v) + tail, START, true);
      r == One(Opened(cast, v), Cursor(|Encode(cast, v)|, false, r.c.keying, false))
    ensures UnpackAny(Encode(cast, v) + tail, START, true).v == Received(cast, v)
       <==> Clean(WireOf(cast, v), false).ok
    ensures UnpackAny(Encode(cast, v) + tail, START, true).v == v
       <==> Clean(WireOf(cast, v), false).ok && Faithful(cast, v)
  {
    hide UnpackAny, Bytes, WireOf, Received, Faithful, Packable, Faults, ValueOf, WellFormed, Keyed, Seen, Clean;
    var w := WireOf(cast, v);
    PackedMeans(cast, v);
    ReceivedIsValue(cast, v);
    HoldsAtStart(Bytes(w), tail);
    UnpackWire(Encode(cast, v) + tail, START, w, true);
    SeenIsValue(w, true, false);
    PackableHasNoStray(v);
    UncleanHasStray(w, false);
  }

  /** No string in the value is the buffer that stands for an empty one. */
  ghost predicate NoStray(v: Value) {
    match v
    case Stray => false
    case Table(items, es) => (forall x :: x in items ==> NoStray(x)) && forall x :: x in es ==> NoStray(x)
    case _ => true
  }

  lemma {:induction false} PackableHasNoStray(v: Value)
    requires Packable(v)
    ensures NoStray(v)
    decreases v
  {
    hide BadKey, Integral, Representable;
    match v
    case Table(items, es) =>
      forall x | x in items ensures NoStray(x) { PackableHasNoStray(x); }
      forall x | x in es ensures NoStray(x) { PackableHasNoStray(x); }
    case _ =>
  }

  lemma {:induction false} UncleanHasStray(w: Wire, keying: bool)
    requires WellFormed(w)
    ensures NoStray(Seen(w, true, keying).v) ==> Clean(w, keying).ok
    decreases w
  {
    match w
    case Container(isMap, _, items) => UncleanHaveStray(items, isMap, keying);
    case _ =>
  }

  lemma {:induction false} UncleanHaveStray(ws: seq<Wire>, isMap: bool, keying: bool)
    requires forall x :: x in ws ==> WellFormed(x)
    ensures (forall v :: v in SeenAll(ws, isMap, true, keying).vs ==> NoStray(v)) ==> CleanAll(ws, isMap, keying).ok
    decreases ws
  {
    if ws != [] {
      hide Seen, Clean, NoStray;
      var k := KeyFlag(isMap, |ws|, keying);
      UncleanHasStray(ws[0], k);
      SeenIsValue(ws[0], true, k);
      UncleanHaveStray(ws[1..], isMap, Seen(ws[0], true, k).keying);
      var s := SeenAll(ws, isMap, true, keying).vs;
      assert s[0] in s && forall v | v in s[1..] :: v in s;
    }
  }

  /** The empty string is packed as one byte, of which a buffer reader makes a stray slice. */
  lemma BufferRoundTripFails(cast: Cast)
    ensures Packable(Str([])) && Faults(Str([])) == {} && Faithful(cast, Str([]))
    ensures UnpackAny(Encode(cast, Str([])), START, true).v != Str([])
  {
    hide UnpackAny;
    BufferRoundTrip(cast, Str([]), []);
    assert Encode(cast, Str([])) + [] == Encode(cast, Str([]));
  }

  /** No packed value's bytes continue another's: they come back as the same value, and are the same
      value when neither loses anything. */
  lemma PrefixFree(cast: Cast, u: Value, v: Value, tail: seq<byte>)
    requires Packable(u) && Faults(u) == {} && Packable(v) && Faults(v) == {}
    requires Encode(cast, v) == Encode(cast, u) + tail
    ensures tail == [] && Received(cast, u) == Received(cast, v)
    ensures Faithful(cast, u) && Faithful(cast, v) ==> u == v
  {
    hide UnpackAny, Packable, Encode, Received, Faithful, Faults;
    RoundTrip(cast, u, tail);
    RoundTrip(cast, v, []);
    ReceivedIsValue(cast, u);
    ReceivedIsValue(cast, v);
    assert Encode(cast, v) + [] == Encode(cast, u) + tail;
  }
}
