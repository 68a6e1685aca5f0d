/** What the decoder takes: exactly the bytes of well-formed messages, but for 32-bit counts beyond an int. */
module MpackDecoding {
  import opened ByteSeq
  import opened MpackWire
  import opened MpackReader
  import opened MpackItems

  // ---------------------------------------------------------------- counts beyond an int

  lemma HugeStays(s: seq<byte>, tail: seq<byte>)
    requires Huge(s)
    ensures Huge(s + tail)
  {
    hide ModestAll, ItemsBytes;
    var items :| HugeBehind(s, items);
    assert HugeBehind(s + tail, items);
  }

  lemma {:induction false} HugeBehindItems(items: seq<Item>, s: seq<byte>)
    requires ModestAll(items) && Huge(s)
    ensures Huge(ItemsBytes(items) + s)
  {
    hide Huge, Proper, Modest, ItemBytes;
    if items == [] {
      assert [] + s == s;
    } else {
      HugeBehindItems(items[1..], s);
      HugeLater(items[0], ItemsBytes(items[1..]) + s);
      assert ItemBytes(items[0]) + (ItemsBytes(items[1..]) + s) == ItemsBytes(items) + s;
    }
  }

  /** A part of data that begins where items end, and ends no later than the whole. */
  lemma HugeInside(data: seq<byte>, from: nat, p: nat, q: nat, to: nat, items: seq<Item>)
    requires from <= p <= q <= to <= |data| && ModestAll(items) && data[from..p] == ItemsBytes(items)
    requires Huge(data[p..q])
    ensures Huge(data[from..to])
  {
    hide Huge, ModestAll, ItemsBytes;
    HugeBehindItems(items, data[p..q]);
    HugeStays(data[from..p] + data[p..q], data[q..to]);
    assert data[from..p] + data[p..q] + data[q..to] == data[from..to];
  }

  // ---------------------------------------------------------------- headers

  /** What a type byte and its size bytes announce are the bytes of a header. */
  lemma RawHeadIsHeader(data: seq<byte>, ofs: nat)
    requires ofs <= |data| && ReadHead(data, ofs).RawHead?
    ensures var h, width := ReadHead(data, ofs), WidthOf(data[ofs]);
      WellFormedRaw(width, h.n) && h.ofs == ofs + |RawHeader(width, h.n)| && At(data, ofs, RawHeader(width, h.n))
  {
    hide BigEndian, FromBigEndian, Number, SmallValue;
    var s := data[ofs..];
    AnnouncedFits(s);
    if s[0] >= 0xda {
      assert Padded(s[1..], if s[0] == 0xda then 2 else 4) == data[ofs + 1..ReadHead(data, ofs).ofs];
    }
  }

  lemma TableHeadIsHeader(data: seq<byte>, ofs: nat)
    requires ofs <= |data| && ReadHead(data, ofs).TableHead? && !HugeAt(data[ofs..ReadHead(data, ofs).ofs], 0)
    ensures var h, width := ReadHead(data, ofs), WidthOf(data[ofs]);
      var head := ContainerHeader(h.isMap, width, h.n);
      WellFormedCount(width, h.n) && h.ofs == ofs + |head| && At(data, ofs, head)
  {
    hide BigEndian, FromBigEndian, Number, SmallValue;
    var s := data[ofs..];
    AnnouncedFits(s);
    if s[0] >= 0xdc {
      var size := data[ofs + 1..ReadHead(data, ofs).ofs];
      assert Padded(s[1..], |size|) == size;
      BigEndianInverts(size);
      Powers();
      if |size| == 4 {
        TopByte(FromBigEndian(size));
      }
    }
  }

  /** A complete value of fixed size. */
  function LeafAt(data: seq<byte>, ofs: nat): Wire
    requires ofs <= |data| && ReadHead(data, ofs).Leaf?
  {
    if IsSmall(data[ofs]) then Small(data[ofs]) else Scalar(data[ofs], data[ofs + 1..ReadHead(data, ofs).ofs])
  }

  lemma LeafIsMessage(data: seq<byte>, ofs: nat)
    requires ofs <= |data| && ReadHead(data, ofs).Leaf?
    ensures var w, h := LeafAt(data, ofs), ReadHead(data, ofs);
      WellFormed(w) && At(data, ofs, Bytes(w)) && h.ofs == ofs + |Bytes(w)|
  {
    hide Number, SmallValue;
    AtOne(data, ofs, data[ofs]);
    if !IsSmall(data[ofs]) {
      AtParts(data, ofs, [data[ofs]], LeafAt(data, ofs).payload);
    }
  }

  // ---------------------------------------------------------------- what is read is a message

  /** Reading from c to d went well: no error, and no count beyond an int was met. */
  ghost predicate Fine(data: seq<byte>, c: Cursor, d: Cursor) {
    && c.ofs <= d.ofs <= |data| && !c.err && !c.raised && !d.err && !d.raised && !Huge(data[c.ofs..d.ofs])
  }

  lemma BadHeadErrs(data: seq<byte>, c: Cursor, sliced: bool)
    requires c.ofs <= |data| && ReadHead(data, c.ofs).Bad?
    ensures UnpackAny(data, c, sliced).c.err
  {
    hide ReadHead;
  }

  /** A part that was read after a message is fine, and so is the message. */
  lemma FineParts(data: seq<byte>, c: Cursor, mid: Cursor, d: Cursor, items: seq<Item>)
    requires c.ofs <= mid.ofs <= d.ofs && Fine(data, c, d)
    requires ModestAll(items) && data[c.ofs..mid.ofs] == ItemsBytes(items)
    ensures !Huge(data[mid.ofs..d.ofs])
  {
    hide Huge, ModestAll, ItemsBytes;
    if Huge(data[mid.ofs..d.ofs]) {
      HugeInside(data, c.ofs, mid.ofs, d.ofs, d.ofs, items);
    }
  }

  lemma FineFront(data: seq<byte>, c: Cursor, mid: Cursor, d: Cursor)
    requires c.ofs <= mid.ofs <= d.ofs && Fine(data, c, d)
    ensures !Huge(data[c.ofs..mid.ofs])
  {
    hide Huge;
    assert data[c.ofs..mid.ofs] + data[mid.ofs..d.ofs] == data[c.ofs..d.ofs];
    if Huge(data[c.ofs..mid.ofs]) {
      HugeStays(data[c.ofs..mid.ofs], data[mid.ofs..d.ofs]);
    }
  }

  lemma {:induction false} ReadsMessage(data: seq<byte>, c: Cursor, sliced: bool) returns (w: Wire)
    requires c.ofs <= |data| && Fine(data, c, UnpackAny(data, c, sliced).c)
    ensures WellFormed(w) && At(data, c.ofs, Bytes(w)) && UnpackAny(data, c, sliced).c.ofs == c.ofs + |Bytes(w)|
    decreases |data| - c.ofs, 0
  {
    hide ReadHead, UnpackAny, UnpackRaw, UnpackTable, Huge, WellFormed, Bytes, At, WellFormedCount, ContainerHeader,
      HugeAt;
    var h := ReadHead(data, c.ofs);
    UnpackByHead(data, c, h, sliced);
    match h
    case Leaf(_, _) =>
      LeafIsMessage(data, c.ofs);
      w := LeafAt(data, c.ofs);
    case RawHead(_, _) =>
      w := ReadsRaw(data, c, h, sliced);
    case TableHead(_, _, o) =>
      FineFront(data, c, c.(ofs := o), UnpackAny(data, c, sliced).c);
      if HugeAt(data[c.ofs..o], 0) {
        HugeInFront(data[c.ofs..o]);
      }
      TableHeadIsHeader(data, c.ofs);
      w := ReadsTable(data, c, h, WidthOf(data[c.ofs]), sliced);
    case Bad(_) =>
      BadHeadErrs(data, c, sliced);
      assert false;
  }

  lemma ReadsRaw(data: seq<byte>, c: Cursor, h: Head, sliced: bool) returns (w: Wire)
    requires c.ofs <= |data| && h == ReadHead(data, c.ofs) && h.RawHead? && !UnpackAny(data, c, sliced).c.err
    ensures WellFormed(w) && At(data, c.ofs, Bytes(w)) && UnpackAny(data, c, sliced).c.ofs == c.ofs + |Bytes(w)|
  {
    hide ReadHead, UnpackAny, RawHeader, At;
    RawHeadIsHeader(data, c.ofs);
    UnpackByHead(data, c, h, sliced);
    w := Raw(WidthOf(data[c.ofs]), data[h.ofs..h.ofs + h.n]);
    AtParts(data, c.ofs, Header(w), w.bytes);
    LiesItself(data, h.ofs, h.n);
  }

  lemma LiesItself(data: seq<byte>, ofs: nat, n: nat)
    requires ofs + n <= |data|
    ensures At(data, ofs, data[ofs..ofs + n])
  {
  }

  lemma {:induction false} ReadsTable(data: seq<byte>, c: Cursor, h: Head, width: Width, sliced: bool) returns (w: Wire)
    requires c.ofs <= |data| && h == ReadHead(data, c.ofs) && h.TableHead?
    requires Fine(data, c, UnpackAny(data, c, sliced).c)
    requires var head := ContainerHeader(h.isMap, width, h.n);
      WellFormedCount(width, h.n) && h.ofs == c.ofs + |head| && At(data, c.ofs, head)
    ensures WellFormed(w) && At(data, c.ofs, Bytes(w)) && UnpackAny(data, c, sliced).c.ofs == c.ofs + |Bytes(w)|
    decreases |data| - h.ofs, h.n + 2
  {
    hide ReadHead, UnpackAny, UnpackTable, UnpackItems, UnpackPairs, Huge, ContainerHeader, BytesAll, WellFormedCount,
      WellFormed, Bytes, At, ModestAll, ItemsBytes;
    var c0, d := c.(ofs := h.ofs), UnpackAny(data, c, sliced).c;
    UnpackByHead(data, c, h, sliced);
    TableLoop(data, c0, h.isMap, h.n, sliced);
    HeadIsItem(h.isMap, width, h.n);
    LiesThere(data, c.ofs, ContainerHeader(h.isMap, width, h.n));
    FineParts(data, c, c0, d, [Begin(h.isMap, width, h.n)]);
    var ws;
    if h.isMap {
      ws := ReadsPairs(data, c0, h.n, sliced);
    } else {
      ws := ReadsItems(data, c0, h.n, sliced);
    }
    w := Container(h.isMap, width, ws);
    HeaderHolds(h.isMap, width, h.n, ws);
    AtParts(data, c.ofs, ContainerHeader(h.isMap, width, h.n), BytesAll(ws));
  }

  lemma HeadIsItem(isMap: bool, width: Width, n: nat)
    requires WellFormedCount(width, n)
    ensures var items := [Begin(isMap, width, n)];
      ModestAll(items) && ItemsBytes(items) == ContainerHeader(isMap, width, n)
  {
    hide ContainerHeader;
    assert [Begin(isMap, width, n)][1..] == [];
  }

  lemma {:induction false} ReadsItems(data: seq<byte>, c: Cursor, n: nat, sliced: bool) returns (ws: seq<Wire>)
    requires c.ofs <= |data| && Fine(data, c, UnpackItems(data, c, n, sliced).c)
    ensures |ws| == n && WellFormedAll(ws) && At(data, c.ofs, BytesAll(ws))
    ensures UnpackItems(data, c, n, sliced).c.ofs == c.ofs + |BytesAll(ws)|
    decreases |data| - c.ofs, n + 1
  {
    hide ReadHead, UnpackAny, UnpackItems, Huge, Bytes, BytesAll, WellFormed, At;
    if n == 0 {
      LoopsEnd(data, c, sliced);
      ws := [];
      NothingLies(data, c.ofs);
    } else {
      ItemStep(data, c, n, sliced);
      var d, x := UnpackItems(data, c, n, sliced).c, UnpackAny(data, c, sliced).c;
      FineFront(data, c, x, d);
      var w := ReadsMessage(data, c, sliced);
      MessageIsItems(w);
      LiesThere(data, c.ofs, Bytes(w));
      FineParts(data, c, x, d, ItemsOf(w));
      var rest := ReadsItems(data, x, n - 1, sliced);
      ws := [w] + rest;
      OneAndMore(w, rest);
      AtParts(data, c.ofs, Bytes(w), BytesAll(rest));
    }
  }

  lemma NothingLies(data: seq<byte>, ofs: nat)
    requires ofs <= |data|
    ensures At(data, ofs, BytesAll([])) && BytesAll([]) == []
  {
  }

  lemma LiesThere(data: seq<byte>, ofs: nat, s: seq<byte>)
    requires At(data, ofs, s)
    ensures data[ofs..ofs + |s|] == s
  {
  }

  lemma {:induction false} ReadsPairs(data: seq<byte>, c: Cursor, n: nat, sliced: bool) returns (ws: seq<Wire>)
    requires c.ofs <= |data| && Fine(data, c, UnpackPairs(data, c, n, sliced).c)
    ensures |ws| == 2 * n && WellFormedAll(ws) && At(data, c.ofs, BytesAll(ws))
    ensures UnpackPairs(data, c, n, sliced).c.ofs == c.ofs + |BytesAll(ws)|
    decreases |data| - c.ofs, n + 1
  {
    hide ReadHead, UnpackAny, UnpackPair, UnpackPairs, Huge, Bytes, BytesAll, WellFormed, At;
    if n == 0 {
      LoopsEnd(data, c, sliced);
      ws := [];
      NothingLies(data, c.ofs);
    } else {
      PairsStep(data, c, n, sliced);
      var d, p := UnpackPairs(data, c, n, sliced).c, UnpackPair(data, c, sliced).c;
      FineFront(data, c, p, d);
      var pair := ReadsPair(data, c, sliced);
      MessagesAreItems(pair);
      LiesThere(data, c.ofs, BytesAll(pair));
      FineParts(data, c, p, d, ItemsOfAll(pair));
      var rest := ReadsPairs(data, p, n - 1, sliced);
      ws := pair + rest;
      BytesAllConcat(pair, rest);
      AtParts(data, c.ofs, BytesAll(pair), BytesAll(rest));
    }
  }

  lemma {:induction false} ReadsPair(data: seq<byte>, c: Cursor, sliced: bool) returns (ws: seq<Wire>)
    requires c.ofs <= |data| && Fine(data, c, UnpackPair(data, c, sliced).c)
    ensures |ws| == 2 && WellFormedAll(ws) && At(data, c.ofs, BytesAll(ws))
    ensures UnpackPair(data, c, sliced).c.ofs == c.ofs + |BytesAll(ws)|
    decreases |data| - c.ofs, 1
  {
    hide ReadHead, UnpackAny, UnpackPair, Huge, Bytes, BytesAll, WellFormed, At, BadKey;
    var c0, d := c.(keying := true), UnpackPair(data, c, sliced).c;
    var k := UnpackAny(data, c0, sliced);
    PairParts(data, c, sliced, k);
    var c1 := k.c.(keying := false);
    var x := UnpackAny(data, c1, sliced);
    FineFront(data, c, k.c, d);
    var key := ReadsMessage(data, c0, sliced);
    MessageIsItems(key);
    LiesThere(data, c.ofs, Bytes(key));
    FineParts(data, c, k.c, d, ItemsOf(key));
    var value := ReadsMessage(data, c1, sliced);
    ws := [key, value];
    assert ws == [key] + [value];
    OneAndMore(key, [value]);
    OneAndMore(value, []);
    AtParts(data, c.ofs, Bytes(key), Bytes(value));
  }

  // ---------------------------------------------------------------- exactly the messages

  /** A well-formed message lies there, and no map in it has a nil or NaN key. */
  ghost predicate Lies(data: seq<byte>, ofs: nat, w: Wire) {
    WellFormed(w) && Keyed(w) && At(data, ofs, Bytes(w))
  }

  /** The message read, and the cursor behind it. */
  function ReadAs(w: Wire, c: Cursor, sliced: bool): One
    requires WellFormed(w)
  {
    var s := Seen(w, sliced, c.keying);
    One(s.v, Past(c, |Bytes(w)|, s.keying))
  }

  /** Unless a count beyond an int is met, decoding ends without an error, reported or raised, exactly where
      a well-formed message with good keys lies, and has then read that message. */
  lemma ReadsExactlyMessages(data: seq<byte>, c: Cursor, sliced: bool)
    requires c.ofs <= |data| && !c.err && !c.raised && !Huge(data[c.ofs..UnpackAny(data, c, sliced).c.ofs])
    ensures var r := UnpackAny(data, c, sliced).c; (!r.err && !r.raised) <==> exists w :: Lies(data, c.ofs, w)
    ensures forall w | Lies(data, c.ofs, w) :: UnpackAny(data, c, sliced) == ReadAs(w, c, sliced)
  {
    hide UnpackAny, Huge, WellFormed, Keyed, Bytes, Seen, At;
    var r := UnpackAny(data, c, sliced);
    forall w | Lies(data, c.ofs, w)
      ensures r == ReadAs(w, c, sliced)
    {
      UnpackWire(data, c, w, sliced);
    }
    if !r.c.err && !r.c.raised {
      var w := ReadsMessage(data, c, sliced);
      UnpackWire(data, c, w, sliced);
      assert Lies(data, c.ofs, w);
    }
  }

  /** A container with such a count is read as an empty table. */
  lemma HugeIsEmpty(data: seq<byte>, c: Cursor, isMap: bool, n: nat, sliced: bool)
    requires MAX_COUNT <= n < 0x1_0000_0000 && At(data, c.ofs, ContainerHeader(isMap, Wide32, n))
    ensures UnpackAny(data, c, sliced) == One(Table([], []), c.(ofs := c.ofs + 5))
  {
    hide BigEndian, FromBigEndian, UnpackAny, UnpackItems, UnpackPairs, Number, SmallValue;
    HoldsParts(data, c.ofs, [ContainerHeader(isMap, Wide32, n)[0]], BigEndian(n, 4));
    SizeInverts(n, 4);
    assert data[c.ofs + 1..c.ofs + 5] == BigEndian(n, 4);
    UnpackByHead(data, c, TableHead(isMap, 0, c.ofs + 5), sliced);
    TableLoop(data, c.(ofs := c.ofs + 5), isMap, 0, sliced);
    LoopsEnd(data, c.(ofs := c.ofs + 5), sliced);
  }
}
