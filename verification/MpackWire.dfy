/** Lua values, MessagePack messages as trees, and the bytes of both. */
module MpackWire {
  import opened ByteSeq
  import opened MpackNumber

  // ---------------------------------------------------------------- Lua values

  /** The Lua types that have no MessagePack form. */
  datatype Foreign = LightUserdata | Function | Userdata | Thread | Unknown

  /** A Lua value. Every finite integral number is Int (the two zeros are one, as Lua's == has it);
      any other double is its eight bytes, most significant first, and every NaN is the one value
      NaN; a single-precision number that is not one, which only the decoder makes, is its four
      bytes. Str is a string or a lev.buffer over its bytes: mp.pack writes both alike, and mp.unpack
      gives a buffer for each string that is no map key. Of a table, `items` are t[1] to t[#t], where #t
      is the border that lua_objlen finds, with nil for a hole; `entries` are all other keys and their
      values alternately, in the order lua_next or lua_rawset meets them. Stray is the buffer mp.unpack
      makes of an empty string: a window over other memory. */
  datatype Value =
    | Nil
    | Bool(b: bool)
    | Int(n: int)
    | Double(bits: seq<byte>)
    | NaN
    | Single(bits: seq<byte>)
    | Str(s: seq<byte>)
    | Stray
    | Table(items: seq<Value>, entries: seq<Value>)
    | Opaque(kind: Foreign)

  const MAX_COUNT: nat := 0x8000_0000
  const MAX_STRING: nat := 0xFFFF_FFFF

  /** What a table cannot have as a key: lua_rawset raises an error for it. */
  predicate BadKey(v: Value) { v.Nil? || v.NaN? }

  /** A table as Lua has it: t[#t] is there and t[#t + 1] is not; a key occurs once (tables and foreign
      values are keys by identity), is neither nil nor NaN, and has a value. */
  predicate TableOk(items: seq<Value>, es: seq<Value>) {
    && (items != [] ==> !items[|items| - 1].Nil?)
    && |es| % 2 == 0
    && (forall i | 0 <= i < |es| && i % 2 == 0 ::
      !BadKey(es[i]) && !es[i + 1].Nil? && !(es[i].Int? && 1 <= es[i].n <= |items| + 1))
    && forall i, j | 0 <= i < j < |es| && i % 2 == 0 && j % 2 == 0 && es[i] == es[j] ::
      es[i].Table? || es[i].Opaque?
  }

  /** The values a Lua program can hand to mp.pack. The integers among them are those that doubles
      hold; their magnitude is not bounded here. The element counts of a table fit an int. */
  ghost predicate Packable(v: Value) {
    match v
    case Int(n) => Representable(n)
    case Double(bits) => |bits| == 8 && !IsNaN(bits) && !Integral(bits)
    case Table(items, es) =>
      && |items| < MAX_COUNT && |es| / 2 < MAX_COUNT && TableOk(items, es)
      && (forall x :: x in items ==> Packable(x)) && forall x :: x in es ==> Packable(x)
    case Single(_) => false
    case Stray => false
    case _ => true
  }

  /** The Lua number that eight bytes are. */
  function DoubleValue(bits: seq<byte>): Value
    requires |bits| == 8
  {
    if IsNaN(bits) then NaN else if Integral(bits) then Int(IntegerOf(bits)) else Double(bits)
  }

  /** Every double can be handed to mp.pack, as exactly one of Int, Double and NaN. */
  lemma DoublesArePackable(bits: seq<byte>)
    requires |bits| == 8
    ensures Packable(DoubleValue(bits))
  {
    hide Integral, IntegerOf, Representable;
    if Integral(bits) {
      IntegralIsRepresentable(bits);
    }
  }

  // ---------------------------------------------------------------- messages

  /** Size written inside the type byte, or in two or four bytes after it. */
  datatype Width = Fix | Wide16 | Wide32

  /** A message: a one-byte value, a type byte with a payload of fixed size, a byte string, or a
      container (array, or map as keys and values alternately). */
  datatype Wire =
    | Small(tag: byte)
    | Scalar(tag: byte, payload: seq<byte>)
    | Raw(width: Width, bytes: seq<byte>)
    | Container(isMap: bool, width: Width, items: seq<Wire>)

  /** Payload size behind the type bytes 0xca to 0xd3. */
  function PayloadSize(tag: byte): nat {
    if tag == 0xca then 4 else if tag == 0xcb then 8
    else if tag == 0xcc || tag == 0xd0 then 1
    else if tag == 0xcd || tag == 0xd1 then 2
    else if tag == 0xce || tag == 0xd2 then 4
    else 8
  }

  predicate IsSmall(tag: byte) {
    tag < 0x80 || tag == 0xc0 || tag == 0xc2 || tag == 0xc3 || tag >= 0xe0
  }

  function Count(isMap: bool, items: nat): nat {
    if isMap then items / 2 else items
  }

  predicate WellFormedRaw(width: Width, n: nat) {
    n < (match width case Fix => 32 case Wide16 => 0x1_0000 case Wide32 => 0x1_0000_0000)
  }

  predicate WellFormedCount(width: Width, n: nat) {
    n < (match width case Fix => 16 case Wide16 => 0x1_0000 case Wide32 => MAX_COUNT)
  }

  ghost predicate WellFormed(w: Wire) {
    match w
    case Small(tag) => IsSmall(tag)
    case Scalar(tag, payload) => 0xca <= tag <= 0xd3 && |payload| == PayloadSize(tag)
    case Raw(width, bytes) => WellFormedRaw(width, |bytes|)
    case Container(isMap, width, items) =>
      && (isMap ==> |items| % 2 == 0)
      && WellFormedCount(width, Count(isMap, |items|))
      && forall x :: x in items ==> WellFormed(x)
  }

  function SizeBytes(width: Width, n: nat): seq<byte> {
    match width case Fix => [] case Wide16 => BigEndian(n, 2) case Wide32 => BigEndian(n, 4)
  }

  function RawHeader(width: Width, n: nat): (s: seq<byte>)
    ensures s != []
  {
    [match width case Fix => (0xa0 + n) % 0x100 case Wide16 => 0xda case Wide32 => 0xdb] + SizeBytes(width, n)
  }

  function ContainerHeader(isMap: bool, width: Width, n: nat): (s: seq<byte>)
    ensures s != []
  {
    [match width
     case Fix => ((if isMap then 0x80 else 0x90) + n) % 0x100
     case Wide16 => if isMap then 0xde else 0xdc
     case Wide32 => if isMap then 0xdf else 0xdd] + SizeBytes(width, n)
  }

  function Header(w: Wire): (s: seq<byte>)
    requires w.Container? || w.Raw?
    ensures s != []
  {
    match w
    case Raw(width, bytes) => RawHeader(width, |bytes|)
    case Container(isMap, width, items) => ContainerHeader(isMap, width, Count(isMap, |items|))
  }

  function Bytes(w: Wire): (s: seq<byte>)
    ensures s != []
    decreases w
  {
    match w
    case Small(tag) => [tag]
    case Scalar(tag, payload) => [tag] + payload
    case Raw(_, bytes) => Header(w) + bytes
    case Container(_, _, items) => Header(w) + BytesAll(items)
  }

  function BytesAll(ws: seq<Wire>): seq<byte>
    decreases ws
  {
    if ws == [] then [] else Bytes(ws[0]) + BytesAll(ws[1..])
  }

  lemma {:induction false} BytesAllConcat(a: seq<Wire>, b: seq<Wire>)
    ensures BytesAll(a + b) == BytesAll(a) + BytesAll(b)
    decreases a
  {
    if a == [] {
      assert a + b == b;
    } else {
      assert (a + b)[1..] == a[1..] + b;
      BytesAllConcat(a[1..], b);
    }
  }

  // ---------------------------------------------------------------- the packer's choice

  function IntWire(n: LongLong): Wire {
    if n >= 0 then
      if n < 128 then Small(n)
      else if n < 0x100 then Scalar(0xcc, [n])
      else if n < 0x1_0000 then Scalar(0xcd, BigEndian(n, 2))
      else if n < 0x1_0000_0000 then Scalar(0xce, BigEndian(n, 4))
      else Scalar(0xcf, BigEndian(n, 8))
    else
      if n >= -32 then Small(0x100 + n)
      else if n >= -0x80 then Scalar(0xd0, [0x100 + n])
      else if n >= -0x8000 then Scalar(0xd1, BigEndian(0x1_0000 + n, 2))
      else if n >= -0x8000_0000 then Scalar(0xd2, BigEndian(0x1_0000_0000 + n, 4))
      else Scalar(0xd3, BigEndian(0x1_0000_0000_0000_0000 + n, 8))
  }

  const NAN_BITS: seq<byte> := [0xff, 0xf8, 0, 0, 0, 0, 0, 0]

  function RawWidth(n: nat): Width {
    if n < 32 then Fix else if n < 0x1_0000 then Wide16 else Wide32
  }

  function CountWidth(n: nat): Width {
    if n < 16 then Fix else if n < 0x1_0000 then Wide16 else Wide32
  }

  /** The message mp.pack chooses for a value (Small(0xc0) stands in for the values it refuses). A table
      with items is an array of them, and its other entries are dropped. An integral number goes through
      long long; `cast` is what that conversion does out of range. */
  function WireOf(cast: Cast, v: Value): Wire
    decreases v
  {
    match v
    case Nil => Small(0xc0)
    case Bool(b) => Small(if b then 0xc3 else 0xc2)
    case Int(n) => IntWire(ToLongLong(cast, n))
    case Double(bits) => Scalar(0xcb, bits)
    case NaN => Scalar(0xcb, NAN_BITS)
    case Str(s) => Raw(RawWidth(|s|), s)
    case Table(items, entries) =>
      if items != [] then Container(false, CountWidth(|items|), WireOfAll(cast, items))
      else Container(true, CountWidth(|entries| / 2), WireOfAll(cast, entries))
    case _ => Small(0xc0)
  }

  function WireOfAll(cast: Cast, vs: seq<Value>): (ws: seq<Wire>)
    ensures |ws| == |vs|
    ensures forall i :: 0 <= i < |vs| ==> ws[i] == WireOf(cast, vs[i])
    decreases vs
  {
    if vs == [] then [] else [WireOf(cast, vs[0])] + WireOfAll(cast, vs[1..])
  }

  function Encode(cast: Cast, v: Value): seq<byte> { Bytes(WireOf(cast, v)) }

  lemma NeverEmpty(cast: Cast, v: Value)
    ensures Encode(cast, v) != []
  {
  }

  // ---------------------------------------------------------------- the value of a message

  function Number(tag: byte, payload: seq<byte>): Value
    requires 0xca <= tag <= 0xd3 && |payload| == PayloadSize(tag)
  {
    if tag == 0xca then (if IsSingleNaN(payload) then NaN else Single(payload))
    else if tag == 0xcb then DoubleValue(payload)
    else Int(Rounded(Signed(tag, FromBigEndian(payload))))
  }

  /** The number n of k bytes behind an integer's type byte, as a signed number where the type is one. */
  function Signed(tag: byte, n: nat): int {
    if tag == 0xd0 && n >= 0x80 then n - 0x100
    else if tag == 0xd1 && n >= 0x8000 then n - 0x1_0000
    else if tag == 0xd2 && n >= 0x8000_0000 then n - 0x1_0000_0000
    else if tag == 0xd3 && n >= 0x8000_0000_0000_0000 then n - 0x1_0000_0000_0000_0000
    else n
  }

  function SmallValue(tag: byte): Value {
    if tag < 0x80 then Int(tag)
    else if tag == 0xc0 then Nil
    else if tag == 0xc2 then Bool(false)
    else if tag == 0xc3 then Bool(true)
    else Int(tag - 0x100)
  }

  /** The Lua table that decoding fills with the given elements. */
  function TableOf(isMap: bool, vs: seq<Value>): Value {
    if isMap then Table([], vs) else Table(vs, [])
  }

  function ValueOf(w: Wire): Value
    requires WellFormed(w)
    decreases w
  {
    match w
    case Small(tag) => SmallValue(tag)
    case Scalar(tag, payload) => Number(tag, payload)
    case Raw(_, bytes) => Str(bytes)
    case Container(isMap, _, items) => TableOf(isMap, ValuesOf(items))
  }

  function ValuesOf(ws: seq<Wire>): (vs: seq<Value>)
    requires forall x :: x in ws ==> WellFormed(x)
    ensures |vs| == |ws|
    ensures forall i :: 0 <= i < |ws| ==> vs[i] == ValueOf(ws[i])
    decreases ws
  {
    if ws == [] then [] else [ValueOf(ws[0])] + ValuesOf(ws[1..])
  }

  /** No map in the message has a nil or NaN key, at any depth. */
  ghost predicate Keyed(w: Wire)
    requires WellFormed(w)
    decreases w
  {
    w.Container? ==>
      && (forall x :: x in w.items ==> Keyed(x))
      && (w.isMap ==> forall i | 0 <= i < |w.items| && i % 2 == 0 :: !BadKey(ValueOf(w.items[i])))
  }

  // ---------------------------------------------------------------- what packing loses

  /** What mp.pack refuses: a foreign type or an over-long string in what it takes of a value. */
  datatype Fault = BufNoLeft | StringLen | BadType(kind: Foreign)

  ghost function Faults(v: Value): set<Fault>
    decreases v
  {
    match v
    case Str(s) => if |s| < MAX_STRING then {} else {StringLen}
    case Table(items, entries) => FaultsAll(if items != [] then items else entries)
    case Opaque(kind) => {BadType(kind)}
    case _ => {}
  }

  ghost function FaultsAll(vs: seq<Value>): set<Fault>
    decreases vs
  {
    if vs == [] then {} else Faults(vs[0]) + FaultsAll(vs[1..])
  }

  lemma NumberOfInt(n: LongLong)
    ensures WellFormed(IntWire(n)) && ValueOf(IntWire(n)) == Int(Rounded(n))
  {
    hide BigEndian, FromBigEndian, Rounded;
    Powers();
    SmallRounds(n);
    if n < 0 {
      if n >= -0x80 { OneByte(0x100 + n); }
      else if n >= -0x8000 { FromBigEndianInverts(0x1_0000 + n, 2); }
      else if n >= -0x8000_0000 { FromBigEndianInverts(0x1_0000_0000 + n, 4); }
      else { FromBigEndianInverts(0x1_0000_0000_0000_0000 + n, 8); }
    } else if n < 0x100 {
      OneByte(n);
    } else if n < 0x1_0000 {
      FromBigEndianInverts(n, 2);
    } else if n < 0x1_0000_0000 {
      FromBigEndianInverts(n, 4);
    } else {
      FromBigEndianInverts(n, 8);
    }
  }

  lemma OneByte(c: byte)
    ensures FromBigEndian([c]) == c
  {
    assert [c][..0] == [];
  }

  lemma SmallRounds(n: int)
    ensures -0x80 <= n < 0x80 ==> Rounded(n) == n
  {
  }

  /** Each integral number in the value is in the range of long long, or is 2^63 where the machine's
      conversion happens to give that back. */
  ghost predicate AllSurvive(cast: Cast, v: Value) {
    match v
    case Int(n) => Survives(cast, n)
    case Table(items, es) =>
      (forall x :: x in items ==> AllSurvive(cast, x)) && forall x :: x in es ==> AllSurvive(cast, x)
    case _ => true
  }

  /** No table in the value, at any depth, has both items and further entries. */
  ghost predicate Unmixed(v: Value) {
    match v
    case Table(items, es) =>
      && (items == [] || es == [])
      && (forall x :: x in items ==> Unmixed(x)) && forall x :: x in es ==> Unmixed(x)
    case _ => true
  }

  /** Packing loses nothing of the value. */
  ghost predicate Faithful(cast: Cast, v: Value) { AllSurvive(cast, v) && Unmixed(v) }

  /** What a packed value comes back as. */
  function Received(cast: Cast, v: Value): Value
    decreases v
  {
    match v
    case Int(n) => Int(Rounded(ToLongLong(cast, n)))
    case Table(items, entries) =>
      if items != [] then Table(ReceivedAll(cast, items), []) else Table([], ReceivedAll(cast, entries))
    case _ => v
  }

  function ReceivedAll(cast: Cast, vs: seq<Value>): (rs: seq<Value>)
    ensures |rs| == |vs|
    ensures forall i :: 0 <= i < |vs| ==> rs[i] == Received(cast, vs[i])
    decreases vs
  {
    if vs == [] then [] else [Received(cast, vs[0])] + ReceivedAll(cast, vs[1..])
  }

  /** Every value that mp.pack accepts gets a well-formed message with good map keys, and that message
      stands for the value but for its integers beyond long long and what its tables have beside items. */
  lemma {:induction false} PackedMeans(cast: Cast, v: Value)
    requires Packable(v) && Faults(v) == {}
    ensures WellFormed(WireOf(cast, v)) && Keyed(WireOf(cast, v)) && ValueOf(WireOf(cast, v)) == Received(cast, v)
    decreases v, 1
  {
    hide Integral, IntWire, IntegerOf, BadKey;
    match v
    case Int(n) =>
      NumberOfInt(ToLongLong(cast, n));
    case NaN => assert IsNaN(NAN_BITS);
    case Table(items, entries) =>
      if items != [] { PackedArray(cast, v); } else { PackedMap(cast, v); }
    case Nil =>
    case Bool(_) =>
    case Double(_) =>
    case Str(_) =>
    case Opaque(_) =>
    case Single(_) =>
    case Stray =>
  }

  /** What makes a container of good items good. */
  lemma ContainerMeans(isMap: bool, width: Width, ws: seq<Wire>)
    requires (isMap ==> |ws| % 2 == 0) && WellFormedCount(width, Count(isMap, |ws|))
    requires forall x :: x in ws ==> WellFormed(x) && Keyed(x)
    requires isMap ==> forall i | 0 <= i < |ws| && i % 2 == 0 :: !BadKey(ValueOf(ws[i]))
    ensures var w := Container(isMap, width, ws);
      WellFormed(w) && Keyed(w) && ValueOf(w) == TableOf(isMap, ValuesOf(ws))
  {
    hide BadKey, TableOf, Number, SmallValue, ValuesOf;
  }

  lemma {:induction false} PackedArray(cast: Cast, v: Value)
    requires Packable(v) && Faults(v) == {} && v.Table? && v.items != []
    ensures var w := WireOf(cast, v); WellFormed(w) && Keyed(w) && ValueOf(w) == Received(cast, v)
    decreases v, 0
  {
    hide WellFormed, Keyed, ValueOf, BadKey, TableOk;
    PackedAllMean(cast, v.items);
    ContainerMeans(false, CountWidth(|v.items|), WireOfAll(cast, v.items));
  }

  lemma {:induction false} PackedMap(cast: Cast, v: Value)
    requires Packable(v) && Faults(v) == {} && v.Table? && v.items == []
    ensures var w := WireOf(cast, v); WellFormed(w) && Keyed(w) && ValueOf(w) == Received(cast, v)
    decreases v, 0
  {
    hide WellFormed, Keyed, ValueOf, BadKey;
    var entries := v.entries;
    PackedAllMean(cast, entries);
    var ws := WireOfAll(cast, entries);
    forall i | 0 <= i < |ws| && i % 2 == 0 ensures !BadKey(ValueOf(ws[i])) {
      assert ValueOf(ws[i]) == ValuesOf(ws)[i] == Received(cast, entries[i]);
      KeysStayGood(cast, entries[i]);
    }
    ContainerMeans(true, CountWidth(|entries| / 2), ws);
  }

  lemma KeysStayGood(cast: Cast, v: Value)
    ensures BadKey(Received(cast, v)) <==> BadKey(v)
  {
  }

  lemma {:induction false} PackedAllMean(cast: Cast, vs: seq<Value>)
    requires forall x :: x in vs ==> Packable(x)
    requires FaultsAll(vs) == {}
    ensures forall w :: w in WireOfAll(cast, vs) ==> WellFormed(w) && Keyed(w)
    ensures ValuesOf(WireOfAll(cast, vs)) == ReceivedAll(cast, vs)
    decreases vs
  {
    if vs != [] {
      hide Packable, Faults, WireOf, ValueOf, WellFormed, Keyed, Received;
      PackedMeans(cast, vs[0]);
      PackedAllMean(cast, vs[1..]);
      assert WireOfAll(cast, vs)[1..] == WireOfAll(cast, vs[1..]);
    }
  }

  /** A value comes back as itself exactly when packing loses nothing of it. */
  lemma {:induction false} ReceivedIsValue(cast: Cast, v: Value)
    requires Packable(v)
    ensures Received(cast, v) == v <==> Faithful(cast, v)
    decreases v
  {
    match v
    case Int(n) => SurvivesConversion(cast, n);
    case Table(items, entries) =>
      hide TableOk;
      ReceivedAreValues(cast, items);
      ReceivedAreValues(cast, entries);
    case _ =>
  }

  lemma {:induction false} ReceivedAreValues(cast: Cast, vs: seq<Value>)
    requires forall x :: x in vs ==> Packable(x)
    ensures ReceivedAll(cast, vs) == vs <==> forall x :: x in vs ==> Faithful(cast, x)
    decreases vs
  {
    hide Packable, Faithful, Received;
    if vs != [] {
      ReceivedIsValue(cast, vs[0]);
      ReceivedAreValues(cast, vs[1..]);
      var rs := ReceivedAll(cast, vs);
      assert rs[1..] == ReceivedAll(cast, vs[1..]);
      assert rs == vs <==> rs[0] == vs[0] && rs[1..] == vs[1..];
      assert forall x :: x in vs <==> x == vs[0] || x in vs[1..];
    }
  }

  /** No integral number of the value is outside the range of long long. */
  ghost predicate AllInRange(v: Value) {
    match v
    case Int(n) => InRange(n)
    case Table(items, es) => (forall x :: x in items ==> AllInRange(x)) && forall x :: x in es ==> AllInRange(x)
    case _ => true
  }

  /** Where an out-of-range conversion gives -2^63, all integers survive exactly when all are in range. */
  lemma {:induction false} SurvivingIsInRange(cast: Cast, v: Value)
    requires Packable(v) && cast(TWO63) == -TWO63
    ensures AllSurvive(cast, v) <==> AllInRange(v)
    decreases v
  {
    match v
    case Int(n) => SurvivesWithIndefinite(cast, n);
    case Table(items, es) =>
      hide TableOk;
      forall x | x in items ensures AllSurvive(cast, x) <==> AllInRange(x) { SurvivingIsInRange(cast, x); }
      forall x | x in es ensures AllSurvive(cast, x) <==> AllInRange(x) { SurvivingIsInRange(cast, x); }
    case _ =>
  }

  /** {1, x = 2}: the array of its one item is packed. */
  const MIXED := Table([Int(1)], [Str([0x78]), Int(2)])

  /** {1, nil, 3, nil}, when lua_objlen finds the border behind the 1. */
  const BROKEN := Table([Int(1)], [Int(3), Int(3)])

  lemma MixedIsPackable(cast: Cast, v: Value)
    requires v in {MIXED, BROKEN}
    ensures Packable(v) && AllSurvive(cast, v) && !Unmixed(v)
  {
    hide TableOk;
    assert Representable(1) && Representable(2) && Representable(3);
    MixedTable(v);
  }

  lemma MixedTable(v: Value)
    requires v in {MIXED, BROKEN}
    ensures TableOk(v.items, v.entries)
  {
  }

  /** What is packed of a table whose only item is 1. */
  lemma MixedIsCut(cast: Cast, es: seq<Value>)
    ensures var v := Table([Int(1)], es);
      Faults(v) == {} && Encode(cast, v) == [0x91, 1] && Received(cast, v) == Table([Int(1)], [])
  {
    hide Rounded;
    var one := [Int(1)];
    SmallRounds(1);
    assert FaultsAll(one) == Faults(Int(1)) + FaultsAll([]);
    assert WireOfAll(cast, one) == [Small(1)];
    assert BytesAll([Small(1)]) == [1] + BytesAll([]);
    assert ReceivedAll(cast, one) == one;
  }
}
