/** The packer's form of a value is the shortest there is. */
module MpackShortest {
  import opened ByteSeq
  import opened MpackNumber
  import opened MpackWire

  /** No number in the message is of single precision, a form that the packer never writes. */
  ghost predicate NoSingles(w: Wire) {
    match w
    case Scalar(tag, _) => tag != 0xca
    case Container(_, _, items) => forall x :: x in items ==> NoSingles(x)
    case _ => true
  }

  // ---------------------------------------------------------------- integers

  /** What fits in a type byte and as many payload bytes. */
  predicate FitsIn(n: int, size: nat) {
    && (size < 2 ==> -32 <= n < 0x80) && (size < 3 ==> -0x80 <= n < 0x100)
    && (size < 5 ==> -0x8000 <= n < 0x1_0000) && (size < 9 ==> -0x8000_0000 <= n < 0x1_0000_0000)
  }

  lemma ExactBelow(n: int)
    requires Abs(n) < TWO53
    ensures Rounded(n) == n
  {
  }

  lemma MessageFits(w: Wire)
    requires WellFormed(w) && NoSingles(w) && ValueOf(w).Int?
    ensures FitsIn(ValueOf(w).n, |Bytes(w)|)
  {
    hide Rounded, FromBigEndian, DoubleValue, BytesAll;
    match w
    case Small(_) =>
    case Scalar(tag, payload) =>
      if |payload| < 8 {
        Powers();
        BigEndianInverts(payload);
        ExactBelow(Signed(tag, FromBigEndian(payload)));
      }
    case Raw(_, _) =>
    case Container(_, _, _) =>
  }

  /** Rounding leaves the class of an integer's size. */
  lemma {:induction false} UlpIsSmaller(a: nat)
    requires a >= TWO52
    ensures TWO52 * Ulp(a) <= a
  {
    if a >= TWO53 {
      UlpIsSmaller(a / 2);
    }
  }

  lemma LargeStaysLarge(n: int)
    ensures n >= 0x1_0000_0000 ==> Rounded(n) >= 0x1_0000_0000
    ensures n < -0x8000_0000 ==> Rounded(n) < -0x8000_0000
  {
    hide Ulp, Rounded;
    if Abs(n) < TWO53 {
      ExactBelow(n);
    } else {
      RoundedIsExact(n);
      UlpIsSmaller(Abs(n));
    }
  }

  lemma IntSize(n: LongLong)
    ensures FitsIn(n, |Bytes(IntWire(n))|)
    ensures |Bytes(IntWire(n))| in {1, 2, 3, 5, 9}
    ensures |Bytes(IntWire(n))| > 1 ==> !(-32 <= n < 0x80)
    ensures |Bytes(IntWire(n))| > 2 ==> !(-0x80 <= n < 0x100)
    ensures |Bytes(IntWire(n))| > 3 ==> !(-0x8000 <= n < 0x1_0000)
    ensures |Bytes(IntWire(n))| > 5 ==> !(-0x8000_0000 <= n < 0x1_0000_0000)
  {
    hide BigEndian;
  }

  lemma ShortestInt(n: LongLong, w: Wire)
    requires WellFormed(w) && NoSingles(w) && ValueOf(w) == Int(Rounded(n))
    ensures |Bytes(w)| >= |Bytes(IntWire(n))|
  {
    hide Rounded, WellFormed, ValueOf, NoSingles, Bytes;
    MessageFits(w);
    IntSize(n);
    LargeStaysLarge(n);
    if Abs(n) < TWO53 {
      ExactBelow(n);
    }
  }

  // ---------------------------------------------------------------- whole values

  lemma ShortestRaw(s: seq<byte>, w: Wire)
    requires WellFormed(w) && ValueOf(w) == Str(s)
    ensures |Bytes(w)| >= |Bytes(Raw(RawWidth(|s|), s))|
  {
    hide BigEndian, FromBigEndian, Integral, IsNaN, IntegerOf, Rounded, BytesAll;
  }

  lemma ShortestHeader(asMap: bool, isMap: bool, width: Width, n: nat)
    requires WellFormedCount(width, n)
    ensures |ContainerHeader(asMap, CountWidth(n), n)| <= |ContainerHeader(isMap, width, n)|
  {
    hide BigEndian;
  }

  lemma ContainerParts(w: Wire)
    requires WellFormed(w) && w.Container?
    ensures WellFormedCount(w.width, Count(w.isMap, |w.items|))
    ensures |Bytes(w)| == |ContainerHeader(w.isMap, w.width, Count(w.isMap, |w.items|))| + |BytesAll(w.items)|
    ensures ValueOf(w) == TableOf(w.isMap, ValuesOf(w.items))
  {
    hide ContainerHeader, BytesAll, ValuesOf;
  }

  lemma OnlyContainersAreTables(w: Wire)
    requires WellFormed(w) && ValueOf(w).Table?
    ensures w.Container?
  {
  }

  /** No well-formed message without single-precision numbers that has the value of a packed one is shorter. */
  lemma {:induction false} Shortest(cast: Cast, v: Value, w: Wire)
    requires Packable(v) && Faults(v) == {}
    requires WellFormed(w) && NoSingles(w) && ValueOf(w) == Received(cast, v)
    ensures |Bytes(w)| >= |Encode(cast, v)|
    decreases v, 1
  {
    hide Rounded, IntWire, BigEndian, TableOk, DoubleValue, IsNaN, Integral;
    match v
    case Int(n) => ShortestInt(ToLongLong(cast, n), w);
    case Str(s) => ShortestRaw(s, w);
    case Table(_, _) => ShortestTable(cast, v, w);
    case Double(_) => OnlyDoubles(w);
    case NaN => OnlyDoubles(w);
    case _ =>
  }

  lemma OnlyDoubles(w: Wire)
    requires WellFormed(w) && NoSingles(w) && (ValueOf(w).Double? || ValueOf(w).NaN?)
    ensures |Bytes(w)| == 9
  {
  }

  lemma {:induction false} ShortestTable(cast: Cast, v: Value, w: Wire)
    requires v.Table? && Packable(v) && Faults(v) == {}
    requires WellFormed(w) && NoSingles(w) && ValueOf(w) == Received(cast, v)
    ensures |Bytes(w)| >= |Encode(cast, v)|
    decreases v, 0
  {
    hide ContainerHeader, Bytes, BytesAll, ValueOf, TableOk, WellFormedCount;
    var vs := if v.items != [] then v.items else v.entries;
    OnlyContainersAreTables(w);
    ContainerParts(w);
    PackedMeans(cast, v);
    ContainerParts(WireOf(cast, v));
    ShortestHeader(v.items == [], w.isMap, w.width, Count(w.isMap, |w.items|));
    assert |w.items| == |vs| by { assert |ValuesOf(w.items)| == |ReceivedAll(cast, vs)|; }
    assert ValuesOf(w.items) == ReceivedAll(cast, vs);
    ShortestAll(cast, vs, w.items);
  }

  lemma {:induction false} ShortestAll(cast: Cast, vs: seq<Value>, ws: seq<Wire>)
    requires FaultsAll(vs) == {} && forall x :: x in vs ==> Packable(x)
    requires forall x :: x in ws ==> WellFormed(x) && NoSingles(x)
    requires ValuesOf(ws) == ReceivedAll(cast, vs)
    ensures |BytesAll(ws)| >= |BytesAll(WireOfAll(cast, vs))|
    decreases vs
  {
    hide Packable, Faults, WireOf, WellFormed, NoSingles, ValueOf, Received, Bytes;
    if vs != [] {
      assert ValuesOf(ws)[1..] == ReceivedAll(cast, vs)[1..];
      Shortest(cast, vs[0], ws[0]);
      ShortestAll(cast, vs[1..], ws[1..]);
      assert WireOfAll(cast, vs)[1..] == WireOfAll(cast, vs[1..]);
    }
  }

  /** A NaN of single precision is shorter than the double that the packer writes. */
  lemma SingleIsShorter(cast: Cast)
    ensures var w := Scalar(0xca, [0x7f, 0xc0, 0, 0]);
      WellFormed(w) && ValueOf(w) == Received(cast, NaN) && |Bytes(w)| == 5 && |Encode(cast, NaN)| == 9
  {
  }

  // ---------------------------------------------------------------- known bytes

  lemma LastByte(n: nat, k: nat)
    ensures BigEndian(n, k + 1) == BigEndian(n / 0x100, k) + [n % 0x100] && BigEndian(n, 0) == []
  {
  }

  lemma TwoBytes(n: nat)
    requires n < 0x1_0000
    ensures BigEndian(n, 2) == [n / 0x100, n % 0x100]
  {
    hide BigEndian;
    LastByte(n, 1);
    LastByte(n / 0x100, 0);
  }

  lemma FourBytes(high: nat, low: nat)
    requires high < 0x1_0000 && low < 0x1_0000
    ensures BigEndian(high * 0x1_0000 + low, 4) == [high / 0x100, high % 0x100, low / 0x100, low % 0x100]
  {
    hide BigEndian;
    var n := high * 0x1_0000 + low;
    LastByte(n, 3);
    LastByte(n / 0x100, 2);
    TwoBytes(high);
    assert n % 0x100 == low % 0x100 && n / 0x100 == high * 0x100 + low / 0x100;
  }

  /** One value of each form, and its bytes in the MessagePack format. */
  lemma KnownBytes(cast: Cast)
    ensures Encode(cast, Nil) == [0xc0] && Encode(cast, Bool(false)) == [0xc2] && Encode(cast, Bool(true)) == [0xc3]
    ensures Encode(cast, NaN) == [0xcb, 0xff, 0xf8, 0, 0, 0, 0, 0, 0]
    ensures Encode(cast, Int(127)) == [0x7f] && Encode(cast, Int(128)) == [0xcc, 0x80]
    ensures Encode(cast, Int(0x1234)) == [0xcd, 0x12, 0x34] && Encode(cast, Int(0x1_2345)) == [0xce, 0, 1, 0x23, 0x45]
    ensures Encode(cast, Int(-32)) == [0xe0] && Encode(cast, Int(-33)) == [0xd0, 0xdf]
    ensures Encode(cast, Int(-129)) == [0xd1, 0xff, 0x7f] && Encode(cast, Int(-32769)) == [0xd2, 0xff, 0xff, 0x7f, 0xff]
    ensures Encode(cast, Str([0x61])) == [0xa1, 0x61] && Encode(cast, Table([], [])) == [0x80]
  {
    hide BigEndian;
    TwoBytes(0x1234);
    FourBytes(1, 0x2345);
    TwoBytes(0xff7f);
    FourBytes(0xffff, 0x7fff);
  }
}
