/** Which number the bytes behind a type byte are, against encoders of their own: the IEEE 754 bits of
    every integer that a double holds, and the two's complement of every integer of a width. */
module MpackDoubles {
  import opened ByteSeq
  import opened MpackNumber
  import opened MpackWire
  import opened MpackReader

  // ---------------------------------------------------------------- the bits of an integer

  /** The exponent of the largest power of two that is not above a. */
  function Log2(a: nat): nat
    requires a > 0
  {
    if a == 1 then 0 else 1 + Log2(a / 2)
  }

  /** The integers that doubles are. */
  predicate IsDouble(n: int) { Representable(n) && Abs(n) < Pow2(1024) }

  /** The binary fraction of 52 digits behind the leading 1. */
  function Fraction(a: nat): nat
    requires a > 0
  {
    var l := Log2(a);
    (if l < 52 then a * Pow2(52 - l) else a / Pow2(l - 52)) % TWO52
  }

  /** Sign, exponent and fraction as one number of 64 bits. */
  function IeeeNumber(n: int): nat {
    if n == 0 then 0 else
    (if n < 0 then TWO63 else 0) + (1023 + Log2(Abs(n))) * TWO52 + Fraction(Abs(n))
  }

  /** The double format of section 3.4 of IEEE 754. */
  function IeeeBits(n: int): seq<byte> { BigEndian(IeeeNumber(n), 8) }

  const MINUS_ZERO: seq<byte> := [0x80, 0, 0, 0, 0, 0, 0, 0]

  lemma {:induction false} LogBounds(a: nat)
    requires a > 0
    ensures Pow2(Log2(a)) <= a < 2 * Pow2(Log2(a))
  {
    if a > 1 {
      LogBounds(a / 2);
    }
  }

  lemma LogIsUnique(a: nat, l: nat)
    requires Pow2(l) <= a < 2 * Pow2(l)
    ensures Log2(a) == l
  {
    LogBounds(a);
    var low, high := if l < Log2(a) then l else Log2(a), if l < Log2(a) then Log2(a) else l;
    if low < high {
      Pow2Grows(low + 1, high);
    }
  }

  lemma {:induction false} PowersMultiply(j: nat, k: nat)
    ensures Pow2(j + k) == Pow2(j) * Pow2(k)
  {
    if j > 0 {
      PowersMultiply(j - 1, k);
      assert Pow2(j) * Pow2(k) == 2 * (Pow2(j - 1) * Pow2(k));
    }
  }

  lemma NextPower(k: nat)
    ensures Pow2(k + 1) == 2 * Pow2(k)
  {
  }

  lemma Pow13()
    ensures Pow2(13) == 8192
  {
    assert Pow2(6) == 64;
  }

  lemma Pow52()
    ensures Pow2(52) == TWO52 && Pow2(53) == TWO53
  {
    hide Pow2;
    Pow13();
    PowersMultiply(13, 13);
    PowersMultiply(26, 26);
    NextPower(52);
  }

  // ---------------------------------------------------------------- the fields

  lemma LastByte(s: seq<byte>, c: byte)
    ensures FromBigEndian(s + [c]) == 256 * FromBigEndian(s) + c
  {
    assert (s + [c])[..|s|] == s;
  }

  lemma Shifted(x: nat, k: nat)
    ensures x * Pow256(k + 1) == 256 * (x * Pow256(k)) && x * Pow256(0) == x
  {
  }

  lemma {:induction false} BytesBehind(a: seq<byte>, b: seq<byte>)
    ensures FromBigEndian(a + b) == FromBigEndian(a) * Pow256(|b|) + FromBigEndian(b)
  {
    hide FromBigEndian, Pow256;
    if b == [] {
      assert a + b == a;
      Shifted(FromBigEndian(a), 0);
      NoBytes();
    } else {
      var b0, c := b[..|b| - 1], b[|b| - 1];
      assert b == b0 + [c] && a + b == (a + b0) + [c];
      BytesBehind(a, b0);
      LastByte(a + b0, c);
      LastByte(b0, c);
      Shifted(FromBigEndian(a), |b0|);
    }
  }

  lemma NoBytes()
    ensures FromBigEndian([]) == 0
  {
  }

  function Tail(bits: seq<byte>): nat
    requires |bits| == 8
  {
    0x1_0000_0000_0000 * (bits[1] as int % 16) + FromBigEndian(bits[2..])
  }

  /** The number of the eight bytes is made of the sign, the exponent and the fraction. */
  lemma Fields(bits: seq<byte>)
    requires |bits| == 8
    ensures FromBigEndian(bits) == (if bits[0] < 128 then 0 else TWO63) + Exponent(bits) * TWO52 + Tail(bits)
    ensures Exponent(bits) < 2048 && Tail(bits) < TWO52
  {
    hide FromBigEndian, BigEndian;
    BigEndianInverts(bits[2..]);
    assert Pow256(6) == 0x1_0000_0000_0000 by { assert Pow256(3) == 0x100_0000; }
    assert bits == bits[..2] + bits[2..];
    BytesBehind(bits[..2], bits[2..]);
    assert bits[..2] == [bits[0]] + [bits[1]];
    LastByte([bits[0]], bits[1]);
    OneByte(bits[0]);
  }

  /** And of no others. */
  lemma FieldsAreUnique(s: bool, t: bool, e: nat, f: nat, d: nat, g: nat)
    requires e < 2048 && f < 2048 && d < TWO52 && g < TWO52
    requires (if s then TWO63 else 0) + e * TWO52 + d == (if t then TWO63 else 0) + f * TWO52 + g
    ensures s == t && e == f && d == g
  {
  }

  lemma {:induction false} ZeroBytes(s: seq<byte>)
    ensures FromBigEndian(s) == 0 <==> forall i :: 0 <= i < |s| ==> s[i] == 0
  {
    if s != [] {
      ZeroBytes(s[..|s| - 1]);
    }
  }

  /** NaN and infinity have all ones in the exponent; the fraction tells them apart. */
  lemma SpecialDoubles(bits: seq<byte>)
    requires |bits| == 8
    ensures IsNaN(bits) <==> Exponent(bits) == 2047 && Tail(bits) != 0
    ensures IsInf(bits) <==> Exponent(bits) == 2047 && Tail(bits) == 0
  {
    ZeroBytes(bits[2..]);
  }

  // ---------------------------------------------------------------- an integral double is its integer

  /** The magnitude that significand and power make, where it is an integer. */
  ghost predicate Makes(m: nat, p: int, a: nat) {
    if p >= 0 then a == m * Pow2(p) else m == a * Pow2(-p)
  }

  lemma IntegralMakes(bits: seq<byte>)
    requires |bits| == 8 && Integral(bits)
    ensures Makes(Significand(bits), Power(bits), Abs(IntegerOf(bits)))
    ensures IntegerOf(bits) < 0 ==> bits[0] >= 128
    ensures IntegerOf(bits) > 0 ==> bits[0] < 128
  {
    hide Significand, Power, Pow2;
    if Power(bits) < 0 {
      Exactly(Significand(bits), Pow2(-Power(bits)));
    }
  }

  lemma Exactly(m: nat, u: nat)
    requires u > 0 && m % u == 0
    ensures m / u >= 0 && m == m / u * u
  {
  }

  lemma MakesIntegral(bits: seq<byte>, a: nat)
    requires |bits| == 8 && Exponent(bits) < 2047 && Makes(Significand(bits), Power(bits), a)
    ensures Integral(bits) && IntegerOf(bits) == if bits[0] < 128 then a else 0 - a
  {
    hide Significand, Power, Pow2;
    if Power(bits) < 0 {
      Division(Significand(bits), Pow2(-Power(bits)), a, 0);
    }
  }

  /** 53 bits with a leading 1 are the first 53 bits of the magnitude they make. */
  lemma NormalMakes(m: nat, p: int, a: nat)
    requires TWO52 <= m < TWO53 && Makes(m, p, a) && p >= -1074
    ensures a > 0 && Log2(a) == 52 + p && Fraction(a) == m - TWO52
  {
    hide Log2;
    Pow52();
    if p >= 0 {
      ScaledUp(m, p);
    } else {
      ScaledDown(m, -p, a);
    }
  }

  lemma ScaledUp(m: nat, p: nat)
    requires TWO52 <= m < TWO53
    ensures m * Pow2(p) > 0 && Log2(m * Pow2(p)) == 52 + p && m * Pow2(p) / Pow2(p) == m
  {
    hide Log2, Pow2;
    Pow52();
    PowersMultiply(52, p);
    Ordered(TWO52, m, Pow2(p));
    Ordered(m + 1, TWO53, Pow2(p));
    assert (m + 1) * Pow2(p) == m * Pow2(p) + Pow2(p);
    LogIsUnique(m * Pow2(p), 52 + p);
    Division(m * Pow2(p), Pow2(p), m, 0);
  }

  lemma Cancelled(a: nat, b: nat, u: nat)
    ensures a * u < b * u ==> a < b
  {
    if b <= a {
      Ordered(b, a, u);
    }
  }

  lemma ScaledDown(m: nat, k: nat, a: nat)
    requires TWO52 <= m < TWO53 && m == a * Pow2(k) && k > 0
    ensures k <= 52 && a > 0 && Log2(a) == 52 - k
  {
    hide Log2, Pow2;
    Pow52();
    if k > 52 {
      Pow2Grows(53, k);
      Ordered(1, a, Pow2(k));
      assert false;
    }
    var low := Pow2(52 - k);
    PowersMultiply(52 - k, k);
    Cancelled(low - 1, a, Pow2(k));
    assert (low - 1) * Pow2(k) == TWO52 - Pow2(k);
    Cancelled(a, 2 * low, Pow2(k));
    assert 2 * low * Pow2(k) == TWO53;
    LogIsUnique(a, 52 - k);
  }

  lemma {:induction false} UlpByLog(a: nat)
    requires a >= TWO52
    ensures Log2(a) >= 52 && Ulp(a) == Pow2(Log2(a) - 52)
  {
    Pow52();
    if a < TWO53 {
      LogIsUnique(a, 52);
    } else {
      UlpByLog(a / 2);
    }
  }

  lemma SmallSignificand(a: nat, l: nat)
    requires l < 52 && Pow2(l) <= a < 2 * Pow2(l)
    ensures TWO52 <= a * Pow2(52 - l) < TWO53
  {
    hide Pow2;
    Pow52();
    var u := Pow2(52 - l);
    PowersMultiply(l, 52 - l);
    Ordered(Pow2(l), a, u);
    Ordered(a + 1, 2 * Pow2(l), u);
    assert (a + 1) * u == a * u + u;
    assert 2 * Pow2(l) * u == TWO53;
  }

  lemma LargeSignificand(a: nat, l: nat)
    requires l >= 52 && Pow2(l) <= a < 2 * Pow2(l) && a % Pow2(l - 52) == 0
    ensures TWO52 <= a / Pow2(l - 52) < TWO53 && a == a / Pow2(l - 52) * Pow2(l - 52)
  {
    hide Pow2;
    Pow52();
    var u := Pow2(l - 52);
    PowersMultiply(52, l - 52);
    Exactly(a, u);
    Cancelled(TWO52 - 1, a / u, u);
    assert (TWO52 - 1) * u == Pow2(l) - u;
    Cancelled(a / u, TWO53, u);
    assert TWO53 * u == 2 * Pow2(l);
  }

  /** An integer that doubles hold is made of 53 bits. */
  lemma HasSignificand(a: nat) returns (m: nat)
    requires a > 0 && Representable(a)
    ensures TWO52 <= m < TWO53 && Makes(m, Log2(a) - 52, a) && Fraction(a) == m - TWO52
  {
    hide Log2, Ulp, Pow2;
    LogBounds(a);
    var l := Log2(a);
    if l < 52 {
      SmallSignificand(a, l);
      m := a * Pow2(52 - l);
    } else {
      Pow52();
      Pow2Grows(52, l);
      UlpByLog(a);
      LargeSignificand(a, l);
      m := a / Pow2(l - 52);
    }
  }

  lemma LogBelow(a: nat, k: nat)
    requires 0 < a < Pow2(k)
    ensures Log2(a) < k
  {
    LogBounds(a);
    if Log2(a) >= k {
      Pow2Grows(k, Log2(a));
    }
  }

  lemma IeeeFits(n: int)
    requires IsDouble(n)
    ensures IeeeNumber(n) < Pow256(8) && FromBigEndian(IeeeBits(n)) == IeeeNumber(n)
  {
    hide Log2, Fraction, Pow2, Representable, BigEndian, FromBigEndian;
    Powers();
    if n != 0 {
      LogBelow(Abs(n), 1024);
      FractionBound(Abs(n));
    }
    FromBigEndianInverts(IeeeNumber(n), 8);
  }

  lemma FieldsMake(bits: seq<byte>)
    requires |bits| == 8
    ensures Significand(bits) == (if Exponent(bits) == 0 then 0 else TWO52) + Tail(bits)
    ensures Power(bits) == (if Exponent(bits) == 0 then 1 else Exponent(bits)) - 1075
  {
  }

  lemma FractionBound(a: nat)
    requires a > 0
    ensures Fraction(a) < TWO52
  {
  }

  /** The IEEE bits of an integer are read as that integer. */
  lemma BitsOfInteger(n: int)
    requires IsDouble(n)
    ensures DoubleValue(IeeeBits(n)) == Int(n)
  {
    hide Log2, Fraction, Pow2, BigEndian, FromBigEndian, Integral, IntegerOf, Exponent, Tail, Significand, Power;
    var bits := IeeeBits(n);
    IeeeFits(n);
    Fields(bits);
    FieldsMake(bits);
    SpecialDoubles(bits);
    PowerOfZero();
    if n == 0 {
      FieldsAreUnique(bits[0] >= 128, false, Exponent(bits), 0, Tail(bits), 0);
      MakesIntegral(bits, 0);
    } else {
      var a := Abs(n);
      var m := HasSignificand(a);
      LogBelow(a, 1024);
      FieldsAreUnique(bits[0] >= 128, n < 0, Exponent(bits), 1023 + Log2(a), Tail(bits), Fraction(a));
      MakesIntegral(bits, a);
    }
  }

  lemma MinusZeroNumber()
    ensures FromBigEndian(MINUS_ZERO) == TWO63
  {
    hide FromBigEndian;
    ZeroBytes(MINUS_ZERO[2..]);
    Fields(MINUS_ZERO);
  }

  /** And no other bits are, but the second zero's. */
  lemma IntegerHasOnlyBits(bits: seq<byte>)
    requires |bits| == 8 && Integral(bits)
    ensures var n := IntegerOf(bits); IsDouble(n) && (bits == IeeeBits(n) || (n == 0 && bits == MINUS_ZERO))
  {
    hide Log2, Fraction, Pow2, BigEndian, FromBigEndian, Integral, IntegerOf, Representable;
    var n := IntegerOf(bits);
    IntegralIsRepresentable(bits);
    IntegralMakes(bits);
    Fields(bits);
    BigEndianInverts(bits);
    BigEndianInverts(MINUS_ZERO);
    MinusZeroNumber();
    if Exponent(bits) == 0 {
      TooSmall(Tail(bits), Abs(n));
      Pow2Grows(0, 1024);
      PowerOfZero();
    } else {
      IntegralIsFinite(bits);
      NormalMakes(Significand(bits), Power(bits), Abs(n));
      LogBounds(Abs(n));
      Pow2Grows(Log2(Abs(n)) + 1, 1024);
      NextPower(Log2(Abs(n)));
    }
  }

  lemma IntegralIsFinite(bits: seq<byte>)
    requires |bits| == 8 && Integral(bits)
    ensures Exponent(bits) < 2047
  {
  }

  lemma TooSmall(m: nat, a: nat)
    requires m < TWO52 && m == a * Pow2(1074)
    ensures m == 0 && a == 0
  {
    hide Pow2;
    Pow52();
    Pow2Grows(53, 1074);
    if a > 0 {
      Ordered(1, a, Pow2(1074));
      assert false;
    }
  }

  /** Eight bytes are read as the integer n exactly when they are its IEEE bits, or n is 0 and they are
      those of the second zero. */
  lemma DoublesOfInteger(bits: seq<byte>, n: int)
    requires |bits| == 8
    ensures DoubleValue(bits) == Int(n) <==>
      IsDouble(n) && (bits == IeeeBits(n) || (n == 0 && bits == MINUS_ZERO))
  {
    hide IeeeBits, IsDouble, Integral, IntegerOf, IsNaN;
    if Integral(bits) {
      IntegerHasOnlyBits(bits);
    }
    if IsDouble(n) {
      BitsOfInteger(n);
      if n == 0 {
        MinusZeroIsZero();
      }
    }
  }

  lemma MinusZeroIsZero()
    ensures DoubleValue(MINUS_ZERO) == Int(0)
  {
    hide Integral, IntegerOf;
    ZeroBytes(MINUS_ZERO[2..]);
    SpecialDoubles(MINUS_ZERO);
    MakesIntegral(MINUS_ZERO, 0);
  }

  /** What a peer that sends doubles writes for -1. */
  lemma MinusOneExample(tail: seq<byte>)
    ensures var s := [0xcb, 0xbf, 0xf0, 0, 0, 0, 0, 0, 0];
      UnpackAny(s + tail, START, false) == One(Int(-1), Cursor(9, false, false, false))
  {
    hide UnpackAny, Integral, IntegerOf, Pow2;
    var bits: seq<byte> := [0xbf, 0xf0, 0, 0, 0, 0, 0, 0];
    ZeroBytes(bits[2..]);
    SpecialDoubles(bits);
    FieldsMake(bits);
    Pow52();
    MakesIntegral(bits, 1);
    var w := Scalar(0xcb, bits);
    assert Bytes(w) == [0xcb, 0xbf, 0xf0, 0, 0, 0, 0, 0, 0];
    HoldsAtStart(Bytes(w), tail);
    UnpackWire(Bytes(w) + tail, START, w, false);
  }

  /** The double is NaN, an integer, or stays its bytes, which are then an infinity or have a fraction. */
  lemma EveryDouble(bits: seq<byte>)
    requires |bits| == 8
    ensures DoubleValue(bits) == NaN <==> Exponent(bits) == 2047 && Tail(bits) != 0
    ensures DoubleValue(bits) == Double(bits) <==>
      (Exponent(bits) == 2047 && Tail(bits) == 0)
      || (Exponent(bits) < 2047 && forall a: nat :: !Makes(Significand(bits), Power(bits), a))
  {
    hide Significand, Power, IntegerOf, Integral, Makes;
    SpecialDoubles(bits);
    Fields(bits);
    SpecialIsNotIntegral(bits);
    if Integral(bits) {
      IntegralMakes(bits);
    } else if Exponent(bits) < 2047 {
      forall a: nat ensures !Makes(Significand(bits), Power(bits), a) {
        if Makes(Significand(bits), Power(bits), a) { MakesIntegral(bits, a); }
      }
    }
  }

  lemma SpecialIsNotIntegral(bits: seq<byte>)
    requires |bits| == 8
    ensures Exponent(bits) == 2047 ==> !Integral(bits)
  {
  }

  // ---------------------------------------------------------------- other payloads

  /** k in z bytes, a negative number as 256^z more. */
  function TwosComplement(k: int, z: nat): seq<byte> { BigEndian(k % Pow256(z), z) }

  /** The integers of the type: unsigned up to 0xcf, signed behind. */
  predicate InType(tag: byte, k: int)
    requires 0xcc <= tag <= 0xd3
  {
    var all := Pow256(PayloadSize(tag));
    if tag < 0xd0 then 0 <= k < all else 0 - all / 2 <= k < all / 2
  }

  /** The bytes behind an integer's type byte are the two's complement of exactly one integer of the type,
      and that is what is read. */
  lemma IntegerPayloads(tag: byte, payload: seq<byte>) returns (k: int)
    requires 0xcc <= tag <= 0xd3 && |payload| == PayloadSize(tag)
    ensures InType(tag, k) && payload == TwosComplement(k, |payload|) && Number(tag, payload) == Int(Rounded(k))
    ensures forall j | InType(tag, j) && payload == TwosComplement(j, |payload|) :: j == k
  {
    hide BigEndian, FromBigEndian, Rounded, Pow256;
    Powers();
    BigEndianInverts(payload);
    k := Signed(tag, FromBigEndian(payload));
    forall j | InType(tag, j) && payload == TwosComplement(j, |payload|) ensures j == k {
      FromBigEndianInverts(j % Pow256(|payload|), |payload|);
    }
  }

  lemma SingleFields(payload: seq<byte>)
    requires |payload| == 4
    ensures var a, b := payload[0] as int, payload[1] as int;
      FromBigEndian(payload) == a / 128 * 0x8000_0000 + (2 * (a % 128) + b / 128) * 0x80_0000
        + (b % 128 * 0x1_0000 + payload[2] as int * 0x100 + payload[3])
  {
    hide FromBigEndian;
    var a, b, c, d := payload[0], payload[1], payload[2], payload[3];
    assert payload == ([a] + [b] + [c]) + [d];
    LastByte([a] + [b] + [c], d);
    LastByte([a] + [b], c);
    LastByte([a], b);
    OneByte(a);
  }

  /** A single-precision number stays its bytes, unless its exponent of eight bits is all ones and its
      fraction of 23 is not 0. */
  lemma SinglePayloads(payload: seq<byte>, sign: bool, e: nat, f: nat)
    requires |payload| == 4 && e < 0x100 && f < 0x80_0000
    requires FromBigEndian(payload) == (if sign then 0x8000_0000 else 0) + e * 0x80_0000 + f
    ensures Number(0xca, payload) == if e == 0xff && f != 0 then NaN else Single(payload)
  {
    hide FromBigEndian;
    SingleFields(payload);
  }

  /** Of two doubles at the same distance the even multiple of the distance between them is taken. */
  lemma TiesToEven(n: int) returns (k: nat)
    requires 2 * Abs(Rounded(n) - n) == Ulp(Abs(n))
    ensures k % 2 == 0 && Abs(Rounded(n)) == k * Ulp(Abs(n))
  {
    hide Ulp, Rounded;
    var q, r, near := RoundedParts(n);
    k := if q % 2 == 0 then q else q + 1;
    TieIsEven(q, Ulp(Abs(n)), r, near);
  }

  lemma RoundedParts(n: int) returns (q: nat, r: nat, near: int)
    ensures var u := Ulp(Abs(n));
      && Abs(n) == q * u + r && r < u && near == Abs(Rounded(n)) && Abs(near - (q * u + r)) == Abs(Rounded(n) - n)
      && near == (if 2 * r < u || (2 * r == u && q % 2 == 0) then q * u else q * u + u)
  {
    hide Ulp;
    var a, u := Abs(n), Ulp(Abs(n));
    q, r, near := a / u, a % u, Abs(Rounded(n));
    assert a == q * u + r;
  }

  lemma TieIsEven(q: nat, u: nat, r: nat, near: int)
    requires near == (if 2 * r < u || (2 * r == u && q % 2 == 0) then q * u else q * u + u)
    requires r < u && 2 * Abs(near - (q * u + r)) == u
    ensures near == (if q % 2 == 0 then q else q + 1) * u
  {
    assert (q + 1) * u == q * u + u;
  }
}
