/** The numbers of Lua: doubles, the integers among them, and their conversions to and from long long. */
module MpackNumber {
  import opened ByteSeq

  const TWO52: nat := 0x10_0000_0000_0000
  const TWO53: nat := 0x20_0000_0000_0000
  const TWO63: int := 0x8000_0000_0000_0000

  function Pow2(k: nat): (p: nat)
    ensures p > 0
  {
    if k == 0 then 1 else 2 * Pow2(k - 1)
  }

  // ---------------------------------------------------------------- the bits of a double

  predicate IsNaN(bits: seq<byte>)
    requires |bits| == 8
  {
    && bits[0] % 128 == 127 && bits[1] >= 0xf0
    && (bits[1] > 0xf0 || exists i :: 2 <= i < 8 && bits[i] != 0)
  }

  predicate IsInf(bits: seq<byte>)
    requires |bits| == 8
  {
    bits[0] % 128 == 127 && bits[1] == 0xf0 && forall i :: 2 <= i < 8 ==> bits[i] == 0
  }

  /** The same for a single-precision number. */
  predicate IsSingleNaN(bits: seq<byte>)
    requires |bits| == 4
  {
    bits[0] % 128 == 127 && bits[1] >= 0x80 && (bits[1] > 0x80 || bits[2] != 0 || bits[3] != 0)
  }

  function Exponent(bits: seq<byte>): nat
    requires |bits| == 8
  {
    16 * (bits[0] as int % 128) + bits[1] as int / 16
  }

  /** The 53 bits in front of the power of two; the first is left out of the bytes unless it is 0. */
  function Significand(bits: seq<byte>): nat
    requires |bits| == 8
  {
    (if Exponent(bits) == 0 then 0 else TWO52) + 0x1_0000_0000_0000 * (bits[1] as int % 16) + FromBigEndian(bits[2..])
  }

  function Power(bits: seq<byte>): int
    requires |bits| == 8
  {
    (if Exponent(bits) == 0 then 1 else Exponent(bits)) - 1075
  }

  /** floor(n) == n, for a number that is neither infinite nor a NaN. */
  predicate Integral(bits: seq<byte>)
    requires |bits| == 8
  {
    Exponent(bits) < 2047 && (Power(bits) >= 0 || Significand(bits) % Pow2(-Power(bits)) == 0)
  }

  /** The integer that an integral double is; the two zeros are one. */
  function IntegerOf(bits: seq<byte>): int
    requires |bits| == 8 && Integral(bits)
  {
    var m := if Power(bits) >= 0 then Significand(bits) * Pow2(Power(bits)) else Significand(bits) / Pow2(-Power(bits));
    if bits[0] < 128 then m else 0 - m
  }

  // ---------------------------------------------------------------- integers that a double holds

  function Abs(n: int): nat { if n < 0 then -n else n }

  /** The distance between neighbouring doubles at magnitude a, where it is at least 1. */
  function Ulp(a: nat): (u: nat)
    ensures u > 0
  {
    if a < TWO53 then 1 else 2 * Ulp(a / 2)
  }

  predicate Representable(n: int) { Abs(n) % Ulp(Abs(n)) == 0 }

  /** lua_pushnumber of an integer: the nearest double, the even one of two. */
  function Rounded(n: int): int {
    var a, u := Abs(n), Ulp(Abs(n));
    var r := a % u;
    var near := if 2 * r < u || (2 * r == u && a / u % 2 == 0) then a - r else a - r + u;
    if n < 0 then 0 - near else near
  }

  lemma RoundedIsExact(n: int)
    ensures Rounded(n) == n <==> Representable(n)
    ensures 2 * Abs(Rounded(n) - n) <= Ulp(Abs(n))
  {
    hide Ulp;
  }

  /** Below 2^53 times a power of two, the distance divides that power. */
  lemma {:induction false} UlpDivides(a: nat, k: nat)
    requires a < TWO53 * Pow2(k)
    ensures Pow2(k) % Ulp(a) == 0
    decreases k
  {
    if a >= TWO53 {
      assert k > 0;
      assert a / 2 < TWO53 * Pow2(k - 1);
      UlpDivides(a / 2, k - 1);
      Doubled(Pow2(k - 1), Ulp(a / 2));
    }
  }

  lemma Doubled(x: nat, u: nat)
    requires u > 0 && x % u == 0
    ensures 2 * x % (2 * u) == 0
  {
    Division(2 * x, 2 * u, x / u, 0);
  }

  lemma {:induction false} Ordered(a: nat, b: nat, u: nat)
    requires a <= b
    ensures a * u <= b * u
  {
    if u > 0 {
      Ordered(a, b, u - 1);
      assert a * u == a * (u - 1) + a && b * u == b * (u - 1) + b;
    }
  }

  /** Quotient and remainder are unique. */
  lemma Division(x: nat, u: nat, q: nat, r: nat)
    requires x == u * q + r && r < u
    ensures x / u == q && x % u == r
  {
    var p := x / u;
    var high, low := if p < q then q else p, if p < q then p else q;
    if low < high {
      Ordered(low + 1, high, u);
    }
    assert (low + 1) * u == low * u + u;
  }

  /** 53 bits times a power of two are held exactly. */
  lemma {:induction false} ShiftedIsRepresentable(m: nat, k: nat)
    requires m < TWO53
    ensures Representable(m * Pow2(k)) && Representable(0 - m * Pow2(k))
    decreases k
  {
    if k > 0 && m * Pow2(k) >= TWO53 {
      var half := m * Pow2(k - 1);
      assert m * Pow2(k) == 2 * half;
      ShiftedIsRepresentable(m, k - 1);
      Doubled(half, Ulp(half));
      assert 2 * half / 2 == half;
    }
  }

  lemma {:induction false} UlpIsPower(a: nat) returns (e: nat)
    ensures Ulp(a) == Pow2(e) && a < TWO53 * Pow2(e)
    decreases a
  {
    e := 0;
    if a >= TWO53 {
      var d := UlpIsPower(a / 2);
      e := d + 1;
      assert TWO53 * Pow2(e) == 2 * (TWO53 * Pow2(d));
    }
  }

  lemma QuotientBound(a: nat, u: nat, bound: nat)
    requires u > 0 && a < bound * u
    ensures a / u < bound
  {
    var q := a / u;
    assert a == u * q + a % u;
    if q >= bound {
      Ordered(bound, q, u);
    }
  }

  /** Rounding gives one of the two multiples of the distance next to the number. */
  lemma RoundedIsMultiple(n: int)
    ensures var u, q := Ulp(Abs(n)), Abs(n) / Ulp(Abs(n));
      Rounded(n) in {q * u, (q + 1) * u, 0 - q * u, 0 - (q + 1) * u}
  {
    hide Ulp;
    var a, u := Abs(n), Ulp(Abs(n));
    var q := a / u;
    assert a - a % u == q * u;
    assert q * u + u == (q + 1) * u;
  }

  /** The nearest double is one. */
  lemma RoundedIsRepresentable(n: int)
    ensures Representable(Rounded(n))
  {
    hide Ulp, Pow2, Representable, Rounded;
    var a := Abs(n);
    var e := UlpIsPower(a);
    QuotientBound(a, Pow2(e), TWO53);
    RoundedIsMultiple(n);
    MultipleIsRepresentable(a / Pow2(e), e);
    MultipleIsRepresentable(a / Pow2(e) + 1, e);
  }

  lemma MultipleIsRepresentable(m: nat, e: nat)
    requires m <= TWO53
    ensures Representable(m * Pow2(e)) && Representable(0 - m * Pow2(e))
  {
    hide Representable;
    if m < TWO53 {
      ShiftedIsRepresentable(m, e);
    } else {
      ShiftedIsRepresentable(TWO52, e + 1);
      assert TWO52 * Pow2(e + 1) == m * Pow2(e);
    }
  }

  lemma SignificandBound(bits: seq<byte>)
    requires |bits| == 8
    ensures Significand(bits) < TWO53
  {
    BigEndianInverts(bits[2..]);
    assert Pow256(6) == 0x1_0000_0000_0000 by {
      assert Pow256(3) == 0x100_0000;
    }
  }

  lemma QuotientSmaller(m: nat, p: nat)
    requires p > 0
    ensures 0 <= m / p <= m
  {
    var q, r := m / p, m % p;
    assert m == p * q + r;
    AtLeastOnce(p, q);
  }

  lemma {:induction false} AtLeastOnce(p: nat, q: nat)
    requires p > 0
    ensures p * q >= q
  {
    if p > 1 {
      AtLeastOnce(p - 1, q);
      assert p * q == (p - 1) * q + q;
    }
  }

  lemma PowerOfZero()
    ensures Pow2(0) == 1
  {
  }

  /** An integral double is an integer that doubles hold exactly. */
  lemma IntegralIsRepresentable(bits: seq<byte>)
    requires |bits| == 8 && Integral(bits)
    ensures Representable(IntegerOf(bits))
  {
    hide Significand, Power, Pow2, Ulp, Representable;
    SignificandBound(bits);
    var m := Significand(bits);
    if Power(bits) >= 0 {
      ShiftedIsRepresentable(m, Power(bits));
    } else {
      var q := m / Pow2(-Power(bits));
      QuotientSmaller(m, Pow2(-Power(bits)));
      ShiftedIsRepresentable(q, 0);
      PowerOfZero();
    }
  }

  // ---------------------------------------------------------------- long long

  type LongLong = x: int | -TWO63 <= x < TWO63

  /** What a conversion to long long gives outside the range of long long, where C leaves it open. */
  type Cast = int -> LongLong

  predicate InRange(n: int) { -TWO63 <= n < TWO63 }

  /** (long long)n for an integral n. */
  function ToLongLong(cast: Cast, n: int): LongLong { if InRange(n) then n else cast(n) }

  /** n comes back from the conversion and from the rounding of its result: it is in range, or it is
      2^63 and the machine's conversion lands so near to it that it rounds up again. */
  predicate Survives(cast: Cast, n: int) {
    InRange(n) || (n == TWO63 && Rounded(cast(n)) == TWO63)
  }

  lemma RoundedBound(n: int)
    requires -TWO63 <= n <= TWO63
    ensures -TWO63 <= Rounded(n) <= TWO63
  {
    hide Ulp;
    var a, u := Abs(n), Ulp(Abs(n));
    if a < TWO63 {
      assert Pow2(10) == 1024 by { assert Pow2(5) == 32; }
      UlpDivides(a, 10);
      NextBelow(a, u, 1024 / u);
    } else {
      TopIsRepresentable();
      RoundedIsExact(n);
    }
  }

  /** The multiples of u next to a lie no higher than 2^63. */
  lemma NextBelow(a: nat, u: nat, d: nat)
    requires u > 0 && 1024 == u * d && a < TWO63
    ensures 0 <= a - a % u <= TWO63 && a - a % u + u <= TWO63
  {
    var q, top := a / u, TWO53 * d;
    assert a - a % u == q * u;
    assert top * u == TWO53 * (d * u) == TWO63;
    var low := if top < q then top else q;
    Ordered(low, q, u);
    if q < top {
      Ordered(q + 1, top, u);
    }
    assert (q + 1) * u == q * u + u;
  }

  lemma TopIsRepresentable()
    ensures Representable(TWO63) && Representable(0 - TWO63)
  {
    ShiftedIsRepresentable(TWO52, 11);
    assert Pow2(11) == 2048 by { assert Pow2(5) == 32; }
  }

  /** The nearest double of the converted integer is that integer exactly when it survives. */
  lemma SurvivesConversion(cast: Cast, n: int)
    requires Representable(n)
    ensures Rounded(ToLongLong(cast, n)) == n <==> Survives(cast, n)
  {
    hide Rounded, Representable;
    RoundedIsExact(n);
    RoundedBound(ToLongLong(cast, n));
  }

  /** Where the conversion gives -2^63 out of range, exactly the integers in range survive. */
  lemma SurvivesWithIndefinite(cast: Cast, n: int)
    requires Representable(n) && cast(TWO63) == -TWO63
    ensures Survives(cast, n) <==> InRange(n)
  {
    hide Rounded;
    TopIsRepresentable();
    RoundedIsExact(-TWO63);
  }

  /** Where it saturates, 2^63 survives as well. */
  lemma SurvivesWithSaturation(cast: Cast)
    requires cast(TWO63) == TWO63 - 1
    ensures Survives(cast, TWO63)
  {
    UlpBelow(10);
    assert Pow2(10) == 1024 by { assert Pow2(5) == 32; }
  }

  lemma {:induction false} UlpBelow(k: nat)
    ensures Ulp(TWO53 * Pow2(k) - 1) == Pow2(k)
  {
    if k > 0 {
      UlpBelow(k - 1);
      assert (TWO53 * Pow2(k) - 1) / 2 == TWO53 * Pow2(k - 1) - 1;
    }
  }

  lemma {:induction false} Pow2Grows(j: nat, k: nat)
    requires j <= k
    ensures Pow2(j) <= Pow2(k)
  {
    if j < k {
      Pow2Grows(j, k - 1);
    }
  }

  /** 1e300. */
  const HUGE: seq<byte> := [0x7e, 0x37, 0xe4, 0x3c, 0x88, 0x00, 0x75, 0x9c]

  lemma HugeIsOutOfRange()
    ensures Integral(HUGE) && IntegerOf(HUGE) > TWO63 && Representable(IntegerOf(HUGE))
  {
    hide Representable;
    assert Exponent(HUGE) == 0x7e3 && Power(HUGE) == 944;
    assert Pow2(12) == 4096 by { assert Pow2(6) == 64; }
    Pow2Grows(12, 944);
    ProductBound(Significand(HUGE), Pow2(944));
    IntegralIsRepresentable(HUGE);
  }

  lemma ProductBound(m: nat, p: nat)
    requires m >= TWO52 && p >= 4096
    ensures m * p > TWO63
  {
    assert m * p >= TWO52 * p >= TWO52 * 4096;
  }
}
