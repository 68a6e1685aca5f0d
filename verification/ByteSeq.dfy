/** Bytes, big-endian integers and the option type shared by the other modules. */
module ByteSeq {

  type byte = x: int | 0 <= x < 256

  datatype Option<+T> = None | Some(value: T)

  function Pow256(k: nat): (p: nat)
    ensures p > 0
  {
    if k == 0 then 1 else 256 * Pow256(k - 1)
  }

  /** The k bytes of n, most significant first (htons, htonl and htonll followed by a copy). */
  function BigEndian(n: nat, k: nat): (s: seq<byte>)
    ensures |s| == k
  {
    if k == 0 then [] else BigEndian(n / 256, k - 1) + [n % 256]
  }

  function FromBigEndian(s: seq<byte>): nat {
    if s == [] then 0 else 256 * FromBigEndian(s[..|s| - 1]) + s[|s| - 1]
  }

  lemma {:induction false} FromBigEndianInverts(n: nat, k: nat)
    requires n < Pow256(k)
    ensures FromBigEndian(BigEndian(n, k)) == n
  {
    if k > 0 {
      var high, low := BigEndian(n / 256, k - 1), n % 256;
      assert (high + [low])[..k - 1] == high;
      FromBigEndianInverts(n / 256, k - 1);
      assert FromBigEndian(high + [low]) == 256 * (n / 256) + low;
    }
  }

  /** And every k bytes are those of exactly the number they give. */
  lemma {:induction false} BigEndianInverts(s: seq<byte>)
    ensures BigEndian(FromBigEndian(s), |s|) == s && FromBigEndian(s) < Pow256(|s|)
  {
    if s != [] {
      var high, low := s[..|s| - 1], s[|s| - 1];
      BigEndianInverts(high);
      assert (256 * FromBigEndian(high) + low) / 256 == FromBigEndian(high);
      assert s == high + [low];
    }
  }

  lemma Powers()
    ensures Pow256(1) == 0x100 && Pow256(2) == 0x1_0000 && Pow256(4) == 0x1_0000_0000
    ensures Pow256(8) == 0x1_0000_0000_0000_0000
  {
    assert Pow256(3) == 0x100_0000;
    assert Pow256(5) == 0x100_0000_0000;
    assert Pow256(6) == 0x1_0000_0000_0000;
    assert Pow256(7) == 0x100_0000_0000_0000;
  }

  lemma SizeInverts(n: nat, k: nat)
    requires (k == 2 && n < 0x1_0000) || (k == 4 && n < 0x1_0000_0000)
    ensures FromBigEndian(BigEndian(n, k)) == n
  {
    Powers();
    FromBigEndianInverts(n, k);
  }

  /** t stands in s at p. */
  predicate At(s: seq<byte>, p: nat, t: seq<byte>) { p + |t| <= |s| && s[p..p + |t|] == t }

  lemma AtParts(s: seq<byte>, p: nat, a: seq<byte>, b: seq<byte>)
    ensures At(s, p, a + b) <==> At(s, p, a) && At(s, p + |a|, b)
  {
    if p + |a| + |b| <= |s| {
      assert s[p..p + |a + b|] == s[p..p + |a|] + s[p + |a|..p + |a| + |b|];
      assert (a + b)[..|a|] == a && (a + b)[|a|..] == b;
    }
  }

  lemma AtOne(s: seq<byte>, p: nat, c: byte)
    ensures At(s, p, [c]) <==> p < |s| && s[p] == c
  {
    if p < |s| {
      assert s[p..p + 1][0] == s[p];
    }
  }

  lemma AtFirst(s: seq<byte>, p: nat, t: seq<byte>)
    requires At(s, p, t) && t != []
    ensures p < |s| && s[p] == t[0]
  {
    assert s[p..p + |t|][0] == t[0];
  }

  /** The pieces, joined. */
  function Flatten(pieces: seq<seq<byte>>): seq<byte> {
    if pieces == [] then [] else pieces[0] + Flatten(pieces[1..])
  }

  lemma {:induction false} FlattenMore(pieces: seq<seq<byte>>, s: seq<byte>)
    ensures Flatten(pieces + [s]) == Flatten(pieces) + s
  {
    if pieces == [] {
      assert ([] + [s])[1..] == [];
    } else {
      assert (pieces + [s])[1..] == pieces[1..] + [s];
      FlattenMore(pieces[1..], s);
    }
  }
}
