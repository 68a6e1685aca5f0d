/** The bounded writer with a sticky error: mpwbuf_append and the mpwbuf_pack functions. */
module MpackWriter {
  import opened ByteSeq
  import opened MpackNumber
  import opened MpackWire

  const CAPACITY: nat := 0x10_0000

  /** What has been written so far and the error bits raised so far. */
  datatype Written = Written(out: seq<byte>, err: set<Fault>)

  /** From s to t, n bytes of `bytes` were written and the errors `faults` were met: nothing
      written is undone, an error stops all later writing, other errors are still recorded, and
      there is none at the end exactly when there was none before, none was met and it all fits. */
  ghost predicate Adds(s: Written, t: Written, n: nat, faults: set<Fault>, bytes: seq<byte>) {
    && s.out <= t.out && n == |t.out| - |s.out| && |t.out| <= CAPACITY
    && s.err <= t.err && t.err - {BufNoLeft} == s.err - {BufNoLeft} + faults
    && (t.err == {} <==> s.err == {} && faults == {} && |s.out| + |bytes| <= CAPACITY)
    && (t.err == {} ==> t.out == s.out + bytes)
    && (s.err != {} ==> n == 0)
  }

  /** Writing in two steps is writing once. */
  lemma AddsConcat(s: Written, t: Written, u: Written, m: nat, n: nat,
                   f: set<Fault>, g: set<Fault>, a: seq<byte>, b: seq<byte>)
    requires Adds(s, t, m, f, a) && Adds(t, u, n, g, b)
    ensures Adds(s, u, m + n, f + g, a + b)
  {
    assert u.err - {BufNoLeft} == s.err - {BufNoLeft} + (f + g);
    if t.err != {} {
      assert u.err != {};
      assert !(s.err == {} && f == {} && |s.out| + |a| <= CAPACITY);
    } else if u.err == {} {
      assert u.out == s.out + (a + b);
    }
    if s.err != {} { assert t.err != {}; }
    if u.err == {} { assert t.err == {}; }
  }

  lemma TableParts(v: Value)
    requires Packable(v) && v.Table?
    ensures |v.items| < MAX_COUNT && |v.entries| % 2 == 0 && |v.entries| / 2 < MAX_COUNT
    ensures (forall x :: x in v.items ==> Packable(x)) && forall x :: x in v.entries ==> Packable(x)
  {
    hide BadKey;
  }

  class WriteBuffer {
    const cast: Cast
    const data: array<byte>
    var used: nat
    var err: set<Fault>

    ghost predicate Valid() reads this {
      data.Length == CAPACITY && used <= CAPACITY
    }

    ghost function Now(): Written
      requires Valid()
      reads this, data
    {
      Written(data[..used], err)
    }

    /** `cast` is what the machine makes of a number outside the range of long long. */
    constructor (cast: Cast)
      ensures Valid() && Now() == Written([], {}) && fresh(data) && this.cast == cast
    {
      this.cast := cast;
      data := new byte[CAPACITY];
      used, err := 0, {};
    }

    method Append(toadd: seq<byte>) returns (n: nat)
      requires Valid()
      modifies this, data
      ensures Valid() && Adds(old(Now()), Now(), n, {}, toadd)
    {
      if err != {} {
        return 0;
      }
      if CAPACITY - used < |toadd| {
        err := err + {BufNoLeft};
        return 0;
      }
      forall i | 0 <= i < |toadd| {
        data[used + i] := toadd[i];
      }
      used := used + |toadd|;
      assert data[..used] == old(data[..used]) + toadd;
      n := |toadd|;
    }

    method PackNumber(v: Value) returns (n: nat)
      requires Valid() && Packable(v) && (v.Int? || v.Double? || v.NaN?)
      modifies this, data
      ensures Valid() && Adds(old(Now()), Now(), n, {}, Encode(cast, v))
    {
      hide BigEndian, Representable, Integral;
      var buf: seq<byte>;
      match v {
        case NaN => buf := [0xcb, 0xff, 0xf8, 0, 0, 0, 0, 0, 0];
        case Double(bits) =>
          if IsInf(bits) {
            buf := if bits[0] < 128 then [0xcb, 0x7f, 0xf0, 0, 0, 0, 0, 0, 0]
                   else [0xcb, 0xff, 0xf0, 0, 0, 0, 0, 0, 0];
            assert buf == [0xcb] + bits;
          } else {
            buf := [0xcb] + bits;
          }
        case Int(nv) =>
          var lv: int := ToLongLong(cast, nv);
          if lv >= 0 {
            if lv < 128 { buf := [lv]; }
            else if lv < 256 { buf := [0xcc, lv]; }
            else if lv < 65536 { buf := [0xcd] + BigEndian(lv, 2); }
            else if lv < 4294967296 { buf := [0xce] + BigEndian(lv, 4); }
            else { buf := [0xcf] + BigEndian(lv, 8); }
          } else {
            if lv >= -32 { buf := [0x100 + lv]; }
            else if lv >= -128 { buf := [0xd0, 0x100 + lv]; }
            else if lv >= -32768 { buf := [0xd1] + BigEndian(0x1_0000 + lv, 2); }
            else if lv >= -2147483648 { buf := [0xd2] + BigEndian(0x1_0000_0000 + lv, 4); }
            else { buf := [0xd3] + BigEndian(0x1_0000_0000_0000_0000 + lv, 8); }
          }
      }
      assert buf == Encode(cast, v);
      n := Append(buf);
    }

    /** The header of a string or table: type byte, then the size bytes, as separate appends. */
    method AppendHeader(tag: byte, size: seq<byte>) returns (n: nat)
      requires Valid()
      modifies this, data
      ensures Valid() && Adds(old(Now()), Now(), n, {}, [tag] + size)
    {
      n := Append([tag]);
      ghost var s := Now();
      if size != [] {
        var m := Append(size);
        AddsConcat(old(Now()), s, Now(), n, m, {}, {}, [tag], size);
        n := n + m;
      } else {
        assert [tag] + size == [tag];
      }
    }

    method PackString(sval: seq<byte>) returns (n: nat)
      requires Valid()
      modifies this, data
      ensures Valid() && Adds(old(Now()), Now(), n, Faults(Str(sval)), Encode(cast, Str(sval)))
    {
      hide BigEndian;
      var slen := |sval|;
      if slen < 32 {
        n := AppendHeader(0xa0 + slen, []);
      } else if slen < 65536 {
        n := AppendHeader(0xda, BigEndian(slen, 2));
      } else if slen < 4294967295 {
        n := AppendHeader(0xdb, BigEndian(slen, 4));
      } else {
        err := err + {StringLen};
        return 0;
      }
      ghost var s := Now();
      var m := Append(sval);
      AddsConcat(old(Now()), s, Now(), n, m, {}, {}, Header(WireOf(cast, Str(sval))), sval);
      n := n + m;
    }

    /** A table with items is packed as an array, whatever else is in it. */
    method PackTable(v: Value) returns (n: nat)
      requires Valid() && Packable(v) && v.Table?
      modifies this, data
      ensures Valid() && Adds(old(Now()), Now(), n, Faults(v), Encode(cast, v))
      decreases v, 2
    {
      if |v.items| > 0 {
        n := PackArray(v);
      } else {
        n := PackMap(v);
      }
    }

    method PackArray(v: Value) returns (n: nat)
      requires Valid() && Packable(v) && v.Table? && v.items != []
      modifies this, data
      ensures Valid() && Adds(old(Now()), Now(), n, Faults(v), Encode(cast, v))
      decreases v, 0
    {
      hide Adds, Through, ContainerHeader, Faults, Encode, Packable;
      TableParts(v);
      n := PackCount(false, |v.items|);
      ghost var s, head := Now(), n;
      AddsNothing(cast, s, v.items);
      for i := 0 to |v.items|
        invariant Valid() && head <= n
        invariant Through(cast, s, Now(), n - head, v.items, i)
      {
        ghost var t := Now();
        var m := PackAnytype(v.items[i]);
        OneMore(cast, s, t, Now(), n - head, m, v.items, i);
        n := n + m;
      }
      TableWritten(cast, old(Now()), s, Now(), head, n - head, v, v.items);
    }

    method PackMap(v: Value) returns (n: nat)
      requires Valid() && Packable(v) && v.Table? && v.items == []
      modifies this, data
      ensures Valid() && Adds(old(Now()), Now(), n, Faults(v), Encode(cast, v))
      decreases v, 1
    {
      hide Adds, Through, ContainerHeader, Faults, Encode, Packable;
      TableParts(v);
      var l := CountEntries(v.entries);
      n := PackCount(true, l);
      ghost var s, head := Now(), n;
      AddsNothing(cast, s, v.entries);
      var i := 0;
      while i < |v.entries|
        invariant Valid() && head <= n && i <= |v.entries| && i % 2 == 0
        invariant Through(cast, s, Now(), n - head, v.entries, i)
      {
        var m := PackEntry(v, i, s, n - head);
        n := n + m;
        i := i + 2;
      }
      TableWritten(cast, old(Now()), s, Now(), head, n - head, v, v.entries);
    }

    /** A key and its value, with the entries before them written since s. */
    method PackEntry(v: Value, i: nat, ghost s: Written, ghost before: nat) returns (n: nat)
      requires Valid() && Packable(v) && v.Table? && i + 1 < |v.entries|
      requires Through(cast, s, Now(), before, v.entries, i)
      modifies this, data
      ensures Valid() && Through(cast, s, Now(), before + n, v.entries, i + 2)
      decreases v, 0
    {
      hide Adds, Through, Faults, Encode, Packable;
      TableParts(v);
      ghost var t := Now();
      n := PackAnytype(v.entries[i]);
      OneMore(cast, s, t, Now(), before, n, v.entries, i);
      t := Now();
      var m := PackAnytype(v.entries[i + 1]);
      OneMore(cast, s, t, Now(), before + n, m, v.entries, i + 1);
      n := n + m;
    }

    /** The first walk over the entries. */
    method CountEntries(es: seq<Value>) returns (l: nat)
      requires |es| % 2 == 0
      ensures l == |es| / 2
    {
      l := 0;
      var j := 0;
      while j < |es|
        invariant j == 2 * l <= |es|
      {
        l, j := l + 1, j + 2;
      }
    }

    method PackCount(isMap: bool, l: nat) returns (n: nat)
      requires Valid() && l < MAX_COUNT
      modifies this, data
      ensures Valid() && Adds(old(Now()), Now(), n, {}, ContainerHeader(isMap, CountWidth(l), l))
    {
      if l < 16 {
        n := AppendHeader((if isMap then 0x80 else 0x90) + l, []);
      } else if l < 65536 {
        n := AppendHeader(if isMap then 0xde else 0xdc, BigEndian(l, 2));
      } else {
        n := AppendHeader(if isMap then 0xdf else 0xdd, BigEndian(l, 4));
      }
    }

    method PackAnytype(v: Value) returns (n: nat)
      requires Valid() && Packable(v)
      modifies this, data
      ensures Valid() && Adds(old(Now()), Now(), n, Faults(v), Encode(cast, v))
      decreases v, 3
    {
      match v
      case Nil => n := Append([0xc0]);
      case Bool(b) => n := Append([if b then 0xc3 else 0xc2]);
      case Str(s) => n := PackString(s);
      case Table(_, _) => n := PackTable(v);
      case Opaque(kind) =>
        err := err + {BadType(kind)};
        n := 0;
      case Int(_) => n := PackNumber(v);
      case Double(_) => n := PackNumber(v);
      case NaN => n := PackNumber(v);
    }
  }

  /** A table is its header and then all its elements. */
  lemma TableWritten(cast: Cast, s: Written, t: Written, u: Written, m: nat, n: nat, v: Value, vs: seq<Value>)
    requires v.Table? && vs == if v.items != [] then v.items else v.entries
    requires Adds(s, t, m, {}, Header(WireOf(cast, v)))
    requires Through(cast, t, u, n, vs, |vs|)
    ensures Adds(s, u, m + n, Faults(v), Encode(cast, v))
  {
    assert vs[..|vs|] == vs;
    AddsConcat(s, t, u, m, n, {}, FaultsAll(vs), Header(WireOf(cast, v)), EncodeAll(cast, vs));
  }

  ghost function EncodeAll(cast: Cast, vs: seq<Value>): seq<byte> { BytesAll(WireOfAll(cast, vs)) }

  /** From s to t the first i values were packed. */
  ghost predicate Through(cast: Cast, s: Written, t: Written, n: nat, vs: seq<Value>, i: nat) {
    i <= |vs| && Adds(s, t, n, FaultsAll(vs[..i]), EncodeAll(cast, vs[..i]))
  }

  lemma AddsNothing(cast: Cast, s: Written, vs: seq<Value>)
    requires |s.out| <= CAPACITY
    ensures Through(cast, s, s, 0, vs, 0)
  {
    assert vs[..0] == [];
  }

  /** The loop step of a table: the elements before i, then element i. */
  lemma OneMore(cast: Cast, s: Written, t: Written, u: Written, m: nat, n: nat, vs: seq<Value>, i: nat)
    requires i < |vs| && Through(cast, s, t, m, vs, i)
    requires Adds(t, u, n, Faults(vs[i]), Encode(cast, vs[i]))
    ensures Through(cast, s, u, m + n, vs, i + 1)
  {
    hide Adds, Faults, Encode, EncodeAll, FaultsAll;
    AddsConcat(s, t, u, m, n, FaultsAll(vs[..i]), Faults(vs[i]), EncodeAll(cast, vs[..i]), Encode(cast, vs[i]));
    assert vs[..i + 1] == vs[..i] + [vs[i]];
    AppendOne(cast, vs[..i], vs[i]);
  }

  lemma {:induction false} AppendOne(cast: Cast, vs: seq<Value>, v: Value)
    ensures FaultsAll(vs + [v]) == FaultsAll(vs) + Faults(v)
    ensures EncodeAll(cast, vs + [v]) == EncodeAll(cast, vs) + Encode(cast, v)
  {
    if vs == [] {
      assert vs + [v] == [v] && BytesAll([WireOf(cast, v)]) == Bytes(WireOf(cast, v)) + [];
    } else {
      assert (vs + [v])[1..] == vs[1..] + [v];
      AppendOne(cast, vs[1..], v);
    }
  }

  // ---------------------------------------------------------------- mp.pack

  datatype Packed = Packed(bytes: seq<byte>) | Refused(why: Fault)

  /** The error message names one error bit, the buffer first and then in this order. */
  method Blame(err: set<Fault>) returns (why: Fault)
    requires err != {}
    ensures why in err && (BufNoLeft in err ==> why == BufNoLeft)
  {
    if BufNoLeft in err { return BufNoLeft; }
    if StringLen in err { return StringLen; }
    if BadType(LightUserdata) in err { return BadType(LightUserdata); }
    if BadType(Function) in err { return BadType(Function); }
    if BadType(Userdata) in err { return BadType(Userdata); }
    if BadType(Thread) in err { return BadType(Thread); }
    ghost var f :| f in err;
    assert f.BadType? && f.kind.Unknown?;
    why := BadType(Unknown);
  }

  /** mp.pack gives a value's message exactly when every part of it has a message and all of it
      fits in one MiB, and otherwise names an error that occurred. */
  method Pack(cast: Cast, v: Value) returns (r: Packed)
    requires Packable(v)
    ensures r.Packed? <==> Faults(v) == {} && |Encode(cast, v)| <= CAPACITY
    ensures r.Packed? ==> r.bytes == Encode(cast, v)
    ensures r.Refused? ==> r.why == BufNoLeft || r.why in Faults(v)
  {
    var b := new WriteBuffer(cast);
    var wlen := b.PackAnytype(v);
    if wlen > 0 && b.err == {} {
      r := Packed(b.data[..b.used]);
    } else {
      var why := Blame(b.err);
      r := Refused(why);
    }
  }
}
