/** The push-style framer: a stack of half-read items that counts complete messages byte by byte
    without building values, and the buffer that pull takes them from. */
module MpackFramer {
  import opened ByteSeq
  import opened MpackWire
  import opened MpackReader

  datatype Kind =
    | FixArray | FixMap | Array16 | Map16 | Array32 | Map32
    | Raw16 | Raw32
    | RawFix | FloatData | DoubleData | Uint8 | Uint16 | Uint32 | Uint64 | Int8 | Int16 | Int32 | Int64

  predicate IsContainer(t: Kind) {
    t.FixArray? || t.FixMap? || t.Array16? || t.Map16? || t.Array32? || t.Map32?
  }

  predicate IsMapKind(t: Kind) { t.FixMap? || t.Map16? || t.Map32? }

  function SizeSize(t: Kind): nat {
    if t.Array16? || t.Map16? || t.Raw16? then 2
    else if t.Array32? || t.Map32? || t.Raw32? then 4 else 0
  }

  /** A stack entry: how many elements or data bytes it wants and has seen, and its size bytes
      seen so far. */
  datatype Ent = Ent(t: Kind, want: nat, sofar: nat, size: seq<byte>)

  const STACK_SIZE: nat := 256

  /** Top of stack last. */
  datatype Framer = Framer(stack: seq<Ent>, results: nat)

  const EMPTY := Framer([], 0)

  predicate SizeMissing(e: Ent) { |e.size| < SizeSize(e.t) }

  function TakeSizeByte(e: Ent, ch: byte): Ent {
    var size := e.size + [ch];
    var n := FromBigEndian(size);
    e.(size := size, want := if |size| < SizeSize(e.t) then e.want else if IsMapKind(e.t) then 2 * n else n)
  }

  /** One byte or one element further: the loop of unpacker_progress over the stack. */
  function Settle(s: seq<Ent>, ch: byte): (r: seq<Ent>)
    ensures |r| <= |s|
  {
    if s == [] then [] else
    var below, e := s[..|s| - 1], s[|s| - 1];
    if SizeMissing(e) then below + [TakeSizeByte(e, ch)]
    else if e.sofar + 1 < e.want then below + [e.(sofar := e.sofar + 1)]
    else Settle(below, ch)
  }

  function Progress(f: Framer, ch: byte): Framer {
    var s := Settle(f.stack, ch);
    Framer(s, if s == [] then f.results + 1 else f.results)
  }

  function Top(f: Framer): Ent
    requires f.stack != []
  {
    f.stack[|f.stack| - 1]
  }

  /** Data bytes the top of the stack still wants; 0 stands for a size byte, None for a type byte. */
  function NeedsBytes(s: seq<Ent>): Option<nat> {
    if s == [] then None else
    var e := s[|s| - 1];
    if SizeMissing(e) then Some(0)
    else if e.sofar < e.want && !IsContainer(e.t) then Some(e.want - e.sofar)
    else None
  }

  /** Skips n data bytes of the top entry at once. */
  function ProgressData(f: Framer, n: nat): Framer
    requires f.stack != []
    requires 0 < n && Top(f).sofar + n <= Top(f).want
  {
    var below, e := f.stack[..|f.stack| - 1], Top(f);
    if e.sofar + n == e.want then
      Progress(Framer(below + [e.(sofar := e.want - 1)], f.results), 0)
    else Framer(below + [e.(sofar := e.sofar + n)], f.results)
  }

  function Push(f: Framer, t: Kind, want: nat): Option<Framer> {
    if |f.stack| >= STACK_SIZE then None else
    var g := f.(stack := f.stack + [Ent(t, want, 0, [])]);
    Some(if SizeSize(t) == 0 && want == 0 then Progress(g, 0) else g)
  }

  /** The item a type byte opens; None for a value that is complete in its type byte. */
  function Opens(ch: byte): Option<(Kind, nat)> {
    if 0x80 <= ch <= 0x8f then Some((FixMap, 2 * (ch - 0x80)))
    else if 0x90 <= ch <= 0x9f then Some((FixArray, ch - 0x90))
    else if 0xa0 <= ch <= 0xbf then Some((RawFix, ch - 0xa0))
    else if ch == 0xca then Some((FloatData, 4))
    else if ch == 0xcb then Some((DoubleData, 8))
    else if ch == 0xcc then Some((Uint8, 1))
    else if ch == 0xcd then Some((Uint16, 2))
    else if ch == 0xce then Some((Uint32, 4))
    else if ch == 0xcf then Some((Uint64, 8))
    else if ch == 0xd0 then Some((Int8, 1))
    else if ch == 0xd1 then Some((Int16, 2))
    else if ch == 0xd2 then Some((Int32, 4))
    else if ch == 0xd3 then Some((Int64, 8))
    else if ch == 0xda then Some((Raw16, 0))
    else if ch == 0xdb then Some((Raw32, 0))
    else if ch == 0xdc then Some((Array16, 0))
    else if ch == 0xdd then Some((Array32, 0))
    else if ch == 0xde then Some((Map16, 0))
    else if ch == 0xdf then Some((Map32, 0))
    else None
  }

  predicate Reserved(ch: byte) {
    ch == 0xc1 || 0xc4 <= ch <= 0xc9 || 0xd4 <= ch <= 0xd9
  }

  /** A type byte; fails on a reserved byte and when the stack is full. */
  function TypeByte(f: Framer, ch: byte): Option<Framer> {
    if Reserved(ch) then None
    else match Opens(ch)
      case Some((t, want)) => Push(f, t, want)
      case None => Some(Progress(f, ch))
  }

  /** One byte of input. */
  function Step(f: Framer, ch: byte): Option<Framer> {
    match NeedsBytes(f.stack)
    case None => TypeByte(f, ch)
    case Some(n) => Some(if n > 0 then ProgressData(f, 1) else Progress(f, ch))
  }

  /** Byte after byte, up to the first that fails. */
  datatype Ran = Ran(f: Framer, ok: bool)

  function Run(f: Framer, s: seq<byte>): Ran
    decreases s
  {
    if s == [] then Ran(f, true) else
    match Step(f, s[0])
    case None => Ran(f, false)
    case Some(g) => Run(g, s[1..])
  }

  lemma {:induction false} RunConcat(f: Framer, a: seq<byte>, b: seq<byte>)
    ensures Run(f, a + b) == if Run(f, a).ok then Run(Run(f, a).f, b) else Run(f, a)
    decreases a
  {
    if a == [] {
      assert a + b == b;
    } else {
      assert (a + b)[0] == a[0] && (a + b)[1..] == a[1..] + b;
      if Step(f, a[0]).Some? { RunConcat(Step(f, a[0]).value, a[1..], b); }
    }
  }

  lemma RunUnfold(f: Framer, s: seq<byte>)
    ensures s == [] ==> Run(f, s) == Ran(f, true)
    ensures s != [] ==> Run(f, s) == match Step(f, s[0]) case None => Ran(f, false) case Some(g) => Run(g, s[1..])
  {
  }

  /** Skipping data in bulk is the same as that many single bytes. */
  lemma {:induction false} BulkSkip(f: Framer, s: seq<byte>, n: nat)
    requires 0 < n <= |s| && NeedsBytes(f.stack).Some? && n <= NeedsBytes(f.stack).value
    ensures Run(f, s) == Run(ProgressData(f, n), s[n..])
    decreases n
  {
    var e := Top(f);
    var g := ProgressData(f, 1);
    if n > 1 {
      assert Top(g) == e.(sofar := e.sofar + 1);
      assert s[1..][n - 1..] == s[n..];
      BulkSkip(g, s[1..], n - 1);
      assert g.stack[..|g.stack| - 1] == f.stack[..|f.stack| - 1];
      assert ProgressData(g, n - 1) == ProgressData(f, n);
    }
  }

  // ---------------------------------------------------------------- the unpacker's state

  /** The bytes not yet pulled, and the framer. */
  datatype State = State(buf: seq<byte>, f: Framer)

  /** Feeding s: refused whole when it does not fit, and otherwise taken even if a byte fails. */
  function Fed(u: State, s: seq<byte>, capacity: nat): (State, bool) {
    if |u.buf| + |s| > capacity then (u, false)
    else (State(u.buf + s, Run(u.f, s).f), Run(u.f, s).ok)
  }

  /** What a pull gives: nil, a value, or the Lua error it raises. */
  datatype Got = Nothing | Message(v: Value) | Raised

  /** Pulling: the decoder runs on the buffer and what it read is shifted out. An error raised in the
      decoder ends the call before that. */
  function Pulled(u: State): (State, Got) {
    if u.f.results == 0 then (u, Nothing) else
    var r := UnpackAny(u.buf, START, false);
    if r.c.raised then (u, Raised)
    else (State(u.buf[r.c.ofs..], u.f.(results := u.f.results - 1)), Message(r.v))
  }

  class Unpacker {
    const buf: array<byte>
    var used: nat
    const stack: array<Ent>
    var nstacked: nat
    var resultnum: nat

    ghost predicate Valid() reads this {
      used <= buf.Length && stack.Length == STACK_SIZE && nstacked <= STACK_SIZE
    }

    ghost function F(): Framer
      requires Valid()
      reads this, stack
    {
      Framer(stack[..nstacked], resultnum)
    }

    ghost function U(): State
      requires Valid()
      reads this, stack, buf
    {
      State(buf[..used], F())
    }

    constructor (maxsize: nat)
      ensures Valid() && U() == State([], EMPTY) && buf.Length == maxsize && fresh(buf) && fresh(stack)
    {
      buf := new byte[maxsize];
      stack := new Ent[STACK_SIZE](_ => Ent(RawFix, 0, 0, []));
      used, nstacked, resultnum := 0, 0, 0;
    }

    method ProgressByte(ch: byte)
      requires Valid()
      modifies this`nstacked, this`resultnum, stack
      ensures Valid() && F() == Progress(old(F()), ch)
    {
      var i := nstacked - 1;
      ghost var was := stack[..nstacked];
      while i >= 0
        invariant Valid() && i == nstacked - 1 && resultnum == old(resultnum)
        invariant Settle(stack[..nstacked], ch) == Settle(was, ch)
      {
        var e := stack[i];
        ghost var s := stack[..nstacked];
        assert s[..|s| - 1] == stack[..i];
        if SizeMissing(e) {
          stack[i] := TakeSizeByte(e, ch);
          assert stack[..nstacked] == Settle(was, ch);
          break;
        }
        if e.sofar + 1 < e.want {
          stack[i] := e.(sofar := e.sofar + 1);
          assert stack[..nstacked] == Settle(was, ch);
          break;
        }
        nstacked := nstacked - 1;
        i := i - 1;
      }
      if nstacked == 0 {
        resultnum := resultnum + 1;
      }
    }

    method ProgressDatasize(progress: nat)
      requires Valid() && nstacked > 0
      requires 0 < progress <= stack[nstacked - 1].want - stack[nstacked - 1].sofar
      modifies this`nstacked, this`resultnum, stack
      ensures Valid() && F() == ProgressData(old(F()), progress)
    {
      var top := nstacked - 1;
      ghost var below := stack[..top];
      stack[top] := stack[top].(sofar := stack[top].sofar + progress);
      assert stack[..nstacked] == below + [stack[top]];
      if stack[top].sofar == stack[top].want {
        stack[top] := stack[top].(sofar := stack[top].sofar - 1);
        assert stack[..nstacked] == below + [stack[top]];
        ProgressByte(0);
      }
    }

    method PushEnt(t: Kind, want: nat) returns (ok: bool)
      requires Valid()
      modifies this`nstacked, this`resultnum, stack
      ensures Valid() && ok == Push(old(F()), t, want).Some?
      ensures F() == if ok then Push(old(F()), t, want).value else old(F())
    {
      if nstacked >= STACK_SIZE {
        return false;
      }
      stack[nstacked] := Ent(t, want, 0, []);
      nstacked := nstacked + 1;
      assert stack[..nstacked] == old(stack[..nstacked]) + [Ent(t, want, 0, [])];
      if SizeSize(t) == 0 && want == 0 {
        ProgressByte(0);
      }
      ok := true;
    }

    method ContainerNeedsBytes() returns (need: Option<nat>)
      requires Valid()
      ensures need == NeedsBytes(stack[..nstacked])
    {
      if nstacked == 0 {
        return None;
      }
      var top := stack[nstacked - 1];
      if SizeMissing(top) {
        return Some(0);
      }
      if top.sofar < top.want {
        if IsContainer(top.t) {
          return None;
        } else {
          return Some(top.want - top.sofar);
        }
      }
      need := None;
    }

    method Feed(p: seq<byte>) returns (res: int)
      requires Valid()
      modifies this, buf, stack
      ensures Valid() && res == (if Fed(old(U()), p, buf.Length).1 then 0 else -1)
      ensures U() == Fed(old(U()), p, buf.Length).0
    {
      hide Run, Settle, Progress, Push, Opens, Reserved, FromBigEndian, ProgressData;
      if used + |p| > buf.Length {
        return -1;
      }
      forall k | 0 <= k < |p| {
        buf[used + k] := p[k];
      }
      used := used + |p|;
      assert buf[..used] == old(buf[..used]) + p;
      ghost var filled := buf[..used];
      assert p[0..] == p && F() == old(F());
      var i := 0;
      while i < |p|
        invariant Valid() && i <= |p| && buf[..used] == filled
        invariant Run(old(F()), p) == Run(F(), p[i..])
      {
        var ch := p[i];
        ghost var f, rest := F(), p[i..];
        RunUnfold(f, rest);
        var need := ContainerNeedsBytes();
        if need.Some? {
          var progress := 1;
          if need.value > 0 {
            progress := |p| - i;
            if progress > need.value {
              progress := need.value;
            }
            BulkSkip(f, rest, progress);
            ProgressDatasize(progress);
          } else {
            ProgressByte(ch);
          }
          assert rest[progress..] == p[i + progress..];
          i := i + progress;
          continue;
        }
        assert rest[0] == ch && rest[1..] == p[i + 1..];
        if Reserved(ch) {
          return -1;
        }
        var item := Opens(ch);
        if item.Some? {
          var ok := PushEnt(item.value.0, item.value.1);
          if !ok {
            return -1;
          }
        } else {
          ProgressByte(ch);
        }
        i := i + 1;
      }
      RunUnfold(F(), p[i..]);
      res := 0;
    }

    method Shift(l: nat)
      requires Valid() && l <= used
      modifies this`used, buf
      ensures Valid() && buf[..used] == old(buf[..used])[l..] && F() == old(F())
    {
      forall k | 0 <= k < used - l {
        buf[k] := buf[l + k];
      }
      used := used - l;
    }

    method Pull() returns (got: Got)
      requires Valid()
      modifies this, buf
      ensures Valid() && (U(), got) == Pulled(old(U()))
    {
      hide UnpackAny;
      if resultnum == 0 {
        return Nothing;
      }
      var rb := new Reader(buf[..used], false);
      var x := rb.UnpackAnytype();
      if rb.raised {
        return Raised;
      }
      Shift(rb.ofs);
      resultnum := resultnum - 1;
      got := Message(x);
    }
  }
}
