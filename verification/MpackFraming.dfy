/** The framer, the recursive decoder and the packer agree on where messages end. */
module MpackFraming {
  import opened ByteSeq
  import opened MpackWire
  import opened MpackReader
  import opened MpackFramer

  // ---------------------------------------------------------------- chunks

  /** Feeding two chunks works exactly when feeding their concatenation does, and then leaves the
      same stack, buffer and result count. */
  lemma TwoChunks(u: State, a: seq<byte>, b: seq<byte>, capacity: nat)
    ensures Fed(u, a, capacity).1 && Fed(Fed(u, a, capacity).0, b, capacity).1 <==> Fed(u, a + b, capacity).1
    ensures Fed(u, a + b, capacity).1 ==> Fed(Fed(u, a, capacity).0, b, capacity).0 == Fed(u, a + b, capacity).0
  {
    RunConcat(u.f, a, b);
    assert u.buf + (a + b) == (u.buf + a) + b;
  }

  function FedAll(u: State, chunks: seq<seq<byte>>, capacity: nat): (State, bool)
    decreases chunks
  {
    if chunks == [] then (u, true) else
    var (v, ok) := Fed(u, chunks[0], capacity);
    if ok then FedAll(v, chunks[1..], capacity) else (v, false)
  }

  /** The same for any number of chunks, whatever the bytes. */
  lemma {:induction false} Chunking(u: State, chunks: seq<seq<byte>>, capacity: nat)
    requires |u.buf| <= capacity
    ensures FedAll(u, chunks, capacity).1 <==> Fed(u, Flatten(chunks), capacity).1
    ensures FedAll(u, chunks, capacity).1 ==> FedAll(u, chunks, capacity).0 == Fed(u, Flatten(chunks), capacity).0
    decreases chunks
  {
    if chunks == [] {
      assert u.buf + [] == u.buf;
    } else {
      TwoChunks(u, chunks[0], Flatten(chunks[1..]), capacity);
      if Fed(u, chunks[0], capacity).1 {
        Chunking(Fed(u, chunks[0], capacity).0, chunks[1..], capacity);
      }
    }
  }

  // ---------------------------------------------------------------- counting results

  lemma StepCounts(f: Framer, ch: byte)
    requires Step(f, ch).Some?
    ensures var g := Step(f, ch).value; g.results == f.results + (if g.stack == [] then 1 else 0)
  {
  }

  /** Results never decrease, and ending with an empty stack means that one was counted. */
  lemma {:induction false} RunCounts(f: Framer, s: seq<byte>)
    requires Run(f, s).ok
    ensures f.results <= Run(f, s).f.results
    ensures s != [] && Run(f, s).f.stack == [] ==> f.results < Run(f, s).f.results
    decreases s
  {
    if s != [] {
      StepCounts(f, s[0]);
      RunCounts(Step(f, s[0]).value, s[1..]);
    }
  }

  /** Nothing is counted, and the stack is not empty, inside a message that counts once. */
  lemma InsideMessage(f: Framer, p: seq<byte>, q: seq<byte>)
    requires p != [] && q != [] && Run(f, p + q) == Ran(Framer([], f.results + 1), true)
    ensures Run(f, p).ok && Run(f, p).f.stack != [] && Run(f, p).f.results == f.results
  {
    RunConcat(f, p, q);
    RunCounts(f, p);
    RunCounts(Run(f, p).f, q);
  }

  function Bump(f: Framer, k: nat): Framer { f.(results := f.results + k) }

  lemma ProgressBump(f: Framer, ch: byte, k: nat)
    ensures Progress(Bump(f, k), ch) == Bump(Progress(f, ch), k)
  {
    hide Settle;
  }

  lemma PushBump(f: Framer, t: Kind, want: nat, k: nat)
    ensures Push(Bump(f, k), t, want) == match Push(f, t, want) case None => None case Some(g) => Some(Bump(g, k))
  {
    hide Progress;
    var g := f.(stack := f.stack + [Ent(t, want, 0, [])]);
    assert Bump(g, k) == Bump(f, k).(stack := f.stack + [Ent(t, want, 0, [])]);
    ProgressBump(g, 0, k);
  }

  lemma DataBump(f: Framer, k: nat)
    requires f.stack != [] && Top(f).sofar < Top(f).want
    ensures ProgressData(Bump(f, k), 1) == Bump(ProgressData(f, 1), k)
  {
    hide Progress;
    var below, e := f.stack[..|f.stack| - 1], Top(f);
    ProgressBump(Framer(below + [e.(sofar := e.want - 1)], f.results), 0, k);
  }

  lemma TypeBump(f: Framer, ch: byte, k: nat)
    ensures TypeByte(Bump(f, k), ch) == match TypeByte(f, ch) case None => None case Some(g) => Some(Bump(g, k))
  {
    hide Progress, Push, Bump, Reserved, Opens;
    ProgressBump(f, ch, k);
    match Opens(ch)
    case Some((t, want)) => PushBump(f, t, want, k);
    case None =>
  }

  lemma StepBump(f: Framer, ch: byte, k: nat)
    ensures Step(Bump(f, k), ch) == match Step(f, ch) case None => None case Some(g) => Some(Bump(g, k))
  {
    hide Progress, ProgressData, TypeByte;
    ProgressBump(f, ch, k);
    TypeBump(f, ch, k);
    match NeedsBytes(f.stack)
    case Some(n) =>
      if n > 0 { DataBump(f, k); }
    case None =>
  }

  /** The result count does not influence framing. */
  lemma {:induction false} RunBump(f: Framer, s: seq<byte>, k: nat)
    ensures Run(Bump(f, k), s) == Ran(Bump(Run(f, s).f, k), Run(f, s).ok)
    decreases s
  {
    if s != [] {
      StepBump(f, s[0], k);
      if Step(f, s[0]).Some? { RunBump(Step(f, s[0]).value, s[1..], k); }
    }
  }

  // ---------------------------------------------------------------- one message

  /** Stack entries a message takes. */
  function Slots(w: Wire): nat
    decreases w
  {
    match w
    case Small(_) => 0
    case Container(_, _, items) => 1 + SlotsAll(items)
    case _ => 1
  }

  function SlotsAll(ws: seq<Wire>): (n: nat)
    ensures forall x :: x in ws ==> Slots(x) <= n
    decreases ws
  {
    if ws == [] then 0 else
    var a, b := Slots(ws[0]), SlotsAll(ws[1..]);
    if a < b then b else a
  }

  predicate Fits(f: Framer, w: Wire) { Slots(w) == 0 || |f.stack| + Slots(w) <= STACK_SIZE }

  function Size(w: Wire): nat
    requires w.Raw? || w.Container?
  {
    if w.Raw? then |w.bytes| else |w.items|
  }

  /** Strings and containers of size 0 that carry their size in two or four bytes. */
  function Starved(w: Wire): nat
    decreases w
  {
    match w
    case Raw(width, bytes) => if width != Fix && bytes == [] then 1 else 0
    case Container(_, width, items) => (if width != Fix && items == [] then 1 else 0) + StarvedAll(items)
    case _ => 0
  }

  function StarvedAll(ws: seq<Wire>): nat
    decreases ws
  {
    if ws == [] then 0 else Starved(ws[0]) + StarvedAll(ws[1..])
  }

  /** The framer is between values: no entry waits for size bytes or data. */
  predicate Open(e: Ent) { !SizeMissing(e) && (IsContainer(e.t) || e.want == 0) }

  predicate Ready(s: seq<Ent>) { forall e :: e in s ==> Open(e) }

  lemma {:induction false} SettleOpen(s: seq<Ent>, ch: byte)
    requires Ready(s)
    ensures Ready(Settle(s, ch)) && Settle(s, ch) == Settle(s, 0)
  {
    if s != [] {
      var below := s[..|s| - 1];
      assert s == below + [s[|s| - 1]] && Open(s[|s| - 1]);
      assert Ready(below) by { forall e | e in below ensures Open(e) { assert e in s; } }
      SettleOpen(below, ch);
    }
  }

  lemma ReadyTakesType(s: seq<Ent>)
    requires Ready(s)
    ensures NeedsBytes(s).None?
  {
    if s != [] { assert Open(s[|s| - 1]); }
  }

  lemma PushPop(s: seq<Ent>, e: Ent)
    ensures (s + [e])[..|s|] == s && (s + [e])[|s|] == e && |s + [e]| == |s| + 1
  {
  }

  function KindOf(w: Wire): Kind
    requires w.Raw? || w.Container?
  {
    match w
    case Raw(width, _) => (match width case Fix => RawFix case Wide16 => Raw16 case Wide32 => Raw32)
    case Container(isMap, width, _) =>
      if isMap then (match width case Fix => FixMap case Wide16 => Map16 case Wide32 => Map32)
      else (match width case Fix => FixArray case Wide16 => Array16 case Wide32 => Array32)
  }

  function Opened(w: Wire): Ent
    requires w.Raw? || w.Container?
  {
    var n := if w.Raw? then |w.bytes| else Count(w.isMap, |w.items|);
    Ent(KindOf(w), Size(w), 0, SizeBytes(w.width, n))
  }

  /** The size bytes of a 16- or 32-bit item, one after the other. */
  lemma RunSize(f: Framer, e: Ent, n: nat)
    requires f.stack != [] && Top(f) == e && e.size == []
    requires (SizeSize(e.t) == 2 && n < 0x1_0000) || (SizeSize(e.t) == 4 && n < 0x1_0000_0000)
    ensures var size := BigEndian(n, SizeSize(e.t));
      var e1 := Ent(e.t, if IsMapKind(e.t) then 2 * n else n, e.sofar, size);
      Run(f, size) == Ran(f.(stack := f.stack[..|f.stack| - 1] + [e1]), true)
  {
    hide BigEndian, FromBigEndian, Run, IsMapKind;
    var k := SizeSize(e.t);
    var size, s, r := BigEndian(n, k), f.stack[..|f.stack| - 1], f.results;
    SizeInverts(n, k);
    assert f.stack == s + [e] && size[..k] == size && size[..0] == [];
    var g := f;
    for i := 0 to k
      invariant i < k ==> g == Framer(s + [e.(size := size[..i])], r)
      invariant i == k ==> g == Framer(s + [Ent(e.t, if IsMapKind(e.t) then 2 * n else n, e.sofar, size)], r)
      invariant Run(f, size) == Run(g, size[i..])
    {
      assert size[..i] + [size[i]] == size[..i + 1] && size[i..][1..] == size[i + 1..];
      PushPop(s, e.(size := size[..i]));
      RunUnfold(g, size[i..]);
      g := Step(g, size[i]).value;
    }
    RunUnfold(g, []);
  }

  lemma HeaderOpens(w: Wire)
    requires (w.Raw? || w.Container?) && WellFormed(w)
    ensures !Reserved(Header(w)[0])
    ensures Opens(Header(w)[0]) == Some((KindOf(w), if w.width == Fix then Size(w) else 0))
    ensures Header(w)[1..] == Opened(w).size
    ensures |Opened(w).size| == SizeSize(KindOf(w)) == match w.width case Fix => 0 case Wide16 => 2 case Wide32 => 4
  {
    hide BigEndian, WellFormed;
    if w.Raw? {
      UnfoldRaw(w);
      if w.width == Fix { assert Header(w) == [0xa0 + |w.bytes|]; }
    } else {
      UnfoldContainer(w);
      var n := Count(w.isMap, |w.items|);
      if w.width == Fix { assert Header(w) == [(if w.isMap then 0x80 else 0x90) + n]; }
    }
  }

  lemma UnfoldRaw(w: Wire)
    requires w.Raw? && WellFormed(w)
    ensures WellFormedRaw(w.width, |w.bytes|)
  {
  }

  lemma UnfoldContainer(w: Wire)
    requires w.Container? && WellFormed(w)
    ensures WellFormedCount(w.width, Count(w.isMap, |w.items|)) && (w.isMap ==> |w.items| % 2 == 0)
  {
  }

  lemma HeaderFits(w: Wire)
    requires (w.Raw? || w.Container?) && WellFormed(w)
    ensures var n := if w.Raw? then |w.bytes| else Count(w.isMap, |w.items|);
      && (w.width == Wide16 ==> n < 0x1_0000 && Opened(w).size == BigEndian(n, 2))
      && (w.width == Wide32 ==> n < 0x1_0000_0000 && Opened(w).size == BigEndian(n, 4))
      && Size(w) == if IsMapKind(KindOf(w)) then 2 * n else n
  {
    hide BigEndian;
  }

  /** The header of a string or container. */
  lemma RunHeader(f: Framer, w: Wire)
    requires (w.Raw? || w.Container?) && WellFormed(w) && NeedsBytes(f.stack).None?
    ensures |f.stack| >= STACK_SIZE ==> !Run(f, Header(w)).ok
    ensures |f.stack| < STACK_SIZE && w.width == Fix && Size(w) == 0
        ==> Run(f, Header(w)) == Ran(Progress(f, 0), true)
    ensures |f.stack| < STACK_SIZE && (w.width != Fix || Size(w) > 0)
        ==> Run(f, Header(w)) == Ran(f.(stack := f.stack + [Opened(w)]), true)
  {
    hide BigEndian, FromBigEndian, Run, Header, Opens, Reserved, WellFormed, SizeBytes;
    HeaderOpens(w);
    HeaderFits(w);
    RunUnfold(f, Header(w));
    if |f.stack| < STACK_SIZE {
      var e := Ent(KindOf(w), if w.width == Fix then Size(w) else 0, 0, []);
      PushPop(f.stack, e);
      var g := Push(f, e.t, e.want).value;
      if w.width == Fix {
        RunUnfold(g, []);
      } else {
        RunSize(g, e, if w.Raw? then |w.bytes| else Count(w.isMap, |w.items|));
      }
    }
  }

  /** The data bytes behind a header. */
  lemma RunData(f: Framer, e: Ent, data: seq<byte>)
    requires !SizeMissing(e) && !IsContainer(e.t) && e.sofar == 0 && e.want == |data| > 0
    ensures Run(f.(stack := f.stack + [e]), data) == Ran(Progress(f, 0), true)
  {
    hide Run;
    var g := f.(stack := f.stack + [e]);
    PushPop(f.stack, e);
    BulkSkip(g, data, |data|);
    var e1 := e.(sofar := e.want - 1);
    PushPop(f.stack, e1);
    assert data[|data|..] == [];
    RunUnfold(ProgressData(g, |data|), []);
  }

  lemma RunLeaf(f: Framer, w: Wire)
    requires Ready(f.stack) && WellFormed(w) && (w.Small? || w.Scalar?)
    ensures if Fits(f, w) then Run(f, Bytes(w)) == Ran(Progress(f, 0), true) else !Run(f, Bytes(w)).ok
  {
    hide Run, Settle;
    ReadyTakesType(f.stack);
    RunUnfold(f, Bytes(w));
    assert Bytes(w)[1..] == if w.Small? then [] else w.payload;
    if w.Small? {
      SettleOpen(f.stack, w.tag);
      RunUnfold(Progress(f, w.tag), []);
    } else if |f.stack| < STACK_SIZE {
      RunData(f, Ent(Opens(w.tag).value.0, |w.payload|, 0, []), w.payload);
    }
  }

  /** A message with no starved part is one step forward for the framer, when its stack suffices. */
  lemma {:induction false} RunWire(f: Framer, w: Wire)
    requires Ready(f.stack) && WellFormed(w) && Starved(w) == 0
    ensures if Fits(f, w) then Run(f, Bytes(w)) == Ran(Progress(f, 0), true) else !Run(f, Bytes(w)).ok
    decreases w, 0
  {
    hide Run, Settle, Progress, Header, Step, SizeBytes;
    if w.Small? || w.Scalar? {
      RunLeaf(f, w);
    } else {
      ReadyTakesType(f.stack);
      HeaderOpens(w);
      var body := if w.Raw? then w.bytes else BytesAll(w.items);
      assert Bytes(w) == Header(w) + body;
      RunHeader(f, w);
      RunConcat(f, Header(w), body);
      if |f.stack| < STACK_SIZE {
        if Size(w) == 0 {
          assert w.width == Fix && body == [] && Slots(w) == 1;
          RunUnfold(Progress(f, 0), []);
        } else if w.Raw? {
          RunData(f, Opened(w), body);
        } else {
          RunItems(f, Opened(w), w.items);
        }
      }
    }
  }

  lemma {:induction false} RunItems(f: Framer, e: Ent, ws: seq<Wire>)
    requires Ready(f.stack) && Open(e) && e.sofar + |ws| == e.want && |f.stack| < STACK_SIZE && ws != []
    requires StarvedAll(ws) == 0 && forall x :: x in ws ==> WellFormed(x)
    ensures var g := f.(stack := f.stack + [e]);
      if |f.stack| + 1 + SlotsAll(ws) <= STACK_SIZE then Run(g, BytesAll(ws)) == Ran(Progress(f, 0), true)
      else !Run(g, BytesAll(ws)).ok
    decreases ws, 1
  {
    hide Run, Step;
    var g := f.(stack := f.stack + [e]);
    PushPop(f.stack, e);
    RunWire(g, ws[0]);
    RunConcat(g, Bytes(ws[0]), BytesAll(ws[1..]));
    if |ws| == 1 {
      RunUnfold(Progress(f, 0), []);
    } else {
      RunItems(f, e.(sofar := e.sofar + 1), ws[1..]);
    }
  }

  /** The bytes of messages with no starved part, one after the other, from an empty stack. */
  ghost predicate Streamable(ws: seq<Wire>) {
    forall w :: w in ws ==> WellFormed(w) && Starved(w) == 0 && Slots(w) <= STACK_SIZE
  }

  lemma {:induction false} RunStream(r: nat, ws: seq<Wire>)
    requires Streamable(ws)
    ensures Run(Framer([], r), BytesAll(ws)) == Ran(Framer([], r + |ws|), true)
    decreases ws
  {
    hide Step, Bytes, WellFormed, Starved, Slots;
    if ws != [] {
      RunWire(Framer([], r), ws[0]);
      RunConcat(Framer([], r), Bytes(ws[0]), BytesAll(ws[1..]));
      RunStream(r + 1, ws[1..]);
    }
  }

  // ---------------------------------------------------------------- streams of messages

  /** Messages that lie wholly in the first n bytes. */
  function Complete(ws: seq<Wire>, n: nat): (k: nat)
    ensures k <= |ws|
    decreases ws
  {
    if ws == [] || n < |Bytes(ws[0])| then 0 else 1 + Complete(ws[1..], n - |Bytes(ws[0])|)
  }

  function Start(ws: seq<Wire>, k: nat): nat
    requires k <= |ws|
  {
    |BytesAll(ws[..k])|
  }

  /** Message k - 1 ends within the first n bytes and message k does not. */
  lemma {:induction false} CompleteEnds(ws: seq<Wire>, n: nat)
    requires n <= |BytesAll(ws)|
    ensures var k := Complete(ws, n);
      && Start(ws, k) <= n && (k < |ws| ==> n < Start(ws, k + 1)) && (k == |ws| ==> n == Start(ws, k))
    decreases ws
  {
    if ws != [] {
      var w, k := ws[0], Complete(ws, n);
      if n < |Bytes(w)| {
        assert ws[..1] == [w] && BytesAll([w]) == Bytes(w) + [];
      } else {
        CompleteEnds(ws[1..], n - |Bytes(w)|);
        assert ws[..k][1..] == ws[1..][..k - 1];
        if k < |ws| { assert ws[..k + 1][1..] == ws[1..][..k]; }
      }
    }
  }

  lemma {:induction false} StartMonotone(ws: seq<Wire>, j: nat, k: nat)
    requires j <= k <= |ws|
    ensures Start(ws, j) <= Start(ws, k) <= |BytesAll(ws)|
    ensures BytesAll(ws)[Start(ws, j)..Start(ws, k)] == BytesAll(ws[j..k])
    ensures j < k ==> Start(ws, j) < Start(ws, k)
  {
    assert ws[..k] == ws[..j] + ws[j..k] && ws == ws[..k] + ws[k..];
    BytesAllConcat(ws[..j], ws[j..k]);
    BytesAllConcat(ws[..k], ws[k..]);
  }

  lemma StreamSplit(ws: seq<Wire>, k: nat)
    requires k < |ws|
    ensures Start(ws, k + 1) == Start(ws, k) + |Bytes(ws[k])| <= |BytesAll(ws)|
    ensures BytesAll(ws)[..Start(ws, k)] == BytesAll(ws[..k])
    ensures BytesAll(ws)[Start(ws, k)..Start(ws, k + 1)] == Bytes(ws[k])
  {
    StartMonotone(ws, k, k + 1);
    StartMonotone(ws, 0, k);
    assert ws[k..k + 1] == [ws[k]] && BytesAll([ws[k]]) == Bytes(ws[k]) + [];
    assert ws[..0] == [] && ws[0..k] == ws[..k];
  }

  /** After any prefix of a stream the framer has counted exactly the messages that lie wholly in
      it, and its stack is empty exactly at the message boundaries. */
  lemma FramingIsExact(ws: seq<Wire>, n: nat)
    requires Streamable(ws) && n <= |BytesAll(ws)|
    ensures var r := Run(EMPTY, BytesAll(ws)[..n]);
      && r.ok && r.f.results == Complete(ws, n)
      && (r.f.stack == [] <==> n == Start(ws, Complete(ws, n)))
  {
    hide Run, Complete, Bytes, WellFormed;
    var all, k := BytesAll(ws), Complete(ws, n);
    CompleteEnds(ws, n);
    assert Streamable(ws[..k]);
    RunStream(0, ws[..k]);
    var done := Framer([], k);
    if k == |ws| {
      assert ws[..k] == ws && all[..n] == all;
    } else {
      StreamSplit(ws, k);
      var m := Bytes(ws[k]);
      var i := n - Start(ws, k);
      assert all[..n] == BytesAll(ws[..k]) + m[..i];
      RunConcat(EMPTY, BytesAll(ws[..k]), m[..i]);
      if i > 0 {
        RunWire(done, ws[k]);
        assert m[..i] + m[i..] == m;
        InsideMessage(done, m[..i], m[i..]);
      }
    }
  }

  // ---------------------------------------------------------------- when framing is not exact

  /** Values still missing before the stack empties, where a starved entry waits for one. */
  function Left(e: Ent): nat { if e.want > e.sofar then e.want - e.sofar else 1 }

  function Missing(s: seq<Ent>): nat {
    if s == [] then 0 else
    var below := Missing(s[..|s| - 1]);
    if below == 0 then Left(s[|s| - 1]) else below + Left(s[|s| - 1]) - 1
  }

  lemma {:induction false} MissingEmpty(s: seq<Ent>)
    ensures Missing(s) == 0 <==> s == []
  {
    if s != [] { MissingEmpty(s[..|s| - 1]); }
  }

  lemma {:induction false} SettleMissing(s: seq<Ent>)
    requires Ready(s) && s != []
    ensures Missing(Settle(s, 0)) == Missing(s) - 1
  {
    var below, e := s[..|s| - 1], s[|s| - 1];
    assert Open(e);
    MissingEmpty(below);
    if e.sofar + 1 < e.want {
      PushPop(below, e.(sofar := e.sofar + 1));
    } else if below != [] {
      assert Ready(below) by { forall x | x in below ensures Open(x) { assert x in s; } }
      SettleMissing(below);
    }
  }

  lemma MissingPush(s: seq<Ent>, e: Ent)
    ensures Missing(s + [e]) == if s == [] then Left(e) else Missing(s) + Left(e) - 1
  {
    PushPop(s, e);
    MissingEmpty(s);
  }

  /** What any message does to the framer, if the stack does not overflow: one value is settled,
      and each starved part leaves one value more to come. */
  lemma {:induction false} RunMissing(f: Framer, w: Wire)
    requires Ready(f.stack) && WellFormed(w) && Run(f, Bytes(w)).ok
    ensures var g := Run(f, Bytes(w)).f;
      && Ready(g.stack)
      && Missing(g.stack) == (if f.stack == [] then 0 else Missing(f.stack) - 1) + Starved(w)
      && g.results == f.results + (if g.stack == [] then 1 else 0)
    decreases w, 0
  {
    hide Run, Settle, Header, Step, SizeBytes, Missing, TypeByte;
    MissingEmpty(f.stack);
    SettleOpen(f.stack, 0);
    if f.stack != [] { SettleMissing(f.stack); }
    MissingEmpty(Settle(f.stack, 0));
    if w.Small? || w.Scalar? {
      RunLeaf(f, w);
    } else {
      ReadyTakesType(f.stack);
      HeaderOpens(w);
      var body := if w.Raw? then w.bytes else BytesAll(w.items);
      assert Bytes(w) == Header(w) + body;
      RunHeader(f, w);
      RunConcat(f, Header(w), body);
      var g := f.(stack := f.stack + [Opened(w)]);
      MissingPush(f.stack, Opened(w));
      if Size(w) == 0 {
        assert body == [];
        RunUnfold(Run(f, Header(w)).f, []);
        RunUnfold(g, []);
      } else if w.Raw? {
        RunData(f, Opened(w), body);
      } else {
        RunMissingAll(g, w.items);
      }
    }
  }

  lemma {:induction false} RunMissingAll(f: Framer, ws: seq<Wire>)
    requires Ready(f.stack) && ws != [] && Missing(f.stack) >= |ws| && Run(f, BytesAll(ws)).ok
    requires forall x :: x in ws ==> WellFormed(x)
    ensures var g := Run(f, BytesAll(ws)).f;
      && Ready(g.stack)
      && Missing(g.stack) == Missing(f.stack) - |ws| + StarvedAll(ws)
      && g.results == f.results + (if g.stack == [] then 1 else 0)
    decreases ws, 1
  {
    hide Run, Missing;
    MissingEmpty(f.stack);
    RunConcat(f, Bytes(ws[0]), BytesAll(ws[1..]));
    RunMissing(f, ws[0]);
    var g := Run(f, Bytes(ws[0])).f;
    MissingEmpty(g.stack);
    if |ws| == 1 {
      RunUnfold(g, []);
    } else {
      RunMissingAll(g, ws[1..]);
    }
  }

  /** A message is counted at its end exactly when no string or container in it has size 0 and
      carries that size in two or four bytes. */
  lemma CountedIffNotStarved(w: Wire, r: nat)
    requires WellFormed(w) && Run(Framer([], r), Bytes(w)).ok
    ensures Run(Framer([], r), Bytes(w)).f == Framer([], r + 1) <==> Starved(w) == 0
    ensures Starved(w) > 0 ==> Run(Framer([], r), Bytes(w)).f.results == r
  {
    RunMissing(Framer([], r), w);
    MissingEmpty(Run(Framer([], r), Bytes(w)).f.stack);
  }

  /** The array with a 16-bit size of 0 is decoded as {} but never counted. */
  lemma StarvedExample()
    ensures var w := Container(false, Wide16, []);
      && WellFormed(w) && Bytes(w) == [0xdc, 0, 0]
      && Run(EMPTY, Bytes(w)).ok && Run(EMPTY, Bytes(w)).f.results == 0
      && UnpackAny(Bytes(w), START, false) == One(Table([], []), Cursor(3, false, false, false))
  {
    var w := Container(false, Wide16, []);
    assert BigEndian(0, 2) == [0, 0];
    assert Bytes(w) == [0xdc, 0, 0];
    RunHeader(EMPTY, w);
    assert Header(w) == Bytes(w);
    CountedIffNotStarved(w, 0);
    UnpackWire(Bytes(w), START, w, false);
  }

  /** The map with the key nil is counted, and pulling it raises an error and leaves everything as it
      was: so does every later pull. */
  lemma NilKeyExample(capacity: nat)
    requires capacity >= 3
    ensures var s := [0x81, 0xc0, 1]; var u := State(s, Framer([], 1));
      Fed(State([], EMPTY), s, capacity) == (u, true) && Pulled(u) == (u, Raised)
  {
    hide Run, UnpackAny;
    var w := Container(true, Fix, [Small(0xc0), Small(1)]);
    var s := [0x81, 0xc0, 1];
    NilKeyBytes();
    RunWire(EMPTY, w);
    assert [] + s == s;
    NilKeyRaises();
    UnpackWire(s, START, w, false);
  }

  lemma NilKeyBytes()
    ensures var w := Container(true, Fix, [Small(0xc0), Small(1)]);
      WellFormed(w) && Bytes(w) == [0x81, 0xc0, 1] && Starved(w) == 0 && Slots(w) == 1
  {
    var items := [Small(0xc0), Small(1)];
    assert items[1..] == [Small(1)] && items[1..][1..] == [];
    assert BytesAll(items) == [0xc0] + ([1] + []);
    assert StarvedAll(items[1..]) == 0 && SlotsAll(items[1..]) == 0;
  }

  lemma NilKeyRaises()
    requires WellFormed(Container(true, Fix, [Small(0xc0), Small(1)]))
    ensures !Keyed(Container(true, Fix, [Small(0xc0), Small(1)]))
  {
    var items := [Small(0xc0), Small(1)];
    assert 0 % 2 == 0 && BadKey(ValueOf(items[0]));
  }
}
