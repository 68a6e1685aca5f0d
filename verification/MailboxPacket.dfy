/** The packets of the mailbox as Lua tables: whether mp.pack takes them, and what their fields are read
    as at the other end. */
module MailboxPacket {
  import opened ByteSeq
  import opened MpackNumber
  import opened MpackWire
  import opened MpackReader
  import MpackWriter

  type Text = seq<byte>

  const CMD: Text := [0x63, 0x6d, 0x64]
  const ID: Text := [0x69, 0x64]
  const FROM: Text := [0x66, 0x72, 0x6f, 0x6d]
  const KEY: Text := [0x6b, 0x65, 0x79]
  const P: Text := [0x70]

  const HELLO: Text := [0x68, 0x65, 0x6c, 0x6c, 0x6f]
  const BIND: Text := [0x62, 0x69, 0x6e, 0x64]
  const REPLY: Text := [0x72, 0x65, 0x70, 0x6c, 0x79]
  const BROADCAST: Text := [0x62, 0x72, 0x6f, 0x61, 0x64, 0x63, 0x61, 0x73, 0x74]

  const TYPE: Text := [0x74, 0x79, 0x70, 0x65]
  const ADDRESS: Text := [0x61, 0x64, 0x64, 0x72, 0x65, 0x73, 0x73]
  const PORT: Text := [0x70, 0x6f, 0x72, 0x74]
  const TCP: Text := [0x74, 0x63, 0x70]
  const BAR: Text := [0x7c]

  /** What tostring gives for a number. */
  type Numeral = t: Text | 0 < |t| <= 32 witness [0x30]

  /** What C leaves to the machine: conversions out of range, and the text of a number. */
  datatype Machine = Machine(cast: Cast, numeral: Value -> Numeral)

  /** What an empty string is read as: the bytes from its place on, as many as its block counts. That
      block holds the whole packet, which is longer than any command. */
  type Window = w: Text | |w| > 9 witness [0, 0, 0, 0, 0, 0, 0, 0, 0, 0]

  /** A packet as its sender made it; Nil for no package. A request's number is sent as its numeral and
      hello's as a number; a descriptor travels beside the packet. */
  datatype Packet = Packet(cmd: Text, id: nat, from: Option<nat>, key: Option<Text>, p: Value, fd: Option<nat>)

  function Hello(worker: nat): Packet { Packet(HELLO, worker, None, None, Nil, None) }

  function Reply(id: nat, fd: nat): Packet { Packet(REPLY, id, None, None, Table([], []), Some(fd)) }

  // ---------------------------------------------------------------- packing

  function IdValue(mach: Machine, packet: Packet): Value {
    if packet == Hello(packet.id) then Int(packet.id) else Str(mach.numeral(Int(packet.id)))
  }

  /** The keys and values of the table that mp.pack is given. Their order does not matter for what is
      read. */
  function Fields(mach: Machine, packet: Packet): seq<Value> {
    [Str(CMD), Str(packet.cmd), Str(ID), IdValue(mach, packet)]
    + (match packet.from case None => [] case Some(w) => [Str(FROM), Int(w)])
    + (match packet.key case None => [] case Some(k) => [Str(KEY), Str(k)])
    + (if packet.p.Nil? then [] else [Str(P), packet.p])
  }

  function Message(mach: Machine, packet: Packet): Value { Table([], Fields(mach, packet)) }

  /** mp.pack takes the packet. */
  ghost predicate Sendable(mach: Machine, packet: Packet) {
    Faults(Message(mach, packet)) == {} && |Encode(mach.cast, Message(mach, packet))| <= MpackWriter.CAPACITY
  }

  /** The numbers in a packet's own fields are numbers of Lua. */
  ghost predicate Proper(packet: Packet) {
    Packable(packet.p) && Representable(packet.id) && (packet.from.Some? ==> Representable(packet.from.value))
  }

  /** None of the keys is this name. */
  predicate Lacks(es: seq<Value>, name: Text) { forall i | 0 <= i < |es| && i % 2 == 0 :: es[i] != Str(name) }

  /** A few keys and values that make a table mp.pack can be given. */
  ghost predicate Fitting(es: seq<Value>) {
    TableOk([], es) && |es| % 2 == 0 && |es| <= 10 && forall x | x in es :: Packable(x)
  }

  lemma AddEntry(es: seq<Value>, name: Text, x: Value)
    requires Fitting(es) && Lacks(es, name) && !x.Nil? && Packable(x) && |es| <= 8
    ensures Fitting(es + [Str(name), x])
    ensures forall other: Text | Lacks(es, other) && other != name :: Lacks(es + [Str(name), x], other)
  {
    hide TableOk, Packable, Lacks;
    NamesArePackable();
    AddToTable(es, name, x);
    forall other: Text | Lacks(es, other) && other != name ensures Lacks(es + [Str(name), x], other) {
      StillLacks(es, name, x, other);
    }
  }

  lemma AddToTable(es: seq<Value>, name: Text, x: Value)
    requires TableOk([], es) && Lacks(es, name) && !x.Nil?
    ensures TableOk([], es + [Str(name), x])
  {
    var n, more := |es|, es + [Str(name), x];
    assert more[n] == Str(name) && more[n + 1] == x && more[..n] == es;
    forall i | 0 <= i < |more| && i % 2 == 0
      ensures !BadKey(more[i]) && !more[i + 1].Nil? && !(more[i].Int? && 1 <= more[i].n <= 1)
    {
      assert i < n ==> more[i] == es[i] && more[i + 1] == es[i + 1];
    }
  }

  lemma StillLacks(es: seq<Value>, name: Text, x: Value, other: Text)
    requires |es| % 2 == 0 && Lacks(es, other) && other != name
    ensures Lacks(es + [Str(name), x], other)
  {
  }

  lemma MessageIsPackable(mach: Machine, packet: Packet)
    requires Proper(packet)
    ensures Packable(Message(mach, packet))
  {
    hide Packable, TableOk, Lacks, IdValue, Fitting;
    var id := IdValue(mach, packet);
    IdIsPackable(mach, packet);
    FirstFields(packet.cmd, id);
    var es2 := [Str(CMD), Str(packet.cmd), Str(ID), id];
    var es3 := es2 + (match packet.from case None => [] case Some(w) => [Str(FROM), Int(w)]);
    if packet.from.Some? { AddEntry(es2, FROM, Int(packet.from.value)); } else { assert es3 == es2; }
    var es4 := es3 + (match packet.key case None => [] case Some(k) => [Str(KEY), Str(k)]);
    if packet.key.Some? { AddEntry(es3, KEY, Str(packet.key.value)); } else { assert es4 == es3; }
    if packet.p.Nil? { assert es4 + [] == es4; } else { AddEntry(es4, P, packet.p); }
    ProperTable(Fields(mach, packet));
  }

  lemma ProperTable(es: seq<Value>)
    requires Fitting(es)
    ensures Packable(Table([], es))
  {
    hide TableOk;
  }

  lemma FirstFields(cmd: Text, id: Value)
    requires !id.Nil? && Packable(id)
    ensures var es := [Str(CMD), Str(cmd), Str(ID), id];
      Fitting(es) && Lacks(es, FROM) && Lacks(es, KEY) && Lacks(es, P)
    ensures FROM != KEY && FROM != P && KEY != P
  {
    hide Packable;
    NamesDiffer();
    NamesArePackable();
    NothingFits();
    hide Fitting, Lacks;
    AddEntry([], CMD, Str(cmd));
    assert [] + [Str(CMD), Str(cmd)] == [Str(CMD), Str(cmd)];
    AddEntry([Str(CMD), Str(cmd)], ID, id);
    assert [Str(CMD), Str(cmd)] + [Str(ID), id] == [Str(CMD), Str(cmd), Str(ID), id];
  }

  lemma NothingFits()
    ensures Fitting([]) && forall name: Text :: Lacks([], name)
  {
  }

  lemma NamesDiffer()
    ensures CMD != FROM && CMD != KEY && CMD != P && FROM != KEY && FROM != P && KEY != P && ID != CMD
    ensures ID != FROM && ID != KEY && ID != P
  {
    assert CMD[0] != KEY[0];
  }

  lemma NamesArePackable()
    ensures forall t: Text :: Packable(Str(t))
  {
  }

  lemma IdIsPackable(mach: Machine, packet: Packet)
    requires Proper(packet)
    ensures Packable(IdValue(mach, packet)) && !IdValue(mach, packet).Nil?
    ensures packet.from.Some? ==> Packable(Int(packet.from.value))
    ensures packet.key.Some? ==> Packable(Str(packet.key.value))
  {
    hide Representable;
  }

  lemma {:induction false} PartFits(ws: seq<Wire>, x: Wire)
    requires x in ws
    ensures |Bytes(x)| <= |BytesAll(ws)|
    decreases ws
  {
    if x != ws[0] { PartFits(ws[1..], x); }
  }

  lemma {:induction false} PartFaults(vs: seq<Value>, x: Value)
    requires x in vs
    ensures Faults(x) <= FaultsAll(vs)
    decreases vs
  {
    if x != vs[0] { PartFaults(vs[1..], x); }
  }

  /** A package that mp.pack refuses by itself, for its types or its size, makes a packet refused. */
  lemma RefusedPackage(mach: Machine, packet: Packet)
    requires !packet.p.Nil? && (Faults(packet.p) != {} || |Encode(mach.cast, packet.p)| > MpackWriter.CAPACITY)
    ensures !Sendable(mach, packet)
  {
    hide Faults, Bytes, WireOf;
    var es := Fields(mach, packet);
    var i := |es| - 1;
    assert es[i] == packet.p;
    PartFaults(es, packet.p);
    var ws := WireOfAll(mach.cast, es);
    assert ws[i] == WireOf(mach.cast, packet.p);
    PartFits(ws, ws[i]);
    MessageParts(mach, packet);
  }

  // ---------------------------------------------------------------- the packets of the mailbox itself

  lemma {:induction false} BytesBound(ws: seq<Wire>)
    requires forall w :: w in ws ==> |Bytes(w)| <= 64
    ensures |BytesAll(ws)| <= 64 * |ws|
    decreases ws
  {
    hide Bytes;
    if ws != [] { BytesBound(ws[1..]); }
  }

  lemma {:induction false} NoFaults(vs: seq<Value>)
    requires forall x :: x in vs ==> Faults(x) == {}
    ensures FaultsAll(vs) == {}
    decreases vs
  {
    hide Faults;
    if vs != [] { NoFaults(vs[1..]); }
  }

  predicate Short(x: Value) { (x.Str? && |x.s| <= 32) || x.Int? || x == Table([], []) }

  lemma ShortValue(mach: Machine, x: Value)
    requires Short(x)
    ensures Faults(x) == {} && |Bytes(WireOf(mach.cast, x))| <= 64
  {
    hide BigEndian;
  }

  lemma FieldsAreShort(mach: Machine, packet: Packet)
    requires |packet.cmd| <= 9 && packet.key.None? && (packet.p.Nil? || packet.p == Table([], []))
    ensures |Fields(mach, packet)| <= 8 && forall x :: x in Fields(mach, packet) ==> Short(x)
  {
  }

  /** Packets of few short fields are always taken: hello and every reply are. */
  lemma ShortIsSendable(mach: Machine, packet: Packet)
    requires |packet.cmd| <= 9 && packet.key.None? && (packet.p.Nil? || packet.p == Table([], []))
    ensures Sendable(mach, packet)
  {
    hide Faults, Bytes, WireOf, Fields, Short;
    var es := Fields(mach, packet);
    var ws := WireOfAll(mach.cast, es);
    FieldsAreShort(mach, packet);
    forall x | x in es ensures Faults(x) == {} && |Bytes(WireOf(mach.cast, x))| <= 64 {
      ShortValue(mach, x);
    }
    NoFaults(es);
    forall w | w in ws ensures |Bytes(w)| <= 64 {
      var i :| 0 <= i < |ws| && ws[i] == w;
      assert es[i] in es;
    }
    BytesBound(ws);
    ShortTable(mach, packet);
  }

  lemma ShortTable(mach: Machine, packet: Packet)
    requires var es := Fields(mach, packet);
      |es| <= 8 && FaultsAll(es) == {} && |BytesAll(WireOfAll(mach.cast, es))| <= 64 * |es|
    ensures Sendable(mach, packet)
  {
    hide Fields;
  }

  lemma MessageParts(mach: Machine, packet: Packet)
    ensures var m, es := Message(mach, packet), Fields(mach, packet);
      Faults(m) == FaultsAll(es) && |Encode(mach.cast, m)| >= |BytesAll(WireOfAll(mach.cast, es))|
  {
    hide Fields;
  }

  // ---------------------------------------------------------------- reading

  /** t[name] of a table filled with these keys and values in order; `found` is what was there before. */
  function Lookup(es: seq<Value>, name: Text, found: Value): Value
    decreases |es|
  {
    if |es| < 2 then found else Lookup(es[2..], name, if es[0] == Str(name) then es[1] else found)
  }

  function Field(v: Value, name: Text): Value {
    if v.Table? then Lookup(v.entries, name, Nil) else Nil
  }

  /** Only a string is read as that string, and it is as a key. */
  lemma KeyOpens(cast: Cast, k: Value, name: Text)
    requires Packable(k) && Faults(k) == {}
    ensures WellFormed(WireOf(cast, k)) && (Seen(WireOf(cast, k), true, true).v == Str(name) <==> k == Str(name))
  {
    PackedMeans(cast, k);
  }

  /** A list of keys and values that mp.pack takes. */
  ghost predicate Pairs(es: seq<Value>) {
    |es| % 2 == 0 && (forall x :: x in es ==> Packable(x)) && FaultsAll(es) == {}
  }

  /** What mp.unpack makes of them, all together. */
  ghost function OpenedPairs(cast: Cast, es: seq<Value>, keying: bool): seq<Value>
    requires Pairs(es)
  {
    PackedAllMean(cast, es);
    SeenAll(WireOfAll(cast, es), true, true, keying).vs
  }

  lemma PairsSplit(es: seq<Value>)
    requires Pairs(es) && es != []
    ensures |es| >= 2 && Pairs(es[2..])
    ensures Packable(es[0]) && Faults(es[0]) == {} && Packable(es[1]) && Faults(es[1]) == {}
  {
    hide Packable, Faults;
    TwoFaults(es);
  }

  lemma OpenedStep(cast: Cast, es: seq<Value>, keying: bool)
    requires |es| >= 2 && Pairs(es) && Pairs(es[2..])
    ensures WellFormed(WireOf(cast, es[0])) && WellFormed(WireOf(cast, es[1]))
    ensures var k, x := Seen(WireOf(cast, es[0]), true, true), Seen(WireOf(cast, es[1]), true, false);
      OpenedPairs(cast, es, keying) == [k.v, x.v] + OpenedPairs(cast, es[2..], x.keying)
  {
    hide Packable, Faults, FaultsAll, WireOf, Seen, WellFormed, SeenAll;
    PackedAllMean(cast, es);
    PackedAllMean(cast, es[2..]);
    var ws := WireOfAll(cast, es);
    assert ws[0] == WireOf(cast, es[0]) && ws[1] == WireOf(cast, es[1]);
    RestOfWires(cast, es);
    SeenPair(ws, true, keying);
  }

  lemma PairOpens(cast: Cast, es: seq<Value>, keying: bool) returns (k: Value, after: bool)
    requires Pairs(es) && es != []
    ensures |es| >= 2 && Pairs(es[2..])
    ensures OpenedPairs(cast, es, keying) == [k, Opened(cast, es[1])] + OpenedPairs(cast, es[2..], after)
    ensures forall name: Text :: k == Str(name) <==> es[0] == Str(name)
  {
    hide Packable, Faults, WireOf, Seen, WellFormed, OpenedPairs, Opened, Pairs;
    PairsSplit(es);
    OpenedStep(cast, es, keying);
    OpenedSeen(cast, es[1]);
    k, after := Seen(WireOf(cast, es[0]), true, true).v, Seen(WireOf(cast, es[1]), true, false).keying;
    forall name: Text ensures k == Str(name) <==> es[0] == Str(name) {
      KeyOpens(cast, es[0], name);
    }
  }

  /** What reading a field of a map gives is what packing made of that field. */
  lemma {:induction false} LookupOpens(cast: Cast, es: seq<Value>, name: Text, found: Value, keying: bool)
    requires Pairs(es)
    ensures Lookup(OpenedPairs(cast, es, keying), name, Opened(cast, found)) == Opened(cast, Lookup(es, name, found))
    decreases |es|
  {
    hide Pairs, OpenedPairs, Lookup, Opened;
    if es == [] {
      SeenNothing(cast, keying);
      NoField(name, found);
      NoField(name, Opened(cast, found));
    } else {
      var k, after := PairOpens(cast, es, keying);
      var next := if es[0] == Str(name) then es[1] else found;
      LookupOpens(cast, es[2..], name, next, after);
      NextField(k, Opened(cast, es[1]), OpenedPairs(cast, es[2..], after), name, Opened(cast, found));
      assert [es[0], es[1]] + es[2..] == es;
      NextField(es[0], es[1], es[2..], name, found);
    }
  }

  lemma RestOfWires(cast: Cast, es: seq<Value>)
    requires |es| >= 2
    ensures WireOfAll(cast, es)[2..] == WireOfAll(cast, es[2..])
  {
    hide WireOf;
  }

  lemma OpenedSeen(cast: Cast, v: Value)
    requires Packable(v) && Faults(v) == {}
    ensures WellFormed(WireOf(cast, v)) && Opened(cast, v) == Seen(WireOf(cast, v), true, false).v
  {
    PackedMeans(cast, v);
  }

  lemma NoField(name: Text, found: Value)
    ensures Lookup([], name, found) == found
  {
  }

  lemma SeenNothing(cast: Cast, keying: bool)
    requires Pairs([])
    ensures OpenedPairs(cast, [], keying) == []
  {
  }

  lemma TwoFaults(es: seq<Value>)
    requires |es| >= 2 && FaultsAll(es) == {}
    ensures Faults(es[0]) == {} && Faults(es[1]) == {} && FaultsAll(es[2..]) == {}
  {
    hide Faults;
    assert es[1..][1..] == es[2..];
  }

  lemma NextField(k: Value, x: Value, rest: seq<Value>, name: Text, found: Value)
    ensures Lookup([k, x] + rest, name, found) == Lookup(rest, name, if k == Str(name) then x else found)
  {
    assert ([k, x] + rest)[2..] == rest;
  }

  lemma FieldOpens(cast: Cast, v: Value, name: Text)
    requires Packable(v) && Faults(v) == {}
    ensures Field(Opened(cast, v), name)
         == if v.Table? && v.items == [] then Opened(cast, Field(v, name)) else Nil
  {
    hide Packable, Faults, Lookup, Opened, OpenedPairs, Pairs;
    OpenedTable(cast, v);
    OpenedNil(cast);
    NoField(name, Nil);
    if v.Table? && v.items == [] {
      LookupOpens(cast, v.entries, name, Nil, false);
    }
  }

  lemma OpenedNil(cast: Cast)
    ensures Opened(cast, Nil) == Nil
  {
  }

  /** A map is opened as a map, an array without further keys, and nothing else as a table. */
  lemma OpenedTable(cast: Cast, v: Value)
    requires Packable(v) && Faults(v) == {}
    ensures var o := Opened(cast, v);
      if v.Table? && v.items == [] then Pairs(v.entries) && o == Table([], OpenedPairs(cast, v.entries, false))
      else o.Table? ==> o.entries == []
  {
    hide BadKey;
    PackedMeans(cast, v);
  }

  predicate IsNumber(v: Value) { v.Int? || v.Double? || v.NaN? || v.Single? }

  predicate IsBuffer(v: Value) { v.Str? || v.Stray? }

  /** A string is read as a buffer of its bytes, unless it is empty; a number as packing leaves it; and
      nothing else as a buffer or a number. */
  lemma OpenedMeans(cast: Cast, v: Value)
    requires Packable(v) && Faults(v) == {}
    ensures v.Str? ==> Opened(cast, v) == if v.s == [] then Stray else v
    ensures IsNumber(v) ==> Opened(cast, v) == Received(cast, v)
    ensures (IsBuffer(Opened(cast, v)) <==> v.Str?) && (IsNumber(Opened(cast, v)) <==> IsNumber(v))
    ensures Opened(cast, v).Nil? <==> v.Nil?
  {
    hide Integral, Representable, Rounded, TableOk, BadKey;
    PackedMeans(cast, v);
    SeenIsValue(WireOf(cast, v), true, false);
  }

  // ---------------------------------------------------------------- the fields that are looked at

  /** toString of what a string is read as. */
  function Read(t: Text, other: Window): Text { if t == [] then other else t }

  function Spelled(v: Value, other: Window): Text
    requires IsBuffer(v)
  {
    if v.Str? then v.s else other
  }

  /** The key a broadcast is heard under. */
  function KeyRead(packet: Packet, other: Window): Option<Text> {
    match packet.key case None => None case Some(k) => Some(Read(k, other))
  }

  /** The name under which the master keeps a socket, and whether the type is tcp. */
  datatype Binding = Binding(id: Text, tcp: bool)

  datatype Windows = Windows(kind: Window, address: Window)

  /** What the master reads of a bind's package. None is the error it raises where the package has no
      strings for type and address or no number for port. */
  ghost function BindOf(mach: Machine, p: Value, win: Windows): Option<Binding> {
    var o := Opened(mach.cast, p);
    var kind, address, port := Field(o, TYPE), Field(o, ADDRESS), Field(o, PORT);
    if !IsBuffer(kind) || !IsBuffer(address) || !IsNumber(port) then None
    else Some(Binding(
        Spelled(kind, win.kind) + BAR + Spelled(address, win.address) + BAR + mach.numeral(port),
        Spelled(kind, win.kind) == TCP))
  }

  /** Exactly the packages that are no arrays and have the three fields are read, and they are read as
      what they are, but for an empty type or address. */
  lemma BindReads(mach: Machine, p: Value, win: Windows)
    requires Packable(p) && Faults(p) == {}
    ensures var kind, address, port := Field(p, TYPE), Field(p, ADDRESS), Field(p, PORT);
      BindOf(mach, p, win)
      == if p.Table? && p.items == [] && kind.Str? && address.Str? && IsNumber(port) then
           Some(Binding(Read(kind.s, win.kind) + BAR + Read(address.s, win.address) + BAR
                        + mach.numeral(Received(mach.cast, port)), kind.s == TCP))
         else None
  {
    hide Packable, Faults, Field, Opened, Received;
    FieldOpens(mach.cast, p, TYPE);
    FieldOpens(mach.cast, p, ADDRESS);
    FieldOpens(mach.cast, p, PORT);
    if p.Table? && p.items == [] {
      FieldIsPackable(mach.cast, p, TYPE);
      FieldIsPackable(mach.cast, p, ADDRESS);
      FieldIsPackable(mach.cast, p, PORT);
      OpenedMeans(mach.cast, Field(p, TYPE));
      OpenedMeans(mach.cast, Field(p, ADDRESS));
      OpenedMeans(mach.cast, Field(p, PORT));
    }
  }

  /** A name that is read as itself depends on nothing but the three fields. */
  lemma SameNames(mach: Machine, p: Value, q: Value, win: Windows, win': Windows)
    requires Packable(p) && Faults(p) == {} && Packable(q) && Faults(q) == {}
    requires p.Table? && q.Table? && p.items == q.items == []
    requires Field(p, TYPE) == Field(q, TYPE) != Str([]) && Field(p, ADDRESS) == Field(q, ADDRESS) != Str([])
    requires Field(p, PORT) == Field(q, PORT)
    ensures BindOf(mach, p, win) == BindOf(mach, q, win')
  {
    hide Packable, Faults, Field, BindOf, Received;
    BindReads(mach, p, win);
    BindReads(mach, q, win');
  }

  /** {type = "tcp", address = "", port = 80} */
  const ANY_ADDRESS := Table([], [Str(TYPE), Str(TCP), Str(ADDRESS), Str([]), Str(PORT), Int(80)])

  /** Binding the empty address twice asks for two sockets, wherever the memory behind it differs. */
  lemma EmptyAddressExample(mach: Machine, win: Windows, win': Windows)
    requires win.address != win'.address
    ensures Packable(ANY_ADDRESS) && Faults(ANY_ADDRESS) == {}
    ensures var b, b' := BindOf(mach, ANY_ADDRESS, win), BindOf(mach, ANY_ADDRESS, win');
      b.Some? && b'.Some? && b.value.tcp && b'.value.tcp && b.value.id != b'.value.id
  {
    hide Packable, Faults, Representable, BindOf;
    AnyAddress();
    BindReads(mach, ANY_ADDRESS, win);
    BindReads(mach, ANY_ADDRESS, win');
    var n := mach.numeral(Received(mach.cast, Int(80)));
    SameEnds(TCP + BAR, win.address, win'.address, BAR, n);
  }

  lemma AnyAddress()
    ensures Packable(ANY_ADDRESS) && Faults(ANY_ADDRESS) == {}
    ensures Field(ANY_ADDRESS, TYPE) == Str(TCP) && Field(ANY_ADDRESS, ADDRESS) == Str([])
    ensures Field(ANY_ADDRESS, PORT) == Int(80)
  {
    hide Representable, Lookup, Fitting, Packable, Lacks;
    var es := ANY_ADDRESS.entries;
    EightyIsPackable();
    NamesArePackable();
    NothingFits();
    assert TYPE[0] != ADDRESS[0] && TYPE[0] != PORT[0] && ADDRESS[0] != PORT[0];
    ThreeFields(TYPE, Str(TCP), ADDRESS, Str([]), PORT, Int(80));
    AddEntry([], TYPE, Str(TCP));
    var one := [] + [Str(TYPE), Str(TCP)];
    AddEntry(one, ADDRESS, Str([]));
    var two := one + [Str(ADDRESS), Str([])];
    AddEntry(two, PORT, Int(80));
    assert two + [Str(PORT), Int(80)] == es;
    ProperTable(es);
    forall x | x in es ensures Faults(x) == {} { }
    NoFaults(es);
  }

  lemma ThreeFields(j: Text, x: Value, k: Text, y: Value, l: Text, z: Value)
    requires j != k && j != l && k != l
    ensures var es := [Str(j), x, Str(k), y, Str(l), z];
      Lookup(es, j, Nil) == x && Lookup(es, k, Nil) == y && Lookup(es, l, Nil) == z
  {
    hide Lookup;
    var es, last := [Str(j), x, Str(k), y, Str(l), z], [Str(l), z];
    assert [Str(j), x] + ([Str(k), y] + last) == es;
    forall name: Text
      ensures Lookup(es, name, Nil) == if l == name then z else if k == name then y else if j == name then x else Nil
    {
      NextField(Str(j), x, [Str(k), y] + last, name, Nil);
      NextField(Str(k), y, last, name, if j == name then x else Nil);
      LookupOne(l, z, name, if k == name then y else if j == name then x else Nil);
    }
  }

  lemma EightyIsPackable()
    ensures Packable(Int(80))
  {
  }

  lemma SameEnds(a: Text, x: Text, y: Text, b: Text, c: Text)
    ensures a + x + b + c == a + y + b + c <==> x == y
  {
    if a + x + b + c == a + y + b + c {
      assert |x| == |y|;
      assert x == (a + x + b + c)[|a|..|a| + |x|];
      assert y == (a + y + b + c)[|a|..|a| + |y|];
    }
  }

  lemma FieldIsPackable(cast: Cast, p: Value, name: Text)
    requires Packable(p) && Faults(p) == {} && p.Table? && p.items == []
    ensures Packable(Field(p, name)) && Faults(Field(p, name)) == {}
  {
    hide Packable, Faults, Lookup, Opened, OpenedPairs;
    OpenedTable(cast, p);
    NilIsPackable();
    LookupIsPackable(p.entries, name, Nil);
  }

  lemma NilIsPackable()
    ensures Packable(Nil) && Faults(Nil) == {}
  {
  }

  lemma {:induction false} LookupIsPackable(es: seq<Value>, name: Text, found: Value)
    requires Pairs(es) && Packable(found) && Faults(found) == {}
    ensures Packable(Lookup(es, name, found)) && Faults(Lookup(es, name, found)) == {}
    decreases |es|
  {
    hide Packable, Faults, Pairs;
    if es != [] {
      PairsSplit(es);
      LookupIsPackable(es[2..], name, if es[0] == Str(name) then es[1] else found);
    }
  }

  lemma {:induction false} LookupMore(a: seq<Value>, b: seq<Value>, name: Text, found: Value)
    requires |a| % 2 == 0
    ensures Lookup(a + b, name, found) == Lookup(b, name, Lookup(a, name, found))
    decreases |a|
  {
    if a == [] {
      assert a + b == b;
    } else {
      assert (a + b)[2..] == a[2..] + b;
      LookupMore(a[2..], b, name, if a[0] == Str(name) then a[1] else found);
    }
  }

  lemma LookupOne(k: Text, x: Value, name: Text, found: Value)
    ensures Lookup([Str(k), x], name, found) == if k == name then x else found
  {
    assert [Str(k), x][2..] == [];
  }

  /** A field of a packet's table. */
  lemma FieldIs(mach: Machine, packet: Packet, name: Text)
    ensures Field(Message(mach, packet), name)
         == if name == P && !packet.p.Nil? then packet.p
            else if name == KEY && packet.key.Some? then Str(packet.key.value)
            else if name == FROM && packet.from.Some? then Int(packet.from.value)
            else if name == ID then IdValue(mach, packet)
            else if name == CMD then Str(packet.cmd) else Nil
  {
    hide Lookup, IdValue;
    NamesDiffer();
    NoField(name, Nil);
    var id := IdValue(mach, packet);
    var es1, es2 := [Str(CMD), Str(packet.cmd)], [Str(ID), id];
    var es3 := match packet.from case None => [] case Some(w) => [Str(FROM), Int(w)];
    var es4 := match packet.key case None => [] case Some(k) => [Str(KEY), Str(k)];
    var es5 := if packet.p.Nil? then [] else [Str(P), packet.p];
    assert es1 + es2 == [Str(CMD), Str(packet.cmd), Str(ID), id];
    var a := if name == CMD then Str(packet.cmd) else Nil;
    LookupOne(CMD, Str(packet.cmd), name, Nil);
    LookupMore(es1, es2, name, Nil);
    LookupOne(ID, id, name, a);
    LookupMore(es1 + es2, es3, name, Nil);
    var b := Lookup(es1 + es2, name, Nil);
    if packet.from.Some? { LookupOne(FROM, Int(packet.from.value), name, b); } else { NoField(name, b); }
    LookupMore(es1 + es2 + es3, es4, name, Nil);
    var c := Lookup(es1 + es2 + es3, name, Nil);
    if packet.key.Some? { LookupOne(KEY, Str(packet.key.value), name, c); } else { NoField(name, c); }
    LookupMore(es1 + es2 + es3 + es4, es5, name, Nil);
    var d := Lookup(es1 + es2 + es3 + es4, name, Nil);
    if packet.p.Nil? { NoField(name, d); } else { LookupOne(P, packet.p, name, d); }
  }

  /** Every field of a packet that mp.pack takes is read as itself at the other end, but for an empty
      string and what packing does to the package. */
  lemma MessageReads(mach: Machine, packet: Packet)
    requires Proper(packet) && Faults(Message(mach, packet)) == {}
    ensures var o := Opened(mach.cast, Message(mach, packet));
      && Field(o, CMD) == (if packet.cmd == [] then Stray else Str(packet.cmd))
      && Field(o, KEY) == (match packet.key case None => Nil case Some(k) => if k == [] then Stray else Str(k))
      && Field(o, ID) == Opened(mach.cast, IdValue(mach, packet))
      && Field(o, P) == Opened(mach.cast, packet.p)
  {
    hide Packable, Faults, Field, Opened, IdValue, Fields;
    var m := Message(mach, packet);
    MessageIsPackable(mach, packet);
    NamesDiffer();
    FieldIs(mach, packet, CMD);
    FieldIs(mach, packet, KEY);
    FieldIs(mach, packet, ID);
    FieldIs(mach, packet, P);
    FieldOpens(mach.cast, m, CMD);
    FieldOpens(mach.cast, m, KEY);
    FieldOpens(mach.cast, m, ID);
    FieldOpens(mach.cast, m, P);
    OpenedNil(mach.cast);
    StringsFit(mach, packet);
    StringOpens(mach.cast, packet.cmd);
    if packet.key.Some? { StringOpens(mach.cast, packet.key.value); }
  }

  lemma StringsFit(mach: Machine, packet: Packet)
    requires Faults(Message(mach, packet)) == {}
    ensures |packet.cmd| < MAX_STRING && (packet.key.Some? ==> |packet.key.value| < MAX_STRING)
  {
    var es := Fields(mach, packet);
    assert es[1] == Str(packet.cmd);
    PartFaults(es, Str(packet.cmd));
    if packet.key.Some? {
      var i := if packet.from.Some? then 7 else 5;
      assert es[i] == Str(packet.key.value);
      PartFaults(es, Str(packet.key.value));
    }
  }

  lemma StringOpens(cast: Cast, t: Text)
    requires |t| < 0x1_0000_0000
    ensures Opened(cast, Str(t)) == if t == [] then Stray else Str(t)
  {
  }
}
