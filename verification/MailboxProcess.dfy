/** The two sides of the mailbox as they run: module state changed by each event, and the loop that
    cuts a read into packets. */
module MailboxProcess {
  import opened ByteSeq
  import opened Mailbox
  import opened MailboxPacket
  import opened MpackNumber
  import opened MpackWire
  import opened MpackReader
  import MpackWriter

  class WorkerProcess {
    const mach: Machine
    const workerId: nat
    var ipcChannel: bool
    var ipcOpen: bool
    var ipcConnected: bool
    var queue: seq<Packet>
    var callbacks: map<nat, nat>
    var callbacksBc: map<Text, seq<nat>>
    var reqId: nat
    var wire: seq<Packet>
    var ran: seq<Run>

    function View(): Worker
      reads this
    {
      Worker(workerId, ipcChannel, ipcOpen, ipcConnected, queue, callbacks, callbacksBc, reqId, wire, ran)
    }

    /** The numbers that go into packets are numbers of Lua. */
    ghost predicate Valid()
      reads this
    {
      Representable(workerId) && forall q | q in queue :: Proper(q)
    }

    constructor (mach: Machine, id: nat)
      requires Representable(id)
      ensures Valid() && View() == NewWorker(id) && this.mach == mach
    {
      this.mach, workerId := mach, id;
      ipcChannel, ipcOpen, ipcConnected := false, false, false;
      queue, wire, ran := [], [], [];
      callbacks, callbacksBc, reqId := map[], map[], 1;
    }

    /** c:write(mp.pack(packet)): nothing is written when mp.pack raises. */
    method WritePacket(packet: Packet) returns (ok: bool)
      requires Proper(packet)
      modifies this`wire
      ensures ok == Sendable(mach, packet)
      ensures wire == if ok then old(wire) + [packet] else old(wire)
    {
      MessageIsPackable(mach, packet);
      var packed := MpackWriter.Pack(mach.cast, Message(mach, packet));
      ok := packed.Packed?;
      if ok {
        wire := wire + [packet];
      }
    }

    /** ipc_connect; a second attempt is never made. */
    method IpcConnect()
      modifies this`ipcChannel
      ensures ipcChannel
    {
      if ipcChannel {
        return;
      }
      ipcChannel := true;
    }

    /** The callback of connect: greet, then drain the queue, up to an error of mp.pack. */
    method OnConnect(err: bool)
      requires Valid() && !ipcConnected
      modifies this`wire, this`queue, this`ipcOpen, this`ipcConnected
      ensures Valid() && View() == Connected(mach, old(View()), err)
    {
      hide Sendable, FirstRefused;
      if err {
        return;
      }
      ipcOpen := true;
      HelloIsProper(workerId);
      ShortIsSendable(mach, Hello(workerId));
      var ok := WritePacket(Hello(workerId));
      ghost var all, start, k := queue, wire, 0;
      while queue != []
        invariant k <= |all| && queue == all[k..] && wire == start + all[..k] && (forall q | q in queue :: Proper(q))
        invariant (forall i | 0 <= i < k :: Sendable(mach, all[i])) && ipcOpen && !ipcConnected
        decreases |queue|
      {
        var qi := queue[0];
        queue := queue[1..];
        assert qi == all[k] && all[..k + 1] == all[..k] + [qi];
        ok := WritePacket(qi);
        if !ok {
          FirstIs(mach, all, k);
          assert queue == Left(all, k);
          return;
        }
        k := k + 1;
      }
      FirstIs(mach, all, k);
      assert all[..k] == all;
      ipcConnected := true;
    }

    /** send_msg; false is the error of mp.pack. */
    method Send(packet: Packet) returns (ok: bool)
      requires Valid() && Proper(packet)
      modifies this`wire, this`queue, this`ipcChannel, this`reqId
      ensures Valid() && View() == SendMsg(mach, old(View()), packet)
      ensures ok == !PackRaises(mach, old(View()), packet)
    {
      hide Sendable;
      if ipcConnected {
        ok := WritePacket(packet);
        if !ok {
          return;
        }
      } else {
        queue := queue + [packet];
        IpcConnect();
        ok := true;
      }
      reqId := reqId + 1;
    }

    method AskMaster(cmd: Text, p: Value, callback: Option<nat>) returns (ok: bool)
      requires Valid() && Packable(p) && Representable(reqId)
      modifies this`wire, this`queue, this`ipcChannel, this`reqId, this`callbacks
      ensures Valid() && View() == ToMaster(mach, old(View()), cmd, p, callback)
      ensures ok == !PackRaises(mach, old(View()), Request(old(View()), cmd, p))
    {
      hide Sendable, Packable, Representable;
      var id := reqId;
      if callback.Some? {
        callbacks := callbacks[id := callback.value];
      }
      ok := Send(Packet(cmd, id, Some(workerId), None, p, None));
    }

    method Broadcast(p: Value, key: Option<Text>) returns (ok: bool)
      requires Valid() && Packable(p) && Representable(reqId)
      modifies this`wire, this`queue, this`ipcChannel, this`reqId
      ensures Valid() && View() == SendBroadcast(mach, old(View()), p, key)
      ensures ok == !PackRaises(mach, old(View()), Shouted(old(View()), p, key))
    {
      hide Sendable, Packable, Representable;
      ok := Send(Packet(BROADCAST, reqId, Some(workerId), key, p, None));
    }

    method Listen(key: Text, listener: nat)
      modifies this`callbacksBc
      ensures View() == RecvBroadcast(old(View()), key, listener)
    {
      if key !in callbacksBc {
        callbacksBc := callbacksBc[key := []];
      }
      callbacksBc := callbacksBc[key := callbacksBc[key] + [listener]];
    }

    /** ipc__process_packet; `other` is what an empty key is read as. */
    method ProcessPacket(packet: Packet, other: Window)
      modifies this`ran, this`callbacks
      ensures View() == Receive(old(View()), packet, other)
    {
      if packet.cmd == BROADCAST {
        if packet.key.None? {
          return;
        }
        var key := Read(packet.key.value, other);
        if key in callbacksBc {
          var i := 0;
          while i < |callbacksBc[key]|
            invariant i <= |callbacksBc[key]| && callbacks == old(callbacks)
            invariant ran == old(ran) + Calls(callbacksBc[key], packet)[..i]
          {
            ran := ran + [Heard(callbacksBc[key][i], packet)];
            i := i + 1;
          }
          assert |Calls(callbacksBc[key], packet)| == i;
          assert Calls(callbacksBc[key], packet)[..i] == Calls(callbacksBc[key], packet);
        }
      } else if packet.cmd == REPLY {
        if packet.id !in callbacks {
          return;
        }
        ran := ran + [Answered(packet.id, callbacks[packet.id], packet.fd)];
        callbacks := callbacks - {packet.id};
      }
    }
  }

  lemma HelloIsProper(worker: nat)
    requires Representable(worker)
    ensures Proper(Hello(worker))
  {
  }

  lemma FirstIs(mach: Machine, packets: seq<Packet>, k: nat)
    requires k <= |packets| && forall i | 0 <= i < k :: Sendable(mach, packets[i])
    requires k < |packets| ==> !Sendable(mach, packets[k])
    ensures FirstRefused(mach, packets) == k
  {
    hide Sendable;
    var j := FirstRefused(mach, packets);
    assert j < |packets| ==> !Sendable(mach, packets[j]);
    assert k < |packets| ==> !Sendable(mach, packets[k]);
  }

  class MasterProcess {
    const mach: Machine
    var bindPool: map<Text, nat>
    var workerPool: map<nat, Option<nat>>
    var out: map<nat, seq<Packet>>
    var ended: bool

    function View(): Master
      reads this
    {
      Master(workerPool, bindPool, out, ended)
    }

    constructor (mach: Machine)
      ensures View() == NO_MASTER && this.mach == mach
    {
      this.mach := mach;
      bindPool, workerPool, out, ended := map[], map[], map[], false;
    }

    method WritePacket(c: nat, packet: Packet)
      modifies this`out
      ensures View() == Write(old(View()), c, packet)
    {
      out := out[c := (if c in out then out[c] else []) + [packet]];
    }

    /** The listen callback. */
    method OnConnection(c: nat)
      modifies this`workerPool
      ensures View() == Accept(old(View()), c)
    {
      workerPool := workerPool[c := None];
    }

    method OnClose(c: nat)
      requires c in workerPool
      modifies this`workerPool
      ensures View() == Close(old(View()), c)
    {
      workerPool := workerPool - {c};
    }

    /** client__process_packet; `fd` is the descriptor a new socket would get, `win` what empty fields are
        read as, and false the error that a bind without its fields raises. */
    method ProcessPacket(c: nat, packet: Packet, fd: nat, win: Windows) returns (ok: bool)
      requires c in workerPool && WellFormed(WireOf(mach.cast, packet.p)) && !ended
      modifies this
      ensures var n := Process(old(View()), c, packet, BindOf(mach, packet.p, win), fd);
        && (forall v :: Out(View(), v) == Out(n, v)) && workerPool == n.pool && bindPool == n.binds
        && ended == n.ended && ok == !ended
    {
      ok := true;
      if packet.cmd == HELLO {
        workerPool := workerPool[c := Some(packet.id)];
      } else if packet.cmd == BIND {
        var o := UnpackPackage(packet.p);
        var kind, address, port := Field(o, TYPE), Field(o, ADDRESS), Field(o, PORT);
        if !IsBuffer(kind) || !IsBuffer(address) || !IsNumber(port) {
          ended := true;
          return false;
        }
        var id := Spelled(kind, win.kind) + BAR + Spelled(address, win.address) + BAR + mach.numeral(port);
        if id !in bindPool {
          if Spelled(kind, win.kind) == TCP {
            bindPool := bindPool[id := fd];
          } else {
            return;
          }
        }
        WritePacket(c, Reply(packet.id, bindPool[id]));
      } else if packet.cmd == BROADCAST {
        SpreadPacket(c, packet);
      }
    }

    /** What mp.unpack gives for the package of a packet. */
    method UnpackPackage(p: Value) returns (o: Value)
      requires WellFormed(WireOf(mach.cast, p))
      ensures o == Opened(mach.cast, p)
    {
      o := Seen(WireOf(mach.cast, p), true, false).v;
    }

    /** The pairs loop of a broadcast, in whatever order the connections come. */
    method SpreadPacket(c: nat, packet: Packet)
      modifies this`out
      ensures forall v :: Out(View(), v) == Out(Spread(old(View()), c, packet), v)
    {
      ghost var before := View();
      var rest := workerPool.Keys;
      while rest != {}
        invariant rest <= workerPool.Keys
        invariant forall v :: Out(View(), v) == Out(if v in rest then before else Spread(before, c, packet), v)
        decreases |rest|
      {
        var wc :| wc in rest;
        rest := rest - {wc};
        if workerPool[wc].Some? && c != wc {
          WritePacket(wc, packet);
        }
      }
    }
  }

  // ---------------------------------------------------------------- reading

  /** What the packet handler is called with: the value, and the bytes it was read from. */
  datatype Handed = Handed(v: Value, bytes: seq<byte>)

  /** The calls of the packet handler for a read, and whether it came to its end without an error. */
  datatype Reading = Reading(handed: seq<Handed>, ok: bool)

  /** ipc__on_read and client__on_read: unpack at the front, hand on, and go on behind it while there
      is more. Where the front is no message, the source fails on a nil length, and where decoding
      raises, there; what was handed on before stays so. */
  function Cut(buf: seq<byte>): (r: Reading)
    requires buf != []
    decreases |buf|
  {
    var x := UnpackAny(buf, START, true);
    if x.c.raised || x.c.err || x.c.ofs == 0 then Reading([], false)
    else if x.c.ofs == |buf| then Reading([Handed(x.v, buf)], true)
    else
      Behind([Handed(x.v, buf[..x.c.ofs])], Cut(buf[x.c.ofs..]))
  }

  function Behind(front: seq<Handed>, rest: Reading): Reading { rest.(handed := front + rest.handed) }

  lemma BehindMore(a: seq<Handed>, b: seq<Handed>, rest: Reading)
    ensures Behind(a, Behind(b, rest)) == Behind(a + b, rest) && Behind([], rest) == rest
    ensures Behind(a, Reading([], rest.ok)) == Reading(a, rest.ok)
  {
    assert a + (b + rest.handed) == a + b + rest.handed;
    assert [] + rest.handed == rest.handed && a + [] == a;
  }

  lemma CutUnfold(buf: seq<byte>)
    requires buf != []
    ensures var x := UnpackAny(buf, START, true);
      Cut(buf) ==
        if x.c.raised || x.c.err || x.c.ofs == 0 then Reading([], false)
        else if x.c.ofs == |buf| then Reading([Handed(x.v, buf[..x.c.ofs])], true)
        else Behind([Handed(x.v, buf[..x.c.ofs])], Cut(buf[x.c.ofs..]))
  {
    hide UnpackAny, Behind;
    assert buf[..|buf|] == buf;
  }

  method OnRead(data: seq<byte>) returns (r: Reading)
    requires data != []
    ensures r == Cut(data)
  {
    hide Cut, UnpackAny, Behind;
    var buf := data;
    var handed: seq<Handed> := [];
    BehindMore([], [], Cut(buf));
    while true
      invariant buf != []
      invariant Cut(data) == Behind(handed, Cut(buf))
      decreases |buf|
    {
      var rb := new Reader(buf, true);
      var v := rb.UnpackAnytype();
      CutUnfold(buf);
      BehindMore(handed, [], Reading([], false));
      if rb.raised || rb.err || rb.ofs == 0 {
        return Reading(handed, false);
      }
      var next := Handed(v, buf[..rb.ofs]);
      BehindMore(handed, [next], if rb.ofs < |buf| then Cut(buf[rb.ofs..]) else Reading([], true));
      BehindMore([next], [], Reading([], true));
      BehindMore(handed + [next], [], Reading([], true));
      handed := handed + [next];
      if rb.ofs == |buf| {
        return Reading(handed, true);
      }
      buf := buf[rb.ofs..];
    }
  }

  /** The packets of a read are cut apart exactly: each is handed on once, in order, with its own
      bytes, which is what a broadcast forwards, and as what mp.unpack makes of it alone. Its value is
      intact, with buffers for its strings, exactly when no empty string lies outside a map key, no
      integer in it was lost in packing and no table in it has both items and further entries. Whatever
      follows, those before it are handed on. */
  lemma {:induction false} ReadsAreCutExactly(cast: Cast, vs: seq<Value>, tail: seq<byte>)
    requires vs != [] && (forall v | v in vs :: Packable(v)) && FaultsAll(vs) == {}
    ensures var buf := BytesAll(WireOfAll(cast, vs)) + tail;
      && buf != [] && Cut(buf).ok == (tail == [] || Cut(tail).ok)
      && |Cut(buf).handed| == |vs| + (if tail == [] then 0 else |Cut(tail).handed|)
      && forall i | 0 <= i < |vs| ::
        && Cut(buf).handed[i] == Handed(Opened(cast, vs[i]), Encode(cast, vs[i]))
        && (Cut(buf).handed[i].v == vs[i] <==> Clean(WireOf(cast, vs[i]), false).ok && Faithful(cast, vs[i]))
    decreases |vs|
  {
    hide UnpackAny, WireOf, Bytes, Packable, Faults, Clean, Faithful, Received, Opened, Cut;
    var ws := WireOfAll(cast, vs);
    var rest := BytesAll(WireOfAll(cast, vs[1..])) + tail;
    FirstOfRead(cast, vs, tail);
    var buf := BytesAll(ws) + tail;
    var e := Encode(cast, vs[0]);
    NeverEmpty(cast, vs[0]);
    BufferRoundTrip(cast, vs[0], rest);
    CutUnfold(buf);
    assert buf[..|e|] == e && buf[|e|..] == rest;
    if |vs| == 1 {
      assert rest == tail;
    } else {
      ReadsAreCutExactly(cast, vs[1..], tail);
      assert forall i | 1 <= i < |vs| :: vs[i] == vs[1..][i - 1];
    }
  }

  lemma FirstOfRead(cast: Cast, vs: seq<Value>, tail: seq<byte>)
    requires vs != [] && FaultsAll(vs) == {}
    ensures BytesAll(WireOfAll(cast, vs)) + tail
         == Encode(cast, vs[0]) + (BytesAll(WireOfAll(cast, vs[1..])) + tail)
    ensures |vs| == 1 ==> BytesAll(WireOfAll(cast, vs[1..])) + tail == tail
    ensures Faults(vs[0]) == {} && FaultsAll(vs[1..]) == {}
  {
    hide Bytes, WireOf, Faults;
    assert WireOfAll(cast, vs)[1..] == WireOfAll(cast, vs[1..]);
  }

  /** Packets written one after the other are handed on one by one, each read as itself, but for empty
      strings and what packing does to its package. */
  lemma PacketsAreRead(mach: Machine, packets: seq<Packet>)
    requires packets != [] && forall q | q in packets :: Proper(q) && Faults(Message(mach, q)) == {}
    ensures var r := Cut(BytesAll(WireOfAll(mach.cast, Messages(mach, packets))));
      && r.ok && |r.handed| == |packets|
      && forall i | 0 <= i < |packets| ::
        var q, o := packets[i], r.handed[i].v;
        && r.handed[i].bytes == Encode(mach.cast, Message(mach, q))
        && Field(o, CMD) == (if q.cmd == [] then Stray else Str(q.cmd))
        && Field(o, KEY) == (match q.key case None => Nil case Some(k) => if k == [] then Stray else Str(k))
        && Field(o, ID) == Opened(mach.cast, IdValue(mach, q)) && Field(o, P) == Opened(mach.cast, q.p)
  {
    hide Cut, Field, Opened, Message, IdValue, Faults, Packable, BytesAll, WireOf, Proper, Clean, Faithful, Encode;
    var vs := Messages(mach, packets);
    forall v | v in vs ensures Packable(v) && Faults(v) == {} {
      var i :| 0 <= i < |packets| && v == Message(mach, packets[i]);
      MessageIsPackable(mach, packets[i]);
    }
    NoFaults(vs);
    ReadsAreCutExactly(mach.cast, vs, []);
    var bytes := BytesAll(WireOfAll(mach.cast, vs));
    assert bytes + [] == bytes;
    forall i | 0 <= i < |packets|
      ensures var q, o := packets[i], Opened(mach.cast, vs[i]);
        && Field(o, CMD) == (if q.cmd == [] then Stray else Str(q.cmd))
        && Field(o, KEY) == (match q.key case None => Nil case Some(k) => if k == [] then Stray else Str(k))
        && Field(o, ID) == Opened(mach.cast, IdValue(mach, q)) && Field(o, P) == Opened(mach.cast, q.p)
    {
      MessageReads(mach, packets[i]);
    }
  }

  function Messages(mach: Machine, packets: seq<Packet>): seq<Value> {
    seq(|packets|, i requires 0 <= i < |packets| => Message(mach, packets[i]))
  }
}
