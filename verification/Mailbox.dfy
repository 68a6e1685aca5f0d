/** The mailbox between worker processes and their master: the state of each side, its steps, and
    what every interleaving of them keeps. */
module Mailbox {
  import opened ByteSeq
  import opened MpackWire
  import opened MailboxPacket

  // ---------------------------------------------------------------- a worker

  /** A callback that was run: for a reply, with the descriptor that came beside it, or for a broadcast. */
  datatype Run = Answered(id: nat, callback: nat, fd: Option<nat>) | Heard(listener: nat, packet: Packet)

  /** The module state of a worker, whether its pipe is open, what it has written to it and the callbacks
      it has run. `dialing` is ipc_channel and `connected` is ipc_connected. */
  datatype Worker = Worker(
    me: nat, dialing: bool, open: bool, connected: bool, queue: seq<Packet>, callbacks: map<nat, nat>,
    listeners: map<Text, seq<nat>>, reqId: nat, wire: seq<Packet>, ran: seq<Run>)

  function NewWorker(me: nat): Worker { Worker(me, false, false, false, [], map[], map[], 1, [], []) }

  /** mp.pack raises in send_msg: nothing is sent and the number is not used up. */
  ghost predicate PackRaises(mach: Machine, w: Worker, packet: Packet) { w.connected && !Sendable(mach, packet) }

  ghost function SendMsg(mach: Machine, w: Worker, packet: Packet): Worker {
    if PackRaises(mach, w, packet) then w
    else
      var v := if w.connected then w.(wire := w.wire + [packet]) else w.(queue := w.queue + [packet], dialing := true);
      v.(reqId := w.reqId + 1)
  }

  function Request(w: Worker, cmd: Text, p: Value): Packet { Packet(cmd, w.reqId, Some(w.me), None, p, None) }

  function Shouted(w: Worker, p: Value, key: Option<Text>): Packet {
    Packet(BROADCAST, w.reqId, Some(w.me), key, p, None)
  }

  /** The callback is stored before the packet is packed, and stays when that raises. */
  ghost function ToMaster(mach: Machine, w: Worker, cmd: Text, p: Value, callback: Option<nat>): Worker {
    SendMsg(mach, Passed(w, callback), Request(w, cmd, p))
  }

  function Passed(w: Worker, callback: Option<nat>): Worker {
    if callback.Some? then w.(callbacks := w.callbacks[w.reqId := callback.value]) else w
  }

  ghost function SendBroadcast(mach: Machine, w: Worker, p: Value, key: Option<Text>): Worker {
    SendMsg(mach, w, Shouted(w, p, key))
  }

  function RecvBroadcast(w: Worker, key: Text, listener: nat): Worker {
    w.(listeners := w.listeners[key := (if key in w.listeners then w.listeners[key] else []) + [listener]])
  }

  /** The place of the first packet that mp.pack refuses, or the length. */
  ghost function FirstRefused(mach: Machine, packets: seq<Packet>): (k: nat)
    ensures k <= |packets| && forall i | 0 <= i < k :: Sendable(mach, packets[i])
    ensures k < |packets| ==> !Sendable(mach, packets[k])
    decreases |packets|
  {
    if packets == [] || !Sendable(mach, packets[0]) then 0 else 1 + FirstRefused(mach, packets[1..])
  }

  /** What is left in the queue when draining it ended at place k: a refused packet has left it too. */
  function Left(packets: seq<Packet>, k: nat): seq<Packet> { if k < |packets| then packets[k + 1..] else [] }

  /** The callback of the connection attempt: hello and the queue are written, up to a packet that is
      refused, where the error ends the callback. */
  ghost function Connected(mach: Machine, w: Worker, err: bool): Worker {
    if err then w
    else
      var k := FirstRefused(mach, w.queue);
      w.(open := true, wire := w.wire + [Hello(w.me)] + w.queue[..k], queue := Left(w.queue, k),
         connected := k == |w.queue|)
  }

  function Calls(listeners: seq<nat>, packet: Packet): seq<Run> {
    seq(|listeners|, i requires 0 <= i < |listeners| => Heard(listeners[i], packet))
  }

  /** `other` is what an empty key is read as. */
  function Receive(w: Worker, packet: Packet, other: Window): Worker {
    if packet.cmd == BROADCAST then
      var key := KeyRead(packet, other);
      if key.Some? && key.value in w.listeners then
        w.(ran := w.ran + Calls(w.listeners[key.value], packet))
      else w
    else if packet.cmd == REPLY && packet.id in w.callbacks then
      w.(ran := w.ran + [Answered(packet.id, w.callbacks[packet.id], packet.fd)],
         callbacks := w.callbacks - {packet.id})
    else w
  }

  // ---------------------------------------------------------------- the master

  /** The pools of the master, by connection, what it has written to each connection, and whether an
      error in a callback has ended it. */
  datatype Master = Master(
    pool: map<nat, Option<nat>>, binds: map<Text, nat>, out: map<nat, seq<Packet>>, ended: bool)

  const NO_MASTER := Master(map[], map[], map[], false)

  function Out(m: Master, c: nat): seq<Packet> { if c in m.out then m.out[c] else [] }

  function Write(m: Master, c: nat, packet: Packet): Master { m.(out := m.out[c := Out(m, c) + [packet]]) }

  function Accept(m: Master, c: nat): Master { m.(pool := m.pool[c := None]) }

  /** Another connection that has said hello. */
  predicate Hears(m: Master, sender: nat, c: nat) { c in m.pool && m.pool[c].Some? && c != sender }

  function Spread(m: Master, sender: nat, packet: Packet): Master {
    m.(out := map c | c in m.out.Keys + m.pool.Keys ::
         if Hears(m, sender, c) then Out(m, c) + [packet] else Out(m, c))
  }

  /** One packet of connection c; `bind` is what the package of a bind is read as, and `fd` the descriptor
      of the socket that a new bind makes. */
  function Process(m: Master, c: nat, packet: Packet, bind: Option<Binding>, fd: nat): Master
    requires c in m.pool
  {
    if packet.cmd == HELLO then m.(pool := m.pool[c := Some(packet.id)])
    else if packet.cmd == BIND then
      if bind.None? then m.(ended := true)
      else
        var id := bind.value.id;
        if id in m.binds then Write(m, c, Reply(packet.id, m.binds[id]))
        else if bind.value.tcp then Write(m.(binds := m.binds[id := fd]), c, Reply(packet.id, fd))
        else m
    else if packet.cmd == BROADCAST then Spread(m, c, packet)
    else m
  }

  function Close(m: Master, c: nat): Master { m.(pool := m.pool - {c}) }

  // ---------------------------------------------------------------- all processes and their pipes

  /** What the master saw, in order; of a packet also what its package was read as for a bind. */
  datatype Entry = Came(c: nat) | Said(c: nat, packet: Packet, bind: Option<Binding>, fd: nat) | Gone(c: nat)

  /** What a worker saw, in order: a listener registered, and a packet that came, with what an empty key
      is read as. */
  datatype Moment = Registers(key: Text, listener: nat) | Arrives(packet: Packet, other: Window)

  /** The workers, the master, how much of each pipe has been read at its other end, and the history:
      what each worker sent (a call that raised sent nothing), the callback it last passed with each
      number, what it saw, and what the master saw. */
  datatype System = System(
    mach: Machine, workers: seq<Worker>, master: Master, heard: seq<nat>, got: seq<nat>, dialed: seq<bool>,
    accepted: seq<bool>, sent: seq<seq<Packet>>, asked: seq<map<nat, nat>>, life: seq<seq<Moment>>, log: seq<Entry>)

  datatype Event =
    | Ask(i: nat, cmd: Text, p: Value, callback: Option<nat>)
    | Shout(i: nat, p: Value, key: Option<Text>)
    | Listen(i: nat, topic: Text, listener: nat)
    | Dial(i: nat, err: bool)
    | Join(i: nat)
    | MasterReads(i: nat, fd: nat, win: Windows)
    | WorkerReads(i: nat, other: Window)
    | Leave(i: nat)

  /** The number of workers is fixed and every history has one entry a worker. */
  predicate Shaped(s: System) {
    var n := |s.workers|;
    && |s.heard| == n && |s.got| == n && |s.dialed| == n && |s.accepted| == n
    && |s.sent| == n && |s.asked| == n && |s.life| == n
  }

  /** Whether an event can happen. A worker dials once, and the master accepts a connection once; a
      pipe delivers what was written to it in order. */
  ghost predicate Enabled(s: System, e: Event)
    requires Shaped(s)
  {
    && e.i < |s.workers|
    && match e
       case Dial(i, _) => s.workers[i].dialing && !s.dialed[i]
       case Join(i) => s.workers[i].open && !s.accepted[i] && !s.master.ended
       case MasterReads(i, _, _) => i in s.master.pool && s.heard[i] < |s.workers[i].wire| && !s.master.ended
       case WorkerReads(i, _) => s.workers[i].open && s.got[i] < |Out(s.master, i)|
       case Leave(i) => i in s.master.pool && !s.master.ended
       case Ask(_, _, p, _) => Packable(p)
       case Shout(_, p, _) => Packable(p)
       case Listen(_, _, _) => true
  }

  /** The history of sending after a packet was handed to send_msg. */
  ghost function Sent(mach: Machine, w: Worker, sent: seq<Packet>, packet: Packet): seq<Packet> {
    if PackRaises(mach, w, packet) then sent else sent + [packet]
  }

  ghost function Step(s: System, e: Event): (t: System)
    requires Shaped(s) && Enabled(s, e)
    ensures Shaped(t) && |t.workers| == |s.workers|
  {
    var w := s.workers[e.i];
    match e
    case Ask(i, cmd, p, callback) =>
      s.(workers := s.workers[i := ToMaster(s.mach, w, cmd, p, callback)],
         sent := s.sent[i := Sent(s.mach, w, s.sent[i], Request(w, cmd, p))],
         asked := s.asked[i := if callback.Some? then s.asked[i][w.reqId := callback.value] else s.asked[i]])
    case Shout(i, p, key) =>
      s.(workers := s.workers[i := SendBroadcast(s.mach, w, p, key)],
         sent := s.sent[i := Sent(s.mach, w, s.sent[i], Shouted(w, p, key))])
    case Listen(i, key, listener) =>
      s.(workers := s.workers[i := RecvBroadcast(w, key, listener)],
         life := s.life[i := s.life[i] + [Registers(key, listener)]])
    case Dial(i, err) => s.(workers := s.workers[i := Connected(s.mach, w, err)], dialed := s.dialed[i := true])
    case Join(i) =>
      s.(master := Accept(s.master, i), accepted := s.accepted[i := true], log := s.log + [Came(i)])
    case MasterReads(i, fd, win) =>
      var packet := w.wire[s.heard[i]];
      var bind := BindOf(s.mach, packet.p, win);
      s.(master := Process(s.master, i, packet, bind, fd), heard := s.heard[i := s.heard[i] + 1],
         log := s.log + [Said(i, packet, bind, fd)])
    case WorkerReads(i, other) =>
      var packet := Out(s.master, i)[s.got[i]];
      s.(workers := s.workers[i := Receive(w, packet, other)], got := s.got[i := s.got[i] + 1],
         life := s.life[i := s.life[i] + [Arrives(packet, other)]])
    case Leave(i) => s.(master := Close(s.master, i), log := s.log + [Gone(i)])
  }

  function Start(mach: Machine, n: nat): (s: System)
    ensures Shaped(s)
  {
    System(mach, seq(n, i requires 0 <= i < n => NewWorker(i)), NO_MASTER, seq(n, _ => 0), seq(n, _ => 0),
           seq(n, _ => false), seq(n, _ => false), seq(n, _ => []), seq(n, _ => map[]), seq(n, _ => []), [])
  }

  /** The state after a run; an event that cannot happen does not. */
  ghost function Runs(s: System, es: seq<Event>): (t: System)
    requires Shaped(s)
    ensures Shaped(t) && |t.workers| == |s.workers|
    decreases |es|
  {
    if es == [] then s else Runs(if Enabled(s, es[0]) then Step(s, es[0]) else s, es[1..])
  }

  // ---------------------------------------------------------------- what a worker keeps

  /** The requests that were answered, in order. */
  function AnsweredIds(ran: seq<Run>): seq<nat> {
    if ran == [] then []
    else AnsweredIds(ran[..|ran| - 1]) + (if ran[|ran| - 1].Answered? then [ran[|ran| - 1].id] else [])
  }

  ghost predicate Distinct(ids: seq<nat>) { forall i, j | 0 <= i < j < |ids| :: ids[i] != ids[j] }

  /** Until the pipe is open everything sent is queued. Then the wire is hello and what was sent, up to
      the first packet that mp.pack refuses; that one is lost, and what was sent behind it is queued.
      Requests are numbered 1, 2, 3. */
  ghost predicate WireOk(mach: Machine, w: Worker, sent: seq<Packet>) {
    var k := FirstRefused(mach, sent);
    && (!w.open ==> w.queue == sent && w.wire == [] && !w.connected)
    && (w.open ==> w.wire == [Hello(w.me)] + sent[..k] && w.queue == Left(sent, k))
    && (w.open ==> (w.connected <==> k == |sent|))
    && (!w.dialing ==> sent == [] && !w.open)
    && w.reqId == |sent| + 1
    && forall k | 0 <= k < |sent| :: sent[k].id == k + 1
  }

  /** A callback is pending, or has run once, with its own number; or it was never passed. */
  ghost predicate CallsOk(w: Worker, asked: map<nat, nat>) {
    && (forall id | id in asked :: id <= w.reqId)
    && (forall id | id in AnsweredIds(w.ran) :: id < w.reqId)
    && (forall id :: id in w.callbacks <==> id in asked && id !in AnsweredIds(w.ran))
    && (forall id | id in w.callbacks :: w.callbacks[id] == asked[id])
    && Distinct(AnsweredIds(w.ran))
    && (forall r | r in w.ran && r.Answered? :: r.id in asked && r.callback == asked[r.id])
    && (forall r | r in w.ran && r.Answered? :: r.id in AnsweredIds(w.ran))
    && (forall id | id in AnsweredIds(w.ran) :: id in asked)
  }

  lemma {:induction false} AnsweredMore(ran: seq<Run>, more: seq<Run>)
    requires forall r | r in more :: r.Heard?
    ensures AnsweredIds(ran + more) == AnsweredIds(ran)
    decreases |more|
  {
    if more == [] {
      assert ran + more == ran;
    } else {
      assert (ran + more)[..|ran + more| - 1] == ran + more[..|more| - 1];
      assert more[|more| - 1] in more;
      AnsweredMore(ran, more[..|more| - 1]);
    }
  }

  lemma {:induction false} FirstMore(mach: Machine, sent: seq<Packet>, packet: Packet)
    ensures FirstRefused(mach, sent + [packet])
         == if FirstRefused(mach, sent) < |sent| then FirstRefused(mach, sent)
            else if Sendable(mach, packet) then |sent| + 1 else |sent|
    decreases |sent|
  {
    hide Sendable;
    if sent == [] {
      assert sent + [packet] == [packet] && [packet][1..] == [];
    } else {
      assert (sent + [packet])[1..] == sent[1..] + [packet];
      FirstMore(mach, sent[1..], packet);
    }
  }

  lemma SendKeepsWire(mach: Machine, w: Worker, sent: seq<Packet>, packet: Packet)
    requires WireOk(mach, w, sent) && packet.id == w.reqId
    ensures WireOk(mach, SendMsg(mach, w, packet), Sent(mach, w, sent, packet))
  {
    hide Sendable, FirstRefused;
    if !PackRaises(mach, w, packet) {
      FirstMore(mach, sent, packet);
      var k := FirstRefused(mach, sent);
      if w.connected {
        assert sent[..k] == sent;
        assert (sent + [packet])[..k + 1] == sent + [packet];
        assert [Hello(w.me)] + sent + [packet] == [Hello(w.me)] + (sent + [packet]);
      } else if w.open {
        assert (sent + [packet])[..k] == sent[..k] && (sent + [packet])[k + 1..] == sent[k + 1..] + [packet];
      }
    }
  }

  lemma ConnectKeepsWire(mach: Machine, w: Worker, sent: seq<Packet>, err: bool)
    requires WireOk(mach, w, sent) && !w.open && w.dialing
    ensures WireOk(mach, Connected(mach, w, err), sent)
  {
    hide Sendable, FirstRefused;
    var k := FirstRefused(mach, sent);
    assert [] + [Hello(w.me)] + sent[..k] == [Hello(w.me)] + sent[..k];
  }

  lemma AskKeepsCalls(mach: Machine, w: Worker, asked: map<nat, nat>, cmd: Text, p: Value, callback: Option<nat>)
    requires CallsOk(w, asked)
    ensures CallsOk(ToMaster(mach, w, cmd, p, callback),
                    if callback.Some? then asked[w.reqId := callback.value] else asked)
  {
    hide AnsweredIds, Sendable;
    assert w.reqId !in AnsweredIds(w.ran);
  }

  lemma ReceiveKeepsCalls(w: Worker, asked: map<nat, nat>, packet: Packet, other: Window)
    requires CallsOk(w, asked) && (packet.cmd == REPLY ==> packet.id < w.reqId)
    ensures CallsOk(Receive(w, packet, other), asked)
  {
    hide KeyRead;
    var v := Receive(w, packet, other);
    var key := KeyRead(packet, other);
    if packet.cmd == BROADCAST {
      if key.Some? && key.value in w.listeners {
        AnsweredMore(w.ran, Calls(w.listeners[key.value], packet));
      }
    } else if packet.cmd == REPLY && packet.id in w.callbacks {
      assert v.ran[..|v.ran| - 1] == w.ran;
      assert AnsweredIds(v.ran) == AnsweredIds(w.ran) + [packet.id];
    }
  }

  // ---------------------------------------------------------------- what the master keeps

  /** Read from what the master saw: who is there, who has said hello, which addresses are bound. */
  predicate Present(log: seq<Entry>, c: nat) {
    log != [] &&
    var e := log[|log| - 1];
    if e.Came? && e.c == c then true
    else if e.Gone? && e.c == c then false
    else Present(log[..|log| - 1], c)
  }

  predicate Greeted(log: seq<Entry>, c: nat) {
    log != [] &&
    var e := log[|log| - 1];
    if !e.Said? && e.c == c then false
    else if e.Said? && e.c == c && e.packet.cmd == HELLO then true
    else Greeted(log[..|log| - 1], c)
  }

  predicate Binds(e: Entry, id: Text) { e.Said? && e.packet.cmd == BIND && e.bind == Some(Binding(id, true)) }

  /** The descriptor of a bound address: that of the first bind for it. */
  function Bound(log: seq<Entry>, id: Text): Option<nat> {
    if log == [] then None
    else
      var before := Bound(log[..|log| - 1], id);
      if before.Some? then before
      else if Binds(log[|log| - 1], id) then Some(log[|log| - 1].fd) else None
  }

  /** What one packet makes the master write to connection v. */
  function Share(log: seq<Entry>, e: Entry, v: nat): seq<Packet> {
    if !e.Said? then []
    else if e.packet.cmd == BROADCAST then if e.c != v && Present(log, v) && Greeted(log, v) then [e.packet] else []
    else if e.packet.cmd == BIND && e.c == v && e.bind.Some? then
      var fd := Bound(log + [e], e.bind.value.id);
      if fd.Some? then [Reply(e.packet.id, fd.value)] else []
    else []
  }

  function Delivered(log: seq<Entry>, v: nat): seq<Packet> {
    if log == [] then []
    else Delivered(log[..|log| - 1], v) + Share(log[..|log| - 1], log[|log| - 1], v)
  }

  /** What connection c said, in order. */
  function Words(log: seq<Entry>, c: nat): seq<Packet> {
    if log == [] then []
    else
      var e := log[|log| - 1];
      Words(log[..|log| - 1], c) + (if e.Said? && e.c == c then [e.packet] else [])
  }

  ghost predicate MasterOk(m: Master, log: seq<Entry>) {
    && (forall c :: c in m.pool <==> Present(log, c))
    && (forall c | c in m.pool :: m.pool[c].Some? <==> Greeted(log, c))
    && (forall id :: id in m.binds <==> Bound(log, id).Some?)
    && (forall id | id in m.binds :: Bound(log, id) == Some(m.binds[id]))
    && forall c :: Out(m, c) == Delivered(log, c)
  }

  lemma LogGrows(log: seq<Entry>, e: Entry)
    ensures (log + [e])[..|log + [e]| - 1] == log && (log + [e])[|log + [e]| - 1] == e
  {
  }

  lemma AcceptKeeps(m: Master, log: seq<Entry>, c: nat)
    requires MasterOk(m, log)
    ensures MasterOk(Accept(m, c), log + [Came(c)])
  {
    LogGrows(log, Came(c));
  }

  lemma CloseKeeps(m: Master, log: seq<Entry>, c: nat)
    requires MasterOk(m, log)
    ensures MasterOk(Close(m, c), log + [Gone(c)])
  {
    LogGrows(log, Gone(c));
  }

  lemma ProcessKeeps(m: Master, log: seq<Entry>, c: nat, packet: Packet, bind: Option<Binding>, fd: nat)
    requires MasterOk(m, log) && c in m.pool
    ensures MasterOk(Process(m, c, packet, bind, fd), log + [Said(c, packet, bind, fd)])
  {
    var e := Said(c, packet, bind, fd);
    LogGrows(log, e);
    if packet.cmd == BROADCAST {
      SpreadKeeps(m, log, c, packet, bind, fd);
    } else if packet.cmd == BIND && bind.Some? {
      BindKeeps(m, log, c, packet, bind.value, fd);
    } else {
      assert forall v :: Delivered(log + [e], v) == Delivered(log, v);
    }
  }

  lemma SpreadKeeps(m: Master, log: seq<Entry>, c: nat, packet: Packet, bind: Option<Binding>, fd: nat)
    requires MasterOk(m, log) && c in m.pool && packet.cmd == BROADCAST
    ensures MasterOk(Spread(m, c, packet), log + [Said(c, packet, bind, fd)])
  {
    var e := Said(c, packet, bind, fd);
    LogGrows(log, e);
    var n := Spread(m, c, packet);
    forall v ensures Out(n, v) == Delivered(log + [e], v) {
      assert Out(m, v) == Delivered(log, v);
      assert Hears(m, c, v) <==> c != v && Present(log, v) && Greeted(log, v);
    }
  }

  lemma BindKeeps(m: Master, log: seq<Entry>, c: nat, packet: Packet, bind: Binding, fd: nat)
    requires MasterOk(m, log) && c in m.pool && packet.cmd == BIND
    ensures MasterOk(Process(m, c, packet, Some(bind), fd), log + [Said(c, packet, Some(bind), fd)])
  {
    hide Bound, Delivered, Present, Greeted;
    var e := Said(c, packet, Some(bind), fd);
    BindChanges(log, e);
    var n := Process(m, c, packet, Some(bind), fd);
    forall v ensures Out(n, v) == Delivered(log + [e], v) {
      assert Out(m, v) == Delivered(log, v);
    }
  }

  /** What a bind changes in what the log says. */
  lemma BindChanges(log: seq<Entry>, e: Entry)
    requires e.Said? && e.packet.cmd == BIND && e.bind.Some?
    ensures var more, id := log + [e], e.bind.value.id;
      var now := if Bound(log, id).Some? then Bound(log, id) else if e.bind.value.tcp then Some(e.fd) else None;
      && Bound(more, id) == now && (forall x | x != id :: Bound(more, x) == Bound(log, x))
      && (forall c :: Present(more, c) == Present(log, c) && Greeted(more, c) == Greeted(log, c))
      && (forall v | v != e.c :: Delivered(more, v) == Delivered(log, v))
      && Delivered(more, e.c) == Delivered(log, e.c) + if now.Some? then [Reply(e.packet.id, now.value)] else []
  {
    LogGrows(log, e);
  }

  // ---------------------------------------------------------------- every reachable state

  ghost predicate PipeOk(s: System, i: nat)
    requires Shaped(s) && i < |s.workers|
  {
    && s.heard[i] <= |s.workers[i].wire| && Words(s.log, i) == s.workers[i].wire[..s.heard[i]]
    && s.got[i] <= |Out(s.master, i)|
    && (s.workers[i].open ==> s.dialed[i])
    && (!s.accepted[i] ==> s.heard[i] == 0)
    && (Present(s.log, i) ==> s.accepted[i])
    && (Greeted(s.log, i) <==> Present(s.log, i) && s.heard[i] > 0)
  }

  ghost predicate Ok(s: System)
    requires Shaped(s)
  {
    && (forall i | 0 <= i < |s.workers| :: s.workers[i].me == i && WireOk(s.mach, s.workers[i], s.sent[i]))
    && (forall i | 0 <= i < |s.workers| :: CallsOk(s.workers[i], s.asked[i]))
    && (forall i | 0 <= i < |s.workers| :: PipeOk(s, i))
    && MasterOk(s.master, s.log)
  }

  lemma StartOk(mach: Machine, n: nat)
    ensures Ok(Start(mach, n))
  {
  }

  /** A step of one worker, which the master does not see. */
  lemma WorkerStepOk(s: System, t: System, i: nat)
    requires Shaped(s) && Shaped(t) && Ok(s) && i < |s.workers| == |t.workers|
    requires t.mach == s.mach && t.master == s.master && t.log == s.log
    requires t.heard == s.heard && t.accepted == s.accepted
    requires forall j | 0 <= j < |s.workers| && j != i ::
      t.workers[j] == s.workers[j] && t.sent[j] == s.sent[j] && t.asked[j] == s.asked[j] && t.got[j] == s.got[j]
      && t.dialed[j] == s.dialed[j]
    requires t.workers[i].me == i && WireOk(t.mach, t.workers[i], t.sent[i]) && CallsOk(t.workers[i], t.asked[i])
    requires s.workers[i].wire <= t.workers[i].wire && t.got[i] <= |Out(s.master, i)|
    requires t.workers[i].open ==> t.dialed[i]
    ensures Ok(t)
  {
    hide WireOk, CallsOk, MasterOk, Words, Present, Greeted;
    forall j | 0 <= j < |t.workers| ensures PipeOk(t, j) {
      assert PipeOk(s, j);
    }
  }

  /** A step of the master. */
  lemma MasterStepOk(s: System, t: System, i: nat)
    requires Shaped(s) && Shaped(t) && Ok(s) && i < |s.workers|
    requires t.mach == s.mach && t.workers == s.workers && t.sent == s.sent
    requires t.asked == s.asked && t.got == s.got && t.dialed == s.dialed
    requires MasterOk(t.master, t.log)
    requires forall j | 0 <= j < |s.workers| :: |Out(s.master, j)| <= |Out(t.master, j)|
    requires forall j | 0 <= j < |s.workers| && j != i ::
      t.heard[j] == s.heard[j] && t.accepted[j] == s.accepted[j] && Words(t.log, j) == Words(s.log, j)
      && Present(t.log, j) == Present(s.log, j) && Greeted(t.log, j) == Greeted(s.log, j)
    requires PipeOk(t, i)
    ensures Ok(t)
  {
    hide WireOk, CallsOk, MasterOk, Words, Present, Greeted;
    forall j | 0 <= j < |t.workers| && j != i ensures PipeOk(t, j) {
      assert PipeOk(s, j);
    }
  }

  lemma LogStep(log: seq<Entry>, e: Entry)
    ensures forall j | j != e.c ::
      && Words(log + [e], j) == Words(log, j) && Present(log + [e], j) == Present(log, j)
      && Greeted(log + [e], j) == Greeted(log, j)
    ensures forall j :: |Delivered(log, j)| <= |Delivered(log + [e], j)|
  {
    hide Share;
    LogGrows(log, e);
  }

  lemma ProcessStepOk(s: System, i: nat, fd: nat, win: Windows)
    requires Shaped(s) && Ok(s) && Enabled(s, MasterReads(i, fd, win))
    ensures Ok(Step(s, MasterReads(i, fd, win)))
  {
    hide WireOk, CallsOk, Process, Delivered, BindOf;
    var t := Step(s, MasterReads(i, fd, win));
    var packet := s.workers[i].wire[s.heard[i]];
    var bind := BindOf(s.mach, packet.p, win);
    var e := Said(i, packet, bind, fd);
    ProcessKeeps(s.master, s.log, i, packet, bind, fd);
    LogStep(s.log, e);
    LogGrows(s.log, e);
    FirstIsHello(s, i);
    assert PipeOk(s, i);
    assert s.workers[i].wire[..s.heard[i]] + [packet] == s.workers[i].wire[..s.heard[i] + 1];
    MasterStepOk(s, t, i);
  }

  lemma FirstIsHello(s: System, i: nat)
    requires Shaped(s) && Ok(s) && i < |s.workers| && s.heard[i] < |s.workers[i].wire|
    ensures s.workers[i].wire[0] == Hello(i)
  {
    hide FirstRefused;
    assert WireOk(s.mach, s.workers[i], s.sent[i]);
  }

  // ---------------------------------------------------------------- what is answered

  /** Entry j of the log is a bind of connection v with the number of the reply, and the reply carries
      the descriptor of the first bind of the same name. */
  ghost predicate AnswersAt(log: seq<Entry>, v: nat, reply: Packet, j: nat) {
    && j < |log| && log[j].Said? && log[j].c == v && log[j].packet.cmd == BIND && log[j].packet.id == reply.id
    && log[j].bind.Some? && reply.fd.Some? && reply.fd == Bound(log, log[j].bind.value.id)
  }

  /** A reply that is delivered answers a bind of the same connection. */
  lemma {:induction false} RepliesAnswerBinds(log: seq<Entry>, v: nat, k: nat)
    requires k < |Delivered(log, v)| && Delivered(log, v)[k].cmd == REPLY
    ensures exists j: nat :: AnswersAt(log, v, Delivered(log, v)[k], j)
    decreases |log|
  {
    hide Present, Greeted;
    var log', e := log[..|log| - 1], log[|log| - 1];
    var reply := Delivered(log, v)[k];
    if k < |Delivered(log', v)| {
      RepliesAnswerBinds(log', v, k);
      var j: nat :| AnswersAt(log', v, reply, j);
      assert log[j] == log'[j];
      assert AnswersAt(log, v, reply, j);
    } else {
      assert reply in Share(log', e, v);
      assert log' + [e] == log;
      assert AnswersAt(log, v, reply, |log| - 1);
    }
  }

  /** What a connection said is among its words. */
  lemma {:induction false} SaidIsWord(log: seq<Entry>, j: nat)
    requires j < |log| && log[j].Said?
    ensures log[j].packet in Words(log, log[j].c)
    decreases |log|
  {
    if j < |log| - 1 {
      assert log[..|log| - 1][j] == log[j];
      SaidIsWord(log[..|log| - 1], j);
    }
  }

  /** A reply has the number of an earlier request. */
  lemma RepliesAreOld(s: System, i: nat, k: nat)
    requires Shaped(s) && Ok(s) && i < |s.workers| && k < |Out(s.master, i)| && Out(s.master, i)[k].cmd == REPLY
    ensures Out(s.master, i)[k].id < s.workers[i].reqId
  {
    hide Delivered, Words, CallsOk, FirstRefused, Bound;
    assert MasterOk(s.master, s.log) && PipeOk(s, i) && WireOk(s.mach, s.workers[i], s.sent[i]);
    assert Out(s.master, i) == Delivered(s.log, i);
    RepliesAnswerBinds(s.log, i, k);
    var j: nat :| AnswersAt(s.log, i, Delivered(s.log, i)[k], j);
    var packet := s.log[j].packet;
    SaidIsWord(s.log, j);
    assert packet in s.workers[i].wire;
    assert packet != Hello(i);
    assert packet in s.sent[i];
  }

  lemma StepOk(s: System, e: Event)
    requires Shaped(s) && Ok(s) && Enabled(s, e)
    ensures Ok(Step(s, e))
  {
    match e
    case Ask(i, cmd, p, callback) => AskOk(s, i, cmd, p, callback);
    case Shout(i, p, key) => ShoutOk(s, i, p, key);
    case Listen(i, key, listener) => ListenOk(s, i, key, listener);
    case Dial(i, err) => DialOk(s, i, err);
    case Join(i) => JoinOk(s, i);
    case MasterReads(i, fd, win) => ProcessStepOk(s, i, fd, win);
    case WorkerReads(i, other) => ReadOk(s, i, other);
    case Leave(i) => LeaveOk(s, i);
  }

  lemma AskOk(s: System, i: nat, cmd: Text, p: Value, callback: Option<nat>)
    requires Shaped(s) && Ok(s) && Enabled(s, Ask(i, cmd, p, callback))
    ensures Ok(Step(s, Ask(i, cmd, p, callback)))
  {
    hide WireOk, CallsOk, MasterOk, PipeOk, SendMsg, PackRaises;
    var t, w := Step(s, Ask(i, cmd, p, callback)), s.workers[i];
    PipeFacts(s, i);
    WireIgnoresCallbacks(s.mach, w, s.sent[i], callback, Request(w, cmd, p));
    SendKeepsWire(s.mach, Passed(w, callback), s.sent[i], Request(w, cmd, p));
    SendKeepsPipe(s.mach, Passed(w, callback), Request(w, cmd, p));
    AskKeepsCalls(s.mach, w, s.asked[i], cmd, p, callback);
    WorkerStepOk(s, t, i);
  }

  lemma ShoutOk(s: System, i: nat, p: Value, key: Option<Text>)
    requires Shaped(s) && Ok(s) && Enabled(s, Shout(i, p, key))
    ensures Ok(Step(s, Shout(i, p, key)))
  {
    hide WireOk, CallsOk, MasterOk, PipeOk, SendMsg, PackRaises;
    var w := s.workers[i];
    PipeFacts(s, i);
    SendKeepsWire(s.mach, w, s.sent[i], Shouted(w, p, key));
    SendKeepsPipe(s.mach, w, Shouted(w, p, key));
    SendKeepsCalls(s.mach, w, s.asked[i], Shouted(w, p, key));
    WorkerStepOk(s, Step(s, Shout(i, p, key)), i);
  }

  lemma ListenOk(s: System, i: nat, key: Text, listener: nat)
    requires Shaped(s) && Ok(s) && Enabled(s, Listen(i, key, listener))
    ensures Ok(Step(s, Listen(i, key, listener)))
  {
    hide WireOk, CallsOk, MasterOk, PipeOk;
    PipeFacts(s, i);
    ListenKeeps(s.mach, s.workers[i], s.sent[i], s.asked[i], key, listener);
    WorkerStepOk(s, Step(s, Listen(i, key, listener)), i);
  }

  lemma DialOk(s: System, i: nat, err: bool)
    requires Shaped(s) && Ok(s) && Enabled(s, Dial(i, err))
    ensures Ok(Step(s, Dial(i, err)))
  {
    hide WireOk, CallsOk, MasterOk, PipeOk, FirstRefused, Left;
    PipeFacts(s, i);
    ConnectKeepsWire(s.mach, s.workers[i], s.sent[i], err);
    ConnectKeepsCalls(s.mach, s.workers[i], s.asked[i], err);
    NothingWritten(s.mach, s.workers[i], s.sent[i]);
    WorkerStepOk(s, Step(s, Dial(i, err)), i);
  }

  lemma ReadOk(s: System, i: nat, other: Window)
    requires Shaped(s) && Ok(s) && Enabled(s, WorkerReads(i, other))
    ensures Ok(Step(s, WorkerReads(i, other)))
  {
    hide WireOk, CallsOk, MasterOk, PipeOk, Receive;
    var packet := Out(s.master, i)[s.got[i]];
    PipeFacts(s, i);
    if packet.cmd == REPLY { RepliesAreOld(s, i, s.got[i]); }
    ReceiveKeepsCalls(s.workers[i], s.asked[i], packet, other);
    ReceiveKeepsWire(s.mach, s.workers[i], s.sent[i], packet, other);
    WorkerStepOk(s, Step(s, WorkerReads(i, other)), i);
  }

  lemma PipeFacts(s: System, i: nat)
    requires Shaped(s) && Ok(s) && i < |s.workers|
    ensures s.got[i] <= |Out(s.master, i)| && (s.workers[i].open ==> s.dialed[i])
  {
    assert PipeOk(s, i);
  }

  lemma NothingWritten(mach: Machine, w: Worker, sent: seq<Packet>)
    requires WireOk(mach, w, sent)
    ensures !w.open ==> w.wire == []
  {
  }

  lemma WireIgnoresCallbacks(mach: Machine, w: Worker, sent: seq<Packet>, callback: Option<nat>, packet: Packet)
    requires WireOk(mach, w, sent)
    ensures WireOk(mach, Passed(w, callback), sent)
    ensures PackRaises(mach, Passed(w, callback), packet) <==> PackRaises(mach, w, packet)
    ensures Passed(w, callback).me == w.me && Passed(w, callback).wire == w.wire
    ensures Passed(w, callback).open == w.open && Passed(w, callback).reqId == w.reqId
  {
  }

  lemma SendKeepsPipe(mach: Machine, w: Worker, packet: Packet)
    ensures var v := SendMsg(mach, w, packet); v.me == w.me && v.open == w.open && w.wire <= v.wire
  {
    hide Sendable;
  }

  lemma SendKeepsCalls(mach: Machine, w: Worker, asked: map<nat, nat>, packet: Packet)
    requires CallsOk(w, asked)
    ensures CallsOk(SendMsg(mach, w, packet), asked)
  {
    hide Sendable;
  }

  lemma ListenKeeps(mach: Machine, w: Worker, sent: seq<Packet>, asked: map<nat, nat>, key: Text, listener: nat)
    requires WireOk(mach, w, sent) && CallsOk(w, asked)
    ensures WireOk(mach, RecvBroadcast(w, key, listener), sent) && CallsOk(RecvBroadcast(w, key, listener), asked)
  {
  }

  lemma ConnectKeepsCalls(mach: Machine, w: Worker, asked: map<nat, nat>, err: bool)
    requires CallsOk(w, asked)
    ensures CallsOk(Connected(mach, w, err), asked)
  {
  }

  lemma ReceiveKeepsWire(mach: Machine, w: Worker, sent: seq<Packet>, packet: Packet, other: Window)
    requires WireOk(mach, w, sent)
    ensures WireOk(mach, Receive(w, packet, other), sent)
    ensures Receive(w, packet, other).wire == w.wire && Receive(w, packet, other).me == w.me
    ensures Receive(w, packet, other).open == w.open
  {
  }

  lemma JoinOk(s: System, i: nat)
    requires Shaped(s) && Ok(s) && Enabled(s, Join(i))
    ensures Ok(Step(s, Join(i)))
  {
    hide WireOk, CallsOk, Delivered;
    LogStep(s.log, Came(i));
    LogGrows(s.log, Came(i));
    AcceptKeeps(s.master, s.log, i);
    assert PipeOk(s, i);
    MasterStepOk(s, Step(s, Join(i)), i);
  }

  lemma LeaveOk(s: System, i: nat)
    requires Shaped(s) && Ok(s) && Enabled(s, Leave(i))
    ensures Ok(Step(s, Leave(i)))
  {
    hide WireOk, CallsOk, Delivered;
    LogStep(s.log, Gone(i));
    LogGrows(s.log, Gone(i));
    CloseKeeps(s.master, s.log, i);
    assert PipeOk(s, i);
    MasterStepOk(s, Step(s, Leave(i)), i);
  }

  lemma {:induction false} RunsOk(s: System, es: seq<Event>)
    requires Shaped(s) && Ok(s)
    ensures Ok(Runs(s, es))
    decreases |es|
  {
    hide Ok;
    if es != [] {
      if Enabled(s, es[0]) {
        StepOk(s, es[0]);
        RunsOk(Step(s, es[0]), es[1..]);
      } else {
        RunsOk(s, es[1..]);
      }
    }
  }

  // ---------------------------------------------------------------- the main results

  /** Whatever the interleaving, what the master has read from a worker is the beginning of hello and the
      worker's messages in the order they were sent. While mp.pack has refused none of them, the rest is
      in the pipe or, before the pipe is open, in the queue. */
  lemma WorkersAreHeardInOrder(mach: Machine, n: nat, es: seq<Event>, i: nat)
    requires i < n
    ensures var s := Runs(Start(mach, n), es); var w := s.workers[i]; var words := Words(s.log, i);
      && words <= [Hello(i)] + s.sent[i][..FirstRefused(mach, s.sent[i])] && words <= w.wire
      && (w.connected ==> words + w.wire[|words|..] == [Hello(i)] + s.sent[i])
      && (!w.open ==> words == [] && w.queue == s.sent[i])
  {
    hide Words, Runs, CallsOk, MasterOk, FirstRefused;
    StartOk(mach, n);
    RunsOk(Start(mach, n), es);
    SameMachine(Start(mach, n), es);
    var s := Runs(Start(mach, n), es);
    assert PipeOk(s, i) && WireOk(s.mach, s.workers[i], s.sent[i]);
    assert s.sent[i][..|s.sent[i]|] == s.sent[i];
  }

  lemma {:induction false} SameMachine(s: System, es: seq<Event>)
    requires Shaped(s)
    ensures Runs(s, es).mach == s.mach
    decreases |es|
  {
    hide Process, Accept, Close, Receive, Out, Connected, SendMsg, PackRaises, BindOf, Enabled;
    if es != [] {
      SameMachine(if Enabled(s, es[0]) then Step(s, es[0]) else s, es[1..]);
    }
  }

  /** A callback runs at most once for its number, only after it was passed with it, and it is the last
      one that was. */
  lemma CallbacksRunOnce(mach: Machine, n: nat, es: seq<Event>, i: nat, a: nat, b: nat)
    requires i < n
    requires var ran := Runs(Start(mach, n), es).workers[i].ran;
      a < |ran| && b < |ran| && ran[a].Answered? && ran[b].Answered?
    ensures var s := Runs(Start(mach, n), es); var ran := s.workers[i].ran;
      ran[a].id in s.asked[i] && ran[a].callback == s.asked[i][ran[a].id] && (ran[a].id == ran[b].id ==> a == b)
  {
    hide Runs, AnsweredIds, MasterOk, WireOk, PipeOk;
    StartOk(mach, n);
    RunsOk(Start(mach, n), es);
    var s := Runs(Start(mach, n), es);
    assert CallsOk(s.workers[i], s.asked[i]);
    assert s.workers[i].ran[a] in s.workers[i].ran;
    if a < b {
      OnceEach(s.workers[i].ran, a, b);
    } else if b < a {
      OnceEach(s.workers[i].ran, b, a);
    }
  }

  /** A request that raises leaves its callback behind, and the next request gets its number: the reply
      to that one runs the callback of the one that was never sent. */
  lemma StaleCallback(mach: Machine, w: Worker, bad: Value, callback: nat, p: Value, fd: nat, other: Window)
    requires w.connected && !Sendable(mach, Request(w, BIND, bad)) && Sendable(mach, Request(w, BIND, p))
    ensures var v := ToMaster(mach, ToMaster(mach, w, BIND, bad, Some(callback)), BIND, p, None);
      && v.wire == w.wire + [Request(w, BIND, p)]
      && Receive(v, Reply(w.reqId, fd), other).ran == w.ran + [Answered(w.reqId, callback, Some(fd))]
  {
    hide Sendable;
    assert Request(Passed(w, Some(callback)), BIND, p) == Request(w, BIND, p);
  }

  lemma {:induction false} OnceEach(ran: seq<Run>, a: nat, b: nat)
    requires Distinct(AnsweredIds(ran)) && a < b < |ran| && ran[a].Answered? && ran[b].Answered?
    ensures ran[a].id != ran[b].id
    decreases |ran|
  {
    var n := |ran| - 1;
    var ids := AnsweredIds(ran[..n]);
    if b < n {
      assert Distinct(ids) by {
        assert ids <= AnsweredIds(ran);
      }
      OnceEach(ran[..n], a, b);
    } else {
      AnsweredHas(ran[..n], a);
      var k :| 0 <= k < |ids| && ids[k] == ran[a].id;
      assert AnsweredIds(ran)[k] == ids[k] && AnsweredIds(ran)[|ids|] == ran[b].id;
    }
  }

  lemma {:induction false} AnsweredHas(ran: seq<Run>, a: nat)
    requires a < |ran| && ran[a].Answered?
    ensures ran[a].id in AnsweredIds(ran)
    decreases |ran|
  {
    if a < |ran| - 1 {
      AnsweredHas(ran[..|ran| - 1], a);
      assert ran[..|ran| - 1][a] == ran[a];
    }
  }

  /** Every answer that was run has a reply with its number and its descriptor behind it. */
  ghost predicate Backed(ran: seq<Run>, out: seq<Packet>) {
    forall r | r in ran && r.Answered? :: exists k: nat :: RepliesAt(out, k, r)
  }

  predicate RepliesAt(out: seq<Packet>, k: nat, r: Run)
    requires r.Answered?
  {
    k < |out| && out[k].cmd == REPLY && out[k].id == r.id && out[k].fd == r.fd
  }

  ghost predicate AllBacked(s: System)
    requires Shaped(s)
  {
    forall i | 0 <= i < |s.workers| :: Backed(s.workers[i].ran, Out(s.master, i))
  }

  lemma BackedGrows(ran: seq<Run>, out: seq<Packet>, more: seq<Packet>)
    requires Backed(ran, out) && out <= more
    ensures Backed(ran, more)
  {
    forall r | r in ran && r.Answered? ensures exists k: nat :: RepliesAt(more, k, r) {
      var k: nat :| RepliesAt(out, k, r);
      assert RepliesAt(more, k, r);
    }
  }

  lemma ReceiveBacked(w: Worker, out: seq<Packet>, k: nat, other: Window)
    requires Backed(w.ran, out) && k < |out|
    ensures Backed(Receive(w, out[k], other).ran, out)
  {
    var packet := out[k];
    if packet.cmd == REPLY && packet.id in w.callbacks {
      assert RepliesAt(out, k, Answered(packet.id, w.callbacks[packet.id], packet.fd));
    }
  }

  lemma OutGrows(m: Master, c: nat, packet: Packet, bind: Option<Binding>, fd: nat)
    requires c in m.pool
    ensures forall v :: Out(m, v) <= Out(Process(m, c, packet, bind, fd), v)
  {
  }

  lemma BackedStep(s: System, e: Event)
    requires Shaped(s) && AllBacked(s) && Enabled(s, e)
    ensures AllBacked(Step(s, e))
  {
    hide Backed, Receive, Process, Out, SendMsg, Connected, BindOf, PackRaises;
    match e
    case WorkerReads(i, other) =>
      ReceiveBacked(s.workers[i], Out(s.master, i), s.got[i], other);
    case MasterReads(i, fd, win) =>
      var packet := s.workers[i].wire[s.heard[i]];
      var bind := BindOf(s.mach, packet.p, win);
      OutGrows(s.master, i, packet, bind, fd);
      var m := Process(s.master, i, packet, bind, fd);
      forall v | 0 <= v < |s.workers| ensures Backed(s.workers[v].ran, Out(m, v)) {
        BackedGrows(s.workers[v].ran, Out(s.master, v), Out(m, v));
      }
    case Ask(i, cmd, p, callback) =>
      SendKeepsRan(s.mach, Passed(s.workers[i], callback), Request(s.workers[i], cmd, p));
    case Shout(i, p, key) => SendKeepsRan(s.mach, s.workers[i], Shouted(s.workers[i], p, key));
    case Listen(_, _, _) =>
    case Dial(i, err) => ConnectKeepsRan(s.mach, s.workers[i], err);
    case Join(i) => SameOut(s.master, Accept(s.master, i));
    case Leave(i) => SameOut(s.master, Close(s.master, i));
  }

  lemma SendKeepsRan(mach: Machine, w: Worker, packet: Packet)
    ensures SendMsg(mach, w, packet).ran == w.ran && SendMsg(mach, w, packet).listeners == w.listeners
  {
    hide Sendable;
  }

  lemma ConnectKeepsRan(mach: Machine, w: Worker, err: bool)
    ensures Connected(mach, w, err).ran == w.ran && Connected(mach, w, err).listeners == w.listeners
  {
  }

  lemma SameOut(m: Master, n: Master)
    requires m.out == n.out
    ensures forall v :: Out(m, v) == Out(n, v)
  {
  }

  lemma {:induction false} RunsBacked(s: System, es: seq<Event>)
    requires Shaped(s) && AllBacked(s)
    ensures AllBacked(Runs(s, es))
    decreases |es|
  {
    hide AllBacked;
    if es != [] {
      if Enabled(s, es[0]) {
        BackedStep(s, es[0]);
        RunsBacked(Step(s, es[0]), es[1..]);
      } else {
        RunsBacked(s, es[1..]);
      }
    }
  }

  /** A callback runs only for a bind that the master has read from the same connection with the same
      number, and it gets the descriptor of the first bind of that name. */
  lemma CallbacksGetDescriptors(mach: Machine, n: nat, es: seq<Event>, i: nat, a: nat)
    requires i < n
    requires var ran := Runs(Start(mach, n), es).workers[i].ran; a < |ran| && ran[a].Answered?
    ensures var s := Runs(Start(mach, n), es); var r := s.workers[i].ran[a];
      exists j :: 0 <= j < |s.log| && s.log[j].Said? && s.log[j].c == i && s.log[j].packet.cmd == BIND
        && s.log[j].packet.id == r.id && s.log[j].bind.Some?
        && r.fd.Some? && r.fd == Bound(s.log, s.log[j].bind.value.id)
  {
    hide Runs, Words, Delivered, PipeOk, WireOk, CallsOk, Bound;
    StartOk(mach, n);
    RunsOk(Start(mach, n), es);
    RunsBacked(Start(mach, n), es);
    var s := Runs(Start(mach, n), es);
    var r := s.workers[i].ran[a];
    assert r in s.workers[i].ran && Backed(s.workers[i].ran, Out(s.master, i));
    assert Out(s.master, i) == Delivered(s.log, i);
    var k: nat :| RepliesAt(Delivered(s.log, i), k, r);
    RepliesAnswerBinds(s.log, i, k);
    var j: nat :| AnswersAt(s.log, i, Delivered(s.log, i)[k], j);
    assert s.log[j].packet.id == r.id;
  }

  /** Every package in the log was read in the master's memory of that moment. */
  ghost predicate ReadOff(s: System) {
    forall j | 0 <= j < |s.log| && s.log[j].Said? ::
      exists win: Windows :: s.log[j].bind == BindOf(s.mach, s.log[j].packet.p, win)
  }

  lemma {:induction false} RunsReadOff(s: System, es: seq<Event>)
    requires Shaped(s) && ReadOff(s)
    ensures ReadOff(Runs(s, es))
    decreases |es|
  {
    hide Process, Accept, Close, Receive, Out, Connected, SendMsg, PackRaises, BindOf, Enabled;
    if es != [] {
      RunsReadOff(if Enabled(s, es[0]) then Step(s, es[0]) else s, es[1..]);
    }
  }

  /** Binds of one type, address and port share one socket, over all connections, when type and address
      are not empty: the descriptor of one is that of the other. */
  lemma SameBindsShareSocket(mach: Machine, n: nat, es: seq<Event>, j: nat, k: nat)
    requires var log := Runs(Start(mach, n), es).log;
      && j < |log| && k < |log| && log[j].Said? && log[k].Said?
      && var p, q := log[j].packet.p, log[k].packet.p;
      && Packable(p) && Faults(p) == {} && Packable(q) && Faults(q) == {}
      && p.Table? && q.Table? && p.items == q.items == [] && Field(p, PORT) == Field(q, PORT)
      && Field(p, TYPE) == Field(q, TYPE) != Str([]) && Field(p, ADDRESS) == Field(q, ADDRESS) != Str([])
    ensures var log := Runs(Start(mach, n), es).log;
      log[j].bind == log[k].bind
      && (log[j].bind.Some? ==> Bound(log, log[j].bind.value.id) == Bound(log, log[k].bind.value.id))
  {
    hide Runs, Packable, Faults, Field, BindOf, Bound;
    RunsReadOff(Start(mach, n), es);
    SameMachine(Start(mach, n), es);
    var s := Runs(Start(mach, n), es);
    var win: Windows :| s.log[j].bind == BindOf(s.mach, s.log[j].packet.p, win);
    var win': Windows :| s.log[k].bind == BindOf(s.mach, s.log[k].packet.p, win');
    SameNames(mach, s.log[j].packet.p, s.log[k].packet.p, win, win');
  }

  /** What the master has written to a worker is, packet by packet as the master saw them: each
      broadcast of another worker once, if this one had said hello, and the reply to each of its own
      binds. Nothing else is written, and never a broadcast to its sender. */
  lemma BroadcastsReachTheOthers(mach: Machine, n: nat, es: seq<Event>, v: nat)
    requires v < n
    ensures var s := Runs(Start(mach, n), es);
      && Out(s.master, v) == Delivered(s.log, v)
      && s.got[v] <= |Delivered(s.log, v)|
      && (Greeted(s.log, v) <==> Present(s.log, v) && Hello(v) in Words(s.log, v))
  {
    hide Words, Runs, CallsOk, Delivered, Present, Greeted;
    StartOk(mach, n);
    RunsOk(Start(mach, n), es);
    var s := Runs(Start(mach, n), es);
    assert PipeOk(s, v) && WireOk(s.mach, s.workers[v], s.sent[v]) && MasterOk(s.master, s.log);
    assert s.heard[v] > 0 ==> Words(s.log, v)[0] == Hello(v);
  }

  /** A broadcast that the master read as entry j of its log stands in what it wrote to connection v,
      between what the entries before and after it wrote, exactly when v is another connection that had
      said hello; entry j writes nothing else there. */
  lemma BroadcastShare(log: seq<Entry>, j: nat, v: nat)
    requires j < |log| && log[j].Said? && log[j].packet.cmd == BROADCAST
    ensures var before := Delivered(log[..j], v);
      var share := if v != log[j].c && Present(log[..j], v) && Greeted(log[..j], v) then [log[j].packet] else [];
      before + share == Delivered(log[..j + 1], v) <= Delivered(log, v)
  {
    LogGrows(log[..j], log[j]);
    assert log[..j] + [log[j]] == log[..j + 1];
    DeliveredStays(log, j + 1, v);
  }

  lemma {:induction false} DeliveredStays(log: seq<Entry>, k: nat, v: nat)
    requires k <= |log|
    ensures Delivered(log[..k], v) <= Delivered(log, v)
    decreases |log|
  {
    hide Share;
    if k == |log| {
      assert log[..k] == log;
    } else {
      DeliveredStays(log[..|log| - 1], k, v);
      assert log[..|log| - 1][..k] == log[..k];
    }
  }

  // ---------------------------------------------------------------- what the listeners hear

  function Arrivals(life: seq<Moment>): seq<Packet> {
    if life == [] then []
    else
      var m := life[|life| - 1];
      Arrivals(life[..|life| - 1]) + if m.Arrives? then [m.packet] else []
  }

  /** The listeners of a key, in the order they were registered. */
  function ListenersOf(life: seq<Moment>, key: Text): seq<nat> {
    if life == [] then []
    else
      var m := life[|life| - 1];
      ListenersOf(life[..|life| - 1], key) + if m.Registers? && m.key == key then [m.listener] else []
  }

  /** The calls a worker owes: for each broadcast with a key, as it comes, every listener that is
      registered by then for what the key is read as, in order. */
  function Owed(life: seq<Moment>): seq<Run> {
    if life == [] then []
    else
      var before, m := life[..|life| - 1], life[|life| - 1];
      Owed(before) + if m.Arrives? && m.packet.cmd == BROADCAST && m.packet.key.Some?
        then Calls(ListenersOf(before, KeyRead(m.packet, m.other).value), m.packet) else []
  }

  /** A broadcast is heard under its own key exactly when that is not empty; under the empty key none is. */
  lemma KeysHeard(packet: Packet, other: Window)
    ensures packet.key.Some? ==> (KeyRead(packet, other) == packet.key <==> packet.key.value != [])
    ensures KeyRead(packet, other) != Some([]) && (KeyRead(packet, other).None? <==> packet.key.None?)
  {
  }

  /** A listener of the empty key does not hear a broadcast with the empty key. */
  lemma EmptyKeyExample(w: Worker, listener: nat, from: nat, p: Value, other: Window)
    requires w.listeners == map[]
    ensures var v := RecvBroadcast(w, [], listener);
      Receive(v, Packet(BROADCAST, 1, Some(from), Some([]), p, None), other).ran == w.ran
  {
  }

  function HeardOf(ran: seq<Run>): seq<Run> {
    if ran == [] then []
    else HeardOf(ran[..|ran| - 1]) + if ran[|ran| - 1].Heard? then [ran[|ran| - 1]] else []
  }

  ghost predicate EarsOk(w: Worker, life: seq<Moment>) {
    && HeardOf(w.ran) == Owed(life)
    && (forall key :: key in w.listeners <==> ListenersOf(life, key) != [])
    && forall key | key in w.listeners :: w.listeners[key] == ListenersOf(life, key)
  }

  ghost predicate Listening(s: System)
    requires Shaped(s)
  {
    forall i | 0 <= i < |s.workers| :: EarsOk(s.workers[i], s.life[i])
      && s.got[i] <= |Out(s.master, i)| && Arrivals(s.life[i]) == Out(s.master, i)[..s.got[i]]
  }

  lemma LifeGrows(life: seq<Moment>, m: Moment)
    ensures (life + [m])[..|life + [m]| - 1] == life && (life + [m])[|life + [m]| - 1] == m
  {
  }

  lemma {:induction false} HeardMore(ran: seq<Run>, more: seq<Run>)
    ensures HeardOf(ran + more) == HeardOf(ran) + HeardOf(more)
    decreases |more|
  {
    if more == [] {
      assert ran + more == ran;
    } else {
      assert (ran + more)[..|ran + more| - 1] == ran + more[..|more| - 1];
      HeardMore(ran, more[..|more| - 1]);
    }
  }

  lemma {:induction false} AllHeard(more: seq<Run>)
    requires forall r | r in more :: r.Heard?
    ensures HeardOf(more) == more
    decreases |more|
  {
    if more != [] {
      assert more[|more| - 1] in more;
      AllHeard(more[..|more| - 1]);
    }
  }

  lemma ReceiveEars(w: Worker, life: seq<Moment>, packet: Packet, other: Window)
    requires EarsOk(w, life)
    ensures EarsOk(Receive(w, packet, other), life + [Arrives(packet, other)])
  {
    hide KeyRead;
    KeysHeard(packet, other);
    LifeGrows(life, Arrives(packet, other));
    var key := KeyRead(packet, other);
    if packet.cmd == BROADCAST {
      if key.Some? && key.value in w.listeners {
        var calls := Calls(w.listeners[key.value], packet);
        HeardMore(w.ran, calls);
        AllHeard(calls);
      }
    } else if packet.cmd == REPLY && packet.id in w.callbacks {
      HeardMore(w.ran, [Answered(packet.id, w.callbacks[packet.id], packet.fd)]);
    }
  }

  lemma ListenEars(w: Worker, life: seq<Moment>, key: Text, listener: nat)
    requires EarsOk(w, life)
    ensures EarsOk(RecvBroadcast(w, key, listener), life + [Registers(key, listener)])
  {
    hide Calls;
    LifeGrows(life, Registers(key, listener));
  }

  lemma OtherEars(w: Worker, v: Worker, life: seq<Moment>)
    requires EarsOk(w, life) && v.ran == w.ran && v.listeners == w.listeners
    ensures EarsOk(v, life)
  {
  }

  lemma ListeningStep(s: System, e: Event)
    requires Shaped(s) && Listening(s) && Enabled(s, e)
    ensures Listening(Step(s, e))
  {
    hide EarsOk, Receive, Process, Out, Arrivals, SendMsg, Connected, BindOf, PackRaises;
    var t, i := Step(s, e), e.i;
    match e
    case WorkerReads(_, other) =>
      var packet := Out(s.master, i)[s.got[i]];
      ReceiveEars(s.workers[i], s.life[i], packet, other);
      ArrivesMore(s.life[i], packet, other);
      assert Out(s.master, i)[..s.got[i]] + [packet] == Out(s.master, i)[..s.got[i] + 1];
    case Listen(_, key, listener) =>
      ListenEars(s.workers[i], s.life[i], key, listener);
      RegistersNone(s.life[i], key, listener);
    case MasterReads(_, fd, win) =>
      var packet := s.workers[i].wire[s.heard[i]];
      OutGrows(s.master, i, packet, BindOf(s.mach, packet.p, win), fd);
    case Ask(_, cmd, p, callback) =>
      SendKeepsRan(s.mach, Passed(s.workers[i], callback), Request(s.workers[i], cmd, p));
      OtherEars(s.workers[i], t.workers[i], s.life[i]);
    case Shout(_, p, key) =>
      SendKeepsRan(s.mach, s.workers[i], Shouted(s.workers[i], p, key));
      OtherEars(s.workers[i], t.workers[i], s.life[i]);
    case Dial(_, err) =>
      ConnectKeepsRan(s.mach, s.workers[i], err);
      OtherEars(s.workers[i], t.workers[i], s.life[i]);
    case Join(_) => SameOut(s.master, Accept(s.master, i));
    case Leave(_) => SameOut(s.master, Close(s.master, i));
  }

  lemma ArrivesMore(life: seq<Moment>, packet: Packet, other: Window)
    ensures Arrivals(life + [Arrives(packet, other)]) == Arrivals(life) + [packet]
  {
    LifeGrows(life, Arrives(packet, other));
  }

  lemma RegistersNone(life: seq<Moment>, key: Text, listener: nat)
    ensures Arrivals(life + [Registers(key, listener)]) == Arrivals(life)
  {
    LifeGrows(life, Registers(key, listener));
  }

  lemma {:induction false} RunsListening(s: System, es: seq<Event>)
    requires Shaped(s) && Listening(s)
    ensures Listening(Runs(s, es))
    decreases |es|
  {
    hide Listening;
    if es != [] {
      if Enabled(s, es[0]) {
        ListeningStep(s, es[0]);
        RunsListening(Step(s, es[0]), es[1..]);
      } else {
        RunsListening(s, es[1..]);
      }
    }
  }

  /** In every reachable state the packets that came to a worker are the first ones the master wrote to
      it, in order, and the listeners that were run are exactly those registered by the time a broadcast
      came for what its key is read as: each once, in the order of registration, and no others. */
  lemma ListenersHearDeliveries(mach: Machine, n: nat, es: seq<Event>, v: nat)
    requires v < n
    ensures var s := Runs(Start(mach, n), es);
      && s.got[v] <= |Delivered(s.log, v)| && Arrivals(s.life[v]) == Delivered(s.log, v)[..s.got[v]]
      && HeardOf(s.workers[v].ran) == Owed(s.life[v])
  {
    hide Runs, Delivered, Arrivals, Owed, HeardOf, ListenersOf;
    BroadcastsReachTheOthers(mach, n, es, v);
    StartListening(mach, n);
    RunsListening(Start(mach, n), es);
    var s := Runs(Start(mach, n), es);
    assert EarsOk(s.workers[v], s.life[v]);
  }

  lemma StartListening(mach: Machine, n: nat)
    ensures Listening(Start(mach, n))
  {
  }

  // ---------------------------------------------------------------- what never reaches the pipe

  /** Some event of the run is worker i's connection attempt, and it succeeds. */
  ghost predicate GotThrough(s: System, es: seq<Event>, i: nat)
    requires Shaped(s)
    decreases |es|
  {
    es != [] && ((Enabled(s, es[0]) && es[0] == Dial(i, false))
                 || GotThrough(if Enabled(s, es[0]) then Step(s, es[0]) else s, es[1..], i))
  }

  lemma {:induction false} OpenIff(s: System, es: seq<Event>, i: nat)
    requires Shaped(s) && i < |s.workers|
    ensures Runs(s, es).workers[i].open <==> s.workers[i].open || GotThrough(s, es, i)
    decreases |es|
  {
    hide Step, Enabled;
    if es != [] {
      if Enabled(s, es[0]) { OpenStep(s, es[0], i); }
      OpenIff(if Enabled(s, es[0]) then Step(s, es[0]) else s, es[1..], i);
    }
  }

  lemma OpenStep(s: System, e: Event, i: nat)
    requires Shaped(s) && i < |s.workers| && Enabled(s, e)
    ensures Step(s, e).workers[i].open <==> s.workers[i].open || e == Dial(i, false)
  {
    hide Process, Accept, Close, Out, Sendable, FirstRefused, BindOf;
  }

  /** Hello and all messages of a worker are on the wire, in order, exactly when its one attempt to
      connect succeeded and mp.pack takes every one of them. Without a connection nothing is, and all are
      queued. With one, the first that mp.pack refuses is lost: what was sent before it is on the wire,
      and what is sent behind it stays in the queue. */
  lemma SentIffConnected(mach: Machine, n: nat, es: seq<Event>, i: nat)
    requires i < n
    ensures var s := Runs(Start(mach, n), es); var w := s.workers[i];
      var through := GotThrough(Start(mach, n), es, i); var k := FirstRefused(mach, s.sent[i]);
      && (w.wire == [Hello(i)] + s.sent[i] && w.queue == []
          <==> through && forall packet | packet in s.sent[i] :: Sendable(mach, packet))
      && (!through ==> w.wire == [] && w.queue == s.sent[i])
      && (through ==> w.wire == [Hello(i)] + s.sent[i][..k] && w.queue == Left(s.sent[i], k))
      && (w.connected <==> through && k == |s.sent[i]|)
  {
    hide Runs, CallsOk, MasterOk, PipeOk, GotThrough, FirstRefused, Sendable;
    StartOk(mach, n);
    RunsOk(Start(mach, n), es);
    SameMachine(Start(mach, n), es);
    OpenIff(Start(mach, n), es, i);
    var s := Runs(Start(mach, n), es);
    assert WireOk(s.mach, s.workers[i], s.sent[i]);
    var k := FirstRefused(mach, s.sent[i]);
    assert k < |s.sent[i]| ==> s.sent[i][k] in s.sent[i];
    assert k == |s.sent[i]| ==> s.sent[i][..k] == s.sent[i];
    assert |[Hello(i)] + s.sent[i][..k]| == 1 + k && |[Hello(i)] + s.sent[i]| == 1 + |s.sent[i]|;
  }

  /** A package that is a function, sent before one that is a number: with the connection open, hello is
      on the wire, the function is lost and the number waits in the queue. */
  lemma LostExample(mach: Machine)
    ensures var bad := Opaque(Function);
      var es := [Shout(0, bad, None), Dial(0, false), Shout(0, Int(1), None)];
      var s := Runs(Start(mach, 1), es);
      && GotThrough(Start(mach, 1), es, 0) && !s.workers[0].connected && |s.sent[0]| == 2
      && s.workers[0].wire == [Hello(0)] && s.workers[0].queue == [s.sent[0][1]]
  {
    hide Process, Accept, Close, Receive, Out, Sendable, FirstRefused, BindOf;
    var bad := Opaque(Function);
    var es := [Shout(0, bad, None), Dial(0, false), Shout(0, Int(1), None)];
    var s := Start(mach, 1);
    NumberIsPackable();
    var s1 := Step(s, es[0]);
    RefusedPackage(mach, Shouted(s.workers[0], bad, None));
    assert s1.workers[0].queue == [Shouted(s.workers[0], bad, None)];
    assert !Sendable(mach, s1.workers[0].queue[0]);
    assert FirstRefused(mach, s1.workers[0].queue) == 0;
    var s2 := Step(s1, es[1]);
    var s3 := Step(s2, es[2]);
    assert es[1..][1..] == es[2..] && es[2..][1..] == [];
    assert Runs(s3, es[2..][1..]) == s3;
    assert Runs(s2, es[2..]) == s3;
    assert Runs(s1, es[1..]) == s3 && GotThrough(s1, es[1..], 0);
  }

  lemma NumberIsPackable()
    ensures Packable(Int(1)) && Packable(Opaque(Function))
  {
  }

  /** A connection that was refused, or left at a packet mp.pack refuses, is never tried again: whatever
      is sent afterwards stays in the queue. */
  lemma {:induction false} RefusedForGood(s: System, es: seq<Event>, i: nat)
    requires Shaped(s) && i < |s.workers| && s.dialed[i] && !s.workers[i].connected
    ensures var t := Runs(s, es);
      !t.workers[i].connected && t.workers[i].wire == s.workers[i].wire && s.workers[i].queue <= t.workers[i].queue
    decreases |es|
  {
    hide Step, Enabled;
    if es != [] {
      var t := if Enabled(s, es[0]) then Step(s, es[0]) else s;
      if Enabled(s, es[0]) { RefusedStep(s, es[0], i); }
      RefusedForGood(t, es[1..], i);
    }
  }

  lemma RefusedStep(s: System, e: Event, i: nat)
    requires Shaped(s) && i < |s.workers| && s.dialed[i] && !s.workers[i].connected && Enabled(s, e)
    ensures var t := Step(s, e);
      && t.dialed[i] && !t.workers[i].connected && t.workers[i].wire == s.workers[i].wire
      && s.workers[i].queue <= t.workers[i].queue
  {
    hide Process, Accept, Close, Out, Sendable, FirstRefused, BindOf;
  }

  /** One worker, refused after its first message: the second joins the first in the queue. */
  lemma RefusedExample(mach: Machine)
    ensures var es := [Shout(0, Int(1), None), Dial(0, true), Shout(0, Int(1), None), Dial(0, false)];
      var s := Runs(Start(mach, 1), es);
      s.workers[0].wire == [] && |s.workers[0].queue| == 2 && !GotThrough(Start(mach, 1), es, 0)
  {
    hide Process, Accept, Close, Receive, Out, Sendable, FirstRefused, BindOf;
    var s := Start(mach, 1);
    var es := [Shout(0, Int(1), None), Dial(0, true), Shout(0, Int(1), None), Dial(0, false)];
    NumberIsPackable();
    var s1 := Step(s, es[0]);
    var s2 := Step(s1, es[1]);
    var s3 := Step(s2, es[2]);
    assert es[1..][1..] == es[2..] && es[2..][1..] == es[3..] && es[3..][1..] == [];
    assert !Enabled(s3, es[3]);
    assert Runs(s3, es[3..]) == s3 && !GotThrough(s3, es[3..], 0);
    assert Runs(s2, es[2..]) == s3 && !GotThrough(s2, es[2..], 0);
    assert Runs(s1, es[1..]) == s3 && !GotThrough(s1, es[1..], 0);
  }
}
