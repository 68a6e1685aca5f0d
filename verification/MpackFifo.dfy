/** Feeding and pulling together behave as a first-in-first-out queue of values. */
module MpackFifo {
  import opened ByteSeq
  import opened MpackNumber
  import opened MpackWire
  import opened MpackReader
  import opened MpackFramer
  import opened MpackFraming

  /** The packer writes no starved part. */
  lemma {:induction false} PackedNotStarved(cast: Cast, v: Value)
    ensures Starved(WireOf(cast, v)) == 0
    decreases v
  {
    match v
    case Table(items, entries) =>
      PackedAllNotStarved(cast, items);
      PackedAllNotStarved(cast, entries);
    case _ =>
  }

  lemma {:induction false} PackedAllNotStarved(cast: Cast, vs: seq<Value>)
    ensures StarvedAll(WireOfAll(cast, vs)) == 0
    decreases vs
  {
    if vs != [] {
      PackedNotStarved(cast, vs[0]);
      PackedAllNotStarved(cast, vs[1..]);
      assert WireOfAll(cast, vs)[1..] == WireOfAll(cast, vs[1..]);
    }
  }

  // ---------------------------------------------------------------- one step

  /** After n bytes of the stream ws have been fed and p messages pulled. */
  ghost predicate Holding(u: State, ws: seq<Wire>, n: nat, p: nat) {
    && Streamable(ws) && n <= |BytesAll(ws)| && p <= Complete(ws, n) && Start(ws, p) <= n
    && u.buf == BytesAll(ws)[Start(ws, p)..n]
    && Bump(u.f, p) == Run(EMPTY, BytesAll(ws)[..n]).f
  }

  /** The buffer is the unpulled messages and then the tail of an unfinished one, and the result
      count is the number of unpulled messages. */
  lemma HoldingMeans(u: State, ws: seq<Wire>, n: nat, p: nat)
    requires Holding(u, ws, n, p)
    ensures var k := Complete(ws, n);
      && Start(ws, k) <= n
      && u.buf == BytesAll(ws[p..k]) + BytesAll(ws)[Start(ws, k)..n]
      && (k < |ws| ==> n - Start(ws, k) < |Bytes(ws[k])|)
      && u.f.results == k - p
      && (u.f.stack == [] <==> n == Start(ws, k))
  {
    hide Run, BytesAll, Complete, Bytes, Streamable;
    var k := Complete(ws, n);
    FramingIsExact(ws, n);
    CompleteEnds(ws, n);
    StartMonotone(ws, p, k);
    if k < |ws| { StreamSplit(ws, k); }
    var all := BytesAll(ws);
    assert all[Start(ws, p)..n] == all[Start(ws, p)..Start(ws, k)] + all[Start(ws, k)..n];
  }

  lemma FeedStep(u: State, ws: seq<Wire>, n: nat, p: nat, s: seq<byte>, capacity: nat)
    requires Holding(u, ws, n, p) && |u.buf| + |s| <= capacity
    requires n + |s| <= |BytesAll(ws)| && BytesAll(ws)[n..n + |s|] == s
    ensures Fed(u, s, capacity).1 && Holding(Fed(u, s, capacity).0, ws, n + |s|, p)
  {
    hide Run, BytesAll, Complete, Bytes, Streamable, Start;
    var all := BytesAll(ws);
    assert all[..n + |s|] == all[..n] + s;
    RunConcat(EMPTY, all[..n], s);
    RunBump(u.f, s, p);
    FramingIsExact(ws, n);
    FramingIsExact(ws, n + |s|);
    CompleteGrows(ws, n, n + |s|);
    assert all[Start(ws, p)..n] + s == all[Start(ws, p)..n + |s|];
  }

  lemma {:induction false} CompleteGrows(ws: seq<Wire>, m: nat, n: nat)
    requires m <= n
    ensures Complete(ws, m) <= Complete(ws, n)
    decreases ws
  {
    if ws != [] && m >= |Bytes(ws[0])| { CompleteGrows(ws[1..], m - |Bytes(ws[0])|, n - |Bytes(ws[0])|); }
  }

  /** A pull with a message there gives its value exactly when no map in it has a nil or NaN key, and
      otherwise raises and changes nothing, so that every later pull raises too. */
  lemma PullStep(u: State, ws: seq<Wire>, n: nat, p: nat)
    requires Holding(u, ws, n, p)
    ensures p == Complete(ws, n) ==> Pulled(u) == (u, Nothing)
    ensures p < Complete(ws, n) ==> (Pulled(u).1.Message? <==> Keyed(ws[p]))
    ensures p < Complete(ws, n) && Keyed(ws[p]) ==>
      Pulled(u).1 == Message(ValueOf(ws[p])) && Holding(Pulled(u).0, ws, n, p + 1)
    ensures p < Complete(ws, n) && !Keyed(ws[p]) ==> Pulled(u) == (u, Raised)
  {
    hide Run, BytesAll, Complete, Bytes, UnpackAny, ValueOf, Seen, Keyed, WellFormed, Start;
    FramingIsExact(ws, n);
    var k := Complete(ws, n);
    if p < k {
      var all, w := BytesAll(ws), ws[p];
      CompleteEnds(ws, n);
      StreamSplit(ws, p);
      StartMonotone(ws, p + 1, k);
      assert u.buf[..|Bytes(w)|] == all[Start(ws, p)..Start(ws, p + 1)];
      UnpackWire(u.buf, START, w, false);
      SeenIsValue(w, false, false);
      assert u.buf[|Bytes(w)|..] == all[Start(ws, p + 1)..n];
    }
  }

  // ---------------------------------------------------------------- whole runs

  datatype Op = Feed(s: seq<byte>) | Pull

  datatype Outcome = Outcome(u: State, pulled: seq<Got>)

  /** What the unpacker does over a run, and what each pull gave. */
  function Exec(u: State, ops: seq<Op>, capacity: nat): Outcome
    decreases ops
  {
    if ops == [] then Outcome(u, []) else
    match ops[0]
    case Feed(s) => Exec(Fed(u, s, capacity).0, ops[1..], capacity)
    case Pull =>
      var (v, x) := Pulled(u);
      var rest := Exec(v, ops[1..], capacity);
      rest.(pulled := [x] + rest.pulled)
  }

  /** The bytes that the feeds of a run put into the buffer; a feed that does not fit puts none. */
  function Accepted(u: State, ops: seq<Op>, capacity: nat): seq<byte>
    decreases ops
  {
    if ops == [] then [] else
    match ops[0]
    case Feed(s) =>
      (if |u.buf| + |s| > capacity then [] else s) + Accepted(Fed(u, s, capacity).0, ops[1..], capacity)
    case Pull => Accepted(Pulled(u).0, ops[1..], capacity)
  }

  /** A queue of values: n bytes of the stream have arrived and p values have been taken. */
  datatype Queue = Queue(n: nat, p: nat, taken: seq<Got>)

  /** What a queue gives that holds the complete messages among the first n bytes from message p on. */
  ghost function Next(ws: seq<Wire>, n: nat, p: nat): Got
    requires Streamable(ws) && p <= Complete(ws, n)
  {
    if p == Complete(ws, n) then Nothing else if Keyed(ws[p]) then Message(ValueOf(ws[p])) else Raised
  }

  /** The queue over a run; it stays at a message that raises. */
  ghost function ExecQueue(ws: seq<Wire>, n: nat, p: nat, ops: seq<Op>, capacity: nat): (q: Queue)
    requires Streamable(ws) && p <= Complete(ws, n)
    decreases ops
  {
    if ops == [] then Queue(n, p, []) else
    match ops[0]
    case Feed(s) =>
      var m := if n - Start(ws, p) + |s| > capacity then n else n + |s|;
      CompleteGrows(ws, n, m);
      ExecQueue(ws, m, p, ops[1..], capacity)
    case Pull =>
      var x := Next(ws, n, p);
      var rest := ExecQueue(ws, n, if x.Message? then p + 1 else p, ops[1..], capacity);
      rest.(taken := [x] + rest.taken)
  }

  /** Under every interleaving of feeds and pulls of a stream of messages, the pulls give what the
      queue gives, and the unpacker holds what the queue holds. */
  lemma {:induction false} PullsAreQueue(u: State, ws: seq<Wire>, n: nat, p: nat, ops: seq<Op>, capacity: nat)
    requires Holding(u, ws, n, p)
    requires Accepted(u, ops, capacity) <= BytesAll(ws)[n..]
    ensures var q := ExecQueue(ws, n, p, ops, capacity);
      && Exec(u, ops, capacity).pulled == q.taken
      && Holding(Exec(u, ops, capacity).u, ws, q.n, q.p) && q.n == n + |Accepted(u, ops, capacity)|
    decreases ops
  {
    hide Complete, Pulled, BytesAll, Streamable, ValueOf, Run, Keyed, WellFormed;
    if ops != [] {
      match ops[0]
      case Feed(s) =>
        var all, rest := BytesAll(ws), Accepted(Fed(u, s, capacity).0, ops[1..], capacity);
        if |u.buf| + |s| > capacity {
          assert [] + rest == rest;
          PullsAreQueue(u, ws, n, p, ops[1..], capacity);
        } else {
          assert all[n..][..|s + rest|] == s + rest;
          assert all[n..n + |s|] == (s + rest)[..|s|] == s;
          assert all[n + |s|..][..|rest|] == (s + rest)[|s|..] == rest;
          FeedStep(u, ws, n, p, s, capacity);
          PullsAreQueue(Fed(u, s, capacity).0, ws, n + |s|, p, ops[1..], capacity);
        }
      case Pull =>
        PullStep(u, ws, n, p);
        PullsAreQueue(Pulled(u).0, ws, n, if Pulled(u).1.Message? then p + 1 else p, ops[1..], capacity);
    }
  }

  function Values(xs: seq<Got>): seq<Value> {
    if xs == [] then [] else (if xs[0].Message? then [xs[0].v] else []) + Values(xs[1..])
  }

  /** The values the queue gives are the stream's values in order, none lost or repeated, up to the
      first message that raises. */
  lemma {:induction false} QueueInOrder(ws: seq<Wire>, n: nat, p: nat, ops: seq<Op>, capacity: nat)
    requires Streamable(ws) && p <= Complete(ws, n)
    ensures var q := ExecQueue(ws, n, p, ops, capacity);
      && p <= q.p <= Complete(ws, q.n) && Values(q.taken) == ValuesOf(ws)[p..q.p]
      && (Raised in q.taken ==> q.p < |ws| && !Keyed(ws[q.p])) && forall i | p <= i < q.p :: Keyed(ws[i])
    decreases ops
  {
    hide Complete, Start, ValueOf, ValuesOf, WellFormed, Keyed, Streamable;
    if ops == [] {
      NoValues(ws, p);
    } else {
      match ops[0]
      case Feed(s) =>
        var m := if n - Start(ws, p) + |s| > capacity then n else n + |s|;
        CompleteGrows(ws, n, m);
        QueueInOrder(ws, m, p, ops[1..], capacity);
      case Pull =>
        var x := Next(ws, n, p);
        QueueInOrder(ws, n, if x.Message? then p + 1 else p, ops[1..], capacity);
        var q := ExecQueue(ws, n, if x.Message? then p + 1 else p, ops[1..], capacity);
        if x.Message? { NextValue(ws, p, q.p); }
    }
  }

  /** A message that raises stays at the head of the queue: whatever is fed, every pull raises. */
  lemma {:induction false} StuckForGood(ws: seq<Wire>, n: nat, p: nat, ops: seq<Op>, capacity: nat)
    requires Streamable(ws) && p < Complete(ws, n) && !Keyed(ws[p])
    ensures var q := ExecQueue(ws, n, p, ops, capacity); q.p == p && forall x | x in q.taken :: x == Raised
    decreases ops
  {
    hide Complete, Start, WellFormed, Keyed, Streamable;
    if ops != [] {
      match ops[0]
      case Feed(s) =>
        var m := if n - Start(ws, p) + |s| > capacity then n else n + |s|;
        CompleteGrows(ws, n, m);
        StuckForGood(ws, m, p, ops[1..], capacity);
      case Pull => StuckForGood(ws, n, p, ops[1..], capacity);
    }
  }

  lemma NoValues(ws: seq<Wire>, p: nat)
    requires Streamable(ws) && p <= |ws|
    ensures |ValuesOf(ws)| == |ws| && ValuesOf(ws)[p..p] == []
  {
  }

  lemma LengthOfValues(ws: seq<Wire>)
    requires Streamable(ws)
    ensures |ValuesOf(ws)| == |ws| && forall i | 0 <= i < |ws| :: ValuesOf(ws)[i] == ValueOf(ws[i])
  {
  }

  lemma NextValue(ws: seq<Wire>, p: nat, q: nat)
    requires Streamable(ws) && p < q <= |ws|
    ensures |ValuesOf(ws)| == |ws| && ValuesOf(ws)[p..q] == [ValueOf(ws[p])] + ValuesOf(ws)[p + 1..q]
  {
    hide ValueOf, ValuesOf;
    LengthOfValues(ws);
  }

  /** Whatever the cuts and the interleaving, a new unpacker that is fed a prefix of packed values
      gives them back in order, each as what packing keeps of it, and raises nothing; pulls in between
      that find no whole value give nil. They are the values themselves exactly when packing loses
      nothing of those pulled. */
  lemma FirstInFirstOut(cast: Cast, vs: seq<Value>, ops: seq<Op>, capacity: nat)
    requires forall v :: v in vs ==> Packable(v) && Slots(WireOf(cast, v)) <= STACK_SIZE
    requires FaultsAll(vs) == {}
    requires Accepted(State([], EMPTY), ops, capacity) <= BytesAll(WireOfAll(cast, vs))
    ensures var r := Exec(State([], EMPTY), ops, capacity); var got := Values(r.pulled);
      && |got| <= |vs| && got == ReceivedAll(cast, vs)[..|got|] && Raised !in r.pulled
      && (got == vs[..|got|] <==> forall v :: v in vs[..|got|] ==> Faithful(cast, v))
      && r.u.f.results + |got| == Complete(WireOfAll(cast, vs), |Accepted(State([], EMPTY), ops, capacity)|)
  {
    hide Exec, ExecQueue, Accepted, Complete, BytesAll, Holding, Values, WireOfAll, ValuesOf, Start, Faults;
    hide FaultsAll, Slots, Packable, WireOf, Run, Streamable, Keyed, Faithful, ReceivedAll;
    var ws := WireOfAll(cast, vs);
    PackedStream(cast, vs);
    var u := State([], EMPTY);
    NothingYet(ws);
    PullsAreQueue(u, ws, 0, 0, ops, capacity);
    QueueInOrder(ws, 0, 0, ops, capacity);
    var q := ExecQueue(ws, 0, 0, ops, capacity);
    HoldingMeans(Exec(u, ops, capacity).u, ws, q.n, q.p);
    ReceivedPrefix(cast, vs, q.p);
  }

  lemma ReceivedPrefix(cast: Cast, vs: seq<Value>, k: nat)
    requires k <= |vs| && forall v :: v in vs ==> Packable(v)
    ensures ReceivedAll(cast, vs)[..k] == vs[..k] <==> forall v :: v in vs[..k] ==> Faithful(cast, v)
  {
    hide Packable, Faithful, Received;
    assert ReceivedAll(cast, vs[..k]) == ReceivedAll(cast, vs)[..k];
    ReceivedAreValues(cast, vs[..k]);
  }

  lemma NothingYet(ws: seq<Wire>)
    requires Streamable(ws)
    ensures Holding(State([], EMPTY), ws, 0, 0)
  {
    assert BytesAll(ws)[..0] == [] && ws[..0] == [];
  }

  lemma PackedStream(cast: Cast, vs: seq<Value>)
    requires forall v :: v in vs ==> Packable(v) && Slots(WireOf(cast, v)) <= STACK_SIZE
    requires FaultsAll(vs) == {}
    ensures var ws := WireOfAll(cast, vs);
      Streamable(ws) && ValuesOf(ws) == ReceivedAll(cast, vs) && forall w :: w in ws ==> Keyed(w)
  {
    hide Packable, WireOf, Slots, Starved, Keyed, WellFormed, FaultsAll, ValuesOf;
    var ws := WireOfAll(cast, vs);
    PackedAllMean(cast, vs);
    forall w | w in ws ensures WellFormed(w) && Starved(w) == 0 && Slots(w) <= STACK_SIZE {
      var i :| 0 <= i < |ws| && ws[i] == w;
      PackedNotStarved(cast, vs[i]);
    }
  }
}
