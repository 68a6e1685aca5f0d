/** Write batching of a TCP handle: chunks gathered in requests of up to sixteen, and the copies of
    strings that a request's mask has freed. */
module TcpBatch {
  import opened ByteSeq

  const MAX_CHUNKS: nat := 16

  /** A string is copied for the request; a buffer's memory stays the buffer's. */
  datatype Chunk = Text(data: seq<byte>) | Slice(data: seq<byte>)

  /** One entry of the vector: its bytes, and the copy that holds them if there is one. */
  datatype Entry = Entry(data: seq<byte>, copy: Option<nat>)

  /** A request: its entries, and the set bits of its mask. */
  datatype Batch = Batch(bufs: seq<Entry>, mask: set<nat>)

  const NO_BATCH := Batch([], {})

  /** The handle and the C heap as far as the copies go. `done` are the requests whose callback ran. */
  datatype State = State(pending: Batch, bottled: bool, flushed: seq<Batch>, done: set<nat>, heap: set<nat>, next: nat)

  const START := State(NO_BATCH, false, [], {}, {}, 0)

  /** The next entry: a string is copied and its bit set; for a buffer the bit is cleared. */
  function Added(b: Batch, chunk: Chunk, next: nat): Batch {
    match chunk
    case Text(data) => Batch(b.bufs + [Entry(data, Some(next))], b.mask + {|b.bufs|})
    case Slice(data) => Batch(b.bufs + [Entry(data, None)], b.mask - {|b.bufs|})
  }

  /** tcp_write: add an entry; with `flush` take the bottle off; send unless bottled or not full. */
  function Write(s: State, chunk: Chunk, flush: bool): State {
    var b := Added(s.pending, chunk, s.next);
    var t := if chunk.Text? then s.(heap := s.heap + {s.next}, next := s.next + 1) else s;
    var bottled := s.bottled && !flush;
    if !bottled || |b.bufs| == MAX_CHUNKS then
      t.(pending := NO_BATCH, flushed := s.flushed + [b], bottled := bottled)
    else t.(pending := b, bottled := bottled)
  }

  function Bottle(s: State): State { s.(bottled := true) }

  /** The copies that the mask names. */
  function Copies(b: Batch): set<nat> {
    set k | k in b.mask && k < |b.bufs| && b.bufs[k].copy.Some? :: b.bufs[k].copy.value
  }

  /** The callback of request k. */
  function AfterWrite(s: State, k: nat): State
    requires k < |s.flushed|
  {
    s.(heap := s.heap - Copies(s.flushed[k]), done := s.done + {k})
  }

  // ---------------------------------------------------------------- what every step keeps

  /** The set bits are exactly the entries that own a copy, so none is at or past the count. */
  ghost predicate MaskOk(b: Batch) {
    forall k: nat :: k in b.mask <==> k < |b.bufs| && b.bufs[k].copy.Some?
  }

  ghost predicate Holds(b: Batch, n: nat) { exists j :: 0 <= j < |b.bufs| && b.bufs[j].copy == Some(n) }

  ghost predicate Single(b: Batch) {
    forall i, j | 0 <= i < j < |b.bufs| && b.bufs[i].copy.Some? :: b.bufs[j].copy != b.bufs[i].copy
  }

  ghost predicate BatchOk(b: Batch, next: nat) {
    MaskOk(b) && Single(b) && forall n: nat | Holds(b, n) :: n < next
  }

  /** A copy is alive exactly while it is pending or in a request that is still being written, and
      no two entries share one. */
  ghost predicate Ok(s: State) {
    && BatchOk(s.pending, s.next) && (forall k | 0 <= k < |s.flushed| :: BatchOk(s.flushed[k], s.next))
    && (forall k, n | 0 <= k < |s.flushed| && Holds(s.flushed[k], n) :: !Holds(s.pending, n))
    && (forall j, k, n | 0 <= j < k < |s.flushed| && Holds(s.flushed[j], n) :: !Holds(s.flushed[k], n))
    && (forall k | k in s.done :: k < |s.flushed|)
    && (forall n :: n in s.heap <==>
          Holds(s.pending, n) || exists k :: 0 <= k < |s.flushed| && k !in s.done && Holds(s.flushed[k], n))
    && |s.pending.bufs| < MAX_CHUNKS && (!s.bottled ==> s.pending == NO_BATCH)
    && forall k | 0 <= k < |s.flushed| :: 1 <= |s.flushed[k].bufs| <= MAX_CHUNKS
  }

  lemma CopiesAreHeld(b: Batch, n: nat)
    requires MaskOk(b)
    ensures n in Copies(b) <==> Holds(b, n)
  {
    if Holds(b, n) {
      var j :| 0 <= j < |b.bufs| && b.bufs[j].copy == Some(n);
      assert j in b.mask;
    }
  }

  /** The request with one more entry. */
  lemma EntryAdded(b: Batch, next: nat, chunk: Chunk)
    requires BatchOk(b, next)
    ensures var c := Added(b, chunk, next);
      && BatchOk(c, next + 1) && (chunk.Slice? ==> BatchOk(c, next))
      && forall n :: Holds(c, n) <==> Holds(b, n) || (chunk.Text? && n == next)
  {
    var i, c := |b.bufs|, Added(b, chunk, next);
    forall n ensures Holds(c, n) <==> Holds(b, n) || (chunk.Text? && n == next) {
      if Holds(b, n) {
        var j :| 0 <= j < |b.bufs| && b.bufs[j].copy == Some(n);
        assert c.bufs[j].copy == Some(n);
      }
      if chunk.Text? && n == next {
        assert c.bufs[i].copy == Some(n);
      }
    }
    assert Single(c) by {
      forall a, d | 0 <= a < d < |c.bufs| && c.bufs[a].copy.Some? ensures c.bufs[d].copy != c.bufs[a].copy {
        if d == i {
          assert Holds(b, c.bufs[a].copy.value);
        }
      }
    }
  }

  lemma WriteKeeps(s: State, chunk: Chunk, flush: bool)
    requires Ok(s)
    ensures Ok(Write(s, chunk, flush))
  {
    hide Ok, Added, Holds;
    AddedCount(s.pending, chunk, s.next);
    if |Write(s, chunk, flush).flushed| > |s.flushed| {
      FlushKeeps(s, chunk, flush);
    } else {
      GatherKeeps(s, chunk, flush);
    }
  }

  lemma GatherKeeps(s: State, chunk: Chunk, flush: bool)
    requires Ok(s) && Write(s, chunk, flush).flushed == s.flushed
    ensures Ok(Write(s, chunk, flush))
  {
    hide Holds, Single, MaskOk, Added;
    var t := Write(s, chunk, flush);
    AddedCount(s.pending, chunk, s.next);
    EntryAdded(s.pending, s.next, chunk);
    forall k, n | 0 <= k < |t.flushed| && Holds(t.flushed[k], n) ensures !Holds(t.pending, n) {
      assert BatchOk(s.flushed[k], s.next);
    }
  }

  lemma FlushKeeps(s: State, chunk: Chunk, flush: bool)
    requires Ok(s) && |Write(s, chunk, flush).flushed| > |s.flushed|
    ensures Ok(Write(s, chunk, flush))
  {
    hide Holds, Single, MaskOk, Added;
    var t := Write(s, chunk, flush);
    AddedCount(s.pending, chunk, s.next);
    EntryAdded(s.pending, s.next, chunk);
    NothingHeld();
    assert t.flushed[..|s.flushed|] == s.flushed;
    forall n ensures n in t.heap <==>
      Holds(t.pending, n) || exists k :: 0 <= k < |t.flushed| && k !in t.done && Holds(t.flushed[k], n)
    {
      FlushedHeap(s, t, n);
    }
    forall j, k, n | 0 <= j < k < |t.flushed| && Holds(t.flushed[j], n) ensures !Holds(t.flushed[k], n) {
      assert t.flushed[j] == s.flushed[j];
      if k < |s.flushed| {
        assert t.flushed[k] == s.flushed[k];
      } else {
        assert BatchOk(s.flushed[j], s.next);
      }
    }
  }

  lemma AddedCount(b: Batch, chunk: Chunk, next: nat)
    ensures |Added(b, chunk, next).bufs| == |b.bufs| + 1
  {
  }

  lemma NothingHeld()
    ensures forall n :: !Holds(NO_BATCH, n)
    ensures forall next :: BatchOk(NO_BATCH, next)
  {
  }

  lemma FlushedHeap(s: State, t: State, n: nat)
    requires (forall k | k in s.done :: k < |s.flushed|) && t.done == s.done
    requires |t.flushed| == |s.flushed| + 1 && t.flushed[..|s.flushed|] == s.flushed && !Holds(t.pending, n)
    requires n in t.heap <==> Holds(t.flushed[|s.flushed|], n) || exists k ::
      0 <= k < |s.flushed| && k !in s.done && Holds(s.flushed[k], n)
    ensures n in t.heap <==>
      Holds(t.pending, n) || exists k :: 0 <= k < |t.flushed| && k !in t.done && Holds(t.flushed[k], n)
  {
    hide Holds;
    var last := |s.flushed|;
    forall k | 0 <= k < last ensures t.flushed[k] == s.flushed[k] {
      assert t.flushed[k] == t.flushed[..last][k];
    }
    if n in t.heap {
      if Holds(t.flushed[last], n) {
        assert last !in t.done;
      } else {
        var k :| 0 <= k < last && k !in s.done && Holds(s.flushed[k], n);
        assert Holds(t.flushed[k], n);
      }
    }
    if k :| 0 <= k < |t.flushed| && k !in t.done && Holds(t.flushed[k], n) {
      if k < last {
        assert Holds(s.flushed[k], n);
      }
    }
  }

  /** The callback frees every copy of its request, each of them alive until then, and nothing else. */
  lemma AfterWriteKeeps(s: State, k: nat)
    requires Ok(s) && k < |s.flushed| && k !in s.done
    ensures Ok(AfterWrite(s, k))
    ensures Copies(s.flushed[k]) <= s.heap
    ensures forall n :: n in Copies(s.flushed[k]) <==> Holds(s.flushed[k], n)
  {
    hide Holds, Copies, Single, MaskOk;
    var t := AfterWrite(s, k);
    forall n ensures n in Copies(s.flushed[k]) <==> Holds(s.flushed[k], n) {
      CopiesAreHeld(s.flushed[k], n);
    }
    forall n ensures n in t.heap <==>
      Holds(t.pending, n) || exists j :: 0 <= j < |t.flushed| && j !in t.done && Holds(t.flushed[j], n)
    {
      if j :| 0 <= j < |s.flushed| && j !in s.done && Holds(s.flushed[j], n) {
        assert j != k ==> !Holds(s.flushed[k], n);
        assert j != k ==> j !in t.done && Holds(t.flushed[j], n);
      }
    }
  }

  // ---------------------------------------------------------------- whole runs

  datatype Event = Put(chunk: Chunk, flush: bool) | Hold | Finish(k: nat)

  function Step(s: State, e: Event): State {
    match e
    case Put(chunk, flush) => Write(s, chunk, flush)
    case Hold => Bottle(s)
    case Finish(k) => if k < |s.flushed| && k !in s.done then AfterWrite(s, k) else s
  }

  function Run(s: State, es: seq<Event>): State
    decreases |es|
  {
    if es == [] then s else Run(Step(s, es[0]), es[1..])
  }

  function Data(bufs: seq<Entry>): seq<byte> {
    if bufs == [] then [] else bufs[0].data + Data(bufs[1..])
  }

  /** The bytes handed to the socket so far. */
  function Sent(bs: seq<Batch>): seq<byte> {
    if bs == [] then [] else Sent(bs[..|bs| - 1]) + Data(bs[|bs| - 1].bufs)
  }

  /** Those and the pending ones. */
  function Stream(s: State): seq<byte> { Sent(s.flushed) + Data(s.pending.bufs) }

  function Chunks(es: seq<Event>): seq<byte> {
    if es == [] then [] else (if es[0].Put? then es[0].chunk.data else []) + Chunks(es[1..])
  }

  lemma {:induction false} DataMore(bufs: seq<Entry>, e: Entry)
    ensures Data(bufs + [e]) == Data(bufs) + e.data
  {
    if bufs == [] {
      assert (bufs + [e])[1..] == [];
    } else {
      assert (bufs + [e])[1..] == bufs[1..] + [e];
      DataMore(bufs[1..], e);
    }
  }

  lemma WriteAppends(s: State, chunk: Chunk, flush: bool)
    ensures Stream(Write(s, chunk, flush)) == Stream(s) + chunk.data
    ensures flush || !s.bottled ==> Write(s, chunk, flush).pending == NO_BATCH
  {
    hide Sent, Data;
    var t := Write(s, chunk, flush);
    var e := if chunk.Text? then Entry(chunk.data, Some(s.next)) else Entry(chunk.data, None);
    DataMore(s.pending.bufs, e);
    SentMore(s.flushed, Added(s.pending, chunk, s.next));
    NoData();
  }

  /** A request is made exactly when the write has a flush, the handle is not bottled, or this is the sixteenth
      chunk; otherwise one more is pending. */
  lemma WhenHandedOver(s: State, chunk: Chunk, flush: bool)
    ensures var t := Write(s, chunk, flush); var n := |s.pending.bufs|;
      && (t.pending == NO_BATCH <==> flush || !s.bottled || n == 15)
      && (t.pending == NO_BATCH ==> |t.flushed| == |s.flushed| + 1 && |t.flushed[|s.flushed|].bufs| == n + 1)
      && (t.pending != NO_BATCH ==> t.flushed == s.flushed && |t.pending.bufs| == n + 1)
      && t.bottled == (s.bottled && !flush)
  {
    hide Added;
    AddedCount(s.pending, chunk, s.next);
  }

  lemma SentMore(bs: seq<Batch>, b: Batch)
    ensures Sent(bs + [b]) == Sent(bs) + Data(b.bufs)
  {
    assert (bs + [b])[..|bs + [b]| - 1] == bs;
  }

  lemma NoData()
    ensures Data([]) == []
  {
  }

  lemma {:induction false} RunKeeps(s: State, es: seq<Event>)
    requires Ok(s)
    ensures Ok(Run(s, es)) && Stream(Run(s, es)) == Stream(s) + Chunks(es)
    decreases |es|
  {
    hide Ok, Step, Stream;
    if es == [] {
      assert Stream(s) + [] == Stream(s);
    } else {
      StepKeeps(s, es[0]);
      RunKeeps(Step(s, es[0]), es[1..]);
      var data := if es[0].Put? then es[0].chunk.data else [];
      assert Stream(s) + data + Chunks(es[1..]) == Stream(s) + (data + Chunks(es[1..]));
    }
  }

  lemma StepKeeps(s: State, e: Event)
    requires Ok(s)
    ensures Ok(Step(s, e)) && Stream(Step(s, e)) == Stream(s) + if e.Put? then e.chunk.data else []
  {
    hide Ok, Write, AfterWrite, Stream;
    match e
    case Put(chunk, flush) =>
      WriteKeeps(s, chunk, flush);
      WriteAppends(s, chunk, flush);
    case Hold =>
      HoldKeeps(s);
    case Finish(k) =>
      if k < |s.flushed| && k !in s.done {
        AfterWriteKeeps(s, k);
        FinishSends(s, k);
      }
  }

  lemma HoldKeeps(s: State)
    requires Ok(s)
    ensures Ok(Bottle(s)) && Stream(Bottle(s)) == Stream(s)
  {
  }

  lemma FinishSends(s: State, k: nat)
    requires k < |s.flushed|
    ensures Stream(AfterWrite(s, k)) == Stream(s)
  {
  }

  /** Over every run of a new handle: what was handed to the socket and what is pending is what was
      written, in order; requests have 1 to 16 entries; a copy is alive exactly while an entry that is
      not yet written out holds it. */
  lemma WritesAreConserved(es: seq<Event>)
    ensures var s := Run(START, es);
      && Stream(s) == Chunks(es)
      && (forall k | 0 <= k < |s.flushed| :: 1 <= |s.flushed[k].bufs| <= 16 && MaskOk(s.flushed[k]))
      && (forall n :: n in s.heap <==>
            Holds(s.pending, n) || exists k :: 0 <= k < |s.flushed| && k !in s.done && Holds(s.flushed[k], n))
  {
    hide Run, Chunks, Holds;
    NothingHeld();
    assert Ok(START) && Stream(START) == [];
    RunKeeps(START, es);
  }

  // ---------------------------------------------------------------- the handle

  class Tcp {
    var bufs: array<Entry>
    var bufcnt: nat
    var mask: set<nat>
    var bottleMode: bool
    var flushed: seq<Batch>
    ghost var done: set<nat>
    var heap: set<nat>
    var next: nat

    predicate Valid()
      reads this
    {
      bufs.Length == MAX_CHUNKS && bufcnt <= bufs.Length
    }

    ghost function View(): State
      requires Valid()
      reads this, bufs
    {
      State(Batch(bufs[..bufcnt], mask), bottleMode, flushed, done, heap, next)
    }

    constructor ()
      ensures Valid() && View() == START && fresh(bufs)
    {
      bufs := new Entry[MAX_CHUNKS](_ => Entry([], None));
      bufcnt, mask, bottleMode, flushed, done, heap, next := 0, {}, false, [], {}, {}, 0;
    }

    method Malloc() returns (n: nat)
      modifies this`heap, this`next
      ensures n == old(next) && next == n + 1 && heap == old(heap) + {n}
    {
      n := next;
      heap, next := heap + {n}, next + 1;
    }

    method Free(n: nat)
      requires n in heap
      modifies this`heap
      ensures heap == old(heap) - {n}
    {
      heap := heap - {n};
    }

    method TcpBottle()
      requires Valid()
      modifies this`bottleMode
      ensures Valid() && View() == Bottle(old(View()))
    {
      bottleMode := true;
    }

    /** tcp_write; `flush` is the third argument being a number. */
    method TcpWrite(chunk: Chunk, flush: bool)
      requires Valid() && bufcnt < MAX_CHUNKS
      modifies this, bufs
      ensures Valid() && (bufs == old(bufs) || fresh(bufs))
      ensures View() == Write(old(View()), chunk, flush)
    {
      if chunk.Text? {
        mask := mask + {bufcnt};
        var tmp := Malloc();
        bufs[bufcnt] := Entry(chunk.data, Some(tmp));
      } else {
        mask := mask - {bufcnt};
        bufs[bufcnt] := Entry(chunk.data, None);
      }
      bufcnt := bufcnt + 1;
      assert bufs[..bufcnt] == old(bufs[..bufcnt]) + [bufs[bufcnt - 1]];
      if flush {
        bottleMode := false;
      }
      if !bottleMode || bufcnt == MAX_CHUNKS {
        flushed := flushed + [Batch(bufs[..bufcnt], mask)];
        bufs := new Entry[MAX_CHUNKS](_ => Entry([], None));
        bufcnt, mask := 0, {};
      }
    }

    /** tcp_after_write: the count is one past the last entry when the loop looks at it first; no bit
        is set there. Every copy is freed once. */
    method TcpAfterWrite(k: nat)
      requires Valid() && k < |flushed| && k !in done && Ok(View())
      modifies this`heap, this`done
      ensures Valid() && View() == AfterWrite(old(View()), k)
    {
      hide Ok, Copies;
      var b := flushed[k];
      FreesAlive(View(), k);
      var i := |b.bufs|;
      while true
        invariant 0 <= i <= |b.bufs| && done == old(done)
        invariant forall n :: n in heap <==>
          n in old(heap) && !exists j :: i < j < |b.bufs| && b.bufs[j].copy == Some(n)
        decreases i
      {
        if i in b.mask {
          Free(b.bufs[i].copy.value);
        }
        if i == 0 {
          break;
        }
        i := i - 1;
      }
      done := done + {k};
      assert heap == old(heap) - Copies(b);
    }
  }

  /** What the callback relies on. */
  lemma FreesAlive(s: State, k: nat)
    requires Ok(s) && k < |s.flushed| && k !in s.done
    ensures MaskOk(s.flushed[k]) && Single(s.flushed[k])
    ensures forall j | 0 <= j < |s.flushed[k].bufs| && s.flushed[k].bufs[j].copy.Some? ::
      s.flushed[k].bufs[j].copy.value in s.heap
    ensures forall n :: n in Copies(s.flushed[k]) <==> exists j ::
      0 <= j < |s.flushed[k].bufs| && s.flushed[k].bufs[j].copy == Some(n)
  {
    hide Copies;
    AfterWriteKeeps(s, k);
    var b := s.flushed[k];
    forall j | 0 <= j < |b.bufs| && b.bufs[j].copy.Some? ensures b.bufs[j].copy.value in s.heap {
      assert Holds(b, b.bufs[j].copy.value);
    }
  }
}
