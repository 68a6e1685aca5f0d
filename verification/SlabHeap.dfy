/** The slab allocator and the buffers over it, as the C code runs them. */
module SlabHeap {
  import opened ByteSeq
  import opened SlabState

  const STATIC_MB_SIZE: nat := 8192

  /** The right operand of `buffer .. x`. */
  datatype Operand = Buffer(id: nat) | Text(s: seq<byte>)

  class Slab {
    var heap: map<nat, Block>
    var pools: seq<seq<nat>>
    var slices: map<nat, Slice>
    var strings: map<nat, nat>
    var bump: Option<nat>
    var reading: Option<nat>
    var next: nat

    ghost function S(): State reads this {
      State(heap, pools, slices, strings, bump, reading, next)
    }

    ghost function Loose(): set<nat> reads this {
      if reading.Some? then {reading.value} else {}
    }

    /** Between calls the only block that nothing refers to is the one being read into. */
    ghost predicate Valid() reads this {
      && Inv(S(), Loose())
      && (reading.Some? ==> heap[reading.value].nbytes == 0 && heap[reading.value].size == STATIC_MB_SIZE)
    }

    /** What every live buffer and string holds. */
    ghost function View(): map<nat, seq<byte>> reads this { ViewOf(S()) }

    // -------------------------------------------------------------- lev_slab.c

    constructor ()
      ensures Valid() && View() == map[] && reading == None && bump == None && strings == map[]
      ensures forall c :: 0 <= c < CLASSES ==> |pools[c]| == POOL_MIN[c]
    {
      heap, pools, slices, strings, bump, reading, next := map[], [[], [], [], [], []], map[], map[], None, None, 0;
      new;
      hide Inv;
      NothingKept(S());
      for c := 0 to CLASSES
        invariant Inv(S(), {}) && slices == map[] && strings == map[] && bump == None && reading == None
        invariant forall d :: c <= d < CLASSES ==> pools[d] == []
        invariant forall d :: 0 <= d < c ==> |pools[d]| == POOL_MIN[d]
      {
        Fill(c);
      }
    }

    /** _lev_slab_fill */
    method Fill(c: nat)
      requires Inv(S(), {}) && slices == map[] && bump == None && c < CLASSES && pools[c] == []
      modifies this`heap, this`pools, this`next
      ensures Inv(S(), {}) && |pools[c]| == POOL_MIN[c]
      ensures forall d :: 0 <= d < CLASSES && d != c ==> pools[d] == old(pools[d])
    {
      hide Inv;
      PoolFacts(S(), {});
      while |pools[c]| != POOL_MIN[c]
        invariant Inv(S(), {}) && |pools| == CLASSES && |pools[c]| <= POOL_MIN[c]
        invariant forall d :: 0 <= d < CLASSES && d != c ==> pools[d] == old(pools[d])
        decreases POOL_MIN[c] - |pools[c]|
      {
        ghost var st := S();
        heap := heap[next := Block(0, 0, 0, 0, seq(CLASS_SIZE[c], _ => 0))];
        pools := pools[c := pools[c] + [next]];
        next := next + 1;
        FilledKeeps(st, S(), c, heap[st.next]);
      }
    }

    method GetBlock(size: nat) returns (b: Option<nat>, ghost junk: seq<byte>)
      requires |pools| == CLASSES && forall c :: 0 <= c < CLASSES && pools[c] != [] ==> pools[c][|pools[c]| - 1] in heap
      modifies this`heap, this`pools, this`next
      ensures size > MAX_REQUEST ==> b == None && S() == old(S())
      ensures size <= MAX_REQUEST ==> |junk| == CLASS_SIZE[ClassOf(size).value] && b.Some?
      ensures size <= MAX_REQUEST ==> (S(), b.value) == Take(old(S()), ClassOf(size).value, junk)
    {
      var cls := ClassOf(size);
      if cls.None? {
        return None, [];
      }
      var c := cls.value;
      var block: nat;
      junk := seq(CLASS_SIZE[c], _ => 0);
      if pools[c] != [] {
        block := pools[c][|pools[c]| - 1];
        pools := pools[c := pools[c][..|pools[c]| - 1]];
        heap := heap[block := Block(c, 0, CLASS_SIZE[c], 0, heap[block].bytes)];
      } else {
        block := next;
        next := next + 1;
        heap := heap[block := Block(c, 0, CLASS_SIZE[c], 0, seq(CLASS_SIZE[c], _ => 0))];
      }
      assert (S(), block) == Take(old(S()), c, junk);
      b := Some(block);
    }

    method IncRef(b: nat)
      requires b in heap
      modifies this`heap
      ensures S() == Acquire(old(S()), b)
    {
      heap := heap[b := heap[b].(refcount := heap[b].refcount + 1)];
    }

    method DecRef(b: nat)
      requires b in heap && heap[b].cls < CLASSES == |pools|
      modifies this`heap, this`pools
      ensures S() == Release(old(S()), b)
    {
      heap := heap[b := heap[b].(refcount := heap[b].refcount - 1)];
      if heap[b].refcount == 0 {
        var c := heap[b].cls;
        if |pools[c]| < POOL_MIN[c] {
          pools := pools[c := pools[c] + [b]];
        } else {
          heap := heap - {b};
        }
      }
    }

    // -------------------------------------------------------------- lev_new_buffer.c

    /** lev_pushbuffer_from_mb with a slice and a length. */
    method PushBuffer(s: Slice) returns (id: nat)
      requires s.mb in heap
      modifies this`heap, this`slices, this`next
      ensures id == old(next) && S() == Hold(old(S()), s)
    {
      IncRef(s.mb);
      id := next;
      slices := slices[id := s];
      next := next + 1;
    }

    method Memcpy(b: nat, at: nat, data: seq<byte>)
      requires b in heap && at + |data| <= |heap[b].bytes|
      modifies this`heap
      ensures S() == Write(old(S()), b, at, data)
    {
      heap := heap[b := heap[b].(bytes := Splice(heap[b].bytes, at, data))];
    }

    /** The bump block has room for `size` more bytes. */
    predicate HasRoom(size: nat)
      reads this
    {
      bump.Some? && bump.value in heap && heap[bump.value].size - heap[bump.value].nbytes >= size
    }

    /** The block a new buffer of `size` bytes goes to: the bump block while it has room, or else a
        block taken from the allocator in its place. */
    method BumpBlock(size: nat) returns (b: nat)
      requires Valid() && 0 < size <= MAX_REQUEST
      modifies this
      ensures Inv(S(), if bump == None then Loose() + {b} else Loose()) && View() == old(View())
      ensures slices == old(slices) && strings == old(strings)
      ensures reading == old(reading) && (reading.Some? ==> heap[reading.value] == old(heap[reading.value]))
      ensures b in heap && !Pooled(pools, b) && NoString(S(), b) && b !in Loose()
        && heap[b].nbytes + size <= heap[b].size
      ensures bump.Some? ==> b == bump.value && heap[b].nbytes > 0
      ensures bump == None ==> Refs(S(), b) == 0 && heap[b].nbytes == 0
      ensures if old(HasRoom(size)) then bump == old(bump) && heap == old(heap)
              else bump == None && heap[b].size == CLASS_SIZE[ClassOf(size).value]
    {
      hide Inv, Contents, Refs, NoString, BlockOk, ViewOf, Pooled;
      ghost var loose := Loose();
      if reading.Some? { LooseFacts(S(), loose, reading.value); }
      if bump.Some? {
        BumpFacts(S(), loose);
        if heap[bump.value].size - heap[bump.value].nbytes >= size {
          b := bump.value;
          return;
        }
        ghost var st := S();
        ClearBumpKeeps(st, loose);
        PoolFacts(st, loose);
        DecRef(bump.value);
        bump := None;
        ClearBumpIs(st);
        assert S() == ClearBump(st);
        ViewKept(st, S());
      }
      ghost var st := S();
      PoolFacts(st, loose);
      ghost var junk: seq<byte>;
      var block: Option<nat>;
      block, junk := GetBlock(size);
      b := block.value;
      TakeKeeps(st, loose, ClassOf(size).value, junk);
      ViewKept(st, S());
      LooseFacts(S(), loose + {b}, b);
    }

    /** lev_buffer_new: `temp` is copied to the front, or all is zeroed. */
    method BufferNew(size: nat, temp: Option<seq<byte>>) returns (id: nat)
      requires Valid() && 0 < size <= MAX_REQUEST && (temp.Some? ==> |temp.value| <= size)
      modifies this
      ensures Valid() && id !in old(View()) && id in View() && |View()[id]| == size
      ensures View() == old(View())[id := View()[id]]
      ensures temp.Some? ==> temp.value <= View()[id]
      ensures temp.None? ==> forall k :: 0 <= k < size ==> View()[id][k] == 0
      ensures reading == old(reading) && strings == old(strings)
      ensures slices == old(slices)[id := slices[id]] && id !in strings && slices[id].until == size
      ensures forall j :: j in old(slices) ==> Apart(slices[j], slices[id])
      ensures old(HasRoom(size)) ==>
        slices[id].mb == old(bump.value) && slices[id].off == old(heap[bump.value].nbytes) && bump == old(bump)
      ensures !old(HasRoom(size)) ==>
        slices[id].off == 0
        && bump == if size == CLASS_SIZE[ClassOf(size).value] then None else Some(slices[id].mb)
      ensures slices[id].mb in heap && heap[slices[id].mb].nbytes == slices[id].off + size
      ensures heap[slices[id].mb].size
           == if old(HasRoom(size)) then old(heap[bump.value].size) else CLASS_SIZE[ClassOf(size).value]
    {
      hide Inv, Contents, Refs, NoString, BlockOk, ViewOf, Pooled, NewBuffer;
      var b := BumpBlock(size);
      ghost var st, taken := S(), bump == None;
      var front := if temp.Some? then temp.value else seq(size, _ => 0);
      NewBufferKeeps(st, Loose(), b, front, size, taken, taken && size != heap[b].size);
      CountFacts(st, Loose(), b, taken);
      if reading.Some? { LooseFacts(st, if taken then Loose() + {b} else Loose(), reading.value); }
      id := AddBuffer(b, front, size);
      ViewSet(st, S(), id, Contents(S(), id));
      ViewKeys(st);
      PoolFacts(st, if taken then Loose() + {b} else Loose());
    }

    method AddBuffer(b: nat, front: seq<byte>, size: nat) returns (id: nat)
      requires b in heap && |front| <= size && heap[b].nbytes + size <= |heap[b].bytes| == heap[b].size
      requires if bump == None then heap[b].refcount == 0 else heap[b].refcount > 0 && heap[b].nbytes > 0
      requires bump in {None, Some(b)}
      modifies this
      ensures id == old(next)
      ensures S() == NewBuffer(old(S()), b, front, size, old(bump == None && size != heap[b].size))
      ensures heap.Keys == old(heap.Keys) && forall x :: x in heap && x != b ==> heap[x] == old(heap[x])
      ensures reading == old(reading) && strings == old(strings) && id in slices
      ensures slices == old(slices)[id := slices[id]] && slices[id] == Slice(b, old(heap[b].nbytes), size, {id})
      ensures bump == if old(bump == None && size == heap[b].size) then None else Some(b)
      ensures heap[b].nbytes == old(heap[b].nbytes) + size && heap[b].size == old(heap[b].size)
    {
      hide Splice, NewBuffer;
      ghost var st, setBump := S(), bump == None && size != heap[b].size;
      NewBufferSteps(st, b, front, size, setBump);
      NewBufferFrame(st, b, front, size, setBump);
      var at := heap[b].nbytes;
      if size != heap[b].size {
        if heap[b].refcount == 0 {
          IncRef(b);
          bump := Some(b);
        }
      } else {
        bump := None;
      }
      assert S() == if setBump then SetBump(st, b) else st;
      id := PushBuffer(Slice(b, at, size, {next}));
      Memcpy(b, at, front);
      ghost var st3 := S();
      heap := heap[b := heap[b].(nbytes := heap[b].nbytes + size)];
      assert S() == Grow(st3, b, size);
    }

    /** buffer:slice(i, j): offset from 1, and 0 for either means its default. */
    method BufferSlice(i: nat, offset: nat, length: nat) returns (id: Option<nat>)
      requires Valid() && i in slices && i !in strings
      modifies this`heap, this`slices, this`next
      ensures var v, o := old(View())[i], if offset == 0 then 0 else offset - 1;
        && Valid() && (id.Some? <==> o < |v| && o + length <= |v|)
        && (id.None? ==> S() == old(S()))
        && (id.Some? ==> id.value !in old(View()))
        && (id.Some? ==> View() == old(View())[id.value := if length == 0 then v[o..] else v[o..o + length]])
      ensures i in old(View()) && strings == old(strings) && reading == old(reading)
    {
      hide Inv, Contents, Refs, NoString, BlockOk, ViewOf, Pooled, SliceOk;
      ghost var st := S();
      ViewKeys(st);
      BufferFacts(st, Loose(), i);
      var s := slices[i];
      var off := if offset == 0 then 1 else offset;
      if off > s.until {
        return None;
      }
      off := off - 1;
      var len := if length == 0 then s.until - off else length;
      if len > s.until - off {
        return None;
      }
      var part := Slice(s.mb, s.off + off, len, s.groups);
      ShareKeeps(st, Loose(), part, i, i);
      var n := PushBuffer(part);
      RangeWithin(st.heap[s.mb], s.off, s.until, off, len);
      assert Contents(S(), n) == Contents(st, i)[off..off + len];
      ViewSet(st, S(), n, Contents(S(), n));
      id := Some(n);
    }

    /** buffer1 .. buffer2 and buffer .. string: the two contents in order, except that a second
        buffer lying immediately before the first comes first. */
    method BufferConcat(i: nat, x: Operand) returns (id: nat)
      requires Valid() && i in slices && i !in strings
      requires x.Buffer? ==> x.id in slices && x.id !in strings
      requires |View()[i]| + |(if x.Buffer? then View()[x.id] else x.s)| <= MAX_REQUEST
      modifies this
      ensures Valid() && id !in old(View()) && strings == old(strings) && reading == old(reading)
      ensures i in old(View()) && (x.Buffer? ==> x.id in old(View()))
      ensures var a, b := old(View())[i], if x.Buffer? then old(View())[x.id] else x.s;
        View() == old(View())[id := if x.Buffer? && old(Precedes(x.id, i)) then b + a else a + b]
      ensures forall j :: j in old(slices) ==> j in slices && slices[j] == old(slices[j])
    {
      hide Inv, Contents, Refs, NoString, BlockOk, ViewOf, Pooled, Splice, Extend, Apart;
      ghost var st, loose := S(), Loose();
      BufferFacts(st, loose, i);
      var first := slices[i];
      if x.Buffer? {
        BufferFacts(st, loose, x.id);
        var second := slices[x.id];
        if first.mb == second.mb
           && ((first.off > second.off && second.off + second.until == first.off)
               || (second.off > first.off && first.off + first.until == second.off)) {
          var s := Slice(first.mb, if first.off > second.off then second.off else first.off,
                         first.until + second.until, first.groups + second.groups);
          ghost var low, high := if first.off > second.off then x.id else i, if first.off > second.off then i else x.id;
          JoinKeeps(st, loose, s, low, high);
          ViewKeys(st);
          id := PushBuffer(s);
          return;
        }
      }
      var data := if x.Buffer? then Bytes(x.id) else x.s;
      if heap[first.mb].nbytes == first.off + first.until && heap[first.mb].size - heap[first.mb].nbytes >= |data| {
        id := ConcatInPlace(i, data);
      } else {
        id := ConcatCopy(i, data);
      }
    }

    /** The right operand goes to the free bytes right behind the left one. */
    method ConcatInPlace(i: nat, data: seq<byte>) returns (id: nat)
      requires Valid() && i in slices && i !in strings && slices[i].mb in heap
      requires heap[slices[i].mb].nbytes == slices[i].off + slices[i].until
      requires heap[slices[i].mb].size - heap[slices[i].mb].nbytes >= |data|
      modifies this
      ensures Valid() && i in old(View()) && id !in old(View()) && strings == old(strings) && reading == old(reading)
      ensures View() == old(View())[id := old(View())[i] + data]
      ensures forall j :: j in old(slices) ==> j in slices && slices[j] == old(slices[j])
    {
      hide Inv, Contents, Refs, NoString, BlockOk, ViewOf, Pooled, Splice, Extend, Apart;
      ghost var st, loose := S(), Loose();
      var first := slices[i];
      BufferFacts(st, loose, i);
      ExtendKeeps(st, loose, i, data);
      if reading.Some? { LooseFacts(st, loose, reading.value); }
      id := PushBuffer(Slice(first.mb, first.off, first.until + |data|, first.groups + {next}));
      heap := heap[first.mb := heap[first.mb].(nbytes := heap[first.mb].nbytes + |data|)];
      Memcpy(first.mb, first.off + first.until, data);
      ExtendIs(st, S(), i, data);
      ViewSet(st, S(), id, Contents(st, i) + data);
      ViewKeys(st);
    }

    /** Both operands are copied to a new buffer. */
    method ConcatCopy(i: nat, data: seq<byte>) returns (id: nat)
      requires Valid() && i in slices && i !in strings && |View()[i]| + |data| <= MAX_REQUEST
      modifies this
      ensures Valid() && i in old(View()) && id !in old(View()) && strings == old(strings) && reading == old(reading)
      ensures View() == old(View())[id := old(View())[i] + data]
      ensures forall j :: j in old(slices) ==> j in slices && slices[j] == old(slices[j])
    {
      hide Inv, Contents, Refs, NoString, BlockOk, ViewOf, Pooled, Splice, Apart;
      ghost var st := S();
      BufferFacts(st, Loose(), i);
      ViewKeys(st);
      var n := slices[i].until;
      id := BufferNew(n + |data|, Some(Bytes(i)));
      ghost var st1 := S();
      assert ViewOf(st1)[id][..n] == ViewOf(st)[i];
      BackKeeps(st1, Loose(), id, n, data);
      if reading.Some? { LooseFacts(st1, Loose(), reading.value); }
      Memcpy(slices[id].mb, slices[id].off + n, data);
    }

    /** The bytes a slice covers. */
    function Bytes(i: nat): seq<byte>
      requires i in slices && slices[i].mb in heap
      requires slices[i].off + slices[i].until <= |heap[slices[i].mb].bytes|
      reads this
    {
      heap[slices[i].mb].bytes[slices[i].off..slices[i].off + slices[i].until]
    }

    /** Buffer j lies immediately before buffer i in the same block. */
    predicate Precedes(j: nat, i: nat)
      requires i in slices && j in slices
      reads this
    {
      slices[j].mb == slices[i].mb && slices[j].off + slices[j].until == slices[i].off
    }

    /** __gc */
    method BufferGc(i: nat)
      requires Valid() && i in slices
      modifies this`heap, this`pools, this`slices, this`strings
      ensures Valid() && View() == old(View()) - {i}
      ensures slices == old(slices) - {i} && strings == old(strings) - {i}
    {
      hide Inv, Contents, Refs, NoString, BlockOk, ViewOf, Pooled;
      ghost var st := S();
      DropKeeps(st, Loose(), i);
      PoolFacts(st, Loose());
      HeldBlock(st, Loose(), i);
      if reading.Some? { LooseFacts(st, Loose(), reading.value); }
      DecRef(slices[i].mb);
      slices := slices - {i};
      strings := strings - {i};
      DropIs(st, i);
      assert S() == Drop(st, i);
      ViewDropped(st, S(), i);
    }

    // -------------------------------------------------------------- lev_new_base.c, lev_mpack.c

    /** on_alloc: the block the next read goes to. */
    method OnAlloc() returns (b: nat)
      requires Valid()
      modifies this`heap, this`pools, this`next, this`reading
      ensures Valid() && reading == Some(b) && View() == old(View()) && strings == old(strings)
    {
      hide Inv, Contents, Refs, NoString, BlockOk, ViewOf, Pooled;
      if reading.Some? {
        return reading.value;
      }
      ghost var st := S();
      PoolFacts(st, {});
      ghost var junk: seq<byte>;
      var block: Option<nat>;
      block, junk := GetBlock(STATIC_MB_SIZE);
      b := block.value;
      TakeKeeps(st, {}, 1, junk);
      ghost var st1 := S();
      ViewKept(st, st1);
      reading := Some(b);
      ReadingApart(st1, S(), {} + {b});
      assert {} + {b} == {b};
    }

    /** The read callback: a failed read gives the block back; otherwise the bytes read become a
        buffer, except that an empty read makes one of the whole block. */
    method OnRead(nread: int, data: seq<byte>) returns (id: Option<nat>)
      requires Valid() && reading.Some? && -1 <= nread <= STATIC_MB_SIZE
      requires |data| == if nread < 0 then 0 else nread
      modifies this
      ensures Valid() && reading == None && strings == old(strings) && (id == None <==> nread == -1)
      ensures nread == -1 ==> View() == old(View())
      ensures nread > 0 ==> id.value !in old(View()) && View() == old(View())[id.value := data]
      ensures nread == 0 ==> id.value !in old(View()) && id.value in View() && |View()[id.value]| == STATIC_MB_SIZE
      ensures nread == 0 ==> View() == old(View())[id.value := View()[id.value]]
    {
      hide Inv, Contents, Refs, NoString, ViewOf, Pooled, Splice, Release, NewBuffer;
      ghost var loose := Loose();
      var mb := reading.value;
      ghost var was := S();
      reading := None;
      ghost var st := S();
      ReadingApart(was, st, loose);
      LooseFacts(st, loose, mb);
      PoolFacts(st, loose);
      ViewKeys(st);
      assert loose - {mb} == {} && {} + {mb} == loose;
      if nread == -1 {
        DiscardKeeps(st, loose, mb);
        AcquireFrame(st, mb);
        IncRef(mb);
        DecRef(mb);
        ReleaseFrame(Acquire(st, mb), mb);
        return None;
      }
      Memcpy(mb, 0, data);
      var n := PushBuffer(Slice(mb, heap[mb].nbytes, if nread == 0 then heap[mb].size else nread, {next}));
      heap := heap[mb := heap[mb].(nbytes := heap[mb].nbytes + nread)];
      if nread > 0 {
        NewBufferKeeps(st, {}, mb, data, nread, true, false);
        NewBufferIs(st, S(), mb, data, nread, false);
        ViewSet(st, S(), n, data);
      } else {
        SpliceNothing(st.heap[mb].bytes, 0);
        FrontKeeps(st, loose, mb, heap[mb].size);
        assert S() == Hold(st, Slice(mb, 0, heap[mb].size, {st.next}));
      }
      id := Some(n);
    }

    /** mp.pack's output buffer: a new block, of which nbytes stays 0. */
    method PackBuffer(packed: seq<byte>) returns (id: nat)
      requires Valid() && 0 < |packed| <= MAX_REQUEST
      modifies this
      ensures Valid() && id !in old(View()) && View() == old(View())[id := packed]
      ensures strings == old(strings) && reading == old(reading)
    {
      hide Inv, Contents, Refs, NoString, ViewOf, Pooled, Splice;
      ghost var st, loose := S(), Loose();
      if reading.Some? { LooseFacts(st, loose, reading.value); }
      PoolFacts(st, loose);
      ViewKeys(st);
      ghost var junk: seq<byte>;
      var block: Option<nat>;
      block, junk := GetBlock(|packed|);
      var mb := block.value;
      TakeKeeps(st, loose, ClassOf(|packed|).value, junk);
      ghost var st1 := S();
      ViewKept(st, st1);
      PackedKeeps(st1, loose, mb, packed);
      id := PushBuffer(Slice(mb, heap[mb].nbytes, |packed|, {next}));
      Memcpy(mb, 0, packed);
    }

    // -------------------------------------------------------------- private strings

    /** memslice_wrap_strbuf_init */
    method StringNew(len: int) returns (id: nat)
      requires Valid() && len < MAX_REQUEST
      modifies this
      ensures Valid() && id !in old(View()) && View() == old(View())[id := []] && strings == old(strings)[id := 0]
      ensures id in slices && slices[id].until == if len <= 0 then 1023 else len + 1
    {
      hide Inv, Contents, Refs, NoString, ViewOf, Pooled, Splice;
      ghost var st, loose := S(), Loose();
      if reading.Some? { LooseFacts(st, loose, reading.value); }
      PoolFacts(st, loose);
      ViewKeys(st);
      var size := if len <= 0 then 1023 else len + 1;
      ghost var junk: seq<byte>;
      var block: Option<nat>;
      block, junk := GetBlock(size);
      var mb := block.value;
      TakeKeeps(st, loose, ClassOf(size).value, junk);
      ghost var st1 := S();
      ViewKept(st, st1);
      LooseFacts(st1, loose + {mb}, mb);
      StringHeld(st1, loose + {mb}, mb, size, 0);
      assert loose + {mb} - {mb} == loose;
      id := PushString(mb, size, 0);
      ghost var st2 := S();
      StringFacts(st2, loose, id);
      StringNull(st2, loose, id);
      Memcpy(mb, 0, [0]);
    }

    /** A reference and a MemSlice outside Lua. */
    method PushString(mb: nat, until: nat, length: nat) returns (id: nat)
      requires mb in heap
      modifies this`heap, this`slices, this`strings, this`next
      ensures id == old(next) && S() == HoldString(old(S()), mb, until, length)
    {
      id := PushBuffer(Slice(mb, 0, until, {next}));
      strings := strings[id := length];
    }

    /** lev_memslice_ensure_empty_length and lev_memslice_resize: room for len bytes and a NUL. The
        string keeps its characters; it moves to a new block when its own is too small. */
    method EnsureRoom(i: nat, len: nat) returns (id: nat)
      requires Valid() && i in strings && len < MAX_REQUEST
      modifies this
      ensures Valid() && id in strings && id in slices && slices[id].until > len
      ensures i in old(View()) && strings == (old(strings) - {i})[id := old(strings[i])]
      ensures View() == (old(View()) - {i})[id := old(View())[i]]
      ensures id != i ==> id !in old(View())
    {
      hide Inv, Contents, Refs, NoString, ViewOf, Pooled, Splice, BlockOk;
      ghost var st, loose := S(), Loose();
      StringFacts(st, loose, i);
      ViewKeys(st);
      var s := slices[i];
      if len <= s.until - 1 {
        assert strings == (strings - {i})[i := strings[i]];
        assert ViewOf(st) == (ViewOf(st) - {i})[i := ViewOf(st)[i]];
        return i;
      }
      var size := len + 1;
      if s.off + s.until == heap[s.mb].nbytes && size <= s.until + (heap[s.mb].size - heap[s.mb].nbytes) {
        GrowString(i, size);
        id := i;
      } else {
        id := MoveString(i, size);
      }
    }

    /** The string takes the free bytes right behind it. */
    method GrowString(i: nat, size: nat)
      requires Valid() && i in strings && i in slices && slices[i].mb in heap && slices[i].until < size
      requires slices[i].off + slices[i].until == heap[slices[i].mb].nbytes
      requires size <= slices[i].until + (heap[slices[i].mb].size - heap[slices[i].mb].nbytes)
      modifies this`heap, this`slices
      ensures Valid() && i in slices && slices[i].until == size
      ensures i in old(View()) && strings == (old(strings) - {i})[i := old(strings[i])]
      ensures View() == (old(View()) - {i})[i := old(View())[i]]
    {
      hide Inv, Contents, Refs, NoString, ViewOf, Pooled, Splice, BlockOk;
      ghost var st, loose := S(), Loose();
      StringFacts(st, loose, i);
      ViewKeys(st);
      var s := slices[i];
      SetStringKeeps(st, loose, i, size, strings[i], heap[s.mb].nbytes + size);
      if reading.Some? { LooseFacts(st, loose, reading.value); }
      heap := heap[s.mb := heap[s.mb].(nbytes := heap[s.mb].nbytes + size)];
      slices := slices[i := s.(until := size)];
      assert S() == SetString(st, i, size, strings[i], st.heap[s.mb].nbytes + size);
      ViewSet(st, S(), i, ViewOf(st)[i]);
      assert strings == (old(strings) - {i})[i := strings[i]];
      assert ViewOf(S()) == (ViewOf(st) - {i})[i := ViewOf(st)[i]];
    }

    /** The old block is released once, after the bytes are in the new one. */
    method MoveString(i: nat, size: nat) returns (id: nat)
      requires Valid() && i in strings && i in slices && slices[i].until <= size <= MAX_REQUEST
      modifies this
      ensures Valid() && id in strings && id in slices && slices[id].until == size
      ensures i in old(View()) && strings == (old(strings) - {i})[id := old(strings[i])]
      ensures View() == (old(View()) - {i})[id := old(View())[i]] && id !in old(View())
    {
      hide Inv, Contents, Refs, NoString, ViewOf, Pooled, Splice, BlockOk, Release, Drop;
      ghost var st, loose := S(), Loose();
      StringFacts(st, loose, i);
      ViewKeys(st);
      var bytes := Bytes(i);
      assert bytes[..strings[i]] == ViewOf(st)[i];
      id := NewHome(i, size);
      CopyHome(id, bytes);
      assert View() == ViewOf(st)[id := ViewOf(st)[i]];
      BufferGc(i);
      assert (ViewOf(st)[id := ViewOf(st)[i]]) - {i} == (ViewOf(st) - {i})[id := ViewOf(st)[i]];
    }

    /** The bytes of the old block, and the size of the new one. */
    method CopyHome(id: nat, bytes: seq<byte>)
      requires Valid() && id in strings && id in slices && strings[id] <= |bytes| <= slices[id].until
      modifies this`heap
      ensures Valid() && View() == old(View())[id := bytes[..strings[id]]]
    {
      hide Inv, Contents, Refs, NoString, ViewOf, Pooled, Splice, BlockOk;
      StringFacts(S(), Loose(), id);
      StringCopied(S(), Loose(), id, bytes);
      if reading.Some? { LooseFacts(S(), Loose(), reading.value); }
      var mb, size := slices[id].mb, slices[id].until;
      Memcpy(mb, 0, bytes);
      ghost var st := S();
      StringFacts(st, Loose(), id);
      SetStringKeeps(st, Loose(), id, size, strings[id], heap[mb].nbytes + size);
      heap := heap[mb := heap[mb].(nbytes := heap[mb].nbytes + size)];
      assert S() == SetString(st, id, size, strings[id], st.heap[mb].nbytes + size);
      StringFacts(S(), Loose(), id);
      ViewSet(st, S(), id, ViewOf(st)[id]);
    }

    /** A new block for a string, held as a string of the same length. */
    method NewHome(i: nat, size: nat) returns (id: nat)
      requires Valid() && i in strings && i in slices && slices[i].until <= size <= MAX_REQUEST
      modifies this
      ensures Valid() && id !in old(View()) && strings == old(strings)[id := old(strings[i])]
      ensures slices == old(slices)[id := slices[id]] && slices[id].until == size
      ensures id in View() && View() == old(View())[id := View()[id]]
      ensures reading == old(reading)
    {
      hide Inv, Contents, Refs, NoString, ViewOf, Pooled, Splice;
      ghost var st, loose := S(), Loose();
      StringFacts(st, loose, i);
      if reading.Some? { LooseFacts(st, loose, reading.value); }
      PoolFacts(st, loose);
      ViewKeys(st);
      ghost var junk: seq<byte>;
      var block: Option<nat>;
      block, junk := GetBlock(size);
      var mb := block.value;
      TakeKeeps(st, loose, ClassOf(size).value, junk);
      ghost var st1 := S();
      ViewKept(st, st1);
      LooseFacts(st1, loose + {mb}, mb);
      StringHeld(st1, loose + {mb}, mb, size, strings[i]);
      assert loose + {mb} - {mb} == loose;
      id := PushString(mb, size, strings[i]);
    }

    /** strbuf_append_mem: characters are added at the end, wherever the string has to move. */
    method StringAppend(i: nat, data: seq<byte>) returns (id: nat)
      requires Valid() && i in strings && strings[i] + |data| < MAX_REQUEST
      modifies this
      ensures Valid() && i in old(View()) && (id == i || id !in old(View()))
      ensures View() == (old(View()) - {i})[id := old(View())[i] + data]
      ensures strings == (old(strings) - {i})[id := old(strings[i]) + |data|]
    {
      hide Inv, Contents, Refs, NoString, ViewOf, Pooled, Splice, BlockOk;
      ghost var was := S();
      var at := strings[i];
      id := EnsureRoom(i, at + |data|);
      ghost var st := S();
      StringFacts(st, Loose(), id);
      AppendKeeps(st, Loose(), id, data);
      if reading.Some? { LooseFacts(st, Loose(), reading.value); }
      Memcpy(slices[id].mb, at, data);
      strings := strings[id := at + |data|];
      assert (ViewOf(was) - {i})[id := ViewOf(was)[i]][id := ViewOf(was)[i] + data]
          == (ViewOf(was) - {i})[id := ViewOf(was)[i] + data];
    }

    /** Any run of appends: the string is the appended pieces in order, and nothing else changes. */
    method StringAppendAll(i: nat, pieces: seq<seq<byte>>) returns (id: nat)
      requires Valid() && i in strings && strings[i] + |Flatten(pieces)| < MAX_REQUEST
      modifies this
      ensures Valid() && i in old(View()) && id in strings
      ensures id in View() && View()[id] == old(View())[i] + Flatten(pieces)
      ensures View() - {id} == old(View()) - {i}
    {
      hide Inv, ViewOf;
      StringFacts(S(), Loose(), i);
      id := i;
      assert old(View())[i] + Flatten(pieces[..0]) == old(View())[i];
      for k := 0 to |pieces|
        invariant Valid() && id in strings && strings[id] == old(strings[i]) + |Flatten(pieces[..k])|
        invariant id in View() && View()[id] == old(View())[i] + Flatten(pieces[..k])
        invariant View() - {id} == old(View()) - {i}
      {
        JoinedMore(pieces, k);
        ghost var before, j := View(), id;
        id := StringAppend(id, pieces[k]);
        assert View() - {id} == before - {j};
      }
      assert pieces[..|pieces|] == pieces;
    }
  }

  lemma {:induction false} JoinedMore(pieces: seq<seq<byte>>, k: nat)
    requires k < |pieces|
    ensures Flatten(pieces[..k + 1]) == Flatten(pieces[..k]) + pieces[k]
    ensures |Flatten(pieces[..k + 1])| <= |Flatten(pieces)|
    decreases |pieces|
  {
    assert pieces[..k + 1] == pieces[..k] + [pieces[k]];
    FlattenMore(pieces[..k], pieces[k]);
    var last := |pieces| - 1;
    assert pieces == pieces[..last] + [pieces[last]];
    FlattenMore(pieces[..last], pieces[last]);
    if k < last {
      assert pieces[..last][..k + 1] == pieces[..k + 1];
      JoinedMore(pieces[..last], k);
    } else {
      assert pieces[..k + 1] == pieces;
    }
  }
}
