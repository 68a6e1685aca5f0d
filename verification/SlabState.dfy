/** Memory blocks, pools and buffer slices as values: the steps on them and what they keep. */
module SlabState {
  import opened ByteSeq

  const CLASSES: nat := 5
  const CLASS_SIZE: seq<nat> := [1024, 8 * 1024, 16 * 1024, 64 * 1024, 1024 * 1024]
  /** MIN(min_number, SLAB_MAXFREELIST) for each class. */
  const POOL_MIN: seq<nat> := [1024, 512, 8, 8, 0]
  const MAX_REQUEST: nat := 1024 * 1024

  /** The smallest class that holds `size` bytes; there is none exactly above 1 MiB. */
  function ClassOf(size: nat): (c: Option<nat>)
    ensures c.Some? <==> size <= MAX_REQUEST
    ensures c.Some? ==> c.value < CLASSES && size <= CLASS_SIZE[c.value]
    ensures c.Some? ==> forall d :: 0 <= d < c.value ==> CLASS_SIZE[d] < size
  {
    if size <= 1024 then Some(0)
    else if size <= 8 * 1024 then Some(1)
    else if size <= 16 * 1024 then Some(2)
    else if size <= 64 * 1024 then Some(3)
    else if size <= 1024 * 1024 then Some(4)
    else None
  }

  /** A MemBlock; `bytes` is what malloc gave, and `cls` names its allocator. */
  datatype Block = Block(cls: nat, refcount: int, size: nat, nbytes: nat, bytes: seq<byte>)

  /** A MemSlice: `until` bytes of block `mb` from offset `off`. `groups` is bookkeeping of the
      proof: the allocations whose bytes the slice may share. */
  datatype Slice = Slice(mb: nat, off: nat, until: nat, groups: set<nat>)

  /** Blocks allocated and not freed; the pools; the slices held by Lua or by the JSON module, and
      for the latter (private string buffers) the length of the string; the bump block of
      lev_new_buffer.c; the block lev_new_base.c reads into. `next` is above all names in use. */
  datatype State = State(
    heap: map<nat, Block>,
    pools: seq<seq<nat>>,
    slices: map<nat, Slice>,
    strings: map<nat, nat>,
    bump: Option<nat>,
    reading: Option<nat>,
    next: nat)

  predicate Pooled(pools: seq<seq<nat>>, b: nat) { exists c :: 0 <= c < |pools| && b in pools[c] }

  ghost function SliceRefs(slices: map<nat, Slice>, b: nat): set<nat> {
    set i | i in slices && slices[i].mb == b
  }

  ghost function Refs(st: State, b: nat): nat {
    |SliceRefs(st.slices, b)| + (if st.bump == Some(b) then 1 else 0)
  }

  ghost predicate Unshared(st: State, i: nat)
    requires i in st.slices
  {
    && st.bump != Some(st.slices[i].mb)
    && forall j :: j in st.slices && st.slices[j].mb == st.slices[i].mb ==> j == i
  }

  predicate Apart(s: Slice, t: Slice) {
    s.mb != t.mb || s.off + s.until <= t.off || t.off + t.until <= s.off
  }

  // ---------------------------------------------------------------- the invariant

  /** Pools hold distinct allocated blocks of their own class's size, and no more than pool_min. */
  ghost predicate PoolsOk(heap: map<nat, Block>, pools: seq<seq<nat>>) {
    && |pools| == CLASSES
    && (forall c :: 0 <= c < CLASSES ==> |pools[c]| <= POOL_MIN[c])
    && (forall c, i :: 0 <= c < CLASSES && 0 <= i < |pools[c]| ==>
          pools[c][i] in heap && |heap[pools[c][i]].bytes| == CLASS_SIZE[c])
    && (forall c, i, d, j | 0 <= c < CLASSES && 0 <= i < |pools[c]| && 0 <= d < CLASSES && 0 <= j < |pools[d]| ::
          pools[c][i] == pools[d][j] ==> c == d && i == j)
  }

  ghost predicate BlockOk(k: Block) {
    k.cls < CLASSES && k.size == CLASS_SIZE[k.cls] == |k.bytes|
  }

  /** A slice lies in its block, below nbytes where the block counts its bytes; a private string
      has its block to itself. */
  ghost predicate SliceOk(st: State, i: nat)
    requires i in st.slices
  {
    var s := st.slices[i];
    && i < st.next && s.mb in st.heap && s.until > 0 && s.off + s.until <= st.heap[s.mb].size
    && (forall g :: g in s.groups ==> g < st.next)
    && if i in st.strings then s.off == 0 && st.strings[i] < s.until && Unshared(st, i)
       else st.heap[s.mb].nbytes == 0 || s.off + s.until <= st.heap[s.mb].nbytes <= st.heap[s.mb].size
  }

  /** An allocated block is pooled, or loose (taken from the allocator and not referred to yet), or
      held by as many slices and bump pointers as its refcount says. */
  ghost predicate CountOk(st: State, loose: set<nat>, b: nat)
    requires b in st.heap
  {
    && b < st.next
    && if Pooled(st.pools, b) then b !in loose && Refs(st, b) == 0
       else BlockOk(st.heap[b]) && st.heap[b].refcount == Refs(st, b) && (b in loose <==> Refs(st, b) == 0)
  }

  ghost predicate BumpOk(st: State) {
    st.bump.Some? ==>
      var b := st.bump.value;
      b in st.heap && !Pooled(st.pools, b) && 0 < st.heap[b].nbytes <= st.heap[b].size
  }

  ghost predicate GroupsOk(st: State) {
    forall i, j :: i in st.slices && j in st.slices && st.slices[i].groups !! st.slices[j].groups ==>
      Apart(st.slices[i], st.slices[j])
  }

  ghost predicate Inv(st: State, loose: set<nat>) {
    && PoolsOk(st.heap, st.pools) && loose <= st.heap.Keys
    && (forall b :: b in st.heap ==> CountOk(st, loose, b))
    && BumpOk(st) && st.strings.Keys <= st.slices.Keys
    && (forall i :: i in st.slices ==> SliceOk(st, i))
    && GroupsOk(st)
  }

  // ---------------------------------------------------------------- steps

  /** lev_slab_getBlock: the block last put on the pool of its class, or a new one from malloc
      (whose bytes are `junk`). */
  function Take(st: State, c: nat, junk: seq<byte>): (r: (State, nat))
    requires c < CLASSES == |st.pools| && (st.pools[c] != [] ==> st.pools[c][|st.pools[c]| - 1] in st.heap)
  {
    var pool := st.pools[c];
    if pool != [] then
      var b := pool[|pool| - 1];
      (st.(heap := st.heap[b := Block(c, 0, CLASS_SIZE[c], 0, st.heap[b].bytes)],
           pools := st.pools[c := pool[..|pool| - 1]]), b)
    else
      (st.(heap := st.heap[st.next := Block(c, 0, CLASS_SIZE[c], 0, junk)], next := st.next + 1), st.next)
  }

  /** lev_slab_decRefCount: the last reference puts the block on its pool, or frees it when the pool
      has enough. */
  function Release(st: State, b: nat): State
    requires b in st.heap && st.heap[b].cls < CLASSES == |st.pools|
  {
    var k := st.heap[b].(refcount := st.heap[b].refcount - 1);
    if k.refcount != 0 then st.(heap := st.heap[b := k])
    else if |st.pools[k.cls]| < POOL_MIN[k.cls] then
      st.(heap := st.heap[b := k], pools := st.pools[k.cls := st.pools[k.cls] + [b]])
    else st.(heap := st.heap - {b})
  }

  function Acquire(st: State, b: nat): State
    requires b in st.heap
  {
    st.(heap := st.heap[b := st.heap[b].(refcount := st.heap[b].refcount + 1)])
  }

  /** A new slice: the reference and the MemSlice. */
  function Hold(st: State, s: Slice): State
    requires s.mb in st.heap
  {
    Acquire(st, s.mb).(slices := st.slices[st.next := s], next := st.next + 1)
  }

  /** A slice is collected. */
  function Drop(st: State, i: nat): State
    requires i in st.slices && st.slices[i].mb in st.heap && st.heap[st.slices[i].mb].cls < CLASSES == |st.pools|
  {
    Release(st.(slices := st.slices - {i}, strings := st.strings - {i}), st.slices[i].mb)
  }

  function SetBump(st: State, b: nat): State
    requires b in st.heap
  {
    Acquire(st, b).(bump := Some(b))
  }

  function ClearBump(st: State): State
    requires st.bump.Some? && st.bump.value in st.heap && st.heap[st.bump.value].cls < CLASSES == |st.pools|
  {
    Release(st.(bump := None), st.bump.value)
  }

  function Grow(st: State, b: nat, n: nat): State
    requires b in st.heap
  {
    st.(heap := st.heap[b := st.heap[b].(nbytes := st.heap[b].nbytes + n)])
  }

  function Splice(s: seq<byte>, at: nat, data: seq<byte>): (r: seq<byte>)
    requires at + |data| <= |s|
    ensures |r| == |s| && r[at..at + |data|] == data
    ensures forall i :: 0 <= i < |s| && !(at <= i < at + |data|) ==> r[i] == s[i]
  {
    s[..at] + data + s[at + |data|..]
  }

  function Write(st: State, b: nat, at: nat, data: seq<byte>): State
    requires b in st.heap && at + |data| <= |st.heap[b].bytes|
  {
    st.(heap := st.heap[b := st.heap[b].(bytes := Splice(st.heap[b].bytes, at, data))])
  }

  /** What a slice holds; of a private string, the characters so far. */
  ghost function Contents(st: State, i: nat): seq<byte>
    requires i in st.slices
  {
    var s := st.slices[i];
    if s.mb in st.heap then Range(st.heap[s.mb], s.off, if i in st.strings then st.strings[i] else s.until) else []
  }

  function Range(k: Block, at: nat, n: nat): seq<byte> {
    if at + n <= |k.bytes| then k.bytes[at..at + n] else []
  }

  // ---------------------------------------------------------------- what the steps keep

  lemma RangeWithin(k: Block, at: nat, n: nat, off: nat, len: nat)
    requires off + len <= n && at + n <= |k.bytes|
    ensures Range(k, at + off, len) == Range(k, at, n)[off..off + len]
  {
  }

  lemma HeldBlock(st: State, loose: set<nat>, i: nat)
    requires Inv(st, loose) && i in st.slices
    ensures var b := st.slices[i].mb;
      && b in st.heap && !Pooled(st.pools, b) && BlockOk(st.heap[b]) && b !in loose && st.heap[b].refcount > 0
      && SliceOk(st, i)
  {
    var b := st.slices[i].mb;
    assert SliceOk(st, i);
    assert i in SliceRefs(st.slices, b);
    assert CountOk(st, loose, b);
  }

  lemma NoRefs(st: State, loose: set<nat>, b: nat)
    requires Inv(st, loose) && b !in st.heap
    ensures Refs(st, b) == 0
  {
    if i :| i in SliceRefs(st.slices, b) { HeldBlock(st, loose, i); }
    assert SliceRefs(st.slices, b) == {};
  }

  ghost predicate SameData(k: Block, k1: Block) { k1 == k.(refcount := k1.refcount) }

  /** The slices that remain, while their blocks keep everything but their count, remain as they are. */
  lemma Survive(st: State, st1: State, loose: set<nat>)
    requires Inv(st, loose) && st.next <= st1.next && st1.bump in {None, st.bump}
    requires forall j :: j in st1.slices ==> j in st.slices && st1.slices[j] == st.slices[j]
    requires forall j :: j in st1.strings <==> j in st1.slices && j in st.strings
    requires forall j :: j in st1.strings ==> st1.strings[j] == st.strings[j]
    requires forall j :: j in st1.slices ==>
      st.slices[j].mb in st1.heap && st.slices[j].mb in st.heap
        && SameData(st.heap[st.slices[j].mb], st1.heap[st.slices[j].mb])
    ensures forall j :: j in st1.slices ==> SliceOk(st1, j) && Contents(st1, j) == Contents(st, j)
    ensures GroupsOk(st1) && st1.strings.Keys <= st1.slices.Keys
  {
    hide SliceOk, Contents, Refs, PoolsOk;
    forall j | j in st1.slices ensures SliceOk(st1, j) && Contents(st1, j) == Contents(st, j) {
      SurviveOne(st, st1, j);
    }
  }

  lemma SurviveOne(st: State, st1: State, j: nat)
    requires st.next <= st1.next && st1.bump in {None, st.bump} && j in st1.slices
    requires forall j :: j in st1.slices ==> j in st.slices && st1.slices[j] == st.slices[j]
    requires j in st1.strings <==> j in st.strings
    requires j in st1.strings ==> st1.strings[j] == st.strings[j]
    requires var b := st.slices[j].mb; b in st1.heap && b in st.heap && SameData(st.heap[b], st1.heap[b])
    requires SliceOk(st, j)
    ensures SliceOk(st1, j) && Contents(st1, j) == Contents(st, j)
  {
  }

  lemma TakeKeeps(st: State, loose: set<nat>, c: nat, junk: seq<byte>)
    requires Inv(st, loose) && c < CLASSES && |junk| == CLASS_SIZE[c]
    ensures var (st1, b) := Take(st, c, junk);
      && Inv(st1, loose + {b}) && b !in loose
      && st1.heap[b].nbytes == 0 && st1.heap[b].size == CLASS_SIZE[c]
      && forall i :: i in st.slices ==> st.slices[i].mb != b && Contents(st1, i) == Contents(st, i)
  {
    hide Refs, SliceOk, Contents;
    var (st1, b) := Take(st, c, junk);
    var pool := st.pools[c];
    if pool != [] {
      assert b in pool && Pooled(st.pools, b) && CountOk(st, loose, b);
    } else {
      NoRefs(st, loose, b);
    }
    TakePools(st, c, junk);
    forall j | j in st.slices
      ensures st.slices[j].mb in st.heap && st.slices[j].mb in st1.heap
      ensures st1.heap[st.slices[j].mb] == st.heap[st.slices[j].mb]
    {
      HeldBlock(st, loose, j);
    }
    Survive(st, st1, loose);
    forall x ensures Refs(st1, x) == Refs(st, x) { SameRefs(st, st1, x); }
    forall x | x in st1.heap ensures CountOk(st1, loose + {b}, x) {
      if x != b { assert CountOk(st, loose, x); }
    }
    forall i | i in st.slices ensures st.slices[i].mb != b { HeldBlock(st, loose, i); }
  }

  lemma TakePools(st: State, c: nat, junk: seq<byte>)
    requires PoolsOk(st.heap, st.pools) && c < CLASSES && |junk| == CLASS_SIZE[c] && st.next !in st.heap
    ensures var (st1, b) := Take(st, c, junk);
      && PoolsOk(st1.heap, st1.pools)
      && forall x :: Pooled(st1.pools, x) <==> Pooled(st.pools, x) && x != b
  {
    var (st1, b) := Take(st, c, junk);
    if st.pools[c] != [] { PopPool(st.heap, st.pools, c); }
  }

  lemma PopPool(heap: map<nat, Block>, pools: seq<seq<nat>>, c: nat)
    requires PoolsOk(heap, pools) && c < CLASSES && pools[c] != []
    ensures var b := pools[c][|pools[c]| - 1];
      var pools1 := pools[c := pools[c][..|pools[c]| - 1]];
      && PoolsOk(heap, pools1)
      && forall x :: Pooled(pools1, x) <==> Pooled(pools, x) && x != b
  {
    var n := |pools[c]| - 1;
    var b := pools[c][n];
    var pools1 := pools[c := pools[c][..n]];
    assert pools[c] == pools[c][..n] + [b];
    PopDistinct(heap, pools, c);
    forall x ensures Pooled(pools1, x) <==> Pooled(pools, x) && x != b {
      if Pooled(pools, x) && x != b {
        var d :| 0 <= d < CLASSES && x in pools[d];
        assert x in pools1[d];
      }
      if Pooled(pools1, x) {
        var d :| 0 <= d < CLASSES && x in pools1[d];
        assert x in pools[d];
      }
    }
  }

  lemma PopDistinct(heap: map<nat, Block>, pools: seq<seq<nat>>, c: nat)
    requires PoolsOk(heap, pools) && c < CLASSES && pools[c] != []
    ensures var n := |pools[c]| - 1;
      var pools1 := pools[c := pools[c][..n]];
      PoolsOk(heap, pools1) && forall d :: 0 <= d < CLASSES ==> pools[c][n] !in pools1[d]
  {
    var n := |pools[c]| - 1;
    var pools1 := pools[c := pools[c][..n]];
    forall d, i | 0 <= d < CLASSES && 0 <= i < |pools1[d]| ensures pools1[d][i] == pools[d][i] {}
  }

  lemma PushPool(heap: map<nat, Block>, pools: seq<seq<nat>>, c: nat, b: nat)
    requires PoolsOk(heap, pools) && c < CLASSES && |pools[c]| < POOL_MIN[c]
    requires !Pooled(pools, b) && b in heap && |heap[b].bytes| == CLASS_SIZE[c]
    ensures var pools1 := pools[c := pools[c] + [b]];
      && PoolsOk(heap, pools1)
      && forall x :: Pooled(pools1, x) <==> Pooled(pools, x) || x == b
  {
    var pools1 := pools[c := pools[c] + [b]];
    forall x ensures Pooled(pools1, x) <==> Pooled(pools, x) || x == b {
      if Pooled(pools, x) {
        var d :| 0 <= d < CLASSES && x in pools[d];
        assert x in pools1[d];
      }
      if x == b { assert x in pools1[c]; }
    }
    forall d, j | 0 <= d < CLASSES && 0 <= j < |pools[d]| ensures pools[d][j] != b {
      assert pools[d][j] in pools[d];
    }
  }

  /** Everything is in order but for one reference to b that has gone and is still counted. */
  ghost predicate OwesOne(st: State, b: nat, loose: set<nat>) {
    && PoolsOk(st.heap, st.pools) && loose <= st.heap.Keys
    && b in st.heap && b < st.next && !Pooled(st.pools, b) && b !in loose
    && BlockOk(st.heap[b]) && st.heap[b].refcount == Refs(st, b) + 1
    && forall x :: x in st.heap && x != b ==> CountOk(st, loose, x)
  }

  lemma OwesOneAfter(was: State, st: State, b: nat, loose: set<nat>)
    requires Inv(was, loose) && b in was.heap && !Pooled(was.pools, b) && b !in loose
    requires st.heap == was.heap && st.pools == was.pools && st.next == was.next
    requires forall x :: Refs(st, x) == Refs(was, x) - (if x == b then 1 else 0)
    ensures OwesOne(st, b, loose) && st.heap[b].cls < CLASSES
  {
    hide Refs;
    assert CountOk(was, loose, b);
    forall x | x in st.heap && x != b ensures CountOk(st, loose, x) { assert CountOk(was, loose, x); }
  }

  /** The last reference gives the block back: where its pool has room it is the next that is taken from there,
      as it was when new but for its bytes, and otherwise it is freed. */
  lemma LastReleaseRecycles(st: State, b: nat, junk: seq<byte>)
    requires b in st.heap && st.heap[b].cls < CLASSES == |st.pools| && st.heap[b].refcount == 1
    ensures var k, st1 := st.heap[b], Release(st, b);
      if |st.pools[k.cls]| < [1024, 512, 8, 8, 0][k.cls] then
        Take(st1, k.cls, junk) == (st.(heap := st.heap[b := Block(k.cls, 0, CLASS_SIZE[k.cls], 0, k.bytes)]), b)
      else st1 == st.(heap := st.heap - {b})
  {
    var k := st.heap[b];
    var pool := st.pools[k.cls];
    assert (pool + [b])[..|pool|] == pool;
    assert st.pools[k.cls := pool + [b]][k.cls := pool] == st.pools;
    var again := Block(k.cls, 0, CLASS_SIZE[k.cls], 0, k.bytes);
    assert st.heap[b := k.(refcount := 0)][b := again] == st.heap[b := again];
  }

  /** Releasing makes the counts right again, and leaves every block that has a reference in place. */
  lemma ReleaseKeeps(st: State, b: nat, loose: set<nat>)
    requires OwesOne(st, b, loose)
    ensures var st1 := Release(st, b);
      && PoolsOk(st1.heap, st1.pools) && loose <= st1.heap.Keys
      && (forall x :: x in st1.heap ==> CountOk(st1, loose, x))
      && (forall x :: Refs(st1, x) == Refs(st, x))
      && (forall x :: x in st.heap && !Pooled(st.pools, x) && Refs(st, x) > 0 ==>
            x in st1.heap && !Pooled(st1.pools, x) && st1.heap[x] == st.heap[x].(refcount := Refs(st, x)))
  {
    hide Refs, CountOk;
    var st1 := Release(st, b);
    forall x ensures Refs(st1, x) == Refs(st, x) { SameRefs(st, st1, x); }
    ReleasePools(st, b, loose);
    forall x | x in st.heap ensures x in st1.heap ==> CountOk(st1, loose, x) {
      ReleaseCount(st, b, loose, x);
    }
    forall x | x in st.heap && !Pooled(st.pools, x) && Refs(st, x) > 0
      ensures x in st1.heap && !Pooled(st1.pools, x) && st1.heap[x] == st.heap[x].(refcount := Refs(st, x))
    {
      ReleaseCount(st, b, loose, x);
    }
  }

  lemma ReleasePools(st: State, b: nat, loose: set<nat>)
    requires OwesOne(st, b, loose)
    ensures var st1 := Release(st, b); PoolsOk(st1.heap, st1.pools) && loose <= st1.heap.Keys
  {
    hide Refs, CountOk;
    var st1 := Release(st, b);
    var c := st.heap[b].cls;
    if Refs(st, b) == 0 && |st.pools[c]| < POOL_MIN[c] { PushPool(st1.heap, st.pools, c, b); }
    if b !in st1.heap {
      forall d, j | 0 <= d < CLASSES && 0 <= j < |st.pools[d]| ensures st.pools[d][j] != b {
        assert st.pools[d][j] in st.pools[d];
      }
    }
  }

  lemma ReleaseCount(st: State, b: nat, loose: set<nat>, x: nat)
    requires OwesOne(st, b, loose) && x in st.heap
    ensures var st1 := Release(st, b);
      && (x in st1.heap ==> CountOk(st1, loose, x))
      && (!Pooled(st.pools, x) && Refs(st, x) > 0 ==>
            x in st1.heap && !Pooled(st1.pools, x) && st1.heap[x] == st.heap[x].(refcount := Refs(st, x)))
  {
    hide Refs;
    var st1, c := Release(st, b), st.heap[b].cls;
    SameRefs(st, st1, x);
    if Refs(st, b) == 0 && |st.pools[c]| < POOL_MIN[c] { PushPool(st1.heap, st.pools, c, b); }
    if x != b { assert CountOk(st, loose, x); }
  }

  lemma SameRefs(st: State, st1: State, b: nat)
    requires st.slices == st1.slices && st.bump == st1.bump
    ensures Refs(st, b) == Refs(st1, b)
  {
  }

  lemma DropKeeps(st: State, loose: set<nat>, i: nat)
    requires Inv(st, loose) && i in st.slices
    ensures st.slices[i].mb in st.heap && st.heap[st.slices[i].mb].cls < CLASSES
    ensures var st1 := Drop(st, i);
      && Inv(st1, loose) && st1.slices == st.slices - {i}
      && forall j :: j in st1.slices ==> Contents(st1, j) == Contents(st, j)
  {
    hide Release, SliceOk, Contents;
    var b := st.slices[i].mb;
    HeldBlock(st, loose, i);
    var mid := st.(slices := st.slices - {i}, strings := st.strings - {i});
    forall x ensures Refs(mid, x) == Refs(st, x) - (if x == b then 1 else 0) {
      assert SliceRefs(mid.slices, x) == SliceRefs(st.slices, x) - {i};
    }
    OwesOneAfter(st, mid, b, loose);
    ReleaseKeeps(mid, b, loose);
    ReleaseFrame(mid, b);
    HeldRemain(st, mid, Release(mid, b), loose);
    Survive(st, Release(mid, b), loose);
    if st.bump.Some? { assert CountOk(st, loose, st.bump.value) && Refs(mid, st.bump.value) > 0; }
  }

  lemma ReleaseFrame(st: State, b: nat)
    requires b in st.heap && st.heap[b].cls < CLASSES == |st.pools|
    ensures var st1 := Release(st, b);
      st1.slices == st.slices && st1.strings == st.strings && st1.bump == st.bump && st1.next == st.next &&
      st1.reading == st.reading
  {
  }

  lemma ClearBumpKeeps(st: State, loose: set<nat>)
    requires Inv(st, loose) && st.bump.Some?
    ensures st.heap[st.bump.value].cls < CLASSES
    ensures var st1 := ClearBump(st);
      && Inv(st1, loose) && st1.bump == None
      && forall j :: j in st.slices ==> Contents(st1, j) == Contents(st, j)
  {
    hide Release, SliceOk, Contents;
    var b := st.bump.value;
    var mid := st.(bump := None);
    assert CountOk(st, loose, b);
    OwesOneAfter(st, mid, b, loose);
    ReleaseKeeps(mid, b, loose);
    ReleaseFrame(mid, b);
    HeldRemain(st, mid, Release(mid, b), loose);
    Survive(st, Release(mid, b), loose);
  }

  lemma HeldRemain(st: State, mid: State, st1: State, loose: set<nat>)
    requires Inv(st, loose) && mid.heap == st.heap && mid.pools == st.pools && st1.slices == mid.slices
    requires forall j :: j in mid.slices ==> j in st.slices && mid.slices[j] == st.slices[j]
    requires forall x :: x in mid.heap && !Pooled(mid.pools, x) && Refs(mid, x) > 0 ==>
      x in st1.heap && st1.heap[x] == mid.heap[x].(refcount := Refs(mid, x))
    ensures forall j :: j in st1.slices ==>
      st.slices[j].mb in st1.heap && st.slices[j].mb in st.heap
        && SameData(st.heap[st.slices[j].mb], st1.heap[st.slices[j].mb])
  {
    forall j | j in st1.slices
      ensures st.slices[j].mb in st1.heap && st.slices[j].mb in st.heap
      ensures SameData(st.heap[st.slices[j].mb], st1.heap[st.slices[j].mb])
    {
      HeldBlock(st, loose, j);
      assert j in SliceRefs(mid.slices, st.slices[j].mb);
    }
  }

  /** Everything but the count of one block, and what was added, is as before. */
  lemma AcquireCounts(st: State, st1: State, b: nat, loose: set<nat>)
    requires Inv(st, loose) && b in st.heap && !Pooled(st.pools, b)
    requires st1.heap == st.heap[b := st.heap[b].(refcount := st.heap[b].refcount + 1)]
    requires st1.pools == st.pools && st.next <= st1.next
    requires forall x :: Refs(st1, x) == Refs(st, x) + (if x == b then 1 else 0)
    ensures PoolsOk(st1.heap, st1.pools) && loose - {b} <= st1.heap.Keys
    ensures forall x :: x in st1.heap ==> CountOk(st1, loose - {b}, x)
  {
    hide Refs;
    forall x | x in st1.heap ensures CountOk(st1, loose - {b}, x) { assert CountOk(st, loose, x); }
  }

  /** A place for a new slice: within its block, below nbytes if the block counts them, and apart
      from every slice that it shares no allocation with. */
  ghost predicate Place(st: State, s: Slice) {
    && s.mb in st.heap && !Pooled(st.pools, s.mb) && s.until > 0 && s.off + s.until <= st.heap[s.mb].size
    && (st.heap[s.mb].nbytes == 0 || s.off + s.until <= st.heap[s.mb].nbytes <= st.heap[s.mb].size)
    && s.groups != {} && (forall g :: g in s.groups ==> g <= st.next)
    && (forall j :: j in st.slices && st.slices[j].groups !! s.groups ==> Apart(st.slices[j], s))
  }

  ghost predicate NoString(st: State, b: nat) {
    forall j :: j in st.strings && j in st.slices ==> st.slices[j].mb != b
  }

  /** A slice stays in order while its block only gains references and counted bytes. */
  lemma SliceKeeps(st: State, st1: State, j: nat)
    requires j in st.slices && SliceOk(st, j) && j in st1.slices && st1.slices[j] == st.slices[j]
    requires st.next <= st1.next && (j in st1.strings <==> j in st.strings)
    requires j in st.strings ==> st1.strings[j] == st.strings[j] && Unshared(st1, j)
    requires var b := st.slices[j].mb;
      && b in st1.heap && st1.heap[b].size == st.heap[b].size
      && (st1.heap[b].nbytes == st.heap[b].nbytes ||
          (j !in st.strings && 0 < st.heap[b].nbytes <= st1.heap[b].nbytes <= st.heap[b].size))
    ensures SliceOk(st1, j)
  {
  }

  lemma ContentsKeep(st: State, st1: State, j: nat)
    requires j in st.slices && j in st1.slices && st1.slices[j] == st.slices[j]
    requires (j in st1.strings <==> j in st.strings) && (j in st.strings ==> st1.strings[j] == st.strings[j])
    requires var b := st.slices[j].mb; b in st.heap && b in st1.heap && st1.heap[b].bytes == st.heap[b].bytes
    ensures Contents(st1, j) == Contents(st, j)
  {
  }

  /** The same, with nothing changed in the block but what lies outside the slice. */
  lemma ContentsApart(st: State, st1: State, j: nat, at: nat, n: nat)
    requires j in st.slices && SliceOk(st, j) && j in st1.slices && st1.slices[j] == st.slices[j]
    requires st1.strings == st.strings
    requires var b := st.slices[j].mb;
      && b in st1.heap && |st1.heap[b].bytes| == |st.heap[b].bytes|
      && Apart(st.slices[j], Slice(b, at, n, {}))
      && forall k :: 0 <= k < |st.heap[b].bytes| && !(at <= k < at + n) ==> st1.heap[b].bytes[k] == st.heap[b].bytes[k]
    ensures Contents(st1, j) == Contents(st, j)
  {
  }

  lemma OneMoreRef(st: State, st1: State, n: nat, s: Slice)
    requires n !in st.slices && st1.slices == st.slices[n := s] && st1.bump == st.bump
    ensures forall x :: Refs(st1, x) == Refs(st, x) + (if x == s.mb then 1 else 0)
  {
    forall x ensures Refs(st1, x) == Refs(st, x) + (if x == s.mb then 1 else 0) {
      var before, after := SliceRefs(st.slices, x), SliceRefs(st1.slices, x);
      if x == s.mb {
        assert n !in before && after == before + {n};
      } else {
        assert after == before;
      }
    }
  }

  lemma HoldKeeps(st: State, loose: set<nat>, s: Slice)
    requires Inv(st, loose) && Place(st, s) && NoString(st, s.mb)
    ensures var st1 := Hold(st, s);
      && Inv(st1, loose - {s.mb}) && st.next !in st.slices
      && forall j :: j in st.slices ==> Contents(st1, j) == Contents(st, j)
  {
    hide PoolsOk, SliceOk, Contents, Refs, CountOk, Unshared;
    var st1, n := Hold(st, s), st.next;
    if n in st.slices { NameBelow(st, n); }
    OneMoreRef(st, st1, n, s);
    AcquireCounts(st, st1, s.mb, loose);
    HoldSlices(st, st1, s, loose);
  }

  lemma HoldSlices(st: State, st1: State, s: Slice, loose: set<nat>)
    requires Inv(st, loose) && Place(st, s) && NoString(st, s.mb) && st1 == Hold(st, s) && st.next !in st.slices
    ensures BumpOk(st1) && GroupsOk(st1) && st1.strings.Keys <= st1.slices.Keys
    ensures forall i :: i in st1.slices ==> SliceOk(st1, i)
    ensures forall j :: j in st.slices ==> Contents(st1, j) == Contents(st, j)
  {
    hide Refs, PoolsOk, SliceOk, Contents;
    forall i | i in st.slices ensures SliceOk(st1, i) && Contents(st1, i) == Contents(st, i) {
      HeldBlock(st, loose, i);
      if i in st.strings { StillAlone(st, s, i); }
      SliceKeeps(st, st1, i);
      ContentsKeep(st, st1, i);
    }
    NewSliceOk(st, s);
    assert s.groups * s.groups == s.groups;
    forall i, j | i in st1.slices && j in st1.slices && st1.slices[i].groups !! st1.slices[j].groups
      ensures Apart(st1.slices[i], st1.slices[j])
    {
      if i in st.slices && j == st.next { assert st.slices[i].groups !! s.groups; }
      if j in st.slices && i == st.next { assert st.slices[j].groups !! s.groups; }
    }
  }

  lemma StillAlone(st: State, s: Slice, i: nat)
    requires i in st.slices && i in st.strings && SliceOk(st, i) && s.mb in st.heap && s.mb != st.slices[i].mb
    requires st.next !in st.slices
    ensures Unshared(Hold(st, s), i)
  {
  }

  lemma NewSliceOk(st: State, s: Slice)
    requires Place(st, s) && st.strings.Keys <= st.slices.Keys && st.next !in st.slices
    ensures SliceOk(Hold(st, s), st.next)
  {
  }

  lemma SetBumpKeeps(st: State, loose: set<nat>, b: nat)
    requires Inv(st, loose) && st.bump == None && b in st.heap && !Pooled(st.pools, b) && NoString(st, b)
    requires 0 < st.heap[b].nbytes <= st.heap[b].size
    ensures var st1 := SetBump(st, b);
      && Inv(st1, loose - {b}) && forall j :: j in st.slices ==> Contents(st1, j) == Contents(st, j)
  {
    hide PoolsOk, SliceOk, Contents, Unshared, Refs, CountOk, BlockOk;
    var st1 := SetBump(st, b);
    BumpRefs(st, b);
    AcquireCounts(st, st1, b, loose);
    forall i | i in st1.slices ensures SliceOk(st1, i) && Contents(st1, i) == Contents(st, i) {
      HeldBlock(st, loose, i);
      if i in st.strings { BumpUnshared(st, b, i); }
      SliceKeeps(st, st1, i);
      ContentsKeep(st, st1, i);
    }
  }

  lemma BumpRefs(st: State, b: nat)
    requires st.bump == None && b in st.heap
    ensures forall x :: Refs(SetBump(st, b), x) == Refs(st, x) + (if x == b then 1 else 0)
  {
  }

  lemma BumpUnshared(st: State, b: nat, i: nat)
    requires b in st.heap && i in st.slices && i in st.strings && SliceOk(st, i) && NoString(st, b)
    ensures Unshared(SetBump(st, b), i)
  {
  }

  lemma UnsharedOf(st: State, i: nat)
    requires i in st.slices && i in st.strings && SliceOk(st, i)
    ensures Unshared(st, i)
  {
  }

  lemma GrowKeeps(st: State, loose: set<nat>, b: nat, n: nat)
    requires Inv(st, loose) && b in st.heap && !Pooled(st.pools, b) && NoString(st, b)
    requires st.heap[b].nbytes + n <= st.heap[b].size && (st.heap[b].nbytes > 0 || Refs(st, b) == 0)
    ensures var st1 := Grow(st, b, n);
      && Inv(st1, loose) && forall j :: j in st.slices ==> Contents(st1, j) == Contents(st, j)
  {
    hide PoolsOk, SliceOk, Contents;
    var st1 := Grow(st, b, n);
    assert PoolsOk(st1.heap, st1.pools) by { PoolsKeep(st.heap, st1.heap, st.pools); }
    forall x | x in st1.heap ensures CountOk(st1, loose, x) { assert CountOk(st, loose, x); SameRefs(st, st1, x); }
    forall i | i in st1.slices ensures SliceOk(st1, i) && Contents(st1, i) == Contents(st, i) {
      HeldBlock(st, loose, i);
      assert i in SliceRefs(st.slices, st.slices[i].mb);
      if i in st.strings { UnsharedOf(st, i); }
      SliceKeeps(st, st1, i);
      ContentsKeep(st, st1, i);
    }
  }

  lemma PoolsKeep(heap: map<nat, Block>, heap1: map<nat, Block>, pools: seq<seq<nat>>)
    requires PoolsOk(heap, pools)
    requires forall b :: b in heap ==> b in heap1 && |heap1[b].bytes| == |heap[b].bytes|
    ensures PoolsOk(heap1, pools)
  {
  }

  /** Writing changes what the slices over the written bytes hold, and nothing else. */
  lemma WriteKeeps(st: State, loose: set<nat>, b: nat, at: nat, data: seq<byte>)
    requires Inv(st, loose) && b in st.heap && !Pooled(st.pools, b) && at + |data| <= |st.heap[b].bytes|
    ensures var st1 := Write(st, b, at, data);
      && Inv(st1, loose)
      && forall j ::
        j in st.slices && Apart(st.slices[j], Slice(b, at, |data|, {})) ==> Contents(st1, j) == Contents(st, j)
  {
    hide PoolsOk, Splice, SliceOk, Contents;
    var st1 := Write(st, b, at, data);
    SpliceSpec(st.heap[b].bytes, at, data);
    assert PoolsOk(st1.heap, st1.pools) by { PoolsKeep(st.heap, st1.heap, st.pools); }
    forall x | x in st1.heap ensures CountOk(st1, loose, x) { assert CountOk(st, loose, x); SameRefs(st, st1, x); }
    forall i | i in st1.slices
      ensures SliceOk(st1, i)
      ensures Apart(st.slices[i], Slice(b, at, |data|, {})) ==> Contents(st1, i) == Contents(st, i)
    {
      HeldBlock(st, loose, i);
      if i in st.strings { UnsharedOf(st, i); }
      SliceKeeps(st, st1, i);
      if st.slices[i].mb != b {
        ContentsKeep(st, st1, i);
      } else if Apart(st.slices[i], Slice(b, at, |data|, {})) {
        ContentsApart(st, st1, i, at, |data|);
      }
    }
  }

  lemma SpliceSpec(s: seq<byte>, at: nat, data: seq<byte>)
    requires at + |data| <= |s|
    ensures var r := Splice(s, at, data);
      && |r| == |s| && r[at..at + |data|] == data
      && forall i :: 0 <= i < |s| && !(at <= i < at + |data|) ==> r[i] == s[i]
  {
  }

  // ---------------------------------------------------------------- buffers and strings

  /** The next `size` bytes of a block become a buffer of their own, with `front` copied to it. */
  function Carve(st: State, b: nat, front: seq<byte>, size: nat): State
    requires b in st.heap && |front| <= size && st.heap[b].nbytes + size <= |st.heap[b].bytes|
  {
    var at := st.heap[b].nbytes;
    Hold(Grow(Write(st, b, at, front), b, size), Slice(b, at, size, {st.next}))
  }

  lemma CarveKeeps(st: State, loose: set<nat>, b: nat, front: seq<byte>, size: nat)
    requires Inv(st, loose) && b in st.heap && !Pooled(st.pools, b) && NoString(st, b) && 0 < size && |front| <= size
    requires st.heap[b].nbytes + size <= st.heap[b].size && (st.heap[b].nbytes > 0 || Refs(st, b) == 0)
    ensures |st.heap[b].bytes| == st.heap[b].size
    ensures var st1 := Carve(st, b, front, size);
      && Inv(st1, loose - {b}) && st.next !in st.slices && NoString(st1, b)
      && Contents(st1, st.next) == front + Range(st.heap[b], st.heap[b].nbytes + |front|, size - |front|)
      && (forall j :: j in st.slices ==> Contents(st1, j) == Contents(st, j))
      && (forall j :: j in st.slices ==> Apart(st.slices[j], st1.slices[st.next]))
  {
    hide Inv, SliceOk, Contents, PoolsOk, Splice, Unshared, CountOk, Refs, GroupsOk;
    BlockFacts(st, loose, b);
    var at := st.heap[b].nbytes;
    var s := Slice(b, at, size, {st.next});
    forall j | j in st.slices
      ensures Apart(st.slices[j], s) && Apart(st.slices[j], Slice(b, at, |front|, {}))
      ensures st.slices[j].groups !! {st.next}
    {
      BelowNbytes(st, loose, j, b);
    }
    WriteKeeps(st, loose, b, at, front);
    var st1 := Write(st, b, at, front);
    SameRefs(st, st1, b);
    GrowKeeps(st1, loose, b, size);
    var st2 := Grow(st1, b, size);
    HoldKeeps(st2, loose, s);
    NewContents(st2, s);
    SplicedRange(st.heap[b], st2.heap[b], at, front, size);
  }

  /** The bytes from the place of the copy on: what was copied, then what was there. */
  lemma SplicedRange(k: Block, k1: Block, at: nat, front: seq<byte>, size: nat)
    requires |front| <= size && at + size <= |k.bytes| && k1.bytes == Splice(k.bytes, at, front)
    ensures Range(k1, at, size) == front + Range(k, at + |front|, size - |front|)
  {
    hide Splice;
    SpliceSpec(k.bytes, at, front);
    var n := at + |front|;
    assert k1.bytes[at..at + size] == k1.bytes[at..n] + k1.bytes[n..at + size];
    assert k1.bytes[n..at + size] == k.bytes[n..at + size];
  }

  /** lev_buffer_new once the block is chosen; a block taken for it becomes the bump block. */
  function NewBuffer(st: State, b: nat, front: seq<byte>, size: nat, setBump: bool): State
    requires b in st.heap && |front| <= size && st.heap[b].nbytes + size <= |st.heap[b].bytes|
  {
    if setBump then SetBump(Carve(st, b, front, size), b) else Carve(st, b, front, size)
  }

  lemma NewBufferKeeps(st: State, loose: set<nat>, b: nat, front: seq<byte>, size: nat, taken: bool, setBump: bool)
    requires Inv(st, if taken then loose + {b} else loose) && b !in loose && 0 < size && |front| <= size
    requires b in st.heap && !Pooled(st.pools, b) && NoString(st, b) && st.heap[b].nbytes + size <= st.heap[b].size
    requires if taken then Refs(st, b) == 0 else st.heap[b].nbytes > 0
    requires setBump ==> taken && st.bump == None
    ensures |st.heap[b].bytes| == st.heap[b].size
    ensures var st1 := NewBuffer(st, b, front, size, setBump);
      && Inv(st1, loose) && st.next !in st.slices
      && Contents(st1, st.next) == front + Range(st.heap[b], st.heap[b].nbytes + |front|, size - |front|)
      && (forall j :: j in st.slices ==> Contents(st1, j) == Contents(st, j))
      && (forall j :: j in st.slices ==> Apart(st.slices[j], st1.slices[st.next]))
  {
    hide Inv, Contents, Refs, NoString, Splice;
    var loose0 := if taken then loose + {b} else loose;
    CarveKeeps(st, loose0, b, front, size);
    assert loose0 - {b} == loose && loose - {b} == loose;
    if setBump { SetBumpKeeps(Carve(st, b, front, size), loose, b); }
  }

  /** Every slice of a block that counts its bytes ends at or below nbytes, and is older than the
      next name. */
  lemma BelowNbytes(st: State, loose: set<nat>, j: nat, b: nat)
    requires Inv(st, loose) && j in st.slices && b in st.heap && NoString(st, b)
    requires st.heap[b].nbytes > 0 || Refs(st, b) == 0
    ensures st.slices[j].mb != b || st.slices[j].off + st.slices[j].until <= st.heap[b].nbytes
    ensures forall g :: g in st.slices[j].groups ==> g < st.next
  {
    assert SliceOk(st, j);
    assert j in SliceRefs(st.slices, st.slices[j].mb);
  }

  lemma NewContents(st: State, s: Slice)
    requires s.mb in st.heap && st.next !in st.strings
    ensures Contents(Hold(st, s), st.next) == Range(st.heap[s.mb], s.off, s.until)
  {
  }

  /** A buffer over bytes that another buffer already covers, or two that lie back to back. */
  ghost predicate Covered(st: State, s: Slice, i: nat, j: nat) {
    && i in st.slices && j in st.slices && i !in st.strings && j !in st.strings && s.until > 0
    && s.mb == st.slices[i].mb == st.slices[j].mb && s.groups == st.slices[i].groups + st.slices[j].groups
    && st.slices[i].off <= s.off && s.off + s.until <= st.slices[j].off + st.slices[j].until
    && (i == j || st.slices[i].off + st.slices[i].until == st.slices[j].off)
  }

  lemma StringsAreSlices(st: State, loose: set<nat>)
    requires Inv(st, loose)
    ensures st.strings.Keys <= st.slices.Keys
  {
  }

  lemma CoveredPlace(st: State, loose: set<nat>, s: Slice, i: nat, j: nat)
    requires Inv(st, loose) && Covered(st, s, i, j)
    ensures Place(st, s)
  {
    hide PoolsOk, Contents, Unshared, CountOk, Refs;
    HeldBlock(st, loose, i);
    HeldBlock(st, loose, j);
    forall k | k in st.slices && st.slices[k].groups !! s.groups ensures Apart(st.slices[k], s) {
      assert Apart(st.slices[k], st.slices[i]) && Apart(st.slices[k], st.slices[j]);
      HeldBlock(st, loose, k);
    }
  }

  lemma ShareKeeps(st: State, loose: set<nat>, s: Slice, i: nat, j: nat)
    requires Inv(st, loose) && Covered(st, s, i, j)
    ensures s.mb in st.heap
    ensures var st1 := Hold(st, s);
      && Inv(st1, loose) && st.next !in st.slices
      && Contents(st1, st.next) == Range(st.heap[s.mb], s.off, s.until)
      && forall k :: k in st.slices ==> Contents(st1, k) == Contents(st, k)
  {
    hide Contents, Inv, Place, NoString;
    CoveredPlace(st, loose, s, i, j);
    NoStringOn(st, loose, i);
    HeldBlock(st, loose, i);
    HoldKeeps(st, loose, s);
    assert loose - {s.mb} == loose;
    StringsAreSlices(st, loose);
    NewContents(st, s);
  }

  /** A buffer that ends where its block's counted bytes end, followed by a copy of data. */
  function Extend(st: State, i: nat, data: seq<byte>): State
    requires i in st.slices && st.slices[i].mb in st.heap
    requires st.heap[st.slices[i].mb].nbytes + |data| <= |st.heap[st.slices[i].mb].bytes|
  {
    var s := st.slices[i];
    var at := st.heap[s.mb].nbytes;
    Hold(Grow(Write(st, s.mb, at, data), s.mb, |data|), Slice(s.mb, s.off, s.until + |data|, s.groups + {st.next}))
  }

  lemma ExtendKeeps(st: State, loose: set<nat>, i: nat, data: seq<byte>)
    requires Inv(st, loose) && i in st.slices && i !in st.strings && st.slices[i].mb in st.heap
    requires var k := st.heap[st.slices[i].mb];
      st.slices[i].off + st.slices[i].until == k.nbytes && k.nbytes + |data| <= k.size
    ensures st.heap[st.slices[i].mb].size == |st.heap[st.slices[i].mb].bytes|
    ensures var st1 := Extend(st, i, data);
      && Inv(st1, loose) && st.next !in st.slices && Contents(st1, st.next) == Contents(st, i) + data
      && forall j :: j in st.slices ==> Contents(st1, j) == Contents(st, j)
  {
    hide PoolsOk, Splice, Unshared, Contents, SliceOk, CountOk, Refs, GroupsOk;
    HeldBlock(st, loose, i);
    NoStringOn(st, loose, i);
    NameBelow(st, i);
    var b, k := st.slices[i].mb, st.heap[st.slices[i].mb];
    var s := Slice(b, st.slices[i].off, st.slices[i].until + |data|, st.slices[i].groups + {st.next});
    var room := Slice(b, k.nbytes, |data|, {});
    RoomIsApart(st, loose, i, s, room);
    WriteKeeps(st, loose, b, k.nbytes, data);
    var st1 := Write(st, b, k.nbytes, data);
    SameRefs(st, st1, b);
    GrowKeeps(st1, loose, b, |data|);
    var st2 := Grow(st1, b, |data|);
    HoldKeeps(st2, loose, s);
    assert loose - {b} == loose;
    NewContents(st2, s);
    ContentsOf(st, i);
    SpliceSpec(k.bytes, k.nbytes, data);
    assert Range(st2.heap[b], s.off, s.until) == Range(k, s.off, st.slices[i].until) + data;
  }

  lemma RoomIsApart(st: State, loose: set<nat>, i: nat, s: Slice, room: Slice)
    requires Inv(st, loose) && i in st.slices && i !in st.strings && st.slices[i].mb in st.heap
    requires var t := st.slices[i];
      && t.off + t.until == st.heap[t.mb].nbytes == room.off && room.mb == s.mb == t.mb && s.off == t.off
      && s.until == t.until + room.until && s.groups == t.groups + {st.next}
    ensures forall j :: j in st.slices ==>
      Apart(st.slices[j], room) && (st.slices[j].groups !! s.groups ==> Apart(st.slices[j], s))
  {
    hide PoolsOk, Unshared, Contents, SliceOk, CountOk, Refs;
    HeldBlock(st, loose, i);
    NameBelow(st, i);
    NoStringOn(st, loose, i);
    forall j | j in st.slices
      ensures Apart(st.slices[j], room) && (st.slices[j].groups !! s.groups ==> Apart(st.slices[j], s))
    {
      BelowNbytes(st, loose, j, s.mb);
      NameBelow(st, j);
    }
  }

  lemma SliceContents(st: State, i: nat)
    requires i in st.slices && i !in st.strings && SliceOk(st, i) && BlockOk(st.heap[st.slices[i].mb])
    ensures var s, k := st.slices[i], st.heap[st.slices[i].mb];
      && s.off + s.until <= |k.bytes| && 0 < |Contents(st, i)| == s.until
      && ViewOf(st)[i] == Contents(st, i) == k.bytes[s.off..s.off + s.until]
  {
  }

  lemma ContentsOf(st: State, i: nat)
    requires i in st.slices && i !in st.strings && st.slices[i].mb in st.heap
    ensures Contents(st, i) == Range(st.heap[st.slices[i].mb], st.slices[i].off, st.slices[i].until)
  {
  }

  /** No private string lies in a block that a buffer lies in. */
  lemma NoStringOn(st: State, loose: set<nat>, i: nat)
    requires Inv(st, loose) && i in st.slices && i !in st.strings
    ensures NoString(st, st.slices[i].mb)
  {
    forall j | j in st.strings && j in st.slices ensures st.slices[j].mb != st.slices[i].mb {
      assert SliceOk(st, j);
    }
  }

  /** A loose block becomes a private string of length len. */
  function HoldString(st: State, b: nat, until: nat, len: nat): State
    requires b in st.heap
  {
    Hold(st, Slice(b, 0, until, {st.next})).(strings := st.strings[st.next := len])
  }

  lemma HoldStringKeeps(st: State, loose: set<nat>, b: nat, until: nat, len: nat)
    requires Inv(st, loose) && b in loose && b in st.heap && len < until <= st.heap[b].size
    ensures var st1 := HoldString(st, b, until, len);
      && Inv(st1, loose - {b}) && st.next !in st.slices
      && Contents(st1, st.next) == Range(st.heap[b], 0, len)
      && forall j :: j in st.slices ==> Contents(st1, j) == Contents(st, j)
  {
    hide PoolsOk, SliceOk, Contents, Refs, Unshared;
    assert CountOk(st, loose, b);
    var st1, n := HoldString(st, b, until, len), st.next;
    if n in st.slices { NameBelow(st, n); }
    OneMoreRef(st, st1, n, Slice(b, 0, until, {n}));
    AcquireCounts(st, st1, b, loose);
    HoldStringSlices(st, loose, b, until, len);
  }

  lemma HoldStringSlices(st: State, loose: set<nat>, b: nat, until: nat, len: nat)
    requires Inv(st, loose) && b in st.heap && Refs(st, b) == 0 && len < until <= st.heap[b].size
      && st.next !in st.slices
    ensures var st1 := HoldString(st, b, until, len);
      && BumpOk(st1) && GroupsOk(st1) && st1.strings.Keys <= st1.slices.Keys
      && (forall i :: i in st1.slices ==> SliceOk(st1, i))
      && Contents(st1, st.next) == Range(st.heap[b], 0, len)
      && forall j :: j in st.slices ==> Contents(st1, j) == Contents(st, j)
  {
    hide PoolsOk, SliceOk, Contents;
    var st1, n := HoldString(st, b, until, len), st.next;
    forall i | i in st.slices
      ensures SliceOk(st1, i) && Contents(st1, i) == Contents(st, i) && st.slices[i].mb != b
      ensures forall g :: g in st.slices[i].groups ==> g < n
    {
      HeldBlock(st, loose, i);
      assert i in SliceRefs(st.slices, st.slices[i].mb);
      NameBelow(st, i);
      if i in st.strings { StillAlone(st, st1.slices[n], i); }
      SliceKeeps(st, st1, i);
      ContentsKeep(st, st1, i);
    }
    NewStringOk(st1, n);
  }

  lemma NameBelow(st: State, i: nat)
    requires i in st.slices && SliceOk(st, i)
    ensures i < st.next && st.slices[i].until > 0 && forall g :: g in st.slices[i].groups ==> g < st.next
  {
  }

  lemma NewStringOk(st: State, i: nat)
    requires i in st.slices && i in st.strings && i < st.next
    requires var s := st.slices[i];
      s.mb in st.heap && s.off == 0 && st.strings[i] < s.until <= st.heap[s.mb].size && s.groups == {i}
    requires st.bump != Some(st.slices[i].mb)
    requires forall j :: j in st.slices && j != i ==> st.slices[j].mb != st.slices[i].mb
    ensures SliceOk(st, i)
    ensures Contents(st, i) == Range(st.heap[st.slices[i].mb], 0, st.strings[i])
  {
  }

  /** A private string gets another length, room or count of bytes in its block. */
  function SetString(st: State, i: nat, until: nat, len: nat, nbytes: nat): State
    requires i in st.slices && st.slices[i].mb in st.heap
  {
    var b := st.slices[i].mb;
    st.(slices := st.slices[i := st.slices[i].(until := until)], strings := st.strings[i := len],
        heap := st.heap[b := st.heap[b].(nbytes := nbytes)])
  }

  lemma SetStringKeeps(st: State, loose: set<nat>, i: nat, until: nat, len: nat, nbytes: nat)
    requires Inv(st, loose) && i in st.strings && i in st.slices && st.slices[i].mb in st.heap
    requires len < until <= st.heap[st.slices[i].mb].size
    ensures var st1 := SetString(st, i, until, len, nbytes);
      && Inv(st1, loose) && Contents(st1, i) == Range(st.heap[st.slices[i].mb], 0, len)
      && forall j :: j in st.slices && j != i ==> Contents(st1, j) == Contents(st, j)
  {
    hide PoolsOk, SliceOk, Contents;
    var st1, b := SetString(st, i, until, len, nbytes), st.slices[i].mb;
    HeldBlock(st, loose, i);
    assert PoolsOk(st1.heap, st1.pools) by { PoolsKeep(st.heap, st1.heap, st.pools); }
    forall x ensures Refs(st1, x) == Refs(st, x) { assert SliceRefs(st1.slices, x) == SliceRefs(st.slices, x); }
    forall x | x in st1.heap ensures CountOk(st1, loose, x) { assert CountOk(st, loose, x); }
    SetStringSlices(st, loose, i, until, len, nbytes);
  }

  lemma SetStringSlices(st: State, loose: set<nat>, i: nat, until: nat, len: nat, nbytes: nat)
    requires Inv(st, loose) && i in st.strings && i in st.slices && st.slices[i].mb in st.heap
    requires len < until <= st.heap[st.slices[i].mb].size
    ensures var st1 := SetString(st, i, until, len, nbytes);
      && BumpOk(st1) && GroupsOk(st1) && (forall j :: j in st1.slices ==> SliceOk(st1, j))
      && Contents(st1, i) == Range(st.heap[st.slices[i].mb], 0, len)
      && forall j :: j in st.slices && j != i ==> Contents(st1, j) == Contents(st, j)
  {
    hide PoolsOk, SliceOk, Contents, Refs;
    var st1, b := SetString(st, i, until, len, nbytes), st.slices[i].mb;
    HeldBlock(st, loose, i);
    UnsharedOf(st, i);
    StringGroup(st, i);
    forall j | j in st.slices && j != i ensures SliceOk(st1, j) && Contents(st1, j) == Contents(st, j) {
      HeldBlock(st, loose, j);
      if j in st.strings { UnsharedOf(st, j); }
      SliceKeeps(st, st1, j);
      ContentsKeep(st, st1, j);
    }
    ChangedStringOk(st, st1, i);
  }

  lemma StringGroup(st: State, i: nat)
    requires i in st.slices && i in st.strings && SliceOk(st, i)
    ensures st.slices[i].off == 0 && i < st.next && forall g :: g in st.slices[i].groups ==> g < st.next
  {
  }

  lemma ChangedStringOk(st: State, st1: State, i: nat)
    requires i in st.slices && i in st.strings && SliceOk(st, i) && st1.next == st.next
    requires i in st1.slices && i in st1.strings && st1.slices[i] == st.slices[i].(until := st1.slices[i].until)
    requires var s := st1.slices[i];
      s.mb in st1.heap && st1.strings[i] < s.until <= st1.heap[s.mb].size <= |st1.heap[s.mb].bytes|
    requires Unshared(st1, i)
    ensures SliceOk(st1, i) && Contents(st1, i) == Range(st1.heap[st1.slices[i].mb], 0, st1.strings[i])
  {
  }

  // ---------------------------------------------------------------- the view of the heap's users

  /** What every live buffer and string holds. */
  ghost function ViewOf(st: State): map<nat, seq<byte>> {
    map i | i in st.slices :: Contents(st, i)
  }

  lemma ViewKeys(st: State)
    ensures ViewOf(st).Keys == st.slices.Keys
  {
  }

  lemma ViewKept(st: State, st1: State)
    requires st1.slices.Keys == st.slices.Keys
    requires forall j :: j in st.slices ==> Contents(st1, j) == Contents(st, j)
    ensures ViewOf(st1) == ViewOf(st)
  {
  }

  lemma ViewSet(st: State, st1: State, i: nat, s: seq<byte>)
    requires st1.slices.Keys == st.slices.Keys + {i} && Contents(st1, i) == s
    requires forall j :: j in st.slices && j != i ==> Contents(st1, j) == Contents(st, j)
    ensures ViewOf(st1) == ViewOf(st)[i := s]
  {
  }

  lemma ViewDropped(st: State, st1: State, i: nat)
    requires st1.slices.Keys == st.slices.Keys - {i}
    requires forall j :: j in st1.slices ==> Contents(st1, j) == Contents(st, j)
    ensures ViewOf(st1) == ViewOf(st) - {i}
  {
  }

  // ---------------------------------------------------------------- facts for the allocator's code

  lemma BumpFacts(st: State, loose: set<nat>)
    requires Inv(st, loose) && st.bump.Some?
    ensures var b := st.bump.value;
      && b in st.heap && !Pooled(st.pools, b) && BlockOk(st.heap[b]) && b !in loose && NoString(st, b)
      && 0 < st.heap[b].nbytes <= st.heap[b].size && st.heap[b].refcount > 0
  {
    var b := st.bump.value;
    assert CountOk(st, loose, b);
    forall j | j in st.strings && j in st.slices ensures st.slices[j].mb != b { assert SliceOk(st, j); }
  }

  lemma PoolFacts(st: State, loose: set<nat>)
    requires Inv(st, loose)
    ensures |st.pools| == CLASSES && st.strings.Keys <= st.slices.Keys
    ensures forall c :: 0 <= c < CLASSES && st.pools[c] != [] ==> st.pools[c][|st.pools[c]| - 1] in st.heap
  {
  }

  lemma BlockFacts(st: State, loose: set<nat>, b: nat)
    requires Inv(st, loose) && b in st.heap && !Pooled(st.pools, b)
    ensures BlockOk(st.heap[b]) && st.strings.Keys <= st.slices.Keys
  {
    assert CountOk(st, loose, b);
  }

  lemma CountFacts(st: State, loose: set<nat>, b: nat, taken: bool)
    requires Inv(st, if taken then loose + {b} else loose) && b in st.heap && !Pooled(st.pools, b)
    requires taken || st.bump == Some(b)
    ensures if taken then st.heap[b].refcount == 0 else st.heap[b].refcount > 0
  {
    assert CountOk(st, if taken then loose + {b} else loose, b);
  }

  /** The order in which lev_buffer_new makes its changes does not matter. */
  lemma NewBufferIs(st: State, st1: State, b: nat, front: seq<byte>, size: nat, setBump: bool)
    requires b in st.heap && |front| <= size && st.heap[b].nbytes + size <= |st.heap[b].bytes|
    requires var k := st.heap[b];
      st1 == st.(heap := st.heap[b := k.(refcount := k.refcount + (if setBump then 2 else 1), nbytes := k.nbytes + size,
                                         bytes := Splice(k.bytes, k.nbytes, front))],
                 slices := st.slices[st.next := Slice(b, k.nbytes, size, {st.next})],
                 bump := if setBump then Some(b) else st.bump,
                 next := st.next + 1)
    ensures st1 == NewBuffer(st, b, front, size, setBump)
  {
    hide Splice;
  }

  lemma NewBufferSteps(st: State, b: nat, front: seq<byte>, size: nat, setBump: bool)
    requires b in st.heap && |front| <= size && st.heap[b].nbytes + size <= |st.heap[b].bytes|
    ensures var at := st.heap[b].nbytes;
      var st1 := Hold(if setBump then SetBump(st, b) else st, Slice(b, at, size, {st.next}));
      |st1.heap[b].bytes| == |st.heap[b].bytes|
      && Grow(Write(st1, b, at, front), b, size) == NewBuffer(st, b, front, size, setBump)
  {
    hide Splice, NewBuffer;
    var at := st.heap[b].nbytes;
    var st1 := Hold(if setBump then SetBump(st, b) else st, Slice(b, at, size, {st.next}));
    NewBufferIs(st, Grow(Write(st1, b, at, front), b, size), b, front, size, setBump);
  }

  /** What a new buffer changes. */
  lemma NewBufferFrame(st: State, b: nat, front: seq<byte>, size: nat, setBump: bool)
    requires b in st.heap && |front| <= size && st.heap[b].nbytes + size <= |st.heap[b].bytes|
    ensures var t := NewBuffer(st, b, front, size, setBump);
      && t.heap.Keys == st.heap.Keys && (forall x :: x in t.heap && x != b ==> t.heap[x] == st.heap[x])
      && t.heap[b].nbytes == st.heap[b].nbytes + size && t.heap[b].size == st.heap[b].size
      && t.slices == st.slices[st.next := Slice(b, st.heap[b].nbytes, size, {st.next})]
      && t.strings == st.strings && t.reading == st.reading && t.bump == if setBump then Some(b) else st.bump
  {
    hide Splice;
  }

  lemma LooseFacts(st: State, loose: set<nat>, b: nat)
    requires Inv(st, loose) && b in loose
    ensures b in st.heap && !Pooled(st.pools, b) && BlockOk(st.heap[b]) && NoString(st, b)
    ensures Refs(st, b) == 0 && st.heap[b].refcount == 0 && st.bump != Some(b)
  {
    assert CountOk(st, loose, b);
    forall j | j in st.strings && j in st.slices ensures st.slices[j].mb != b {
      assert j in SliceRefs(st.slices, st.slices[j].mb);
    }
  }

  lemma ClearBumpIs(st: State)
    requires st.bump.Some? && st.bump.value in st.heap && st.heap[st.bump.value].cls < CLASSES == |st.pools|
    ensures Release(st, st.bump.value).(bump := None) == ClearBump(st)
  {
  }

  lemma DropIs(st: State, i: nat)
    requires i in st.slices && st.slices[i].mb in st.heap && st.heap[st.slices[i].mb].cls < CLASSES == |st.pools|
    ensures Release(st, st.slices[i].mb).(slices := st.slices - {i}, strings := st.strings - {i}) == Drop(st, i)
  {
  }

  /** A new buffer over a fresh block, and its bytes. */
  lemma PackedKeeps(st: State, loose: set<nat>, b: nat, data: seq<byte>)
    requires Inv(st, loose + {b}) && b !in loose && b in st.heap && st.heap[b].nbytes == 0
    requires 0 < |data| <= st.heap[b].size
    ensures var st1 := Hold(st, Slice(b, 0, |data|, {st.next}));
      && b in st1.heap && |data| <= |st1.heap[b].bytes| && st.next !in st.slices
      && Inv(Write(st1, b, 0, data), loose) && ViewOf(Write(st1, b, 0, data)) == ViewOf(st)[st.next := data]
  {
    hide Inv, Contents, Refs, NoString, ViewOf, Pooled, Splice;
    LooseFacts(st, loose + {b}, b);
    FrontKeeps(st, loose + {b}, b, |data|);
    assert loose + {b} - {b} == loose;
    var st1 := Hold(st, Slice(b, 0, |data|, {st.next}));
    StringsAreSlices(st, loose + {b});
    forall j | j in st.slices ensures Apart(st.slices[j], st1.slices[st.next]) {
      BelowNbytes(st, loose + {b}, j, b);
    }
    BackKeeps(st1, loose, st.next, 0, data);
    assert ViewOf(st1)[st.next][..0] + data == data;
  }

  lemma NothingKept(st: State)
    requires |st.pools| == CLASSES && forall c :: 0 <= c < CLASSES ==> st.pools[c] == []
    requires st.heap == map[] && st.slices == map[] && st.strings == map[] && st.bump == None
    ensures Inv(st, {}) && ViewOf(st) == map[]
  {
    assert forall x :: SliceRefs(st.slices, x) == {};
  }

  /** lev_slab_fill puts a new block of the right size on a pool that is not yet full. */
  lemma FilledKeeps(st: State, st1: State, c: nat, k: Block)
    requires Inv(st, {}) && st.slices == map[] && st.bump == None && c < CLASSES && |st.pools[c]| < POOL_MIN[c]
    requires |k.bytes| == CLASS_SIZE[c]
    requires st1
      == st.(heap := st.heap[st.next := k], pools := st.pools[c := st.pools[c] + [st.next]], next := st.next + 1)
    ensures Inv(st1, {})
  {
    var n := st.next;
    forall x | x in st.heap ensures x != n { assert CountOk(st, {}, x); }
    forall x | Pooled(st.pools, x) ensures x in st.heap {
      var d :| 0 <= d < CLASSES && x in st.pools[d];
    }
    assert PoolsOk(st1.heap, st.pools);
    PushPool(st1.heap, st.pools, c, n);
    forall x ensures Refs(st1, x) == 0 { assert SliceRefs(st1.slices, x) == {}; }
    forall x | x in st1.heap ensures CountOk(st1, {}, x) {
      if x != n { assert CountOk(st, {}, x) && Refs(st, x) == Refs(st1, x); }
    }
  }

  lemma BufferFacts(st: State, loose: set<nat>, i: nat)
    requires Inv(st, loose) && i in st.slices && i !in st.strings
    ensures var s := st.slices[i];
      && s.mb in st.heap && st.heap[s.mb].size == |st.heap[s.mb].bytes| && s.off + s.until <= st.heap[s.mb].size
      && s.until > 0 && st.heap[s.mb].nbytes <= st.heap[s.mb].size && s.mb !in loose
      && i in ViewOf(st) && ViewOf(st)[i] == Contents(st, i) == st.heap[s.mb].bytes[s.off..s.off + s.until]
  {
    HeldBlock(st, loose, i);
    SliceContents(st, i);
  }

  /** Two buffers back to back, as one. */
  lemma JoinKeeps(st: State, loose: set<nat>, s: Slice, i: nat, j: nat)
    requires Inv(st, loose) && i in st.slices && j in st.slices && i !in st.strings && j !in st.strings
    requires var a, b := st.slices[i], st.slices[j];
      a.mb == b.mb && a.off + a.until == b.off && s == Slice(a.mb, a.off, a.until + b.until, a.groups + b.groups)
    ensures s.mb in st.heap && i in ViewOf(st) && j in ViewOf(st)
    ensures var st1 := Hold(st, s);
      Inv(st1, loose) && st.next !in ViewOf(st) && ViewOf(st1) == ViewOf(st)[st.next := ViewOf(st)[i] + ViewOf(st)[j]]
  {
    hide Inv, Contents, ViewOf;
    BufferFacts(st, loose, i);
    BufferFacts(st, loose, j);
    ShareKeeps(st, loose, s, i, j);
    ViewKeys(st);
    var k := st.heap[s.mb].bytes;
    assert k[s.off..s.off + s.until] == Contents(st, i) + Contents(st, j);
    ViewSet(st, Hold(st, s), st.next, Contents(st, i) + Contents(st, j));
  }

  lemma ExtendIs(st: State, st1: State, i: nat, data: seq<byte>)
    requires i in st.slices && st.slices[i].mb in st.heap
    requires st.heap[st.slices[i].mb].nbytes + |data| <= |st.heap[st.slices[i].mb].bytes|
    requires var s, k := st.slices[i], st.heap[st.slices[i].mb];
      st1 == st.(heap := st.heap[s.mb := k.(refcount := k.refcount + 1, nbytes := k.nbytes + |data|,
                                            bytes := Splice(k.bytes, k.nbytes, data))],
                 slices := st.slices[st.next := Slice(s.mb, s.off, s.until + |data|, s.groups + {st.next})],
                 next := st.next + 1)
    ensures st1 == Extend(st, i, data)
  {
    hide Splice;
  }

  /** Filling the rest of a buffer that shares no bytes with any other. */
  lemma BackKeeps(st: State, loose: set<nat>, i: nat, at: nat, data: seq<byte>)
    requires Inv(st, loose) && i in st.slices && i !in st.strings && at + |data| == st.slices[i].until
    requires forall j :: j in st.slices && j != i ==> Apart(st.slices[j], st.slices[i])
    ensures var s := st.slices[i];
      && s.mb in st.heap && s.off + s.until <= |st.heap[s.mb].bytes| && s.mb !in loose
      && var st1 := Write(st, s.mb, s.off + at, data);
         Inv(st1, loose) && i in ViewOf(st) && at <= |ViewOf(st)[i]|
         && ViewOf(st1) == ViewOf(st)[i := ViewOf(st)[i][..at] + data]
  {
    hide Inv, Contents, ViewOf, Splice;
    BufferFacts(st, loose, i);
    HeldBlock(st, loose, i);
    var s := st.slices[i];
    var k := st.heap[s.mb].bytes;
    WriteKeeps(st, loose, s.mb, s.off + at, data);
    var st1 := Write(st, s.mb, s.off + at, data);
    SpliceSpec(k, s.off + at, data);
    BufferFacts(st1, loose, i);
    assert st1.heap[s.mb].bytes[s.off..s.off + s.until] == k[s.off..s.off + s.until][..at] + data;
    forall j | j in st.slices && j != i ensures Contents(st1, j) == Contents(st, j) {
      assert Apart(st.slices[j], st.slices[i]);
      NonEmpty(st, loose, j);
    }
    ViewSet(st, st1, i, Contents(st1, i));
  }

  lemma NonEmpty(st: State, loose: set<nat>, j: nat)
    requires Inv(st, loose) && j in st.slices
    ensures st.slices[j].until > 0
  {
    assert SliceOk(st, j);
  }

  /** A block that nothing refers to goes back to its pool, or is freed. */
  lemma DiscardKeeps(st: State, loose: set<nat>, b: nat)
    requires Inv(st, loose) && b in loose
    ensures b in st.heap && st.heap[b].cls < CLASSES
    ensures var st1 := Release(Acquire(st, b), b);
      Inv(st1, loose - {b}) && ViewOf(st1) == ViewOf(st)
  {
    hide Contents, SliceOk, Refs, Release, ViewOf;
    LooseFacts(st, loose, b);
    var mid := Acquire(st, b);
    forall x ensures Refs(mid, x) == Refs(st, x) { SameRefs(st, mid, x); }
    forall x | x in mid.heap && x != b ensures CountOk(mid, loose - {b}, x) { assert CountOk(st, loose, x); }
    assert CountOk(st, loose, b);
    ReleaseKeeps(mid, b, loose - {b});
    ReleaseFrame(mid, b);
    var st1 := Release(mid, b);
    forall j | j in st.slices
      ensures st.slices[j].mb in st.heap && st.slices[j].mb in st1.heap
      ensures SameData(st.heap[st.slices[j].mb], st1.heap[st.slices[j].mb])
    {
      HeldBlock(st, loose, j);
      HeldHasRefs(st, loose, j);
    }
    Survive(st, st1, loose);
    ViewKept(st, st1);
    if st.bump.Some? { BumpFacts(st, loose); BumpHasRefs(st); }
  }

  lemma HeldHasRefs(st: State, loose: set<nat>, j: nat)
    requires Inv(st, loose) && j in st.slices
    ensures Refs(st, st.slices[j].mb) > 0
  {
    assert j in SliceRefs(st.slices, st.slices[j].mb);
  }

  lemma BumpHasRefs(st: State)
    requires st.bump.Some?
    ensures Refs(st, st.bump.value) > 0
  {
  }

  /** The whole of a loose block, or a front part of it, becomes a buffer; nbytes stays 0. */
  lemma FrontKeeps(st: State, loose: set<nat>, b: nat, until: nat)
    requires Inv(st, loose) && b in loose && b in st.heap && st.heap[b].nbytes == 0 && 0 < until <= st.heap[b].size
    ensures var st1 := Hold(st, Slice(b, 0, until, {st.next}));
      Inv(st1, loose - {b}) && st.next !in st.slices &&
      ViewOf(st1) == ViewOf(st)[st.next := Range(st.heap[b], 0, until)]
  {
    hide Contents, SliceOk, PoolsOk;
    LooseFacts(st, loose, b);
    var s := Slice(b, 0, until, {st.next});
    forall j | j in st.slices ensures Apart(st.slices[j], s) && st.slices[j].groups !! s.groups {
      BelowNbytes(st, loose, j, b);
    }
    HoldKeeps(st, loose, s);
    NewContents(st, s);
    ViewSet(st, Hold(st, s), st.next, Range(st.heap[b], 0, until));
  }

  /** A private string's block, length and room. */
  lemma StringFacts(st: State, loose: set<nat>, i: nat)
    requires Inv(st, loose) && i in st.strings
    ensures i in st.slices && st.slices[i].mb in st.heap
    ensures var s := st.slices[i];
      && s.off == 0 && st.strings[i] < s.until <= st.heap[s.mb].size && s.mb !in loose
      && st.heap[s.mb].size == |st.heap[s.mb].bytes|
      && i in ViewOf(st) && ViewOf(st)[i] == st.heap[s.mb].bytes[..st.strings[i]]
  {
    HeldBlock(st, loose, i);
  }

  /** Characters are written behind a private string and its length is moved. */
  lemma AppendKeeps(st: State, loose: set<nat>, i: nat, data: seq<byte>)
    requires Inv(st, loose) && i in st.strings && i in st.slices && st.slices[i].mb in st.heap
    requires st.strings[i] + |data| < st.slices[i].until <= |st.heap[st.slices[i].mb].bytes|
    ensures var b, n := st.slices[i].mb, st.strings[i] + |data|;
      var st1 := Write(st, b, st.strings[i], data).(strings := st.strings[i := n]);
      Inv(st1, loose) && i in ViewOf(st) && ViewOf(st1) == ViewOf(st)[i := ViewOf(st)[i] + data]
  {
    hide Inv, Contents, ViewOf, Splice, SliceOk;
    var b, len := st.slices[i].mb, st.strings[i];
    StringFacts(st, loose, i);
    HeldBlock(st, loose, i);
    UnsharedOf(st, i);
    WriteKeeps(st, loose, b, len, data);
    var st1 := Write(st, b, len, data);
    SpliceSpec(st.heap[b].bytes, len, data);
    SetStringKeeps(st1, loose, i, st.slices[i].until, len + |data|, st.heap[b].nbytes);
    var st2 := SetString(st1, i, st.slices[i].until, len + |data|, st.heap[b].nbytes);
    assert st2 == st1.(strings := st.strings[i := len + |data|]);
    assert st1.heap[b].bytes[..len + |data|] == st.heap[b].bytes[..len] + data;
    forall j | j in st.slices && j != i ensures Contents(st2, j) == Contents(st, j) {
      assert Apart(st.slices[j], Slice(b, len, |data|, {}));
    }
    ViewSet(st, st2, i, ViewOf(st)[i] + data);
  }

  /** Which block is being read into matters to nothing else. */
  lemma ReadingApart(st: State, st1: State, loose: set<nat>)
    requires Inv(st, loose) && st1 == st.(reading := st1.reading)
    ensures Inv(st1, loose) && ViewOf(st1) == ViewOf(st) && forall b :: Refs(st1, b) == Refs(st, b)
  {
    hide PoolsOk, BlockOk, Refs, SliceOk, Contents, ViewOf;
    forall x ensures Refs(st1, x) == Refs(st, x) { SameRefs(st, st1, x); }
    forall x | x in st1.heap ensures CountOk(st1, loose, x) { assert CountOk(st, loose, x); }
    forall i | i in st1.slices ensures SliceOk(st1, i) && Contents(st1, i) == Contents(st, i) {
      HeldBlock(st, loose, i);
      if i in st.strings { UnsharedOf(st, i); }
      SliceKeeps(st, st1, i);
      ContentsKeep(st, st1, i);
    }
    ViewKept(st, st1);
  }

  lemma AcquireFrame(st: State, b: nat)
    requires b in st.heap
    ensures var st1 := Acquire(st, b);
      && b in st1.heap && st1.heap[b].cls == st.heap[b].cls && st1.pools == st.pools && st1.slices == st.slices
      && st1.strings == st.strings && st1.bump == st.bump && st1.next == st.next && st1.reading == st.reading
  {
  }

  lemma SpliceNothing(s: seq<byte>, at: nat)
    requires at <= |s|
    ensures Splice(s, at, []) == s
  {
  }

  lemma StringHeld(st: State, loose: set<nat>, b: nat, until: nat, len: nat)
    requires Inv(st, loose) && b in loose && b in st.heap && len < until <= st.heap[b].size
    ensures var st1 := HoldString(st, b, until, len);
      Inv(st1, loose - {b}) && st.next !in st.slices && ViewOf(st1) == ViewOf(st)[st.next := Range(st.heap[b], 0, len)]
  {
    hide Inv, Contents;
    HoldStringKeeps(st, loose, b, until, len);
    ViewSet(st, HoldString(st, b, until, len), st.next, Range(st.heap[b], 0, len));
  }

  /** The NUL behind a private string is not one of its characters. */
  lemma StringNull(st: State, loose: set<nat>, i: nat)
    requires Inv(st, loose) && i in st.strings && i in st.slices && st.slices[i].mb in st.heap
    requires st.strings[i] < st.slices[i].until <= |st.heap[st.slices[i].mb].bytes|
    ensures var st1 := Write(st, st.slices[i].mb, st.strings[i], [0]);
      Inv(st1, loose) && ViewOf(st1) == ViewOf(st)
  {
    hide Inv, Contents, ViewOf, Splice, SliceOk;
    var b, len := st.slices[i].mb, st.strings[i];
    HeldBlock(st, loose, i);
    UnsharedOf(st, i);
    WriteKeeps(st, loose, b, len, [0]);
    var st1 := Write(st, b, len, [0]);
    SpliceSpec(st.heap[b].bytes, len, [0]);
    StringFacts(st, loose, i);
    StringFacts(st1, loose, i);
    assert st1.heap[b].bytes[..len] == st.heap[b].bytes[..len];
    forall j | j in st.slices ensures Contents(st1, j) == Contents(st, j) {
      if j == i { ViewAt(st, i); ViewAt(st1, i); } else { assert Apart(st.slices[j], Slice(b, len, 1, {})); }
    }
    ViewKept(st, st1);
  }

  lemma ViewAt(st: State, i: nat)
    requires i in st.slices
    ensures i in ViewOf(st) && ViewOf(st)[i] == Contents(st, i)
  {
  }

  /** Bytes copied to the front of a private string become its characters. */
  lemma StringCopied(st: State, loose: set<nat>, i: nat, data: seq<byte>)
    requires Inv(st, loose) && i in st.strings && i in st.slices && st.slices[i].mb in st.heap
    requires st.strings[i] <= |data| <= |st.heap[st.slices[i].mb].bytes|
    ensures var st1 := Write(st, st.slices[i].mb, 0, data);
      Inv(st1, loose) && ViewOf(st1) == ViewOf(st)[i := data[..st.strings[i]]]
  {
    hide Inv, Contents, ViewOf, Splice, SliceOk, BlockOk;
    var b, len := st.slices[i].mb, st.strings[i];
    HeldBlock(st, loose, i);
    UnsharedOf(st, i);
    WriteKeeps(st, loose, b, 0, data);
    var st1 := Write(st, b, 0, data);
    SpliceSpec(st.heap[b].bytes, 0, data);
    StringFacts(st1, loose, i);
    ViewAt(st1, i);
    assert st1.heap[b].bytes[..len] == data[..len];
    forall j | j in st.slices && j != i ensures Contents(st1, j) == Contents(st, j) {
      assert Apart(st.slices[j], Slice(b, 0, |data|, {}));
    }
    ViewSet(st, st1, i, data[..len]);
  }
}
