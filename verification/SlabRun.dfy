/** Whole runs of the buffer library: whatever Buffer.new, slice, concat and collection do to blocks,
    pools and reference counts, every live buffer is a byte string of its own. */
module SlabRun {
  import opened ByteSeq
  import opened SlabState
  import opened SlabHeap
  import MpackNumber
  import MpackWire
  import MpackWriter

  /** Calls of a Lua program; a handle is the number of the call that made the buffer. */
  datatype Op =
    | NewText(data: seq<byte>)
    | NewSize(size: nat)
    | Cut(h: nat, offset: nat, length: nat)
    | Join(h: nat, k: nat)
    | JoinText(h: nat, data: seq<byte>)
    | Collect(h: nat)

  /** What the program should see: the bytes of every buffer made so far, or None once it was
      collected or when the call was refused. */
  type Values = seq<Option<seq<byte>>>

  predicate Live(vs: Values, h: nat) { h < |vs| && vs[h].Some? }

  /** A run-time call with a buffer that is gone, or a request above 1 MiB or of no bytes, is none. */
  predicate Possible(vs: Values, op: Op) {
    match op
    case NewText(data) => 0 < |data| <= MAX_REQUEST
    case NewSize(size) => 0 < size <= MAX_REQUEST
    case Cut(h, _, _) => Live(vs, h)
    case Join(h, k) => Live(vs, h) && Live(vs, k) && |vs[h].value| + |vs[k].value| <= MAX_REQUEST
    case JoinText(h, data) => Live(vs, h) && |vs[h].value| + |data| <= MAX_REQUEST
    case Collect(h) => Live(vs, h)
  }

  /** The value semantics; `flip` is whether the second buffer of a concat lies immediately before
      the first. */
  function Apply(vs: Values, op: Op, flip: bool): Values {
    if !Possible(vs, op) then vs
    else match op
      case NewText(data) => vs + [Some(data)]
      case NewSize(size) => vs + [Some(seq(size, _ => 0))]
      case Cut(h, offset, length) =>
        var v, o := vs[h].value, if offset == 0 then 0 else offset - 1;
        vs + [if o < |v| && o + length <= |v| then Some(if length == 0 then v[o..] else v[o..o + length]) else None]
      case Join(h, k) => vs + [Some(if flip then vs[k].value + vs[h].value else vs[h].value + vs[k].value)]
      case JoinText(h, data) => vs + [Some(vs[h].value + data)]
      case Collect(h) => vs[h := None]
  }

  function ValuesAfter(ops: seq<Op>, flips: seq<bool>): Values
    requires |flips| == |ops|
  {
    if ops == [] then []
    else Apply(ValuesAfter(ops[..|ops| - 1], flips[..|ops| - 1]), ops[|ops| - 1], flips[|ops| - 1])
  }

  /** The heap holds the live values under their names, and nothing else is alive. */
  ghost predicate Shows(view: map<nat, seq<byte>>, names: seq<nat>, vs: Values) {
    && |names| == |vs|
    && (forall h | 0 <= h < |vs| && vs[h].Some? :: names[h] in view && view[names[h]] == vs[h].value)
    && (forall h, k | 0 <= h < k < |vs| && vs[h].Some? && vs[k].Some? :: names[h] != names[k])
    && (forall x | x in view :: exists h :: 0 <= h < |vs| && vs[h].Some? && names[h] == x)
  }

  lemma MakeShows(view: map<nat, seq<byte>>, names: seq<nat>, vs: Values, id: nat, v: seq<byte>)
    requires Shows(view, names, vs) && id !in view
    ensures Shows(view[id := v], names + [id], vs + [Some(v)])
  {
    var view1, names1, vs1 := view[id := v], names + [id], vs + [Some(v)];
    forall x | x in view1 ensures exists h :: 0 <= h < |vs1| && vs1[h].Some? && names1[h] == x {
      if x == id {
        assert vs1[|vs|].Some? && names1[|vs|] == x;
      } else {
        var h :| 0 <= h < |vs| && vs[h].Some? && names[h] == x;
        assert vs1[h].Some? && names1[h] == x;
      }
    }
  }

  lemma RefuseShows(view: map<nat, seq<byte>>, names: seq<nat>, vs: Values)
    requires Shows(view, names, vs)
    ensures Shows(view, names + [0], vs + [None])
  {
    var names1, vs1 := names + [0], vs + [None];
    forall x | x in view ensures exists h :: 0 <= h < |vs1| && vs1[h].Some? && names1[h] == x {
      var h :| 0 <= h < |vs| && vs[h].Some? && names[h] == x;
      assert vs1[h].Some? && names1[h] == x;
    }
  }

  lemma CollectShows(view: map<nat, seq<byte>>, names: seq<nat>, vs: Values, h: nat)
    requires Shows(view, names, vs) && Live(vs, h)
    ensures Shows(view - {names[h]}, names, vs[h := None])
  {
    var view1, vs1 := view - {names[h]}, vs[h := None];
    forall x | x in view1 ensures exists k :: 0 <= k < |vs1| && vs1[k].Some? && names[k] == x {
      var k :| 0 <= k < |vs| && vs[k].Some? && names[k] == x;
      assert vs1[k].Some? && names[k] == x;
    }
  }

  /** The second buffer of a possible concat lies directly in front of the first. */
  ghost predicate Flips(st: State, names: seq<nat>, vs: Values, op: Op) {
    && op.Join? && Possible(vs, op) && |vs| <= |names|
    && names[op.h] in st.slices && names[op.k] in st.slices
    && var first, second := st.slices[names[op.h]], st.slices[names[op.k]];
      second.mb == first.mb && second.off + second.until == first.off
  }

  /** What the slab's invariant says: a block is pooled once or not at all; a pooled block is not
      referred to, has its own class's size, and no pool is over its limit; any other block's count is
      its live slices plus one for the bump block; buffers of different allocations never overlap, and
      lie below their block's counted bytes. */
  ghost predicate Owned(st: State) {
    && (forall b | b in st.heap && !Pooled(st.pools, b) ::
      st.heap[b].refcount == |SliceRefs(st.slices, b)| + (if st.bump == Some(b) then 1 else 0))
    && (forall b | b in st.heap && Pooled(st.pools, b) :: SliceRefs(st.slices, b) == {} && st.bump != Some(b))
    && PoolsOwned(st)
    && (forall i, j | i in st.slices && j in st.slices && st.slices[i].groups !! st.slices[j].groups ::
      Apart(st.slices[i], st.slices[j]))
    && forall i | i in st.slices && i !in st.strings ::
      var s := st.slices[i];
      s.mb in st.heap && !Pooled(st.pools, s.mb) && s.off + s.until <= st.heap[s.mb].size
      && (st.heap[s.mb].nbytes > 0 ==> s.off + s.until <= st.heap[s.mb].nbytes <= st.heap[s.mb].size)
  }

  ghost predicate PoolsOwned(st: State) {
    && |st.pools| == CLASSES && (forall c | 0 <= c < CLASSES :: |st.pools[c]| <= POOL_MIN[c])
    && (forall c, i | 0 <= c < CLASSES && 0 <= i < |st.pools[c]| ::
      st.pools[c][i] in st.heap && |st.heap[st.pools[c][i]].bytes| == CLASS_SIZE[c])
    && forall c, i, d, j | 0 <= c < CLASSES && 0 <= i < |st.pools[c]| && 0 <= d < CLASSES
      && 0 <= j < |st.pools[d]| ::
      st.pools[c][i] == st.pools[d][j] ==> c == d && i == j
  }

  /** Between two calls: the buffers have the values of the value semantics, under their names, and
      nothing else is alive; blocks, pools and counts are as they should be. */
  ghost predicate Sound(ops: seq<Op>, flips: seq<bool>, names: seq<nat>, st: State, i: nat)
    requires i <= |ops| && i <= |flips|
  {
    var vs := ValuesAfter(ops[..i], flips[..i]);
    |vs| <= |names| && Shows(ViewOf(st), names[..|vs|], vs) && Inv(st, {}) && Owned(st)
  }

  /** A concat is flipped exactly when its second buffer lies directly in front of the first. */
  ghost predicate FlipsRight(ops: seq<Op>, flips: seq<bool>, names: seq<nat>, st: State, i: nat)
    requires i < |ops| && i < |flips|
  {
    flips[i] <==> Flips(st, names, ValuesAfter(ops[..i], flips[..i]), ops[i])
  }

  /** Every run: `trace` is the slab before each call and at the end, and at each of these moments
      everything is sound; `flips` is which calls flipped their concat. */
  method Program(ops: seq<Op>)
    returns (slab: Slab, names: seq<nat>, flips: seq<bool>, ghost trace: seq<State>)
    ensures fresh(slab) && slab.Valid() && slab.strings == map[]
    ensures |flips| == |ops| && |trace| == |ops| + 1 && trace[|ops|] == slab.S() && ViewOf(trace[0]) == map[]
    ensures forall i | 0 <= i <= |ops| :: Sound(ops, flips, names, trace[i], i)
    ensures forall i | 0 <= i < |ops| :: FlipsRight(ops, flips, names, trace[i], i)
    ensures Shows(slab.View(), names, ValuesAfter(ops, flips))
  {
    hide Inv, ViewOf, Shows, Apply, ValuesAfter, Sound, FlipsRight, Flips;
    slab := new Slab();
    names, flips := [], [];
    var vs: Values := [];
    trace := [slab.S()];
    NoValues();
    SoundNow(ops, [], [], slab.S(), [], 0);
    var i := 0;
    while i < |ops|
      invariant i <= |ops| && |flips| == i && fresh(slab) && slab.Valid() && slab.strings == map[]
        && slab.reading == None
      invariant |trace| == i + 1 && trace[i] == slab.S() && ViewOf(trace[0]) == map[]
      invariant vs == ValuesAfter(ops[..i], flips) && Shows(slab.View(), names, vs)
      invariant forall j | 0 <= j <= i :: Sound(ops, flips, names, trace[j], j)
      invariant forall j | 0 <= j < i :: FlipsRight(ops, flips, names, trace[j], j)
    {
      ghost var names0, flips0, vs0 := names, flips, vs;
      var flip;
      ghost var st := slab.S();
      names, flip := Call(slab, names, ops[i], vs);
      NextValues(ops, i, flips, flip);
      vs := Apply(vs, ops[i], flip);
      flips := flips + [flip];
      trace := trace + [slab.S()];
      EarlierStay(ops, flips0, flip, names0, names, trace, i);
      FlipNow(ops, flips0, flip, names0, names, st, vs0, i);
      SoundNow(ops, flips, names, slab.S(), vs, i + 1);
      i := i + 1;
    }
    assert ops[..i] == ops;
  }

  lemma NoValues()
    ensures ValuesAfter([], []) == [] && Shows(map[], [], [])
  {
  }

  lemma SoundNow(ops: seq<Op>, flips: seq<bool>, names: seq<nat>, st: State, vs: Values, i: nat)
    requires i <= |ops| && i == |flips| && vs == ValuesAfter(ops[..i], flips) && Shows(ViewOf(st), names, vs)
    requires Inv(st, {})
    ensures Sound(ops, flips, names, st, i)
  {
    hide Inv, ViewOf, Apply, ValuesAfter, Owned;
    assert flips[..i] == flips && names[..|vs|] == names;
    Ownership(st, {});
  }

  /** A call adds names and its own flip; what was sound before stays so. */
  lemma EarlierStay(ops: seq<Op>, flips: seq<bool>, flip: bool, names: seq<nat>, names1: seq<nat>,
                    trace: seq<State>, i: nat)
    requires |flips| == i < |ops| && i < |trace| && names <= names1
    requires forall j | 0 <= j <= i :: Sound(ops, flips, names, trace[j], j)
    requires forall j | 0 <= j < i :: FlipsRight(ops, flips, names, trace[j], j)
    ensures forall j | 0 <= j <= i :: Sound(ops, flips + [flip], names1, trace[j], j)
    ensures forall j | 0 <= j < i :: FlipsRight(ops, flips + [flip], names1, trace[j], j)
  {
    hide Inv, ViewOf, Apply, ValuesAfter, Owned, Shows, Possible;
    var flips1 := flips + [flip];
    forall j | 0 <= j <= i ensures Sound(ops, flips1, names1, trace[j], j) {
      assert flips1[..j] == flips[..j] && Sound(ops, flips, names, trace[j], j);
      var vs := ValuesAfter(ops[..j], flips[..j]);
      assert names1[..|vs|] == names[..|vs|];
    }
    forall j | 0 <= j < i ensures FlipsRight(ops, flips1, names1, trace[j], j) {
      assert flips1[..j] == flips[..j] && flips1[j] == flips[j] && FlipsRight(ops, flips, names, trace[j], j);
      assert Sound(ops, flips, names, trace[j], j);
      FlipsKept(trace[j], names, names1, ValuesAfter(ops[..j], flips[..j]), ops[j]);
    }
  }

  lemma FlipsKept(st: State, names: seq<nat>, names1: seq<nat>, vs: Values, op: Op)
    requires |vs| <= |names| && names <= names1
    ensures Flips(st, names, vs, op) <==> Flips(st, names1, vs, op)
  {
    if op.Join? && Possible(vs, op) {
      assert names1[op.h] == names[op.h] && names1[op.k] == names[op.k];
    }
  }

  lemma FlipNow(ops: seq<Op>, flips: seq<bool>, flip: bool, names: seq<nat>, names1: seq<nat>, st: State, vs: Values,
                i: nat)
    requires |flips| == i < |ops| && vs == ValuesAfter(ops[..i], flips) && |vs| <= |names| && names <= names1
    requires flip <==> Flips(st, names, vs, ops[i])
    ensures FlipsRight(ops, flips + [flip], names1, st, i)
  {
    hide Flips, ValuesAfter;
    FlipsKept(st, names, names1, vs, ops[i]);
    assert (flips + [flip])[..i] == flips;
  }

  lemma NextValues(ops: seq<Op>, i: nat, flips: seq<bool>, flip: bool)
    requires i < |ops| && |flips| == i
    ensures ValuesAfter(ops[..i + 1], flips + [flip]) == Apply(ValuesAfter(ops[..i], flips), ops[i], flip)
  {
    hide Apply;
    assert ops[..i + 1][..i] == ops[..i] && (flips + [flip])[..i] == flips;
  }

  lemma ShownValue(view: map<nat, seq<byte>>, names: seq<nat>, vs: Values, h: nat)
    requires Shows(view, names, vs) && Live(vs, h)
    ensures h < |names| && names[h] in view && view[names[h]] == vs[h].value
  {
  }

  lemma ShownLive(view: map<nat, seq<byte>>, names: seq<nat>, vs: Values)
    requires Shows(view, names, vs)
    ensures |names| == |vs|
  {
  }

  /** One call. Whether it is possible depends on what is alive, which a Lua program knows. */
  method Call(slab: Slab, names: seq<nat>, op: Op, vs: Values) returns (names1: seq<nat>, flip: bool)
    requires slab.Valid() && slab.strings == map[] && slab.reading == None && Shows(slab.View(), names, vs)
    modifies slab
    ensures slab.Valid() && slab.strings == map[] && slab.reading == None
    ensures Shows(slab.View(), names1, Apply(vs, op, flip))
    ensures |names| == |vs| && names <= names1
    ensures flip == Flips(old(slab.S()), names, vs, op)
  {
    hide Inv, ViewOf, Shows;
    names1, flip := names, false;
    ShownLive(slab.View(), names, vs);
    ViewKeys(slab.S());
    if !Possible(vs, op) {
      return;
    }
    ghost var view := slab.View();
    match op
    case NewText(data) =>
      var id := slab.BufferNew(|data|, Some(data));
      assert slab.View()[id] == data;
      names1 := names + [id];
      MakeShows(view, names, vs, id, data);
    case NewSize(size) =>
      var id := slab.BufferNew(size, None);
      assert slab.View()[id] == seq(size, _ => 0);
      names1 := names + [id];
      MakeShows(view, names, vs, id, seq(size, _ => 0));
    case Cut(h, offset, length) =>
      ShownValue(view, names, vs, h);
      var id := slab.BufferSlice(names[h], offset, length);
      if id.Some? {
        names1 := names + [id.value];
        MakeShows(view, names, vs, id.value, slab.View()[id.value]);
      } else {
        names1 := names + [0];
        RefuseShows(view, names, vs);
      }
    case Join(h, k) =>
      ShownValue(view, names, vs, h);
      ShownValue(view, names, vs, k);
      flip := slab.Precedes(names[k], names[h]);
      var id := slab.BufferConcat(names[h], Buffer(names[k]));
      names1 := names + [id];
      MakeShows(view, names, vs, id, slab.View()[id]);
    case JoinText(h, data) =>
      ShownValue(view, names, vs, h);
      var id := slab.BufferConcat(names[h], Text(data));
      names1 := names + [id];
      MakeShows(view, names, vs, id, slab.View()[id]);
    case Collect(h) =>
      ShownValue(view, names, vs, h);
      slab.BufferGc(names[h]);
      CollectShows(view, names, vs, h);
  }

  lemma Ownership(st: State, loose: set<nat>)
    requires Inv(st, loose)
    ensures Owned(st)
  {
    hide PoolsOk;
    PoolsMean(st, loose);
    forall b | b in st.heap && !Pooled(st.pools, b)
      ensures st.heap[b].refcount == |SliceRefs(st.slices, b)| + (if st.bump == Some(b) then 1 else 0)
    {
      assert CountOk(st, loose, b);
    }
    forall b | b in st.heap && Pooled(st.pools, b) ensures SliceRefs(st.slices, b) == {} && st.bump != Some(b) {
      assert CountOk(st, loose, b);
    }
    forall i | i in st.slices ensures !Pooled(st.pools, st.slices[i].mb) && SliceOk(st, i) {
      HeldBlock(st, loose, i);
    }
  }

  lemma PoolsMean(st: State, loose: set<nat>)
    requires Inv(st, loose)
    ensures PoolsOwned(st)
  {
  }

  /** A flipped concat comes about as soon as two texts are made one after the other and the second is
      joined to the first: the second lies right behind the first when both fit in the first's block,
      and `second .. first` then gives them the wrong way round. It does not when they do not fit. */
  method TwoTexts(x: seq<byte>, y: seq<byte>) returns (slab: Slab, names: seq<nat>, ghost flip: bool)
    requires x != [] && y != [] && |x| + |y| <= MAX_REQUEST
    ensures fresh(slab) && slab.Valid()
    ensures flip <==> |x| + |y| <= CLASS_SIZE[ClassOf(|x|).value]
    ensures Shows(slab.View(), names, ValuesAfter([NewText(x), NewText(y), Join(1, 0)], [false, false, flip]))
    ensures |names| == 3 && names[2] in slab.View() && slab.View()[names[2]] == if flip then x + y else y + x
  {
    hide Inv, ViewOf, Shows, ValuesAfter;
    slab := new Slab();
    var a := slab.BufferNew(|x|, Some(x));
    assert slab.View()[a] == x;
    var b := slab.BufferNew(|y|, Some(y));
    assert slab.View()[b] == y;
    assert slab.View() == map[a := x, b := y];
    ViewKeys(slab.S());
    flip := slab.Precedes(a, b);
    var c := slab.BufferConcat(b, Buffer(a));
    names := [a, b, c];
    ThreeShown(a, b, c, x, y, slab.View()[c]);
    ThreeValues(x, y, flip);
  }

  lemma ThreeShown(a: nat, b: nat, c: nat, x: seq<byte>, y: seq<byte>, z: seq<byte>)
    requires a != b && a != c && b != c
    ensures Shows(map[a := x, b := y, c := z], [a, b, c], [Some(x), Some(y), Some(z)])
  {
    var names, vs := [a, b, c], [Some(x), Some(y), Some(z)];
    assert names[0] == a && names[1] == b && names[2] == c && vs[0].Some? && vs[1].Some? && vs[2].Some?;
  }

  lemma ThreeValues(x: seq<byte>, y: seq<byte>, flip: bool)
    requires x != [] && y != [] && |x| + |y| <= MAX_REQUEST
    ensures ValuesAfter([NewText(x), NewText(y), Join(1, 0)], [false, false, flip])
         == [Some(x), Some(y), Some(if flip then x + y else y + x)]
  {
    hide Apply, ValuesAfter;
    var ops: seq<Op>, flips := [NewText(x), NewText(y), Join(1, 0)], [false, false, flip];
    NoValues();
    LastValues(ops, flips);
    assert ops[..2] == [NewText(x), NewText(y)] && flips[..2] == [false, false];
    LastValues(ops[..2], flips[..2]);
    assert ops[..2][..1] == [NewText(x)] && flips[..2][..1] == [false];
    LastValues([NewText(x)], [false]);
    assert [NewText(x)][..0] == [] && [false][..0] == [];
    ThreeCalls(x, y, flip);
  }

  lemma LastValues(ops: seq<Op>, flips: seq<bool>)
    requires |ops| == |flips| > 0
    ensures var n := |ops| - 1; ValuesAfter(ops, flips) == Apply(ValuesAfter(ops[..n], flips[..n]), ops[n], flips[n])
  {
    hide Apply;
  }

  lemma ThreeCalls(x: seq<byte>, y: seq<byte>, flip: bool)
    requires x != [] && y != [] && |x| + |y| <= MAX_REQUEST
    ensures Apply([], NewText(x), false) == [Some(x)] && Apply([Some(x)], NewText(y), false) == [Some(x), Some(y)]
    ensures Apply([Some(x), Some(y)], Join(1, 0), flip) == [Some(x), Some(y), Some(if flip then x + y else y + x)]
  {
  }

  /** mp.pack: a value that has a message of at most 1 MiB becomes a new buffer of exactly that
      message; the slab always has a block for it. Otherwise no block is touched. */
  method MpPack(slab: Slab, cast: MpackNumber.Cast, v: MpackWire.Value) returns (id: Option<nat>)
    requires slab.Valid() && MpackWire.Packable(v)
    modifies slab
    ensures slab.Valid() && slab.strings == old(slab.strings) && slab.reading == old(slab.reading)
    ensures id.Some? <==> MpackWire.Faults(v) == {} && |MpackWire.Encode(cast, v)| <= MpackWriter.CAPACITY
    ensures id.None? ==> slab.S() == old(slab.S())
    ensures id.Some? ==>
      id.value !in old(slab.View()) && slab.View() == old(slab.View())[id.value := MpackWire.Encode(cast, v)]
  {
    hide Inv, ViewOf, MpackWire.Encode, MpackWire.Faults;
    var r := MpackWriter.Pack(cast, v);
    match r
    case Packed(bytes) =>
      MpackWire.NeverEmpty(cast, v);
      var b := slab.PackBuffer(bytes);
      id := Some(b);
    case Refused(_) => id := None;
  }
}
