/** Which byte strings the framer takes: exactly the beginnings of streams of well-formed messages, as
    far as its stack suffices and no 32-bit count is beyond an int. A stream is looked at as a list of
    items, the headers and leaves of its messages one after the other. */
module MpackItems {
  import opened ByteSeq
  import opened MpackWire
  import opened MpackFramer
  import opened MpackFraming

  // ---------------------------------------------------------------- type bytes

  /** A well-formed message begins with the byte. */
  ghost predicate Begins(ch: byte) {
    exists w :: WellFormed(w) && Bytes(w)[0] == ch
  }

  function Zeros(n: nat): (s: seq<byte>)
    ensures |s| == n
  {
    seq(n, _ => 0)
  }

  function Nils(n: nat): (ws: seq<Wire>)
    ensures |ws| == n && forall w :: w in ws ==> w == Small(0xc0)
  {
    seq(n, _ => Small(0xc0))
  }

  /** A message that begins with the byte, where there is one. */
  function Sample(ch: byte): Wire {
    if 0x80 <= ch <= 0x8f then Container(true, Fix, Nils(2 * (ch - 0x80)))
    else if 0x90 <= ch <= 0x9f then Container(false, Fix, Nils(ch - 0x90))
    else if 0xa0 <= ch <= 0xbf then Raw(Fix, Zeros(ch - 0xa0))
    else if 0xca <= ch <= 0xd3 then Scalar(ch, Zeros(PayloadSize(ch)))
    else if ch == 0xda then Raw(Wide16, [])
    else if ch == 0xdb then Raw(Wide32, [])
    else if ch == 0xdc then Container(false, Wide16, [])
    else if ch == 0xdd then Container(false, Wide32, [])
    else if ch == 0xde then Container(true, Wide16, [])
    else if ch == 0xdf then Container(true, Wide32, [])
    else Small(ch)
  }

  lemma SampleBegins(ch: byte)
    requires !Reserved(ch)
    ensures WellFormed(Sample(ch)) && Bytes(Sample(ch))[0] == ch
  {
    hide SizeBytes, BytesAll;
    NilIsWellFormed();
    if Sample(ch).Container? {
      SampleHeader(ch);
    }
  }

  lemma SampleHeader(ch: byte)
    requires Sample(ch).Container?
    ensures var w := Sample(ch); var n := Count(w.isMap, |w.items|);
      WellFormedCount(w.width, n) && ContainerHeader(w.isMap, w.width, n)[0] == ch
  {
    hide SizeBytes;
  }

  lemma NilIsWellFormed()
    ensures WellFormed(Small(0xc0))
  {
  }

  lemma FirstByte(w: Wire)
    requires WellFormed(w)
    ensures !Reserved(Bytes(w)[0]) && (w.Small? <==> IsSmall(Bytes(w)[0]))
  {
    hide SizeBytes, BytesAll;
    match w
    case Small(_) =>
    case Scalar(_, _) =>
    case Raw(_, _) =>
    case Container(isMap, width, items) => ContainerByte(isMap, width, Count(isMap, |items|));
  }

  lemma ContainerByte(isMap: bool, width: Width, n: nat)
    requires WellFormedCount(width, n)
    ensures var ch := ContainerHeader(isMap, width, n)[0]; !Reserved(ch) && !IsSmall(ch)
  {
    hide SizeBytes;
  }

  lemma ReservedBeginNothing(ch: byte)
    ensures Reserved(ch) <==> !Begins(ch)
  {
    hide WellFormed, Bytes;
    if !Reserved(ch) {
      SampleBegins(ch);
    }
    forall w | WellFormed(w) && Bytes(w)[0] == ch ensures !Reserved(ch) {
      FirstByte(w);
    }
  }

  lemma SmallOpensNothing(ch: byte)
    requires !Reserved(ch)
    ensures Opens(ch).None? <==> IsSmall(ch)
  {
  }

  /** Where a type byte is wanted, a byte is refused exactly when no message begins with it, or it needs
      an entry and the stack is full. */
  lemma RefusedBytes(f: Framer, ch: byte)
    requires NeedsBytes(f.stack).None?
    ensures Step(f, ch).None? <==> !Begins(ch) || (!IsSmall(ch) && |f.stack| >= STACK_SIZE)
  {
    hide Begins, Reserved, Opens, Progress, IsSmall;
    ReservedBeginNothing(ch);
    if !Reserved(ch) {
      SmallOpensNothing(ch);
    }
  }

  /** And where a size or data byte is wanted, none is. */
  lemma TakenBytes(f: Framer, ch: byte)
    requires NeedsBytes(f.stack).Some?
    ensures Step(f, ch).Some?
  {
    hide Progress, ProgressData;
  }

  // ---------------------------------------------------------------- items

  /** A message that is no container, or the header of a container. */
  datatype Item = Atom(w: Wire) | Begin(isMap: bool, width: Width, n: nat)

  predicate FitsWidth(width: Width, n: nat) {
    n < (match width case Fix => 16 case Wide16 => 0x1_0000 case Wide32 => 0x1_0000_0000)
  }

  ghost predicate Proper(i: Item) {
    match i
    case Atom(w) => WellFormed(w) && !w.Container?
    case Begin(_, width, n) => FitsWidth(width, n)
  }

  /** The count, where there is one, fits an int. */
  predicate Modest(i: Item) { i.Begin? ==> i.n < MAX_COUNT }

  ghost predicate ProperAll(items: seq<Item>) { forall i :: i in items ==> Proper(i) }

  ghost predicate ModestAll(items: seq<Item>) { forall i :: i in items ==> Proper(i) && Modest(i) }

  function ItemBytes(i: Item): (s: seq<byte>)
    ensures s != []
  {
    match i
    case Atom(w) => Bytes(w)
    case Begin(isMap, width, n) => ContainerHeader(isMap, width, n)
  }

  function ItemsBytes(items: seq<Item>): seq<byte> {
    if items == [] then [] else ItemBytes(items[0]) + ItemsBytes(items[1..])
  }

  lemma {:induction false} ItemsBytesConcat(a: seq<Item>, b: seq<Item>)
    ensures ItemsBytes(a + b) == ItemsBytes(a) + ItemsBytes(b)
  {
    if a == [] {
      assert a + b == b;
    } else {
      assert (a + b)[1..] == a[1..] + b;
      ItemsBytesConcat(a[1..], b);
    }
  }

  // ---------------------------------------------------------------- every byte string is items

  /** One of two byte strings continues the other. */
  predicate Agree(a: seq<byte>, b: seq<byte>) { a <= b || b <= a }

  /** The first n bytes, with zeros behind them where there are fewer. */
  function Padded(s: seq<byte>, n: nat): (r: seq<byte>)
    ensures |r| == n && Agree(r, s)
  {
    if |s| <= n then s + Zeros(n - |s|) else s[..n]
  }

  lemma AgreeBehind(h: seq<byte>, t: seq<byte>, s: seq<byte>)
    requires Agree(h, s) && (|h| <= |s| ==> Agree(t, s[|h|..]))
    ensures Agree(h + t, s)
  {
    if |h| <= |s| {
      assert s == h + s[|h|..];
    } else {
      assert s <= h <= h + t;
    }
  }

  function WidthOf(ch: byte): Width {
    if ch < 0xda then Fix else if ch % 2 == 0 then Wide16 else Wide32
  }

  /** The size that the byte string announces, with zeros for what is missing of it. */
  function Announced(s: seq<byte>): nat
    requires s != []
  {
    var ch := s[0];
    if 0x80 <= ch < 0x90 then ch - 0x80
    else if 0x90 <= ch < 0xa0 then ch - 0x90
    else if 0xa0 <= ch < 0xda then ch - 0xa0
    else FromBigEndian(Padded(s[1..], if ch % 2 == 0 then 2 else 4))
  }

  lemma AnnouncedFits(s: seq<byte>)
    requires s != [] && (0x80 <= s[0] < 0xc0 || 0xda <= s[0] <= 0xdf)
    ensures var n, width := Announced(s), WidthOf(s[0]);
      if 0xa0 <= s[0] < 0xdc then
        WellFormedRaw(width, n) && Agree(RawHeader(width, n), s) && RawHeader(width, n)[0] == s[0]
      else
        var h := ContainerHeader(s[0] < 0x90 || s[0] >= 0xde, width, n);
        FitsWidth(width, n) && Agree(h, s) && h[0] == s[0]
  {
    hide BigEndian, FromBigEndian, Announced, SizeBytes;
    SizeAnnounced(s);
    AgreeBehind([s[0]], SizeBytes(WidthOf(s[0]), Announced(s)), s);
  }

  lemma SizeAnnounced(s: seq<byte>)
    requires s != [] && (0x80 <= s[0] < 0xc0 || 0xda <= s[0] <= 0xdf)
    ensures var n, width := Announced(s), WidthOf(s[0]);
      && Agree(SizeBytes(width, n), s[1..])
      && (width == Wide16 ==> n < 0x1_0000) && (width == Wide32 ==> n < 0x1_0000_0000)
      && (width == Fix ==> n == s[0] - (if s[0] < 0x90 then 0x80 else if s[0] < 0xa0 then 0x90 else 0xa0))
  {
    hide BigEndian, FromBigEndian;
    if s[0] >= 0xda {
      BigEndianInverts(Padded(s[1..], if s[0] % 2 == 0 then 2 else 4));
      Powers();
    }
  }

  /** Whatever a non-reserved byte begins, it agrees with an item. */
  function FirstItem(s: seq<byte>): Item
    requires s != []
  {
    var ch, n, width := s[0], Announced(s), WidthOf(s[0]);
    if IsSmall(ch) then Atom(Small(ch))
    else if 0xca <= ch <= 0xd3 then Atom(Scalar(ch, Padded(s[1..], PayloadSize(ch))))
    else if ch < 0xa0 || ch >= 0xdc then Begin(ch < 0x90 || ch >= 0xde, width, n)
    else
      var h := RawHeader(width, n);
      Atom(Raw(width, if |h| <= |s| then Padded(s[|h|..], n) else Zeros(n)))
  }

  lemma FirstItemAgrees(s: seq<byte>)
    requires s != [] && !Reserved(s[0])
    ensures Proper(FirstItem(s)) && Agree(ItemBytes(FirstItem(s)), s)
  {
    hide BigEndian, FromBigEndian, Announced, RawHeader, ContainerHeader;
    var ch := s[0];
    if IsSmall(ch) {
    } else if 0xca <= ch <= 0xd3 {
      AgreeBehind([ch], Padded(s[1..], PayloadSize(ch)), s);
    } else {
      AnnouncedFits(s);
      if 0xa0 <= ch < 0xdc {
        var w := FirstItem(s).w;
        AgreeBehind(RawHeader(w.width, |w.bytes|), w.bytes, s);
      }
    }
  }

  // ---------------------------------------------------------------- running an item

  /** The header of an item with data or elements. */
  lemma RunHead(f: Framer, ch: byte, size: seq<byte>)
    requires NeedsBytes(f.stack).None? && |f.stack| < STACK_SIZE && !Reserved(ch) && Opens(ch).Some?
    requires |size| == SizeSize(Opens(ch).value.0)
    ensures var (t, want) := Opens(ch).value; var n := FromBigEndian(size);
      var e := Ent(t, if size == [] then want else if IsMapKind(t) then 2 * n else n, 0, size);
      Run(f, [ch] + size) ==
        Ran(if size == [] && want == 0 then Progress(f, 0) else f.(stack := f.stack + [e]), true)
  {
    hide BigEndian, FromBigEndian, Run, Opens, Reserved, IsMapKind;
    var (t, want) := Opens(ch).value;
    RunUnfold(f, [ch] + size);
    assert ([ch] + size)[1..] == size;
    var e := Ent(t, want, 0, []);
    PushPop(f.stack, e);
    var g := Push(f, t, want).value;
    if size == [] {
      RunUnfold(g, []);
    } else {
      BigEndianInverts(size);
      Powers();
      RunSize(g, e, FromBigEndian(size));
    }
  }

  lemma BeginParts(i: Item)
    requires Proper(i) && i.Begin?
    ensures var h := ItemBytes(i); var ch := h[0];
      && !Reserved(ch) && Opens(ch).Some? && IsContainer(Opens(ch).value.0)
      && |h| == 1 + SizeSize(Opens(ch).value.0) && (i.width == Fix <==> |h| == 1)
  {
    hide BigEndian;
  }

  /** A value that is complete in its type byte. */
  predicate Light(i: Item) { i.Atom? && i.w.Small? }

  /** An item is taken exactly when it needs no stack entry or one is free. */
  lemma RunItem(f: Framer, i: Item)
    requires Ready(f.stack) && Proper(i)
    ensures if Light(i) || |f.stack| < STACK_SIZE
      then Run(f, ItemBytes(i)).ok && Ready(Run(f, ItemBytes(i)).f.stack)
      else Run(f, ItemBytes(i)) == Ran(f, false)
  {
    hide Run, Settle, ItemBytes, Proper, Reserved, Opens, IsSmall, Step;
    var s := ItemBytes(i);
    ReadyTakesType(f.stack);
    SettleOpen(f.stack, 0);
    RunUnfold(f, s);
    if |f.stack| >= STACK_SIZE {
      RunFull(f, i);
    } else if i.Atom? {
      RunAtom(f, i);
    } else {
      BeginParts(i);
      RunHead(f, s[0], s[1..]);
      assert s == [s[0]] + s[1..];
    }
  }

  lemma RunFull(f: Framer, i: Item)
    requires Ready(f.stack) && Proper(i) && |f.stack| >= STACK_SIZE
    ensures if Light(i)
      then Run(f, ItemBytes(i)).ok && Ready(Run(f, ItemBytes(i)).f.stack)
      else Run(f, ItemBytes(i)) == Ran(f, false)
  {
    hide Settle, Step, Run, ItemBytes, Proper, Reserved, Opens, IsSmall, Begins;
    var s := ItemBytes(i);
    ReadyTakesType(f.stack);
    RunUnfold(f, s);
    RefusedBytes(f, s[0]);
    ReservedBeginNothing(s[0]);
    ItemBegins(i);
    if Light(i) {
      LightRuns(f, s[0]);
      assert s == [s[0]];
    }
  }

  lemma ItemBegins(i: Item)
    requires Proper(i)
    ensures !Reserved(ItemBytes(i)[0]) && (Light(i) <==> IsSmall(ItemBytes(i)[0]))
    ensures Light(i) ==> |ItemBytes(i)| == 1
  {
    hide Bytes, ContainerHeader, WellFormed, Reserved, Opens, IsSmall;
    match i
    case Atom(w) =>
      FirstByte(w);
      LightBytes(w);
    case Begin(_, _, _) =>
      BeginParts(i);
      SmallOpensNothing(ItemBytes(i)[0]);
  }

  lemma LightBytes(w: Wire)
    ensures w.Small? ==> Bytes(w) == [w.tag]
  {
  }

  lemma LightRuns(f: Framer, ch: byte)
    requires Ready(f.stack) && IsSmall(ch)
    ensures Run(f, [ch]).ok && Ready(Run(f, [ch]).f.stack)
  {
    hide Settle, Run;
    ReadyTakesType(f.stack);
    RunUnfold(f, [ch]);
    SettleOpen(f.stack, ch);
    assert [ch][1..] == [];
    RunUnfold(Progress(f, ch), []);
  }

  lemma RunAtom(f: Framer, i: Item)
    requires Ready(f.stack) && Proper(i) && i.Atom? && |f.stack| < STACK_SIZE
    ensures Run(f, ItemBytes(i)).ok && Ready(Run(f, ItemBytes(i)).f.stack)
  {
    hide Run, Settle, Step, BytesAll, SizeBytes;
    var w := i.w;
    SettleOpen(f.stack, 0);
    ReadyTakesType(f.stack);
    if w.Raw? {
      HeaderOpens(w);
      RunHeader(f, w);
      RunConcat(f, Header(w), w.bytes);
      if w.bytes == [] {
        RunUnfold(Run(f, Header(w)).f, []);
      } else {
        RunData(f, Opened(w), w.bytes);
      }
    } else {
      RunLeaf(f, w);
    }
  }

  // ---------------------------------------------------------------- what is taken is items

  /** A 32-bit container begins at p whose count is beyond an int. */
  predicate HugeAt(s: seq<byte>, p: nat) {
    p + 1 < |s| && s[p] in {0xdd, 0xdf} && s[p + 1] >= 0x80
  }

  ghost predicate HugeBehind(s: seq<byte>, items: seq<Item>) {
    ModestAll(items) && ItemsBytes(items) <= s && HugeAt(s, |ItemsBytes(items)|)
  }

  /** Such a container begins behind complete items. */
  ghost predicate Huge(s: seq<byte>) {
    exists items :: HugeBehind(s, items)
  }

  lemma TopByte(n: nat)
    requires n < 0x1_0000_0000
    ensures BigEndian(n, 4)[0] >= 0x80 <==> n >= MAX_COUNT
  {
    assert BigEndian(n, 4) == BigEndian(n / 0x100, 3) + [n % 0x100];
    assert BigEndian(n / 0x100, 3) == BigEndian(n / 0x1_0000, 2) + [n / 0x100 % 0x100];
    assert BigEndian(n / 0x1_0000, 2) == [n / 0x100_0000] + [n / 0x1_0000 % 0x100];
  }

  /** An item that is not modest shows in the bytes, once its first size byte is there. */
  lemma ImmodestIsHuge(s: seq<byte>)
    requires s != [] && !Reserved(s[0])
    ensures Modest(FirstItem(s)) || HugeAt(s, 0)
  {
    hide BigEndian, FromBigEndian;
    var i := FirstItem(s);
    if !Modest(i) {
      var size := Padded(s[1..], 4);
      FirstItemAgrees(s);
      BigEndianInverts(size);
      TopByte(i.n);
    }
  }

  lemma HugeInFront(s: seq<byte>)
    requires HugeAt(s, 0)
    ensures Huge(s)
  {
    var none: seq<Item> := [];
    assert HugeBehind(s, none);
  }

  lemma HugeLater(i: Item, s: seq<byte>)
    requires Proper(i) && Modest(i) && Huge(s)
    ensures Huge(ItemBytes(i) + s)
  {
    hide Proper, ItemBytes;
    var items :| HugeBehind(s, items);
    assert ([i] + items)[1..] == items;
    assert HugeBehind(ItemBytes(i) + s, [i] + items);
  }

  /** What the framer takes at a type byte begins a sequence of items. */
  lemma {:induction false} TakenIsItems(f: Framer, s: seq<byte>)
    requires Ready(f.stack) && Run(f, s).ok
    ensures Huge(s) || exists items :: ModestAll(items) && s <= ItemsBytes(items)
    decreases |s|
  {
    hide Run, Step, Proper, Modest, ItemBytes, Huge, HugeAt, FirstItem;
    if s == [] {
      var none: seq<Item> := [];
      assert ModestAll(none) && s <= ItemsBytes(none);
    } else {
      RunUnfold(f, s);
      ReadyTakesType(f.stack);
      RefusedBytes(f, s[0]);
      ReservedBeginNothing(s[0]);
      FirstItemAgrees(s);
      ImmodestIsHuge(s);
      if HugeAt(s, 0) {
        HugeInFront(s);
      } else {
        TakenBehind(f, s, FirstItem(s));
      }
    }
  }

  lemma {:induction false} TakenBehind(f: Framer, s: seq<byte>, i: Item)
    requires Ready(f.stack) && Run(f, s).ok && Proper(i) && Modest(i) && Agree(ItemBytes(i), s)
    ensures Huge(s) || exists items :: ModestAll(items) && s <= ItemsBytes(items)
    decreases |s|, 0
  {
    hide Run, Proper, Modest, ItemBytes, Huge;
    var b := ItemBytes(i);
    if s <= b {
      var one := [i];
      assert ItemsBytes(one) == b + ItemsBytes(one[1..]);
      assert ModestAll(one) && s <= ItemsBytes(one);
    } else {
      var rest := s[|b|..];
      assert s == b + rest;
      RunConcat(f, b, rest);
      RunItem(f, i);
      TakenIsItems(Run(f, b).f, rest);
      if Huge(rest) {
        HugeLater(i, rest);
      } else {
        var items :| ModestAll(items) && rest <= ItemsBytes(items);
        assert ([i] + items)[1..] == items;
        assert ModestAll([i] + items) && s <= ItemsBytes([i] + items);
      }
    }
  }

  /** And whatever begins a sequence of items is taken, unless the stack is full. */
  lemma {:induction false} ItemsAreTaken(f: Framer, items: seq<Item>, s: seq<byte>)
    requires Ready(f.stack) && ProperAll(items) && s <= ItemsBytes(items)
    ensures Run(f, s).ok || |Run(f, s).f.stack| >= STACK_SIZE
    decreases items
  {
    hide Run, Proper, ItemBytes;
    if items == [] {
      RunUnfold(f, s);
    } else {
      var b := ItemBytes(items[0]);
      RunItem(f, items[0]);
      if |s| <= |b| {
        assert b == s + b[|s|..];
        RunConcat(f, s, b[|s|..]);
      } else {
        assert s == b + s[|b|..];
        RunConcat(f, b, s[|b|..]);
        if Run(f, b).ok {
          ItemsAreTaken(Run(f, b).f, items[1..], s[|b|..]);
        }
      }
    }
  }

  // ---------------------------------------------------------------- items and messages

  /** How many elements the header asks for. */
  function Elements(i: Item): nat
    requires i.Begin?
  {
    if i.isMap then 2 * i.n else i.n
  }

  /** Messages that the items begin: a header takes what the items behind it make, and nil for what
      they do not. */
  function Built(items: seq<Item>): seq<Wire> {
    if items == [] then [] else
    var rest := Built(items[1..]);
    match items[0]
    case Atom(w) => [w] + rest
    case Begin(isMap, width, n) =>
      var k := Elements(items[0]);
      if |rest| < k then [Container(isMap, width, rest + Nils(k - |rest|))]
      else [Container(isMap, width, rest[..k])] + rest[k..]
  }

  ghost predicate WellFormedAll(ws: seq<Wire>) { forall w :: w in ws ==> WellFormed(w) }

  lemma {:induction false} ItemsBeginMessages(items: seq<Item>)
    requires ModestAll(items)
    ensures WellFormedAll(Built(items)) && ItemsBytes(items) <= BytesAll(Built(items))
  {
    hide WellFormed, ContainerHeader;
    if items != [] {
      ItemsBeginMessages(items[1..]);
      var rest := Built(items[1..]);
      assert Proper(items[0]) && Modest(items[0]);
      match items[0]
      case Atom(w) => assert ([w] + rest)[1..] == rest;
      case Begin(isMap, width, n) => HeaderTakes(isMap, width, n, rest);
    }
  }

  lemma HeaderTakes(isMap: bool, width: Width, n: nat, rest: seq<Wire>)
    requires WellFormedCount(width, n) && WellFormedAll(rest)
    ensures var k := Elements(Begin(isMap, width, n));
      var ws := if |rest| < k then [Container(isMap, width, rest + Nils(k - |rest|))]
        else [Container(isMap, width, rest[..k])] + rest[k..];
      WellFormedAll(ws) && ContainerHeader(isMap, width, n) + BytesAll(rest) <= BytesAll(ws)
  {
    hide ContainerHeader, BytesAll, WellFormed, Bytes;
    var k := Elements(Begin(isMap, width, n));
    var taken := if |rest| < k then rest + Nils(k - |rest|) else rest[..k];
    var left := if |rest| < k then [] else rest[k..];
    NilIsWellFormed();
    var w := Container(isMap, width, taken);
    HeaderHolds(isMap, width, n, taken);
    OneAndMore(w, left);
    if |rest| < k {
      BytesAllConcat(rest, Nils(k - |rest|));
    } else {
      assert rest == taken + left;
      BytesAllConcat(taken, left);
    }
  }

  lemma HeaderHolds(isMap: bool, width: Width, n: nat, ws: seq<Wire>)
    requires WellFormedCount(width, n) && WellFormedAll(ws) && |ws| == Elements(Begin(isMap, width, n))
    ensures var w := Container(isMap, width, ws);
      WellFormed(w) && Bytes(w) == ContainerHeader(isMap, width, n) + BytesAll(ws)
  {
    hide ContainerHeader, BytesAll;
    assert Count(isMap, |ws|) == n;
  }

  lemma OneAndMore(w: Wire, ws: seq<Wire>)
    ensures BytesAll([w] + ws) == Bytes(w) + BytesAll(ws)
    ensures BytesAll([]) == [] && BytesAll([w]) == Bytes(w)
  {
    hide Bytes;
    assert ([w] + ws)[1..] == ws && [w][1..] == [];
  }

  /** The items of a message. */
  function ItemsOf(w: Wire): seq<Item>
    decreases w
  {
    if w.Container? then [Begin(w.isMap, w.width, Count(w.isMap, |w.items|))] + ItemsOfAll(w.items) else [Atom(w)]
  }

  function ItemsOfAll(ws: seq<Wire>): seq<Item>
    decreases ws
  {
    if ws == [] then [] else ItemsOf(ws[0]) + ItemsOfAll(ws[1..])
  }

  lemma {:induction false} MessageIsItems(w: Wire)
    requires WellFormed(w)
    ensures ModestAll(ItemsOf(w)) && ItemsBytes(ItemsOf(w)) == Bytes(w)
    decreases w
  {
    hide ContainerHeader, RawHeader, BigEndian;
    if w.Container? {
      MessagesAreItems(w.items);
      var i := Begin(w.isMap, w.width, Count(w.isMap, |w.items|));
      assert ([i] + ItemsOfAll(w.items))[1..] == ItemsOfAll(w.items);
    } else {
      assert [Atom(w)][1..] == [];
    }
  }

  lemma {:induction false} MessagesAreItems(ws: seq<Wire>)
    requires WellFormedAll(ws)
    ensures ModestAll(ItemsOfAll(ws)) && ItemsBytes(ItemsOfAll(ws)) == BytesAll(ws)
    decreases ws
  {
    hide WellFormed, ItemBytes, Bytes, Proper, Modest;
    if ws != [] {
      MessageIsItems(ws[0]);
      MessagesAreItems(ws[1..]);
      ItemsBytesConcat(ItemsOf(ws[0]), ItemsOfAll(ws[1..]));
    }
  }

  /** The bytes begin a stream of well-formed messages. */
  ghost predicate BeginsStream(s: seq<byte>) {
    exists ws :: WellFormedAll(ws) && s <= BytesAll(ws)
  }

  /** Unless it meets a count beyond an int, or a full stack, a new framer takes exactly the byte strings
      that begin a stream of well-formed messages. */
  lemma TakesExactlyStreams(s: seq<byte>)
    ensures Run(EMPTY, s).ok ==> BeginsStream(s) || Huge(s)
    ensures BeginsStream(s) ==> Run(EMPTY, s).ok || |Run(EMPTY, s).f.stack| >= STACK_SIZE
  {
    hide Run, WellFormedAll, Huge;
    if Run(EMPTY, s).ok {
      TakenIsItems(EMPTY, s);
      if items :| ModestAll(items) && s <= ItemsBytes(items) {
        ItemsBeginMessages(items);
      }
    }
    if BeginsStream(s) {
      var ws :| WellFormedAll(ws) && s <= BytesAll(ws);
      MessagesAreItems(ws);
      ItemsAreTaken(EMPTY, ItemsOfAll(ws), s);
    }
  }

  /** An array of one reserved byte: the feed fails at that byte, with the array left open. */
  lemma ReservedExample(capacity: nat)
    requires capacity >= 2
    ensures var s := [0x91, 0xc1];
      Fed(State([], EMPTY), s, capacity) == (State(s, Framer([Ent(FixArray, 1, 0, [])], 0)), false)
    ensures !BeginsStream([0x91, 0xc1])
  {
    var s: seq<byte> := [0x91, 0xc1];
    assert [] + s == s;
    var f := Framer([Ent(FixArray, 1, 0, [])], 0);
    assert EMPTY.stack + f.stack == f.stack;
    assert Step(EMPTY, 0x91) == Some(f);
    assert s[1..] == [0xc1];
    RunUnfold(EMPTY, s);
    RunUnfold(f, s[1..]);
    TakesExactlyStreams(s);
  }
}
