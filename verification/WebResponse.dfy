/** HTTP responses over a bottled TCP handle, and what a client decodes from the chunked body. */
module WebResponse {
  import opened ByteSeq
  import opened Ascii
  import opened TcpBatch

  const CRLF: seq<byte> := [13, 10]
  const LAST: seq<byte> := [0x30, 13, 10, 13, 10]
  const MAX_INT: nat := 0x8000_0000

  // ---------------------------------------------------------------- chunk sizes

  predicate HexDigit(c: byte) { HexValue(c).Some? }

  /** printf's %zx */
  function HexLower(n: nat): (s: seq<byte>)
    ensures s != [] && forall i | 0 <= i < |s| :: HexDigit(s[i])
  {
    if n < 16 then [LowerHex(n)] else HexLower(n / 16) + [LowerHex(n % 16)]
  }

  function FromHex(s: seq<byte>): nat
    requires forall i | 0 <= i < |s| :: HexDigit(s[i])
  {
    if s == [] then 0
    else
      var last := s[|s| - 1];
      assert HexDigit(last);
      16 * FromHex(s[..|s| - 1]) + HexValue(last).value
  }

  lemma {:induction false} HexInverts(n: nat)
    ensures FromHex(HexLower(n)) == n
  {
    var s := HexLower(n);
    if n < 16 {
      assert s[..|s| - 1] == [];
    } else {
      HexInverts(n / 16);
      assert s[..|s| - 1] == HexLower(n / 16);
    }
  }

  /** The digits are lower-case, with no zero in front. */
  lemma {:induction false} HexIsLower(n: nat)
    ensures forall c | c in HexLower(n) :: '0' <= c as char <= '9' || 'a' <= c as char <= 'f'
    ensures n > 0 ==> HexLower(n)[0] as char != '0'
  {
    LowerDigit(n % 16);
    if n >= 16 {
      HexIsLower(n / 16);
    }
  }

  lemma LowerDigit(d: nat)
    requires d < 16
    ensures var c := LowerHex(d) as char; ('0' <= c <= '9' || 'a' <= c <= 'f') && (d > 0 ==> c != '0')
  {
  }

  lemma LineEnds()
    ensures Reads(CRLF, "\r\n") && Reads(LAST, "0\r\n\r\n")
  {
  }

  lemma {:induction false} HexLength(n: nat, k: nat)
    requires n < Power16(k) && k > 0
    ensures |HexLower(n)| <= k
  {
    if n >= 16 {
      HexLength(n / 16, k - 1);
    }
  }

  function Power16(k: nat): nat { if k == 0 then 1 else 16 * Power16(k - 1) }

  /** Every chunk size has room in the 32 bytes that response.write gives it. */
  lemma SizeFits(n: nat)
    requires n < MAX_INT
    ensures |HexLower(n)| <= 8
  {
    assert Power16(8) == 16 * 16 * 16 * 16 * Power16(4) && Power16(4) == 16 * 16 * 16 * 16 * Power16(0);
    HexLength(n, 8);
  }

  /** buffer:writeHexLower, from the 1-based position `at` on; None is the error when the digits do not
      fit there. */
  method WriteHexLower(buffer: array<byte>, n: nat, at: nat) returns (count: Option<nat>)
    requires |HexLower(n)| <= buffer.Length
    modifies buffer
    ensures count == if 1 <= at && at - 1 + |HexLower(n)| <= buffer.Length then Some(|HexLower(n)|) else None
    ensures count.None? ==> buffer[..] == old(buffer[..])
    ensures count.Some? ==> buffer[at - 1..at - 1 + count.value] == HexLower(n)
    ensures count.Some? ==> buffer[..at - 1] == old(buffer[..at - 1])
    ensures count.Some? ==> var end := at - 1 + count.value; buffer[end..] == old(buffer[end..])
  {
    hide HexLower;
    var tmp := HexLower(n);
    if at < 1 || at - 1 > buffer.Length - |tmp| {
      return None;
    }
    var index, i := at, 0;
    while i < |tmp|
      invariant i <= |tmp| && index == at + i
      invariant forall k | 0 <= k < i :: buffer[at - 1 + k] == tmp[k]
      invariant forall k | 0 <= k < buffer.Length && !(at - 1 <= k < at - 1 + i) :: buffer[k] == old(buffer[k])
    {
      buffer[index - 1] := tmp[i];
      index, i := index + 1, i + 1;
    }
    count := Some(|tmp|);
  }

  // ---------------------------------------------------------------- the response

  /** The state of a response and of its connection. */
  datatype Res = Res(t: State, headersSent: bool, chunked: bool)

  function Bottled(t: State): State { if t.bottled then t else Bottle(t) }

  function WriteLines(t: State, lines: seq<seq<byte>>): State
    decreases |lines|
  {
    if lines == [] then t else WriteLines(Write(t, Text(lines[0]), false), lines[1..])
  }

  /** writeHead: the status line and the header lines, then an empty line. `sized` is whether there
      is a content-length among them. None is the error when the head was already sent. */
  function WriteHead(r: Res, lines: seq<seq<byte>>, sized: bool): Option<Res> {
    if r.headersSent then None
    else
      var t := WriteLines(Bottled(r.t), lines);
      Some(Res(Write(t, Text(CRLF), !r.t.bottled), true, r.chunked && !sized))
  }

  /** The head that is sent when a body comes first. */
  function Headed(r: Res, head: seq<seq<byte>>): Res {
    if r.headersSent then r else WriteHead(r, head, false).value
  }

  function WriteBody(r: Res, head: seq<seq<byte>>, chunk: Chunk): Res {
    var q := Headed(r.(t := Bottled(r.t)), head);
    q.(t := if q.chunked then WriteChunk(q.t, chunk, !r.t.bottled) else Write(q.t, chunk, !r.t.bottled))
  }

  /** One chunk: its size in a slice of a buffer, a line end, the data, a line end. */
  function WriteChunk(t: State, chunk: Chunk, flush: bool): State {
    var t1 := Write(t, Slice(HexLower(|chunk.data|)), false);
    var t2 := Write(t1, Text(CRLF), false);
    var t3 := Write(t2, chunk, false);
    Write(t3, Text(CRLF), flush)
  }

  function Fin(r: Res, head: seq<seq<byte>>, chunk: Option<Chunk>): Res {
    if chunk.Some? && r.chunked then
      var q := WriteBody(r.(t := Bottle(r.t)), head, chunk.value);
      q.(t := Write(q.t, Slice(LAST), true))
    else if chunk.Some? then r.(t := Write(r.t, chunk.value, true))
    else if r.chunked then r.(t := Write(r.t, Slice(LAST), true))
    else r
  }

  function Bodies(r: Res, head: seq<seq<byte>>, chunks: seq<Chunk>): Res
    decreases |chunks|
  {
    if chunks == [] then r else Bodies(WriteBody(r, head, chunks[0]), head, chunks[1..])
  }

  // ---------------------------------------------------------------- what goes out

  function Datas(chunks: seq<Chunk>): seq<seq<byte>> {
    if chunks == [] then [] else [chunks[0].data] + Datas(chunks[1..])
  }

  function ChunkText(data: seq<byte>): seq<byte> { HexLower(|data|) + CRLF + data + CRLF }

  function ChunkTexts(ds: seq<seq<byte>>): seq<byte> {
    if ds == [] then [] else ChunkText(ds[0]) + ChunkTexts(ds[1..])
  }

  /** A write leaves the handle in order, and its bytes behind those before. */
  lemma Writes(t: State, chunk: Chunk, flush: bool)
    requires Ok(t)
    ensures Ok(Write(t, chunk, flush)) && Stream(Write(t, chunk, flush)) == Stream(t) + chunk.data
    ensures flush ==> Write(t, chunk, flush).pending == NO_BATCH
    ensures Write(t, chunk, flush).bottled == (t.bottled && !flush)
  {
    hide Ok, Stream, Added;
    WriteKeeps(t, chunk, flush);
    WriteAppends(t, chunk, flush);
  }

  lemma {:induction false} LinesStream(t: State, lines: seq<seq<byte>>)
    requires Ok(t)
    ensures Ok(WriteLines(t, lines)) && Stream(WriteLines(t, lines)) == Stream(t) + Flatten(lines)
    ensures WriteLines(t, lines).bottled == t.bottled
    decreases |lines|
  {
    hide Ok, Stream, Write;
    if lines == [] {
      assert Stream(t) + [] == Stream(t);
    } else {
      Writes(t, Text(lines[0]), false);
      LinesStream(Write(t, Text(lines[0]), false), lines[1..]);
      assert Stream(t) + lines[0] + Flatten(lines[1..]) == Stream(t) + (lines[0] + Flatten(lines[1..]));
    }
  }

  lemma Holding(t: State)
    requires Ok(t)
    ensures Ok(Bottled(t)) && Stream(Bottled(t)) == Stream(t) && Bottled(t).bottled
  {
    hide Ok, Stream;
    HoldKeeps(t);
  }

  /** The head goes out in full, at once unless the caller had bottled the connection. */
  lemma HeadStream(r: Res, lines: seq<seq<byte>>, sized: bool)
    requires Ok(r.t) && !r.headersSent
    ensures var q := WriteHead(r, lines, sized).value;
      && Ok(q.t) && Stream(q.t) == Stream(r.t) + (Flatten(lines) + CRLF)
      && q.t.bottled == r.t.bottled && (!r.t.bottled ==> q.t.pending == NO_BATCH)
  {
    hide Ok, Stream, Write, Bottled;
    Holding(r.t);
    LinesStream(Bottled(r.t), lines);
    Writes(WriteLines(Bottled(r.t), lines), Text(CRLF), !r.t.bottled);
    assert Stream(r.t) + Flatten(lines) + CRLF == Stream(r.t) + (Flatten(lines) + CRLF);
  }

  /** One chunk is its size, the data and the line ends. */
  lemma ChunkStream(t: State, chunk: Chunk, flush: bool)
    requires Ok(t)
    ensures var q := WriteChunk(t, chunk, flush);
      && Ok(q) && Stream(q) == Stream(t) + ChunkText(chunk.data) && q.bottled == (t.bottled && !flush)
      && (flush ==> q.pending == NO_BATCH)
  {
    hide Ok, Stream, Write, HexLower;
    var size := HexLower(|chunk.data|);
    var t1 := Write(t, Slice(size), false);
    Writes(t, Slice(size), false);
    var t2 := Write(t1, Text(CRLF), false);
    Writes(t1, Text(CRLF), false);
    Writes(t2, chunk, false);
    Writes(Write(t2, chunk, false), Text(CRLF), flush);
    assert Stream(t) + size + CRLF + chunk.data + CRLF == Stream(t) + ChunkText(chunk.data);
  }

  lemma WhenRefused(r: Res, lines: seq<seq<byte>>, sized: bool)
    ensures WriteHead(r, lines, sized).None? <==> r.headersSent
    ensures !r.headersSent ==> WriteHead(r, lines, sized).value.headersSent
    ensures !r.headersSent ==> WriteHead(r, lines, sized).value.chunked == (r.chunked && !sized)
  {
    hide WriteLines, Write;
  }

  /** The default head, where a body comes before any. */
  function Front(r: Res, head: seq<seq<byte>>): seq<byte> { if r.headersSent then [] else Flatten(head) + CRLF }

  /** A write adds one chunk, or the plain data where the body is not chunked, behind its head. */
  lemma BodyStream(r: Res, head: seq<seq<byte>>, chunk: Chunk)
    requires Ok(r.t)
    ensures var q := WriteBody(r, head, chunk);
      && Ok(q.t) && q.headersSent && q.chunked == r.chunked
      && Stream(q.t) == Stream(r.t) + (Front(r, head) + if r.chunked then ChunkText(chunk.data) else chunk.data)
      && q.t.bottled == r.t.bottled && (!r.t.bottled ==> q.t.pending == NO_BATCH)
  {
    hide Ok, Stream, Write, Bottled, ChunkText, WriteChunk, WriteHead;
    Holding(r.t);
    var h := r.(t := Bottled(r.t));
    WhenRefused(h, head, false);
    if !r.headersSent {
      HeadStream(h, head, false);
    } else {
      assert Stream(r.t) + [] == Stream(r.t);
    }
    var q := Headed(h, head);
    if r.chunked {
      ChunkStream(q.t, chunk, !r.t.bottled);
      Regroup(Stream(r.t), Front(r, head), ChunkText(chunk.data));
    } else {
      Writes(q.t, chunk, !r.t.bottled);
      Regroup(Stream(r.t), Front(r, head), chunk.data);
    }
  }

  lemma NoFront(r: Res, head: seq<seq<byte>>, s: seq<byte>)
    ensures r.headersSent ==> Front(r, head) + s == s
  {
  }

  lemma {:induction false} BodiesStream(r: Res, head: seq<seq<byte>>, chunks: seq<Chunk>)
    requires Ok(r.t) && r.headersSent && r.chunked
    ensures var q := Bodies(r, head, chunks);
      && Ok(q.t) && q.headersSent && q.chunked && Stream(q.t) == Stream(r.t) + ChunkTexts(Datas(chunks))
      && q.t.bottled == r.t.bottled
    decreases |chunks|
  {
    hide Ok, Stream, WriteBody, ChunkText;
    if chunks == [] {
      assert Stream(r.t) + [] == Stream(r.t);
    } else {
      BodyStream(r, head, chunks[0]);
      NoFront(r, head, ChunkText(chunks[0].data));
      BodiesStream(WriteBody(r, head, chunks[0]), head, chunks[1..]);
      assert Datas(chunks)[1..] == Datas(chunks[1..]);
      Regroup(Stream(r.t), ChunkText(chunks[0].data), ChunkTexts(Datas(chunks[1..])));
    }
  }

  lemma Regroup(a: seq<byte>, b: seq<byte>, c: seq<byte>)
    ensures a + b + c == a + (b + c)
  {
  }

  lemma FinStream(r: Res, head: seq<seq<byte>>, chunk: Option<Chunk>)
    requires Ok(r.t) && r.chunked
    ensures var q := Fin(r, head, chunk);
      && Ok(q.t) && q.t.pending == NO_BATCH
      && Stream(q.t)
      == Stream(r.t) + ((if chunk.Some? then Front(r, head) + ChunkText(chunk.value.data) else []) + LAST)
  {
    hide Ok, Stream, Write, WriteBody, ChunkText;
    if chunk.Some? {
      HoldKeeps(r.t);
      var q := r.(t := Bottle(r.t));
      BodyStream(q, head, chunk.value);
      Writes(WriteBody(q, head, chunk.value).t, Slice(LAST), true);
      Regroup(Stream(r.t), Front(r, head) + ChunkText(chunk.value.data), LAST);
    } else {
      Writes(r.t, Slice(LAST), true);
      assert [] + LAST == LAST;
    }
  }

  // ---------------------------------------------------------------- the head comes first

  /** A call of a response's method. */
  datatype Call = Head(lines: seq<seq<byte>>, sized: bool) | Body(chunk: Chunk) | End(last: Option<Chunk>)

  /** `head` is what is sent when a body comes without one. A second head is refused. */
  function Called(r: Res, head: seq<seq<byte>>, call: Call): Res {
    match call
    case Head(lines, sized) => var q := WriteHead(r, lines, sized); if q.Some? then q.value else r
    case Body(chunk) => WriteBody(r, head, chunk)
    case End(last) => Fin(r, head, last)
  }

  function CalledAll(r: Res, head: seq<seq<byte>>, calls: seq<Call>): Res
    decreases |calls|
  {
    if calls == [] then r else CalledAll(Called(r, head, calls[0]), head, calls[1..])
  }

  /** A status line and what follows it. */
  predicate IsHead(lines: seq<seq<byte>>) { lines != [] && lines[0] != [] && lines[0][0] == 0x48 }

  function HeadText(head: seq<seq<byte>>, call: Call): seq<byte> {
    Flatten(if call.Head? then call.lines else head) + CRLF
  }

  /** No call takes back what was written. */
  lemma CallGrows(r: Res, head: seq<seq<byte>>, call: Call)
    requires Ok(r.t)
    ensures Ok(Called(r, head, call).t) && Stream(r.t) <= Stream(Called(r, head, call).t)
  {
    hide Ok, Stream, Write, WriteBody, WriteHead, ChunkText;
    match call
    case Head(lines, sized) =>
      WhenRefused(r, lines, sized);
      if !r.headersSent { HeadStream(r, lines, sized); }
    case Body(chunk) => BodyStream(r, head, chunk);
    case End(last) =>
      if r.chunked {
        FinStream(r, head, last);
      } else if last.Some? {
        Writes(r.t, last.value, true);
      }
  }

  lemma {:induction false} CallsGrow(r: Res, head: seq<seq<byte>>, calls: seq<Call>)
    requires Ok(r.t)
    ensures Stream(r.t) <= Stream(CalledAll(r, head, calls).t)
    decreases |calls|
  {
    hide Ok, Stream, Called;
    if calls != [] {
      CallGrows(r, head, calls[0]);
      CallsGrow(Called(r, head, calls[0]), head, calls[1..]);
    }
  }

  /** What a new response sends begins with a head, the one its first call gives or the default one,
      exactly when that call is not a fin without a chunk. */
  lemma HeadComesFirst(r: Res, head: seq<seq<byte>>, calls: seq<Call>)
    requires Ok(r.t) && !r.headersSent && r.chunked && calls != [] && IsHead(head)
    requires calls[0].Head? ==> IsHead(calls[0].lines)
    ensures Stream(r.t) + HeadText(head, calls[0]) <= Stream(CalledAll(r, head, calls).t) <==> calls[0] != End(None)
  {
    hide Ok, Stream, Write, WriteBody, WriteHead;
    var q := Called(r, head, calls[0]);
    CallGrows(r, head, calls[0]);
    CallsGrow(q, head, calls[1..]);
    match calls[0]
    case Head(lines, sized) =>
      WhenRefused(r, lines, sized);
      HeadStream(r, lines, sized);
    case Body(chunk) => BodyStream(r, head, chunk);
    case End(last) =>
      FinStream(r, head, last);
      if last.None? {
        HeadBegins(head);
        Elsewhere(Stream(r.t), HeadText(head, calls[0]), LAST, Stream(CalledAll(r, head, calls).t));
      }
  }

  lemma HeadBegins(head: seq<seq<byte>>)
    requires IsHead(head)
    ensures (Flatten(head) + CRLF)[0] == 0x48
  {
  }

  lemma Elsewhere(s: seq<byte>, a: seq<byte>, b: seq<byte>, all: seq<byte>)
    requires a != [] && b != [] && a[0] != b[0] && s + b <= all
    ensures !(s + a <= all)
  {
    assert (s + b)[|s|] == b[0] && (s + a)[|s|] == a[0];
  }

  /** A new response that is only ended sends the last chunk and no head. */
  lemma NoHeadExample(head: seq<seq<byte>>)
    ensures var r := Res(START, false, true); Stream(CalledAll(r, head, [End(None)]).t) == LAST
  {
    hide Write, Stream, Ok;
    StartIsOk();
    Writes(START, Slice(LAST), true);
    assert [End(None)][1..] == [] && [] + LAST == LAST;
  }

  lemma StartIsOk()
    ensures Ok(START) && Stream(START) == []
  {
  }

  // ---------------------------------------------------------------- what a client reads

  /** A decoded body and the bytes behind it. */
  datatype Decoded = Decoded(data: seq<byte>, rest: seq<byte>)

  function HexEnd(s: seq<byte>, i: nat): (j: nat)
    requires i <= |s|
    ensures i <= j <= |s| && (forall k | i <= k < j :: HexDigit(s[k])) && (j < |s| ==> !HexDigit(s[j]))
    decreases |s| - i
  {
    if i < |s| && HexDigit(s[i]) then HexEnd(s, i + 1) else i
  }

  predicate CrlfAt(s: seq<byte>, i: nat) { i + 2 <= |s| && s[i..i + 2] == CRLF }

  /** Decoding a chunked body without extensions and trailer fields (section 7.1 of RFC 9112). */
  function Dechunk(s: seq<byte>): Option<Decoded>
    decreases |s|
  {
    var n := HexEnd(s, 0);
    if n == 0 || !CrlfAt(s, n) then None
    else
      var size := FromHex(s[..n]);
      var after := s[n + 2..];
      if size == 0 then if CrlfAt(after, 0) then Some(Decoded([], after[2..])) else None
      else if !CrlfAt(after, size) then None
      else match Dechunk(after[size + 2..])
        case None => None
        case Some(b) => Some(Decoded(after[..size] + b.data, b.rest))
  }

  lemma {:induction false} HexEndAt(s: seq<byte>, i: nat, j: nat)
    requires i <= j < |s| && (forall k | i <= k < j :: HexDigit(s[k])) && !HexDigit(s[j])
    ensures HexEnd(s, i) == j
    decreases j - i
  {
    if i < j {
      HexEndAt(s, i + 1, j);
    }
  }

  lemma SizeRead(s: seq<byte>, n: nat, tail: seq<byte>)
    requires s == HexLower(n) + CRLF + tail
    ensures HexEnd(s, 0) == |HexLower(n)| && CrlfAt(s, |HexLower(n)|)
    ensures FromHex(s[..|HexLower(n)|]) == n && s[|HexLower(n)| + 2..] == tail
  {
    hide HexLower, FromHex;
    var h := HexLower(n);
    assert s[|h|] == 13;
    HexEndAt(s, 0, |h|);
    assert s[|h|..|h| + 2] == CRLF;
    assert s[..|h|] == h;
    HexInverts(n);
  }

  /** A chunk with data adds it to the body. */
  lemma DechunkChunk(data: seq<byte>, tail: seq<byte>)
    requires data != []
    ensures var d := Dechunk(tail);
      Dechunk(ChunkText(data) + tail) == if d.None? then None else Some(Decoded(data + d.value.data, d.value.rest))
  {
    hide HexLower, HexEnd, FromHex;
    var s := ChunkText(data) + tail;
    var after := data + CRLF + tail;
    assert s == HexLower(|data|) + CRLF + after;
    SizeRead(s, |data|, after);
    assert after[|data|..|data| + 2] == CRLF && after[|data| + 2..] == tail && after[..|data|] == data;
  }

  /** A chunk without data reads as the end of the body. */
  lemma DechunkEmpty(tail: seq<byte>)
    ensures Dechunk(ChunkText([]) + tail) == Some(Decoded([], tail)) && ChunkText([]) == LAST
  {
    hide HexLower, HexEnd, FromHex;
    var s := ChunkText([]) + tail;
    assert s == HexLower(0) + CRLF + (CRLF + tail);
    SizeRead(s, 0, CRLF + tail);
    assert (CRLF + tail)[0..2] == CRLF && (CRLF + tail)[2..] == tail;
    ZeroHex();
  }

  lemma ZeroHex()
    ensures HexLower(0) == [0x30]
  {
  }

  /** The chunks before the first empty one, and those behind it. */
  function FirstEmpty(ds: seq<seq<byte>>): nat { if ds == [] || ds[0] == [] then 0 else 1 + FirstEmpty(ds[1..]) }

  lemma {:induction false} DechunkAll(ds: seq<seq<byte>>, tail: seq<byte>)
    ensures FirstEmpty(ds) <= |ds|
    ensures Dechunk(ChunkTexts(ds) + (LAST + tail)) == Some(Decoded(
        Flatten(ds[..FirstEmpty(ds)]),
        if FirstEmpty(ds) == |ds| then tail else ChunkTexts(ds[FirstEmpty(ds) + 1..]) + (LAST + tail)))
    decreases |ds|
  {
    hide ChunkText, Dechunk;
    if ds == [] {
      assert ChunkTexts(ds) + (LAST + tail) == LAST + tail;
      DechunkEmpty(tail);
    } else {
      var more := ChunkTexts(ds[1..]) + (LAST + tail);
      assert ChunkTexts(ds) + (LAST + tail) == ChunkText(ds[0]) + more;
      if ds[0] == [] {
        DechunkEmpty(more);
      } else {
        DechunkChunk(ds[0], more);
        DechunkAll(ds[1..], tail);
        var k := FirstEmpty(ds[1..]);
        assert ds[..k + 1] == [ds[0]] + ds[1..][..k];
        if k < |ds[1..]| {
          assert ds[1..][k + 1..] == ds[k + 2..];
        }
      }
    }
  }

  lemma {:induction false} NoneEmpty(ds: seq<seq<byte>>)
    ensures FirstEmpty(ds) <= |ds|
    ensures FirstEmpty(ds) == |ds| <==> forall i | 0 <= i < |ds| :: ds[i] != []
    decreases |ds|
  {
    if ds != [] && ds[0] != [] {
      NoneEmpty(ds[1..]);
      assert forall i | 1 <= i < |ds| :: ds[i] == ds[1..][i - 1];
      assert forall i | 0 <= i < |ds[1..]| :: ds[1..][i] == ds[i + 1];
    }
  }

  lemma {:induction false} DatasMore(cs: seq<Chunk>, c: Chunk)
    ensures ChunkTexts(Datas(cs + [c])) == ChunkTexts(Datas(cs)) + ChunkText(c.data)
    ensures Datas(cs + [c]) == Datas(cs) + [c.data]
    decreases |cs|
  {
    hide ChunkText;
    if cs == [] {
      assert cs + [c] == [c] && [c][1..] == [];
      assert Datas([c]) == [c.data] && [c.data][1..] == [];
      assert ChunkText(c.data) + [] == ChunkText(c.data);
    } else {
      assert (cs + [c])[1..] == cs[1..] + [c];
      DatasMore(cs[1..], c);
      assert Datas(cs)[1..] == Datas(cs[1..]) && Datas(cs + [c])[1..] == Datas(cs[1..] + [c]);
    }
  }

  /** After a head without content-length, writes and a fin hand everything to the socket, wherever
      the requests of sixteen are cut. What follows the head decodes to the chunks joined, with nothing
      behind them, exactly when no chunk is empty; otherwise it ends at the first empty one. */
  lemma ChunkedBodyArrives(r: Res, head: seq<seq<byte>>, cs: seq<Chunk>, last: Option<Chunk>)
    requires Ok(r.t) && r.headersSent && r.chunked
    ensures var q := Fin(Bodies(r, head, cs), head, last); var all := if last.Some? then cs + [last.value] else cs;
      var ds := Datas(all);
      && Ok(q.t) && q.t.pending == NO_BATCH && Sent(q.t.flushed) == Stream(r.t) + (ChunkTexts(ds) + LAST)
      && (Dechunk(ChunkTexts(ds) + LAST) == Some(Decoded(Flatten(ds), [])) <==> forall i | 0 <= i < |ds| :: ds[i] != [])
      && FirstEmpty(ds) <= |ds| && Dechunk(ChunkTexts(ds) + LAST).Some?
      && Dechunk(ChunkTexts(ds) + LAST).value.data == Flatten(ds[..FirstEmpty(ds)])
  {
    hide Ok, Stream, WriteBody, Fin, Bodies, ChunkText, ChunkTexts, Dechunk, Flatten, FirstEmpty, Datas, Sent;
    var q := Fin(Bodies(r, head, cs), head, last);
    var all := if last.Some? then cs + [last.value] else cs;
    var ds := Datas(all);
    BodiesStream(r, head, cs);
    FinStream(Bodies(r, head, cs), head, last);
    if last.Some? {
      DatasMore(cs, last.value);
      assert Stream(r.t) + ChunkTexts(Datas(cs)) + (ChunkText(last.value.data) + LAST)
        == Stream(r.t) + (ChunkTexts(ds) + LAST);
    } else {
      assert Stream(r.t) + ChunkTexts(Datas(cs)) + ([] + LAST) == Stream(r.t) + (ChunkTexts(ds) + LAST);
    }
    AllSent(q.t);
    ClientReads(ds);
  }

  /** A client reads the chunks before the first empty one, which are all exactly when none is. */
  lemma ClientReads(ds: seq<seq<byte>>)
    ensures Dechunk(ChunkTexts(ds) + LAST) == Some(Decoded(Flatten(ds), []))
       <==> forall i | 0 <= i < |ds| :: ds[i] != []
    ensures FirstEmpty(ds) <= |ds| && Dechunk(ChunkTexts(ds) + LAST).Some?
    ensures Dechunk(ChunkTexts(ds) + LAST).value.data == Flatten(ds[..FirstEmpty(ds)])
  {
    hide ChunkTexts, Dechunk, Flatten, FirstEmpty;
    assert LAST + [] == LAST;
    DechunkAll(ds, []);
    NoneEmpty(ds);
    if FirstEmpty(ds) == |ds| {
      assert ds[..|ds|] == ds;
    } else {
      LastStays(ds[FirstEmpty(ds) + 1..]);
    }
  }

  /** All is handed over: what was before, and a chunked body of these data, which a client reads as them joined
      exactly when none is empty. */
  ghost predicate Arrived(t: State, before: seq<byte>, ds: seq<seq<byte>>) {
    && Ok(t) && t.pending == NO_BATCH && Sent(t.flushed) == before + (ChunkTexts(ds) + LAST)
    && (Dechunk(ChunkTexts(ds) + LAST) == Some(Decoded(Flatten(ds), [])) <==> forall i | 0 <= i < |ds| :: ds[i] != [])
  }

  function With(cs: seq<Chunk>, last: Option<Chunk>): seq<Chunk> { if last.Some? then cs + [last.value] else cs }

  /** What a new response sends when its head has no content-length, be it given or, where a body comes
      first, the default one: the head and the chunked body, all of it handed over. */
  lemma UnsizedResponseArrives(r: Res, head: seq<seq<byte>>, lines: Option<seq<seq<byte>>>, cs: seq<Chunk>,
                               last: Option<Chunk>)
    requires Ok(r.t) && !r.headersSent && r.chunked && (lines.Some? || cs != [] || last.Some?)
    ensures var r0 := if lines.Some? then Called(r, head, Head(lines.value, false)) else r;
      var front := Flatten(if lines.Some? then lines.value else head) + CRLF;
      Arrived(Fin(Bodies(r0, head, cs), head, last).t, Stream(r.t) + front, Datas(With(cs, last)))
  {
    hide Ok, Stream, WriteBody, WriteHead, Fin, Bodies, Flatten, Datas, Arrived, With;
    if lines.Some? {
      WhenRefused(r, lines.value, false);
      HeadGiven(r, head, lines.value, cs, last);
    } else if cs != [] {
      BodiesUnfold(r, head, cs);
      BodyComesFirst(r, head, cs[0], cs[1..], last);
      WithMore(cs, last);
    } else {
      BodiesUnfold(r, head, cs);
      FinComesFirst(r, head, last.value);
      WithOne(last.value);
    }
  }

  lemma WithMore(cs: seq<Chunk>, last: Option<Chunk>)
    requires cs != []
    ensures With(cs, last) == [cs[0]] + With(cs[1..], last)
  {
  }

  lemma WithOne(c: Chunk)
    ensures With([], Some(c)) == [c] + []
  {
  }

  lemma HeadGiven(r: Res, head: seq<seq<byte>>, lines: seq<seq<byte>>, cs: seq<Chunk>, last: Option<Chunk>)
    requires Ok(r.t) && !r.headersSent && r.chunked
    ensures var q := Fin(Bodies(WriteHead(r, lines, false).value, head, cs), head, last);
      Arrived(q.t, Stream(r.t) + (Flatten(lines) + CRLF), Datas(With(cs, last)))
  {
    hide Ok, Stream, WriteHead, Fin, Bodies, ChunkTexts, Dechunk, Flatten, Datas, Sent;
    WhenRefused(r, lines, false);
    HeadStream(r, lines, false);
    ChunkedBodyArrives(WriteHead(r, lines, false).value, head, cs, last);
  }

  lemma BodyComesFirst(r: Res, head: seq<seq<byte>>, c: Chunk, cs: seq<Chunk>, last: Option<Chunk>)
    requires Ok(r.t) && !r.headersSent && r.chunked
    ensures var q := Fin(Bodies(WriteBody(r, head, c), head, cs), head, last);
      Arrived(q.t, Stream(r.t) + (Flatten(head) + CRLF), Datas([c] + With(cs, last)))
  {
    hide Ok, Stream, WriteBody, Fin, Bodies, ChunkText, ChunkTexts, Dechunk, Flatten, Datas, Sent;
    var more := With(cs, last);
    BodyStream(r, head, c);
    ChunkedBodyArrives(WriteBody(r, head, c), head, cs, last);
    FirstData(c, more);
    ClientReads(Datas([c] + more));
    RegroupFront(Stream(r.t), Flatten(head) + CRLF, ChunkText(c.data), ChunkTexts(Datas(more)), LAST);
  }

  lemma FinComesFirst(r: Res, head: seq<seq<byte>>, c: Chunk)
    requires Ok(r.t) && !r.headersSent && r.chunked
    ensures Arrived(Fin(r, head, Some(c)).t, Stream(r.t) + (Flatten(head) + CRLF), Datas([c] + []))
  {
    hide Ok, Stream, Fin, ChunkText, ChunkTexts, Dechunk, Flatten, Datas, Sent;
    FinStream(r, head, Some(c));
    FirstData(c, []);
    ClientReads(Datas([c] + []));
    AllSent(Fin(r, head, Some(c)).t);
    RegroupFront(Stream(r.t), Flatten(head) + CRLF, ChunkText(c.data), [], LAST);
    assert ChunkText(c.data) + [] == ChunkText(c.data) && [] + LAST == LAST;
    Regroup(Stream(r.t), Flatten(head) + CRLF, ChunkText(c.data) + LAST);
    Regroup(Flatten(head) + CRLF, ChunkText(c.data), LAST);
  }

  lemma RegroupFront(s: seq<byte>, f: seq<byte>, a: seq<byte>, b: seq<byte>, c: seq<byte>)
    ensures s + (f + a) + (b + c) == s + f + ((a + b) + c)
  {
  }

  lemma BodiesUnfold(r: Res, head: seq<seq<byte>>, cs: seq<Chunk>)
    ensures Bodies(r, head, cs) == if cs == [] then r else Bodies(WriteBody(r, head, cs[0]), head, cs[1..])
  {
    hide WriteBody;
  }

  lemma FirstData(c: Chunk, cs: seq<Chunk>)
    ensures Datas([c] + cs) == [c.data] + Datas(cs)
    ensures ChunkTexts(Datas([c] + cs)) == ChunkText(c.data) + ChunkTexts(Datas(cs))
    ensures Datas([]) == [] && ChunkTexts([]) == []
  {
    hide ChunkText;
    assert ([c] + cs)[1..] == cs && ([c.data] + Datas(cs))[1..] == Datas(cs);
  }

  /** What a new response sends when its head has a content-length: the head and the data as it is; all of it
      is handed over, unless the connection was bottled and fin has no data. */
  lemma SizedResponseArrives(r: Res, head: seq<seq<byte>>, lines: seq<seq<byte>>, cs: seq<Chunk>, last: Option<Chunk>)
    requires Ok(r.t) && !r.headersSent && r.chunked
    ensures var q := Fin(Bodies(Called(r, head, Head(lines, true)), head, cs), head, last);
      && Ok(q.t) && Stream(q.t) == Stream(r.t) + (Flatten(lines) + CRLF) + Flatten(Datas(With(cs, last)))
      && (last.Some? || !r.t.bottled ==> q.t.pending == NO_BATCH && Sent(q.t.flushed) == Stream(q.t))
  {
    hide Ok, Stream, Write, WriteBody, WriteHead, Bodies, Flatten, Datas, Sent;
    WhenRefused(r, lines, true);
    HeadStream(r, lines, true);
    var r0 := WriteHead(r, lines, true).value;
    var q := Bodies(r0, head, cs);
    PlainBodies(r0, head, cs);
    if last.Some? {
      Writes(q.t, last.value, true);
      AllSent(Write(q.t, last.value, true));
      DatasMore(cs, last.value);
      FlattenMore(Datas(cs), last.value.data);
      Regroup(Stream(r0.t), Flatten(Datas(cs)), last.value.data);
    } else if !r.t.bottled {
      AllSent(q.t);
    }
  }

  lemma {:induction false} PlainBodies(r: Res, head: seq<seq<byte>>, cs: seq<Chunk>)
    requires Ok(r.t) && r.headersSent && !r.chunked
    ensures var q := Bodies(r, head, cs);
      && Ok(q.t) && q.headersSent && !q.chunked && Stream(q.t) == Stream(r.t) + Flatten(Datas(cs))
      && q.t.bottled == r.t.bottled && (!r.t.bottled && r.t.pending == NO_BATCH ==> q.t.pending == NO_BATCH)
    decreases |cs|
  {
    hide Ok, Stream, WriteBody;
    if cs == [] {
      assert Stream(r.t) + [] == Stream(r.t);
    } else {
      BodyStream(r, head, cs[0]);
      NoFront(r, head, cs[0].data);
      PlainBodies(WriteBody(r, head, cs[0]), head, cs[1..]);
      assert Datas(cs)[1..] == Datas(cs[1..]);
      Regroup(Stream(r.t), cs[0].data, Flatten(Datas(cs[1..])));
    }
  }

  /** The chunks "a", "" and "b": the client's body is "a". */
  lemma EmptyChunkExample()
    ensures var ds: seq<seq<byte>> := [[0x61], [], [0x62]];
      && Dechunk(ChunkTexts(ds) + LAST) == Some(Decoded([0x61], ChunkTexts([[0x62]]) + LAST))
      && Flatten(ds) == [0x61, 0x62]
  {
    hide ChunkTexts, Dechunk;
    var ds: seq<seq<byte>> := [[0x61], [], [0x62]];
    var one: seq<seq<byte>> := [[0x61]];
    var two: seq<seq<byte>> := [[0x62]];
    DechunkAll(ds, []);
    assert ds[1..][1..] == two;
    assert FirstEmpty(ds) == 1;
    assert ds[..1] == one && ds[1 + 1..] == two;
    assert LAST + [] == LAST;
    assert Dechunk(ChunkTexts(ds) + LAST) == Some(Decoded(Flatten(one), ChunkTexts(two) + LAST));
    assert Flatten(one) == [0x61];
    assert two[1..] == [] && Flatten(two) == [0x62] + [];
  }

  lemma AllSent(t: State)
    requires t.pending == NO_BATCH
    ensures Stream(t) == Sent(t.flushed)
  {
  }

  lemma LastStays(ds: seq<seq<byte>>)
    ensures ChunkTexts(ds) + (LAST + []) != []
  {
  }

  /** A fin without a chunk flushes nothing when the body is not chunked: what a bottled connection
      still holds stays there. */
  lemma FinFlushes(r: Res, head: seq<seq<byte>>, chunk: Option<Chunk>)
    requires Ok(r.t)
    ensures Fin(r, head, chunk).t.pending == NO_BATCH <==> r.chunked || chunk.Some? || r.t.pending == NO_BATCH
  {
    hide Ok, WriteBody, Write;
    if chunk.Some? && r.chunked {
      var q := r.(t := Bottle(r.t));
      HoldKeeps(r.t);
      BodyStream(q, head, chunk.value);
      Writes(WriteBody(q, head, chunk.value).t, Slice(LAST), true);
    } else if chunk.Some? {
      Writes(r.t, chunk.value, true);
    } else if r.chunked {
      Writes(r.t, Slice(LAST), true);
    }
  }

  /** On a connection that was bottled, with one piece written and a body that is not chunked. */
  lemma FinLeavesExample(head: seq<seq<byte>>)
    ensures var t := Write(Bottle(START), Text([0x61]), false); var r := Res(t, true, false);
      Ok(t) && Fin(r, head, None).t.pending.bufs == [Entry([0x61], Some(0))] && Fin(r, head, None).t.flushed == []
  {
    Writes(Bottle(START), Text([0x61]), false);
  }

  // ---------------------------------------------------------------- the response object

  class Response {
    const client: Tcp
    const head200: seq<seq<byte>>
    var headersSent: bool
    var chunkedEncoding: bool

    ghost predicate Valid()
      reads this, client, client.bufs
    {
      client.Valid() && Ok(client.View())
    }

    ghost function View(): Res
      requires client.Valid()
      reads this, client, client.bufs
    {
      Res(client.View(), headersSent, chunkedEncoding)
    }

    constructor (client: Tcp, head200: seq<seq<byte>>)
      requires client.Valid() && Ok(client.View())
      ensures Valid() && this.client == client && this.head200 == head200
      ensures View() == Res(old(client.View()), false, true)
    {
      this.client, this.head200 := client, head200;
      headersSent, chunkedEncoding := false, true;
    }

    /** client:write. */
    method Put(chunk: Chunk, flush: bool)
      requires Valid()
      modifies client, client.bufs
      ensures Valid() && (client.bufs == old(client.bufs) || fresh(client.bufs))
      ensures client.View() == Write(old(client.View()), chunk, flush)
      ensures headersSent == old(headersSent) && chunkedEncoding == old(chunkedEncoding)
    {
      hide Ok, Write;
      Room(client.View());
      Writes(client.View(), chunk, flush);
      client.TcpWrite(chunk, flush);
    }

    /** bottle, unless the connection is bottled already. */
    method BottleClient() returns (isBottled: bool)
      requires Valid()
      modifies client`bottleMode
      ensures Valid() && isBottled == old(client.bottleMode) && client.View() == Bottled(old(client.View()))
      ensures headersSent == old(headersSent) && chunkedEncoding == old(chunkedEncoding)
    {
      hide Ok;
      isBottled := client.bottleMode;
      Holding(client.View());
      if !isBottled {
        client.TcpBottle();
      }
    }

    method SendHead(lines: seq<seq<byte>>, sized: bool) returns (ok: bool)
      requires Valid()
      modifies this, client, client.bufs
      ensures Valid() && (client.bufs == old(client.bufs) || fresh(client.bufs))
      ensures ok == WriteHead(old(View()), lines, sized).Some?
      ensures View() == if ok then WriteHead(old(View()), lines, sized).value else old(View())
    {
      hide Ok, Write, Bottled;
      if headersSent {
        return false;
      }
      var isBottled := BottleClient();
      ghost var all := WriteLines(client.View(), lines);
      var i := 0;
      while i < |lines|
        invariant i <= |lines| && Valid() && (client.bufs == old(client.bufs) || fresh(client.bufs))
        invariant all == WriteLines(client.View(), lines[i..])
        invariant headersSent == old(headersSent) && chunkedEncoding == old(chunkedEncoding)
      {
        Put(Text(lines[i]), false);
        assert lines[i..][1..] == lines[i + 1..];
        i := i + 1;
      }
      if sized {
        chunkedEncoding := false;
      }
      Put(Text(CRLF), !isBottled);
      headersSent := true;
      ok := true;
    }

    method SendBody(chunk: Chunk)
      requires Valid() && |chunk.data| < MAX_INT
      modifies this, client, client.bufs
      ensures Valid() && (client.bufs == old(client.bufs) || fresh(client.bufs))
      ensures View() == WriteBody(old(View()), head200, chunk)
    {
      hide Ok, Write, Bottled, HexLower, WriteHead;
      var isBottled := BottleClient();
      HeadSent(View(), head200);
      if !headersSent {
        var ok := SendHead(head200, false);
      }
      if chunkedEncoding {
        SendChunk(chunk, !isBottled);
      } else {
        Put(chunk, !isBottled);
      }
    }

    method SendChunk(chunk: Chunk, flush: bool)
      requires Valid() && |chunk.data| < MAX_INT
      modifies client, client.bufs
      ensures Valid() && (client.bufs == old(client.bufs) || fresh(client.bufs))
      ensures client.View() == WriteChunk(old(client.View()), chunk, flush)
      ensures headersSent == old(headersSent) && chunkedEncoding == old(chunkedEncoding)
    {
      hide Ok, Write, HexLower;
      var chunkLen := new byte[32](_ => 0);
      SizeFits(|chunk.data|);
      var n := WriteHexLower(chunkLen, |chunk.data|, 1);
      assert chunkLen[..n.value] == chunkLen[1 - 1..1 - 1 + n.value];
      Put(Slice(chunkLen[..n.value]), false);
      Put(Text(CRLF), false);
      Put(chunk, false);
      Put(Text(CRLF), flush);
    }

    method Finish(chunk: Option<Chunk>)
      requires Valid() && (chunk.Some? ==> |chunk.value.data| < MAX_INT)
      modifies this, client, client.bufs
      ensures Valid() && (client.bufs == old(client.bufs) || fresh(client.bufs))
      ensures View() == Fin(old(View()), head200, chunk)
    {
      hide Ok, Write, WriteBody;
      if chunk.Some? && chunkedEncoding {
        HoldKeeps(client.View());
        client.TcpBottle();
        SendBody(chunk.value);
        Put(Slice(LAST), true);
      } else if chunk.Some? {
        Put(chunk.value, true);
      } else if chunkedEncoding {
        Put(Slice(LAST), true);
      }
    }
  }

  lemma Room(t: State)
    requires Ok(t)
    ensures |t.pending.bufs| < MAX_CHUNKS
  {
  }

  lemma HeadSent(r: Res, head: seq<seq<byte>>)
    ensures WriteHead(r, head, false).Some? <==> !r.headersSent
  {
  }
}
