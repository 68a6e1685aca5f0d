# Proofs about lev's codecs, buffers, output path and mailbox

lev is an evented Lua runtime. This project models the parts of it where several pieces of C and Lua
have to agree with each other, and proves that they do, or says exactly when they do not:

- **MessagePack** (`ByteSeq`, `MpackNumber`, `MpackDoubles`, `MpackWire`, `MpackShortest`, `MpackReader`,
  `MpackWriter`, `MpackFramer`, `MpackFraming`, `MpackItems`, `MpackDecoding`, `MpackFifo`). Doubles, their
  IEEE bits, and their way through `long long` and back. A bounded writer with a sticky error, a recursive
  cursor decoder and a push-style framer with a 256-entry stack share one wire grammar. The framer and the
  decoder take exactly what that grammar allows, the framer counts exactly the messages that the decoder reads
  and the writer writes, wherever the stream is cut, and feed/pull is a FIFO queue of values.
- **Memory** (`SlabState`, `SlabHeap`, `SlabRun`). Block pools, reference counts, the bump block, slices,
  concatenation in place and by copy, the read block and growing private strings. Over whole runs every
  buffer is a byte string of its own.
- **JSON in C** (`Ascii`, `Utf8`, `JsonString`, `JsonGrammar`, `JsonFaults`, `JsonDecoder`, `JsonText`,
  `JsonSpelling`). Escapes,
  lexer, scratch buffer and recursive descent, against an independent grammar: what is accepted, what it
  means, and at which token an error is reported.
- **JSON in Lua** (`LuaJson`, `LuaJsonPrinter`, `LuaText`, `LuaSpelling`, `LuaPrintedText`). Printer and
  parser against the same grammar: every JSON text is parsed as its value, only such texts are but for what
  the parser lets pass inside strings, what is printed is JSON that the C decoder takes as well, and what
  printing and parsing again gives for every printable value.
- **Output** (`TcpBatch`, `WebResponse`). Write batches of sixteen with their mask of copied strings, and
  chunked HTTP responses on top of them, up to what a client decodes.
- **Mailbox** (`MailboxPacket`, `Mailbox`, `MailboxProcess`). Workers and master as a step system over all
  interleavings, both sides as running code, and their packets as Lua tables that `mp.pack` takes or
  refuses and whose fields are read from what `mp.unpack` gives.
- **Form coding** (`Querystring`).

Code that changes things step by step is a class or a method with loops, proved equal to a function of
its old state; the theorems are about those functions.

Some promises turned out to hold only under a condition. Each has a concrete failing input or an exact
condition, for all inputs:

- The packer sends every integral number through `long long`, and of a table with an array part only that
  part. What it packs comes back as itself exactly when every integral number in it survives that
  conversion and no table in it, at any depth, has both items and further keys (`MpackReader.RoundTrip`).
  On a machine that converts what is out of range to -2^63, the numbers survive exactly when all are in the
  range of `long long` (`RoundTripInRange`). 1e300 comes back as another number (`RoundTripFails`), and
  `{1, x = 2}` as `{1}` (`RoundTripDrops`). "Itself" means the same bytes for a string: `mp.unpack` gives a
  `lev.buffer` for each string that is no map key.
- Decoding a map with a nil or NaN key raises a Lua error in the middle of a pull. A counted message is
  given exactly when no map in it has such a key (`PullStep`); otherwise nothing is shifted and every later
  pull raises as well (`NilKeyExample`, `StuckForGood`). The packer never writes one (`PackedMeans`).
- A 64-bit integer from a peer is rounded to the nearest double; it stays itself exactly when a double
  holds it (`RoundedIsExact`).
- The framer takes exactly the beginnings of streams of well-formed messages, unless its stack is full or a
  32-bit container has more elements than an `int` counts (`TakesExactlyStreams`). But for such a container
  the decoder ends without an error exactly where a well-formed message with good keys lies
  (`ReadsExactlyMessages`); that container it reads as the empty table (`HugeIsEmpty`).
- No well-formed message with the value of a packed one is shorter, if it has no single-precision number
  (`Shortest`, `SingleIsShorter`).
- A 16- or 32-bit container with size field 0 stays on the framer's stack (`CountedIffNotStarved`,
  `StarvedExample`). The packer never writes one (`PackedNotStarved`).
- `mp.unpack` makes a window over other memory of an empty string that is not a map key
  (`BufferRoundTrip`, `BufferRoundTripFails`).
- Concatenating a buffer with the one directly in front of it gives them in memory order
  (`Slab.BufferConcat`). Two consecutive `Buffer.new` bring that about exactly when both texts fit in the
  block of the first (`TwoTexts`). A read of zero bytes gives a buffer over the whole block (`Slab.OnRead`).
- The Lua JSON printer writes null for a hole in an array and the parser drops it; the round trip is the
  identity exactly on values without such holes (`LuaJsonPrinter.RoundTrip`, `HoleExample`).
- A body goes out in chunks exactly when the head has no content-length (`UnsizedResponseArrives`,
  `SizedResponseArrives`). An empty chunk given to `response.write` ends a chunked body
  (`ChunkedBodyArrives`, `EmptyChunkExample`). A `fin` without a chunk flushes nothing when the body is not
  chunked (`FinFlushes`, `FinLeavesExample`).
- A response that is ended without a head and without a chunk sends the last chunk and no head; after any
  other first call a head comes first (`HeadComesFirst`, `NoHeadExample`).
- All of a worker's messages reach its pipe exactly when its one attempt to connect succeeded and `mp.pack`
  takes every one of them (`SentIffConnected`). The first one it refuses while the queue is drained is lost
  and everything behind it stays queued (`LostExample`); a refused worker never tries again
  (`RefusedForGood`, `RefusedExample`). A request refused later leaves its callback to the next request,
  which gets the same number (`StaleCallback`).
- Strings of a packet are read as themselves unless they are empty (`MessageReads`). A broadcast is heard
  under its own key exactly when that is not empty (`KeysHeard`, `EmptyKeyExample`). Binds of one name share
  one socket when type and address are not empty (`SameBindsShareSocket`, `EmptyAddressExample`). A bind
  whose package lacks a field raises in the master (`BindReads`).
- The JSON decoder in C accepts control characters inside strings that section 2.5 of RFC 4627 wants
  escaped (`JsonString.Allowed`), takes whatever `strtod` takes for a number once a sign or a digit begins
  it, and stops at a NUL (`OnlySuchTextsAreDecoded`, `NotJsonExamples`). Its strict number check refuses
  exactly plus signs, leading zeros, hexadecimal numbers and the beginnings of infinity and NaN
  (`InvalidNumberIs`).
- The JSON parser in Lua takes besides JSON: any bytes inside strings, a backslash in front of any character,
  an escaped surrogate on its own, which becomes a question mark, and anything behind the value
  (`OnlySuchTextsAreParsed`).

## Model

| member | source | states |
|---|---|---|
| ByteSeq.FromBigEndianInverts | src/lev_mpack.c:104-109 | reading k big-endian bytes gives back every number below 256^k |
| MpackNumber.IntegralIsRepresentable | src/lev_mpack.c:156-157 | every double with floor(n)==n is an integer that doubles hold exactly |
| MpackNumber.RoundedIsExact | src/lev_mpack.c:561-600 | pushing an integer as a Lua number gives that integer if and only if a double holds it, and one at most half a distance away otherwise |
| MpackNumber.RoundedIsRepresentable | src/lev_mpack.c:561-600 | the number pushed is always one that a double holds |
| MpackNumber.SurvivesConversion | src/lev_mpack.c:156-157 | an integral number comes back from long long and lua_pushnumber if and only if it is in range, or is 2^63 and the out-of-range conversion lands near it |
| MpackNumber.SurvivesWithIndefinite | src/lev_mpack.c:156-157 | where the out-of-range conversion gives -2^63, that is exactly the range of long long |
| MpackNumber.SurvivesWithSaturation | src/lev_mpack.c:156-157 | where it saturates, 2^63 comes back too |
| MpackNumber.HugeIsOutOfRange | src/lev_mpack.c:156-157 | the double 1e300 is integral and beyond long long |
| MpackDoubles.DoublesOfInteger | src/lev_mpack.c:527-533 | eight bytes are read as the integer n if and only if they are its IEEE bits (sign, exponent, fraction of 52 bits, for every integer that a double holds), or n is 0 and they are the other zero |
| MpackDoubles.EveryDouble | src/lev_mpack.c:527-533 | eight bytes are read as NaN if and only if the exponent is all ones and the fraction is not 0, and stay themselves if and only if they are an infinity or make no integer |
| MpackDoubles.IntegerPayloads | src/lev_mpack.c:537-600 | the bytes behind 0xcc to 0xd3 are the two's complement of exactly one integer of the type, and its nearest double is read |
| MpackDoubles.SinglePayloads | src/lev_mpack.c:518-526 | a single-precision number is NaN if and only if its exponent is all ones and its fraction is not 0, and stays its bytes otherwise |
| MpackDoubles.TiesToEven | src/lev_mpack.c:561-600 | of two doubles at the same distance the even multiple of that distance is pushed |
| MpackDoubles.MinusOneExample | src/lev_mpack.c:527-533 | cb bf f0 and six zeros are read as -1, whatever follows |
| MpackWire.DoublesArePackable | src/lev_mpack.c:135-214 | every one of the 2^64 doubles is a value to pack, as exactly one of integer, other double and NaN |
| MpackWire.NumberOfInt | src/lev_mpack.c:156-205 | the number read back from the form chosen for a long long is its nearest double, over the whole 64-bit range and through every sign extension |
| MpackWire.PackedMeans | src/lev_mpack.c:135-379 | the message chosen for a value that has one is well formed, has no nil or NaN key, and means the value with each integer as long long leaves it and each table with items cut down to them |
| MpackWire.ReceivedIsValue | src/lev_mpack.c:156-323 | that is the value itself if and only if every integral number in it, at any depth, survives the conversion and no table in it has both items and further keys |
| MpackWire.SurvivingIsInRange | src/lev_mpack.c:156-157 | where the out-of-range conversion gives -2^63, all integers survive if and only if all of them are in the range of long long |
| MpackWire.BytesAllConcat | src/lev_mpack.c:259-323 | the bytes of two lists of messages are those of their concatenation |
| MpackShortest.Shortest | src/lev_mpack.c:135-323 | no well-formed message without single-precision numbers that has the value a packed one comes back as has fewer bytes |
| MpackShortest.SingleIsShorter | src/lev_mpack.c:150-155 | NaN is packed in nine bytes, and there is a message of five bytes for it |
| MpackShortest.KnownBytes | src/lev_mpack.c:135-238 | nil, the booleans, NaN, an integer of each size and sign, a string and the empty table, byte for byte |
| MpackWriter.WriteBuffer.Append | src/lev_mpack.c:111-120 | bytes are written whole or not at all, the count returned is the bytes written, and the error sticks |
| MpackWriter.WriteBuffer.PackNumber | src/lev_mpack.c:135-214 | exactly the wire form of the number is appended (infinities, NaN, integral numbers through long long, other doubles), or nothing but the error |
| MpackWriter.WriteBuffer.PackString | src/lev_mpack.c:215-238 | header and bytes of the string, or the errors it owes |
| MpackWriter.WriteBuffer.PackTable | src/lev_mpack.c:259-323 | a table with items is written as the array of them and nothing else of it, any other as a map; size returned equals bytes written |
| MpackWriter.WriteBuffer.PackArray | src/lev_mpack.c:267-290 | header and elements in order; faults of any element are kept |
| MpackWriter.WriteBuffer.PackMap | src/lev_mpack.c:291-321 | header and alternating keys and values in order; faults of any are kept |
| MpackWriter.WriteBuffer.PackAnytype | src/lev_mpack.c:325-379 | for every value: bytes appended, bytes claimed and errors raised, whatever the buffer held before |
| MpackWriter.Pack | src/lev_mpack.c:382-425 | a message results exactly when every leaf type is supported and the encoding fits 1 MiB, and is the encoding; otherwise an error that occurred is named |
| MpackReader.Reader.UnpackAnytype | src/lev_mpack.c:453-680 | the cursor code reads what the recursive specification reads, on arbitrary bytes, error flag, key flag and raised errors included: which bytes that takes is ReadsExactlyMessages, and which numbers they are is DoublesOfInteger and IntegerPayloads |
| MpackReader.Reader.UnpackString | src/lev_mpack.c:481-499 | a raw of n bytes, or an error when fewer are left |
| MpackReader.Reader.UnpackArrayLoop | src/lev_mpack.c:429-438 | the loop over n elements stops at the first error and keeps the elements before it |
| MpackReader.Reader.UnpackMapLoop | src/lev_mpack.c:439-451 | the loop over n pairs never looks at the error flag and is left at once when an error is raised |
| MpackReader.Reader.UnpackEntry | src/lev_mpack.c:443-449 | one turn of it: the key flag is switched around the key, and storing under nil or NaN raises |
| MpackReader.UnpackWire | src/lev_mpack.c:429-680 | wherever the bytes of a well-formed message lie, decoding reads exactly them and gives what the message means, and raises if and only if a map in it, at any depth, has a nil or NaN key |
| MpackReader.SeenIsValue | src/lev_mpack.c:481-499 | copied strings give the message's value; sliced ones do if and only if no empty string lies outside a map key |
| MpackReader.RoundTrip | src/lev_mpack.c:135-379 | decoding a packed value in front of any tail stops at its last byte, and gives the value back if and only if every integral number in it survives long long and no table in it has both items and further keys |
| MpackReader.RoundTripInRange | src/lev_mpack.c:135-379 | where the out-of-range conversion gives -2^63: if and only if no integral number in it is outside the range of long long and no table in it has both items and further keys |
| MpackReader.RoundTripFails | src/lev_mpack.c:156-157 | 1e300 is packed as 0xd3 80 00 00 00 00 00 00 00 there and comes back as -2^63, and as another number on every machine |
| MpackReader.RoundTripDrops | src/lev_mpack.c:267-290 | {1, x = 2}, and {1, nil, 3, nil} with its border behind the 1, are packed as 91 01 and come back as {1}, with no error and no integer lost |
| MpackReader.BufferRoundTrip | src/lev_mpack.c:683-722 | mp.unpack on a buffer reads exactly the packed bytes; the value is intact, with buffers for its strings, if and only if in addition no empty string lies outside a map key |
| MpackReader.BufferRoundTripFails | src/lev_new_buffer.c:153-166 | packing and unpacking the empty string through a buffer loses it |
| MpackReader.PrefixFree | src/lev_mpack.c:135-379 | no packed value's bytes properly begin another's, and equal bytes come from values that come back equal |
| MpackFramer.Unpacker.ProgressByte | src/lev_mpack.c:840-880 | completing a value pops every container it completes and counts a message when the stack empties |
| MpackFramer.Unpacker.ProgressDatasize | src/lev_mpack.c:890-901 | skipping data in bulk moves the top entry by that much and pops it when full |
| MpackFramer.Unpacker.PushEnt | src/lev_mpack.c:906-918 | an entry is pushed unless 256 are there, and then the framer fails |
| MpackFramer.Unpacker.ContainerNeedsBytes | src/lev_mpack.c:922-939 | how many data bytes the top entry may skip in bulk |
| MpackFramer.Unpacker.Feed | src/lev_mpack.c:955-1053 | the loop with its bulk skip equals byte-by-byte steps, and fails where they do, which is RefusedBytes and TakesExactlyStreams; a feed that does not fit changes nothing |
| MpackFramer.Unpacker.Shift | src/lev_mpack.c:1054-1058 | the first l bytes go, the rest stays in order |
| MpackFramer.Unpacker.Pull | src/lev_mpack.c:1069-1082 | the oldest complete message is decoded and removed, leaving the framer's stack alone; an error raised in the decoder leaves buffer and count as they were |
| MpackFramer.BulkSkip | src/lev_mpack.c:965-990 | skipping n data bytes equals n single-byte steps |
| MpackFramer.RunConcat | src/lev_mpack.c:955-1053 | running on a then on b is running on a+b |
| MpackFraming.Chunking | src/lev_mpack.c:955-1053 | on arbitrary bytes, any cut into feeds that fit leaves stack, buffer and count as one feed does |
| MpackFraming.InsideMessage | src/lev_mpack.c:840-880 | before a message is complete the stack is not empty and nothing new is counted |
| MpackFraming.RunWire | src/lev_mpack.c:955-1053 | a well-formed message is framed whole, leaving the stack as it was, if and only if its nesting fits the stack |
| MpackFraming.RunItems | src/lev_mpack.c:848-880 | the elements of an open container fill it one by one |
| MpackFraming.RunStream | src/lev_mpack.c:955-1053 | a stream of messages ends with an empty stack and counts each |
| MpackFraming.FramingIsExact | src/lev_mpack.c:840-1053 | after every prefix of a stream of packed messages the count is the number of messages wholly in it, and the stack is empty exactly at the boundaries |
| MpackFraming.RunMissing | src/lev_mpack.c:848-861 | what is missing on the stack after a message is what it left starved |
| MpackFraming.CountedIffNotStarved | src/lev_mpack.c:848-861 | a well-formed message is counted if and only if no 16- or 32-bit container in it has size 0 |
| MpackFraming.StarvedExample | src/lev_mpack.c:848-861 | the three-byte message of an empty 16-bit array is decoded but never counted |
| MpackFraming.NilKeyExample | src/lev_mpack.c:439-451 | the three bytes 81 c0 01 are counted as a message, and pulling it raises and changes nothing |
| MpackItems.RefusedBytes | src/lev_mpack.c:991-1050 | where a type byte is wanted, a byte makes a feed fail if and only if no well-formed message begins with it, or it needs a stack entry and 256 are there |
| MpackItems.TakenBytes | src/lev_mpack.c:970-989 | where a size or data byte is wanted, every byte is taken |
| MpackItems.TakesExactlyStreams | src/lev_mpack.c:955-1053 | for arbitrary bytes: what a new unpacker is fed without failure begins a stream of well-formed messages, unless it meets a 32-bit count beyond an int; and what begins such a stream fails only at a full stack |
| MpackItems.TakenIsItems | src/lev_mpack.c:955-1053 | what is taken anywhere between values is headers and leaves of messages one after the other, the last one perhaps cut |
| MpackItems.ItemsAreTaken | src/lev_mpack.c:955-1053 | and any such sequence is taken up to where the stack is full |
| MpackItems.ReservedExample | src/lev_mpack.c:1005-1006 | a feed of 91 c1 fails, with the array left open and nothing counted |
| MpackDecoding.ReadsExactlyMessages | src/lev_mpack.c:429-680 | decoding anywhere in arbitrary bytes ends without an error, flagged or raised, if and only if a well-formed message with good keys lies there, and then has read it; unless a 32-bit count beyond an int is met |
| MpackDecoding.HugeIsEmpty | src/lev_mpack.c:652-674 | a container with such a count is read as the empty table, and its elements are left |
| MpackFifo.PackedNotStarved | src/lev_mpack.c:259-323 | a packed value never has such a container |
| MpackFifo.FeedStep | src/lev_mpack.c:955-1053 | a feed that fits keeps the buffer as unpulled messages and a partial tail |
| MpackFifo.PullStep | src/lev_mpack.c:1069-1082 | a pull gives the oldest unpulled value and shifts by exactly its bytes if and only if the message has no nil or NaN key; otherwise it raises and changes nothing; without a complete message it gives nil |
| MpackFifo.PullsAreQueue | src/lev_mpack.c:955-1082 | every interleaving of feeds and pulls of any stream behaves as a queue of messages that stays at one that raises |
| MpackFifo.QueueInOrder | src/lev_mpack.c:1069-1082 | what the queue gives are the stream's values in order, none lost or repeated, up to the first message that raises |
| MpackFifo.StuckForGood | src/lev_mpack.c:1069-1082 | with such a message in front every later pull raises, whatever is fed |
| MpackFifo.FirstInFirstOut | src/lev_mpack.c:955-1082 | a new unpacker fed a prefix of packed values, however cut, never raises, gives them back in order as packing leaves them (themselves if and only if of all pulled every integer survives long long and no table has both items and further keys), and keeps as many counted as are complete and unpulled |
| SlabState.ClassOf | src/lev_slab.c:67-89 | the smallest class that holds a request; there is one exactly up to 1 MiB |
| SlabState.TakeKeeps | src/lev_slab.c:91-104 | taking a block keeps the invariant, with the new block loose and every buffer's bytes as before |
| SlabState.ReleaseKeeps | src/lev_slab.c:113-131 | giving up a reference makes the counts right again; a block goes to its pool or is freed exactly at zero |
| SlabState.LastReleaseRecycles | src/lev_slab.c:91-131 | the last reference puts a block on its pool while that has fewer blocks than it began with, where it is the next one taken, and frees it otherwise |
| SlabState.HoldKeeps | src/lev_new_buffer.c:153-166 | a new slice in its place keeps the invariant and everybody's bytes |
| SlabState.DropKeeps | src/lev_new_buffer.c:802-806 | collecting a slice keeps the invariant and everybody else's bytes |
| SlabState.NewBufferKeeps | src/lev_new_buffer.c:173-216 | carving a buffer keeps the invariant, gives it its bytes and touches no other's |
| SlabState.ExtendKeeps | src/lev_new_buffer.c:961-990 | extending the last buffer of a block in place changes no other buffer's bytes |
| SlabState.JoinKeeps | src/lev_new_buffer.c:932-957 | two adjacent slices become one slice over the bytes of both |
| SlabState.SetStringKeeps | src/lev_new_buffer.c:234-274 | changing a private string's room keeps everything else |
| SlabState.AppendKeeps | src/lev_new_buffer.c:290-298 | characters written behind a private string are its only change |
| SlabHeap.Slab.constructor | src/lev_slab.c:59-65 | the pools start filled to their minimum, with no buffer alive |
| SlabHeap.Slab.GetBlock | src/lev_slab.c:67-105 | a block of the request's class from its pool or from malloc, with no references and no counted bytes; none above 1 MiB |
| SlabHeap.Slab.DecRef | src/lev_slab.c:113-131 | the new state is the release step |
| SlabHeap.Slab.BumpBlock | src/lev_new_buffer.c:173-196 | the block a new buffer is carved from: the bump block when the request fits, otherwise a fresh one after giving up the old |
| SlabHeap.Slab.BufferNew | src/lev_new_buffer.c:173-216 | the new buffer has the given bytes or zeros, overlaps no live slice and changes no other buffer; it lies right behind the counted bytes of the bump block if that has room, and at the start of another block if not |
| SlabHeap.Slab.BufferSlice | src/lev_new_buffer.c:409-439 | accepted exactly when the range lies in the buffer, and then shows that range |
| SlabHeap.Slab.BufferConcat | src/lev_new_buffer.c:881-992 | the result is first and second in order, except that a second buffer directly in front comes first; no other buffer changes |
| SlabHeap.Slab.ConcatInPlace | src/lev_new_buffer.c:961-990 | extending in place appends and leaves all other buffers |
| SlabHeap.Slab.ConcatCopy | src/lev_new_buffer.c:980-990 | copying gives both byte strings in a new buffer and leaves all others |
| SlabHeap.Slab.BufferGc | src/lev_new_buffer.c:802-806 | a collected buffer goes and nothing else changes |
| SlabHeap.Slab.OnAlloc | src/lev_new_base.c:30-44 | the block to read into is referred to by nobody else |
| SlabHeap.Slab.OnRead | src/lev_new_base.c:47-73 | what was read becomes a new buffer; an error releases the block; a read of 0 bytes gives a buffer over the whole block |
| SlabHeap.Slab.StringNew | src/lev_new_json.c:288-314 | a private string starts empty in a block of its own |
| SlabHeap.Slab.EnsureRoom | src/lev_new_buffer.c:234-280 | after growing in place or moving, the string is the same and has room |
| SlabHeap.Slab.MoveString | src/lev_new_buffer.c:254-266 | a moved string keeps its characters and its old block is released once |
| SlabHeap.Slab.StringAppend | src/lev_new_buffer.c:290-298 | appending adds the bytes behind the string, wherever it then lives |
| SlabHeap.Slab.StringAppendAll | src/lev_new_json.c:358-364 | any run of appends leaves the concatenation |
| SlabRun.Program | src/lev_new_buffer.c:173-216 | over every run of Buffer.new, slice, concat and collection, before each call and at the end: the live buffers have the values of independent byte strings under distinct names with nothing else alive, blocks, pools and counts are sound, and a concat is flipped if and only if its second buffer then lies directly in front of its first |
| SlabRun.TwoTexts | src/lev_new_buffer.c:932-957 | after two Buffer.new the concat of the second with the first gives them in memory order if and only if both fit in the first's block: with [1] and [2], [1, 2] |
| SlabRun.Call | src/lev_new_buffer.c:881-992 | one call does to the heap what the value semantics does; a concat is flipped exactly when the second buffer directly precedes the first |
| SlabRun.Ownership | src/lev_slab.c:107-131 | refcount = live slices plus the bump block; no block is pooled and live or pooled twice; pools hold their own class and stay in their limits; buffers of different allocations are disjoint and below the counted bytes |
| SlabRun.MpPack | src/lev_mpack.c:382-425 | mp.pack makes one new buffer of exactly the encoding, the slab never lacking a block, or touches nothing |
| Utf8.EncodesScalars | src/lev_new_json.c:1074-1107 | a code point gets well-formed UTF-8 if and only if it is a Unicode scalar value, and that sequence carries it |
| Utf8.OnlyEncoding | src/lev_new_json.c:1074-1107 | no other well-formed sequence carries it |
| JsonString.EscapesAreScalars | src/lev_new_json.c:1118-1174 | an accepted escape or pair denotes a scalar value and appends its only well-formed UTF-8 |
| JsonString.ScalarsHaveEscapes | src/lev_new_json.c:1118-1174 | every scalar value has an escape that is accepted |
| JsonString.UnitEscape | src/lev_new_json.c:1118-1174 | an escaped code unit outside the surrogates is read as its UTF-8 and six bytes |
| JsonString.PairEscape | src/lev_new_json.c:1139-1163 | a high and a low surrogate are read as the code point of the pair and twelve bytes |
| JsonString.EscapeFits | src/lev_new_json.c:1118-1174 | nothing else is accepted as an escape |
| JsonString.ScanIsExact | src/lev_new_json.c:1184-1242 | a string token is accepted exactly when it is a sequence of allowed pieces and a quote, and its value is what they mean |
| JsonString.ScanComplete | src/lev_new_json.c:1184-1242 | every sequence of allowed pieces is read as its meaning, up to its quote |
| JsonString.ScanSound | src/lev_new_json.c:1184-1242 | what is read is such a sequence |
| JsonString.RefusalIsFirst | src/lev_new_json.c:1184-1242 | a string that is refused is allowed pieces up to what it is refused for: its end, a backslash without an escape, or a \u that begins neither a code unit nor a surrogate pair |
| JsonGrammar.ValueComplete | src/lev_new_json.c:1415-1550 | the tokens of a value, whatever follows, are parsed as it, or refused as too deep exactly when it is |
| JsonGrammar.ValueSound | src/lev_new_json.c:1415-1550 | what is parsed is the tokens of a value of allowed depth |
| JsonGrammar.MembersComplete | src/lev_new_json.c:1434-1482 | the members of an object build the table in which the last of a name wins |
| JsonGrammar.ItemsComplete | src/lev_new_json.c:1485-1520 | the items of an array fill 1, 2, 3 |
| JsonGrammar.FieldsLastWins | src/lev_new_json.c:1463-1468 | a name has the value of its last member, and no other name is there |
| JsonGrammar.SlotsInOrder | src/lev_new_json.c:1504-1506 | item i is at index i and nothing else is there |
| JsonGrammar.DecodeIsExact | src/lev_new_json.c:1552-1590 | the tokens of a text are accepted if and only if they are one value of allowed depth and the end, and the result is that value |
| JsonGrammar.LinIsUnique | src/lev_new_json.c:1523-1550 | a token sequence begins with at most one value |
| JsonFaults.ValueFault | src/lev_new_json.c:1398-1413 | the tokens before a fault begin some value, and any continuation with the token found fails in the same way |
| JsonFaults.FaultsAtFirstOffender | src/lev_new_json.c:1398-1413 | an error names the first token at which no document can go on |
| JsonDecoder.SkipWhite | src/lev_new_json.c:1318-1325 | the first byte that is not white space, never past the terminator |
| JsonDecoder.MatchInside | src/lev_new_json.c:1363-1376 | a literal matches exactly when its bytes stand there, before the terminator |
| JsonDecoder.Decoder.DecodeHex4 | src/lev_new_json.c:1051-1070 | four digits are read, stopping at the first byte that is none |
| JsonDecoder.Decoder.AppendUnicodeEscape | src/lev_new_json.c:1118-1174 | on success the escape's bytes are appended and the pointer moves by 6 or 12; on failure nothing changes; the pointer stays before the terminator |
| JsonDecoder.Decoder.NextStringToken | src/lev_new_json.c:1184-1242 | the token is the scanned string or its error; at most as many bytes are written as are read and the final NUL has room |
| JsonDecoder.Decoder.NextToken | src/lev_new_json.c:1313-1390 | the next token of the text and the position behind it; at the end and at an error the decoder stays |
| JsonDecoder.Decoder.ProcessValue | src/lev_new_json.c:1523-1550 | the running parser agrees with the grammar's on value, error and remaining tokens, and restores the depth |
| JsonDecoder.Decoder.ParseObjectContext | src/lev_new_json.c:1434-1482 | the same for the object loop |
| JsonDecoder.Decoder.ParseArrayContext | src/lev_new_json.c:1485-1520 | the same for the array loop |
| JsonDecoder.Decode | src/lev_new_json.c:1552-1590 | a text is accepted if and only if its tokens are one value of allowed depth and the end, with that value; otherwise the error of the first failing step |
| JsonText.NeverInvalid | src/lev_new_json.c:1259-1293 | the strict number check never refuses a JSON number |
| JsonText.TextIsLexed | src/lev_new_json.c:1313-1390 | any spelling of tokens with white space between them is lexed as those tokens |
| JsonText.EveryTextIsDecoded | src/lev_new_json.c:1552-1590 | every RFC 4627 text of a value, in any spelling and also with raw control characters in strings, is decoded to it or refused exactly for its depth |
| JsonSpelling.InvalidNumberIs | src/lev_new_json.c:1259-1293 | the strict check refuses exactly a plus sign and, behind an optional minus sign, 0x, a zero in front of a digit, and inf or nan, in letters of either case |
| JsonSpelling.LexingIsExact | src/lev_new_json.c:1313-1390 | on arbitrary bytes: the tokens are ts, without an error, if and only if the text spells ts with white space between and a NUL behind, where a number is what strtod takes from where one may begin |
| JsonSpelling.OnlySuchTextsAreDecoded | src/lev_new_json.c:1552-1590 | a text is decoded to a value if and only if it spells the tokens of a tree of allowed depth that has this value |
| JsonSpelling.NotJsonExamples | src/lev_new_json.c:1259-1293 | [1.] is taken where strtod takes 1., and so is [] with a NUL and anything behind it |
| LuaJson.CodepointIsUtf8 | lib/lev/json.lua:169-230 | the arithmetic gives every scalar value its UTF-8 and a surrogate a question mark |
| LuaJson.EscapeReads | lib/lev/json.lua:337-354 | an escaped pair is read as the UTF-8 of its code point, any other escape as its own or a question mark |
| LuaJson.GrokString | lib/lev/json.lua:304-366 | the loop reads what the specification reads and returns the index behind the quote |
| LuaJson.GrokObject | lib/lev/json.lua:380-427 | the object loop agrees with the parser function on value, index and error |
| LuaJson.GrokArray | lib/lev/json.lua:429-461 | the array loop does, dropping nulls |
| LuaJson.ParseOne | lib/lev/json.lua:464-496 | dispatch on the first character agrees with the parser function, which EveryTextIsParsed and OnlySuchTextsAreParsed tie to the grammar |
| LuaJson.DecimalInverts | lib/lev/json.lua:266-301 | reading a decimal numeral gives its number |
| LuaText.EveryTextIsParsed | lib/lev/json.lua:498-535 | JSON:decode of any RFC 4627 text of a value, with any white space, numbers and escapes, gives that value, and reads up to its last token |
| LuaText.NumberReads | lib/lev/json.lua:266-301 | a section 2.4 number that a delimiter follows is taken whole, with fraction and exponent, and nothing behind it |
| LuaText.StringReads | lib/lev/json.lua:304-366 | a string of allowed pieces is read as what they mean, up to its quote |
| LuaText.MembersLastWins | lib/lev/json.lua:380-427 | a name of an object has the value of its last member, and is not there when that is null |
| LuaText.FractionExample | lib/lev/json.lua:282-293 | [1.5] is parsed as the table of 1.5 |
| LuaSpelling.OnlySuchTextsAreParsed | lib/lev/json.lua:266-535 | on arbitrary bytes: a value is given only where the text spells the tokens of a tree that has it, but for NULs, lone surrogates and passed-through escapes in strings, and anything behind it |
| LuaSpelling.NumeralReads | lib/lev/json.lua:266-301 | what is taken for a number is a section 2.4 number, and its value is that number's |
| LuaSpelling.SpecialTexts | lib/lev/json.lua:508-525 | a blank text is nil; one that begins like a tag, or has a NUL among its first two bytes, is refused |
| LuaJsonPrinter.CharReads | lib/lev/json.lua:537-568 | every byte, escaped as the printer does, is read back as that byte |
| LuaJsonPrinter.LiteralReads | lib/lev/json.lua:565-568 | a printed string is read back, up to its closing quote |
| LuaJsonPrinter.NumberReads | lib/lev/json.lua:266-301 | a printed integer is read back, up to its last digit |
| LuaJsonPrinter.ValueReads | lib/lev/json.lua:464-496 | a printed value in any surroundings is read as its normal form, up to its own last byte |
| LuaJsonPrinter.DecodesToNormal | lib/lev/json.lua:498-535 | decoding a printed value gives it without the holes of its arrays |
| LuaJsonPrinter.NormalIsWhole | lib/lev/json.lua:429-461 | a value is its own normal form if and only if its arrays have no holes |
| LuaJsonPrinter.RoundTrip | lib/lev/json.lua:498-727 | decode(encode(v)) = v if and only if no array in v has a hole |
| LuaJsonPrinter.HoleExample | lib/lev/json.lua:688-697 | {[2] = true} is printed as [null,true] and read back as {true} |
| LuaJsonPrinter.PrintsUniform | lib/lev/json.lua:570-627 | printing succeeds if and only if no table it visits mixes string and number keys |
| LuaJsonPrinter.ObjectOrArray | lib/lev/json.lua:570-627 | the key loop, in any order, classifies the table and finds its largest index or its sorted names |
| LuaJsonPrinter.EncodeValue | lib/lev/json.lua:633-727 | the running printer gives the specified text, which ValueIsWritten shows to be JSON, or its error |
| LuaJsonPrinter.EncodeArray | lib/lev/json.lua:688-697 | the item loop gives the array's text, null for a hole |
| LuaJsonPrinter.EncodeObject | lib/lev/json.lua:698-716 | the key loop gives the object's text |
| LuaPrintedText.ValueIsWritten | lib/lev/json.lua:537-727 | the printed text of every printable value is RFC 4627 text: the tokens of its tree, an object of its names or an array with null for a hole, without white space |
| LuaPrintedText.EscapedIsText | lib/lev/json.lua:537-568 | a printed string is allowed pieces that mean its bytes: escapes for quotes, backslashes and control characters, and plain bytes for all others |
| LuaPrintedText.PlainStays | lib/lev/json.lua:557-568 | a string without control characters, quotes and backslashes is printed as it is |
| LuaPrintedText.DecoderTakesPrinted | src/lev_new_json.c:1552-1590 | the C decoder reads every printed text as that tree, up to its limit of depth |
| LuaPrintedText.TreeMeansValue | lib/lev/json.lua:429-461 | the tree written means the value, but for the holes in its arrays |
| TcpBatch.WriteKeeps | src/lev_new_tcp.c:341-382 | a write keeps: mask bits are exactly the copied entries, no copy is shared, a copy is alive exactly while unwritten |
| TcpBatch.AfterWriteKeeps | src/lev_new_tcp.c:325-338 | a request's callback frees exactly its copies, each alive until then |
| TcpBatch.WriteAppends | src/lev_new_tcp.c:341-382 | a write adds its bytes behind all earlier ones; flushing leaves nothing pending |
| TcpBatch.WhenHandedOver | src/lev_new_tcp.c:365-378 | a request is made exactly when a write has a flush, the handle is not bottled, or it is the sixteenth chunk; otherwise one more is pending |
| TcpBatch.RunKeeps | src/lev_new_tcp.c:325-401 | every run keeps both |
| TcpBatch.WritesAreConserved | src/lev_new_tcp.c:325-401 | over every run the bytes sent and pending are the bytes written in order, requests have 1 to 16 entries, and no copy leaks or is freed early |
| TcpBatch.Tcp.TcpWrite | src/lev_new_tcp.c:341-382 | the handle's new state is the write step |
| TcpBatch.Tcp.TcpBottle | src/lev_new_tcp.c:394-401 | the handle's new state is the bottle step |
| TcpBatch.Tcp.TcpAfterWrite | src/lev_new_tcp.c:325-338 | the loop that starts one past the last entry frees each copy once and reads no entry that is not there |
| WebResponse.HexInverts | src/lev_new_buffer.c:752-774 | a chunk size written in hexadecimal reads back as the size |
| WebResponse.WriteHexLower | src/lev_new_buffer.c:752-774 | the digits are written at the index and nothing else in the buffer changes, or nothing at all and an error when they do not fit there |
| WebResponse.SizeFits | lib/lev/web.lua:150-151 | every chunk size has room in the buffer made for it |
| WebResponse.HeadStream | lib/lev/web.lua:102-142 | a head goes out whole, at once unless the caller had bottled the connection |
| WebResponse.BodyStream | lib/lev/web.lua:143-167 | a write adds one chunk, or the plain data, behind everything before |
| WebResponse.FinStream | lib/lev/web.lua:171-186 | a chunked fin adds the last chunk and leaves nothing pending |
| WebResponse.FinFlushes | lib/lev/web.lua:171-180 | nothing is pending after fin if and only if the body is chunked, a chunk was given, or nothing was pending before |
| WebResponse.FinLeavesExample | lib/lev/web.lua:171-180 | on a bottled connection with one piece written and a body that is not chunked, fin hands nothing over |
| WebResponse.HeadComesFirst | lib/lev/web.lua:102-180 | over every run of calls, what a new response sends begins with a head if and only if its first call is not a fin without a chunk |
| WebResponse.NoHeadExample | lib/lev/web.lua:171-180 | a new response that is only ended sends the last chunk alone |
| WebResponse.DechunkAll | lib/lev/web.lua:149-175 | a client reads the chunks before the first empty one and takes the rest for what follows the body |
| WebResponse.ChunkedBodyArrives | lib/lev/web.lua:102-186 | after a head without content-length, any writes and a fin send everything, and the body decodes to the chunks joined if and only if none is empty |
| WebResponse.UnsizedResponseArrives | lib/lev/web.lua:102-186 | a new response with a head without content-length, given or, before a body, the default one: head, chunked body and last chunk are all handed over, and the body decodes to the chunks joined if and only if none is empty |
| WebResponse.SizedResponseArrives | lib/lev/web.lua:123-180 | a new response with a head with content-length: what is sent is the head and the data joined, as it is, with nothing pending unless the connection was bottled and fin has no data |
| WebResponse.HexIsLower | src/lev_new_buffer.c:752-774 | the digits of a chunk size are lower-case, with no zero in front |
| WebResponse.EmptyChunkExample | lib/lev/web.lua:149-175 | of the chunks a, nothing and b a client reads a, and takes b for what follows the body |
| WebResponse.Response.SendHead | lib/lev/web.lua:102-142 | the object's new state is the head step; a second head is refused, with a body in chunks from then on unless there is a content-length |
| WebResponse.Response.SendBody | lib/lev/web.lua:143-167 | the object's new state is the body step, sending a default head first when there was none |
| WebResponse.Response.Finish | lib/lev/web.lua:171-186 | the object's new state is the fin step |
| MailboxPacket.RefusedPackage | src/lev_mpack.c:382-425 | a package that mp.pack refuses by itself, for its types or its size, makes the whole packet refused |
| MailboxPacket.ShortIsSendable | lib/lev/_worker.lua:85 | hello and every reply are taken by mp.pack |
| MailboxPacket.FieldOpens | src/lev_mpack.c:439-451 | reading a field of what mp.unpack makes of a table gives what it makes of that field, and nothing where the table was packed as an array |
| MailboxPacket.MessageReads | lib/lev/_worker.lua:96-121 | every field of a packet is read as itself at the other end, but for an empty string and what packing does to the package |
| MailboxPacket.BindReads | lib/lev/_master.lua:37-46 | a bind's name is read from exactly the packages that are no arrays and have strings for type and address and a number for port; it is made of these three, but for an empty type or address |
| MailboxPacket.EmptyAddressExample | lib/lev/_master.lua:37-41 | binding the empty address twice makes two names wherever the memory behind it differs |
| Mailbox.SendKeepsWire | lib/lev/_worker.lua:96-104 | sending keeps: hello and all sent messages up to the first refused one in order on the wire and those behind it queued, or all of them queued; a call in which mp.pack raises changes nothing |
| Mailbox.ConnectKeepsWire | lib/lev/_worker.lua:77-94 | so does connecting, with a drain that ends at a packet mp.pack refuses and loses that one, or being refused |
| Mailbox.ReceiveKeepsCalls | lib/lev/_worker.lua:37-59 | receiving keeps: a callback is pending, or ran once with its own number |
| Mailbox.ProcessKeeps | lib/lev/_master.lua:31-60 | the master's pools and output stay what its history says |
| Mailbox.StepOk | lib/lev/_worker.lua:37-121 | every event of every process keeps the whole system's invariant |
| Mailbox.WorkersAreHeardInOrder | lib/lev/_worker.lua:77-104 | in every reachable state the master has read a prefix of hello and the worker's messages in call order, up to the first that mp.pack refuses; while it refuses none the rest is in the pipe or the queue |
| Mailbox.CallbacksRunOnce | lib/lev/_worker.lua:52-57 | in every reachable state no callback number ran twice, and the callback that ran is the last one passed with its number |
| Mailbox.StaleCallback | lib/lev/_worker.lua:96-121 | when a request raises, the reply to the next one runs the callback of the one that was never sent |
| Mailbox.RepliesAnswerBinds | lib/lev/_master.lua:37-51 | every reply written to a connection answers a bind of that connection and carries the descriptor of the first bind of that name |
| Mailbox.CallbacksGetDescriptors | lib/lev/_worker.lua:37-57 | a callback runs only for a bind of its own worker and number that the master has read, and gets the descriptor of the first bind of that name |
| Mailbox.SameBindsShareSocket | lib/lev/_master.lua:37-47 | in every reachable state binds of one type, address and port, over all workers, get one descriptor when type and address are not empty |
| Mailbox.BroadcastsReachTheOthers | lib/lev/_master.lua:53-58 | what was written to a worker is, in order, each broadcast of another worker once, if it had said hello, and its own replies |
| Mailbox.BroadcastShare | lib/lev/_master.lua:53-58 | a broadcast the master read stands in what it wrote to each other connection that had said hello by then, between what the packets before and after it made it write, and nowhere else |
| Mailbox.KeysHeard | lib/lev/_worker.lua:43-51 | a broadcast is heard under its own key if and only if that is not empty, and under the empty key none is |
| Mailbox.EmptyKeyExample | lib/lev/_worker.lua:43-51 | a listener of the empty key does not hear a broadcast with the empty key |
| Mailbox.ListenersHearDeliveries | lib/lev/_worker.lua:37-51 | in every reachable state the packets that came to a worker are the first ones written to it, in order, and the listeners run are exactly those registered by then for what each broadcast's key is read as, once each and in order |
| Mailbox.SentIffConnected | lib/lev/_worker.lua:77-104 | in every reachable state hello and all messages are on the wire if and only if the one attempt to connect succeeded and mp.pack takes every message; without a connection all are queued, and with one the first refused message is lost, those before it are on the wire and those behind it queued |
| Mailbox.LostExample | lib/lev/_worker.lua:85-93 | a function as package, the connection, then a number: hello on the wire, the function lost, the number queued for good |
| Mailbox.RefusedForGood | lib/lev/_worker.lua:77-93 | after a refused connection, or a drain that ended early, nothing is ever written and the queue only grows |
| Mailbox.RefusedExample | lib/lev/_worker.lua:77-104 | a message, a refused connection and a message: two in the queue, none on the wire |
| MailboxProcess.WorkerProcess.WritePacket | lib/lev/_worker.lua:85-98 | the packet's table is handed to mp.pack, and the packet is on the wire exactly when that takes it |
| MailboxProcess.WorkerProcess.OnConnect | lib/lev/_worker.lua:80-93 | greeting and draining the queue is the connect step: up to the first packet refused, which has left the queue |
| MailboxProcess.WorkerProcess.Send | lib/lev/_worker.lua:96-104 | the module state after send_msg is the send step, and it fails exactly when connected and mp.pack refuses |
| MailboxProcess.WorkerProcess.AskMaster | lib/lev/_worker.lua:115-121 | the same for toMaster, the callback stored under the number that is sent, before anything can fail |
| MailboxProcess.WorkerProcess.ProcessPacket | lib/lev/_worker.lua:37-59 | the same for a packet: every listener of what its key is read as once in order, or the callback of its number with the descriptor |
| MailboxProcess.MasterProcess.ProcessPacket | lib/lev/_master.lua:31-60 | what is written to every connection, both pools and a failure are those of the process step, on what the package of a bind is read as |
| MailboxProcess.MasterProcess.SpreadPacket | lib/lev/_master.lua:53-58 | the pairs loop reaches every other greeted connection once, in any order |
| MailboxProcess.MasterProcess.OnClose | lib/lev/_master.lua:77-82 | a closed connection leaves the pool |
| MailboxProcess.OnRead | lib/lev/_worker.lua:62-75 | the read loop hands on what the specification cuts out of the read, up to an error |
| MailboxProcess.ReadsAreCutExactly | lib/lev/_master.lua:62-75 | a read that begins with whole packets is cut exactly at their ends, each handed on once with its own bytes and as what mp.unpack makes of it, whatever follows; its value is intact if and only if no empty string lies outside a map key, every integral number survives long long and no table has both items and further keys |
| MailboxProcess.PacketsAreRead | lib/lev/_worker.lua:62-75 | packets written one after the other are handed on one by one, each field read as itself but for an empty string and what packing does to the package |
| Querystring.CollapseExpands | lib/lev/querystring.lua:36-43 | the line-end passes undo each other on every byte string |
| Querystring.PercentInverts | lib/lev/querystring.lua:35-46 | so do the escape passes |
| Querystring.UrlEncodedBytes | lib/lev/querystring.lua:42-50 | an encoded string holds only letters, digits, + and % |
| Querystring.RoundTrip | lib/lev/querystring.lua:33-50 | urldecode(urlencode(s)) = s for every byte string |
| Querystring.Injective | lib/lev/querystring.lua:42-50 | different strings have different encodings |
| Querystring.EncodesBytes | lib/lev/querystring.lua:42-50 | an encoded string is the codes of its bytes: + for a space, %0D%0A for a line feed, letters and digits as they are, upper-case escapes for all others |
| Querystring.AnySpellingDecodes | lib/lev/querystring.lua:33-40 | however a text is spelled, with escapes of either case where none are needed and + or %20 for a space, it is decoded to what it means, with line ends made line feeds |
| Querystring.Parse | lib/lev/querystring.lua:54-69 | the loop assigns the pairs between separators in order |
| Querystring.ParsesAnyText | lib/lev/querystring.lua:54-69 | every text is runs between one or more separators, and parsing assigns them in order: the key before the first =, decoded, gets what is behind it, decoded, or the empty string where there is no = |
| Querystring.ParsesJoined | lib/lev/querystring.lua:54-69 | parsing encoded pairs joined by & gives back the pairs, the last of a key winning |
| Querystring.LastWinsMeans | lib/lev/querystring.lua:54-69 | a key has the value of its last pair, and no other key is there |

## Left out

- The Lua C API, metatables, the garbage collector's timing and the registry: values are algebraic, and collection is an explicit step.
- libuv, c-ares, sockets, fs, dns, udp, pipes, timers, processes, signals and http_parser: a write hands a request over, a callback happens at some later time, a pipe delivers in order.
- strtod, snprintf and locales: a JSON number is the text that was read, and strtod a parameter that says how much it takes.
- The sign of zero and the bits of a NaN: Lua compares the zeros equal, and every NaN is one value. A single-precision number, which only the decoder makes, stays its four bytes.
- What a C conversion to long long gives out of range, which the standard leaves open: it is a parameter.
- malloc failure, and reuse of addresses: names of blocks and copies are never used twice.
- The order of independent assignments inside one C statement list.
- Writing through a buffer (the integer writers and index assignment), growth of a shared block by index assignment, lev_memslice_append_string, fill, find, inspect and upuntil.
- A concat whose left operand is a string, buffers of no bytes, and requests above 1 MiB, for which the slab has no block.
- The bytes of a buffer that is written, the one of a chunk size among them, stay as they are until the request's callback: TcpBatch takes that for granted of every Slice. Lua may collect or change a buffer earlier; that it does not is not modelled.
- WebResponse.WriteHexLower: requires a buffer that is at least as long as the digits; for a shorter one the bounds check of the original wraps around and it writes outside.
- MpackReader.Reader.UnpackAnytype: what lies on the Lua stack after the error flag is set is not modelled; values built then are placeholders that no caller sees, and storing them raises nothing.
- MpackFraming.FramingIsExact: is about packed messages; containers of size 0 in 16 or 32 bits are the subject of CountedIffNotStarved.
- JsonDecoder.Decode: the character index of an error message is not modelled, only its token; the Lua stack check is taken to succeed.
- JsonText.EveryTextIsDecoded: supposes that strtod reads a whole JSON number that a delimiter follows.
- The C JSON encoder: its append macro advances the length also after an escape.
- LuaText.EveryTextIsParsed: what tonumber makes of a number with a fraction or an exponent, or from 10^14 on, is not modelled; such a number is known by its text.
- LuaJson.ParseOne: error messages are kept without their position; the strict-types metatables and the decoding of HTML and nil arguments are not modelled.
- LuaJsonPrinter.RoundTrip: numbers are integers below 10^14 in magnitude, which print as decimals; tables are trees, so the check for cycles never fires; table.sort is a parameter that lists the keys once each; number keys are natural numbers.
- The pretty printer of the Lua JSON module.
- WebResponse.Response.SendHead: the status line and header lines are given as text, with whether a content-length is among them; merging default headers, the date and the order of pairs are not modelled.
- WebResponse.DechunkAll: the client's decoder knows no chunk extensions and no trailer fields, which are never sent.
- Closing the connection or reinitialising the parser at the end of response.fin.
- Mailbox.StepOk: a callback runs as one step; what it sends itself is a later event. A worker connects at most once, and a connection is named by its worker. Requests are counted by numbers; their numerals, which are the keys in the source, are taken to differ, as they do below 10^14.
- An error that no Lua code catches ends its process. The master then does nothing more; a worker in the model may go on, which only adds runs.
- MailboxPacket.BindReads: a port that is a string reaches the concatenation of a string with a buffer, which reads an uninitialised length; it counts as an error here. Keys of broadcasts are strings.
- What an empty string of a packet is read as: a parameter of each reading, longer than any command, because it is as long as its block, which holds the whole packet.
- Packets that are split across reads.
- Querystring.Parse: the separators are the default & and =; other Lua patterns in their place are not modelled.
- Time formatting, templates, command line, debugger, webchat and its browser client.
