# Volex, verified

A model of volex in Dafny: the wire codec that its Rust runtime and generated Rust code implement, the Go encoder beside it, the TypeScript varints and transports, the RPC multiplexer between a TypeScript client and a Rust server, and the compiler's static analyses. Emitted code is interpreted, not printed: a schema and a value go in, bytes come out.

## How to read it

- `Wire`, `Bits`, `Leb128`, `Presence`: bytes, bit operators on numbers, LEB128 (section 7.6 of DWARF 5) and zigzag, presence bitfields. The loops are methods in the runtime's own operators.
- `Schema`, `Values`: schemas by name, the values of a type, defaults. `Compiles` gathers what the checker and then rustc demand of a schema: names resolve, indices are unique, enums and unions have a first variant, and no item needs a default of itself to build its own (so required fields are acyclic, which `fixed_size` relies on without a guard of its own).
- `Encoder`, `Decoder`: what is written and what is accepted, as functions. `Writing` and `Reading` are the runtime's procedures, which append to a buffer, patch it in place and move a cursor; each is proved equal to those functions. `GoEncoder` is the temporary-buffer encoder of the Go back end, proved to write the same bytes; the primitives of `runtime-go/volex.go` it calls are loop for loop Rust's and share their methods.
- `Skipping`, `FixedSizes`, `Defaults`, `Compatibility`, `Evolution`, `RoundTrip`, `Soundness`, `Panics`, `FieldOrder`, `Truncation`: what encoder and decoder promise together, which schemas make a decoder panic, and what becomes of inputs that are cut off or repeat themselves.
- `Layout`, `Refusals`, `Utf8`: the format in literal bytes, independent of how encoders and decoders are written, and what decoders make of bytes that no encoder writes.
- `TsRuntime`, `TcpTransport`, `HttpStream`: varints in JavaScript's doubles (exact below 2^53, some larger number, or no number), and the two loops that put messages back together from chunks.
- `RpcMessages`, `RpcClient`, `RpcOutcomes`, `RpcServer`, `RpcReplies`, `RpcSystem`, `RpcDelivery`, `RpcStreaming`: packets, the client and the server as step systems with the classes that take their steps and what each step does to a call and puts on the wire, the two composed over two FIFO links, what has arrived once the links are empty, and how a call made in any state can be carried to its end. `lost` requests, late replies, cancellation and a handler dropped at any point are steps like any other; tokio scheduling is the choice of the next step, and a step that has to wait for room in a channel does nothing.
- `Containment`, `Derive`, `Checker`: the graph of types in types, the derive analysis on possibly cyclic schemas, and the checker with its map-key validator.

Where the code and its documentation disagree the code is followed: wire types are those of `runtime-rust/src/lib.rs:14-23`, not the older numbers in the worked examples at `doc/wire_format.md:263-267`.

Some promises hold only under a condition, which is proved to be exact and comes with an input that breaks it.

- No input makes the decoder compute a remainder by zero, which panics, if and only if every field can be counted: a bare array or map of zero-byte elements cannot. The model carries that panic as the outcome `RemainderByZero`, so `Decoder.Dec` itself is total; the panics of `with_capacity` are left out (`Panics.PanicFreeIff`; `RoundTrip.EmptyElementsPanic` does it in two bytes). The same fields are the ones that do not come back (`RoundTrip.FieldRoundTripIff`).
- A unit variant comes back if and only if its index is below 2^29, because its tag is computed in 32 bits (`RoundTrip.UnitVariantRoundTripIff`, `RoundTrip.UnitVariantWraps`). `Compatibility.Legible` says of a value that neither limit is violated by anything in it that the reader decodes; unknown fields are skipped and may hold anything.
- The TypeScript TCP transport hands out the frames that were sent, whatever the chunks, if and only if no length in the stream, finished or not, takes more than 147 bytes; from byte 148 on the arithmetic of the length can meet 0 times Infinity, and `processBuffer`, whose test for a missing rest fails on NaN, gives a waiting `recv` an empty frame; `recv` itself tests the other way round and waits (`TcpTransport.ReassemblyIff`, `TcpTransport.LongHeaderCuts`). What `send` writes is always safe (`TcpTransport.SentIsFramed`).
- A stream ends in an END or an error if and only if the step that ended its sender found room in the channel (`RpcServer.EndsIff`); a handler that sends 16 items nobody takes and returns ends in neither (`RpcServer.EndLost`).
- The key validator returns if and only if the items it enters from a map key can be put in layers (`Checker.FinishesIff`). For TypeScript they always can; for Rust and Go a struct that may contain itself makes it recurse for ever (`Checker.LinkedNeverEnds`).

## Model

| member | source | states |
|---|---|---|
| Leb128.EncodeLeb128 | runtime-rust/src/lib.rs:155-167 | the mask-and-shift loop appends exactly the seven-bit groups, low first, with continuation bits |
| Leb128.DecodeLeb128 | runtime-rust/src/lib.rs:171-191 | the u64 loop: value, end of input or overflow after ten bytes, and where the cursor stops in each case |
| Leb128.LebRoundTrip | runtime-rust/src/lib.rs:155-191 | every u64 is read back from its bytes, leaving exactly what follows |
| Leb128.LebMinimal | runtime-rust/src/lib.rs:171-191 | a successful decode stays below 2^64 and reads at most ten bytes, never fewer than the encoder writes for that value |
| Leb128.LebAtMostTen | runtime-rust/src/lib.rs:155-167 | a u64 takes 1 to 10 bytes |
| Leb128.LebPrefixFree | runtime-rust/src/lib.rs:155-167 | no number's bytes are the beginning of another's, for numbers of any size |
| Layout.LebMeans | doc/wire_format.md:3-10 | the bytes written for a number are base-128 digits that stand for it, low first, the last without the top bit and not 0 |
| Layout.LebReads | runtime-rust/src/lib.rs:171-191 | every input to the u64 decoder: what up to ten digits stand for modulo 2^64, an early end, or an overflow at the eleventh byte; and what is left |
| Layout.LebExamples | doc/wire_format.md:14-21 | the worked examples, byte for byte |
| Layout.ZigzagExamples | doc/wire_format.md:34-42 | the worked examples of signed numbers |
| Leb128.ZigzagValue | runtime-rust/src/lib.rs:195-197 | the shift-and-xor of a 64-bit number is 2n, or -2n-1 below zero |
| Leb128.ZigzagBijection | runtime-rust/src/lib.rs:195-203 | encode and decode are inverse both ways between i64 and u64 |
| Presence.EncodePresenceBits | runtime-rust/src/lib.rs:761-773 | the nested loops append one byte for every eight flags, low bit first |
| Presence.DecodePresenceBits | runtime-rust/src/lib.rs:777-791 | one flag for every bit asked for, or end of input, and the bytes consumed |
| Presence.PresenceRoundTrip | runtime-rust/src/lib.rs:761-791 | any flags are read back, leaving exactly what follows |
| Layout.FlagPlaces | doc/wire_format.md:181-187 | flag number k is bit k % 8 of byte k / 8, counted from the lowest |
| Schema.FirstIsFound | volexc/src/schema.rs:52-56 | of several items of one name the first is found |
| Schema.StructFixedSize | volexc/src/schema.rs:75-85 | the loop gives up on an optional or variable-length field and otherwise sums the sizes |
| FixedSizes.NoSizeIff | volexc/src/schema.rs:58-85 | a size is missing exactly if a varint, string, container, enum, message, union or struct with an optional field is contained by way of struct fields |
| FixedSizes.ArrayPayload | runtime-rust/src/lib.rs:456-468 | an array as a field: its elements, with their number in front exactly if something of no one size is contained in the element type by way of struct fields |
| FixedSizes.MapPayload | runtime-rust/src/lib.rs:531-551 | the same for maps, by key and value type |
| FixedSizes.ScalarArrayPayload | runtime-rust/src/lib.rs:35-72 | bools, bytes and floats stand side by side without a count: one, four or eight bytes for each |
| FixedSizes.ScalarMapPayload | runtime-rust/src/lib.rs:531-551 | the same for maps between such types |
| Layout.WireTypeNumbers | runtime-rust/src/lib.rs:14-82 | the number of the wire type of every type |
| Layout.FixedBytes | runtime-rust/src/lib.rs:209-262 | bools as 0 and 1, bytes as they are, a negative i8 as its two's complement, floats as they are |
| Layout.IntegerBytes | runtime-rust/src/lib.rs:270-355 | the digits of the number, doubled with the sign in the lowest bit if the type is signed |
| Layout.CountedBytes | runtime-rust/src/lib.rs:401-528 | strings, arrays and maps on their own: the digits of how many bytes, elements or entries, and then those |
| Layout.SideBySide | runtime-rust/src/lib.rs:519-528 | of every entry first its key and then its value, one entry after the other |
| Layout.TaggedField | runtime-rust/src/lib.rs:635-676 | the digits of a tag with the index above three bits of wire type; then the value on its own, or for wire type 4 a byte length and the content, a string's own text |
| Layout.MessageBytes | volexc/src/codegen_rust.rs:395-420 | exactly the fields that hold a value, each once and by ascending index, and a zero byte |
| Layout.VariantBytes | volexc/src/codegen_rust.rs:584-611 | an enum is the digits of its index, a unit variant its tag alone, any other variant a field |
| Layout.ItemExample | doc/wire_format.md:189-211 | the worked struct example: presence byte, then fields in declaration order, absent ones without a byte |
| Writing.TagBits | runtime-rust/src/lib.rs:635-638 | index shifted by 3 or-ed with the wire type is 8 * index + wire type |
| Writing.EncodeTag | runtime-rust/src/lib.rs:635-638 | appends the LEB128 of the tag |
| Writing.EncodeValue | runtime-rust/src/lib.rs:401-525 | the standalone encoding of any value is appended to what the buffer held |
| Writing.EncodeScalar | runtime-rust/src/lib.rs:209-383 | the same for bool, integers and floats |
| Writing.EncodeElems | runtime-rust/src/lib.rs:447-453 | the loop over a Vec appends the elements in order |
| Writing.EncodeEntries | runtime-rust/src/lib.rs:521-528 | the loop over a HashMap appends key and value of each entry in iteration order |
| Writing.EncodeItem | volexc/src/codegen_rust.rs:264-293 | a struct is presence bits and fields, a message its tagged fields by ascending index and a zero, an enum its index, a union its tagged variant |
| Writing.EncodeSlots | volexc/src/codegen_rust.rs:279-293 | struct fields in declaration order, an absent optional writing nothing |
| Writing.EncodeFields | volexc/src/codegen_rust.rs:392-421 | message fields in index order, absent optionals left out |
| Writing.EncodeVariant | volexc/src/codegen_rust.rs:584-616 | the variant's tag, then its payload if it has one |
| Writing.PatchLength | runtime-rust/src/lib.rs:663-671 | the reserved byte becomes the LEB128 length of all behind it, on both sides of 128; everything before stays |
| Writing.EncodeField | runtime-rust/src/lib.rs:655-675 | back-patching appends exactly tag, length and content, also under nested calls |
| Writing.EncodeDelimited | runtime-rust/src/lib.rs:410-413 | inside a BYTES field: no length, and a count only for elements of variable size |
| Reading.ReadTag | runtime-rust/src/lib.rs:642-650 | index and wire type of a tag, or the terminator |
| Reading.SkipByWireType | runtime-rust/src/lib.rs:685-740 | what is skipped for each wire type, every error, and where the cursor stops |
| Reading.SkipMessage | runtime-rust/src/lib.rs:719-725 | the loop over tags and payloads up to the terminator |
| Reading.DecodeValue | runtime-rust/src/lib.rs:416-566 | the standalone decoder of any type: value or error, and the cursor after it |
| Reading.DecodeFixed | runtime-rust/src/lib.rs:216-266 | one-byte types and floats, with the invalid bool |
| Reading.DecodeVarint | runtime-rust/src/lib.rs:277-356 | integers, truncated to their width as `as` does |
| Reading.DecodeElems | runtime-rust/src/lib.rs:474-482 | the counted loop of Vec, stopping at the first error; the capacity panic of `Vec::with_capacity(count)` in front of it is outside the model |
| Reading.DecodeEntries | runtime-rust/src/lib.rs:556-566 | the counted loop of HashMap; a repeated key overwrites; the capacity panic of `HashMap::with_capacity(count)` in front of it is outside the model |
| Reading.DecodeStruct | volexc/src/codegen_rust.rs:296-351 | presence bits, then each field present |
| Reading.DecodeSlots | volexc/src/codegen_rust.rs:320-343 | the running index into the presence bits advances with the optional fields only |
| Reading.DecodeFields | volexc/src/codegen_rust.rs:428-469 | from the default: a known index overwrites its field, an unknown one is skipped, the zero tag ends the message |
| Reading.DecodeUnion | volexc/src/codegen_rust.rs:618-651 | the variant the tag names, or the error for an unknown one |
| Reading.DecodeField | runtime-rust/src/lib.rs:745-753 | a BYTES payload by its length, any other by its own decoder |
| Reading.DecodeDelimited | runtime-rust/src/lib.rs:485-512 | arrays and maps from a slice of their own; on failure the caller's cursor has not moved |
| Decoder.Dec | runtime-rust/src/lib.rs:416-605 | on every byte sequence the decoder ends, by bytes left and then by required containment, and leaves a suffix of its input; the outcome is a value, an error, or the panic of a remainder by zero, and the panics of `with_capacity(count)` on an unchecked count (lines 477, 496, 504, 559, 584, 594) are not among them |
| Decoder.Skip | runtime-rust/src/lib.rs:685-740 | on every byte sequence and wire type skipping terminates and leaves a suffix |
| Decoder.DecFields | volexc/src/codegen_rust.rs:428-469 | the message loop terminates on every input and leaves a suffix |
| GoEncoder.EncodeTaggedField | volexc/src/codegen_go.rs:970-988 | tag, then length and content of a temporary buffer: the bytes of Rust's back-patching |
| GoEncoder.EncodeValueToBuf | volexc/src/codegen_go.rs:990-1064 | with and without the flag for the inside of a BYTES field, the bytes of Rust's two encodings |
| GoEncoder.EncodeItem | volexc/src/codegen_go.rs:141-175 | the generated Encode methods write what Rust's do |
| GoEncoder.EncodeFields | volexc/src/codegen_go.rs:249-270 | the fields of a message by ascending index |
| GoEncoder.EncodeVariant | volexc/src/codegen_go.rs:523-551 | a unit variant's u64 tag is Rust's for indices below 2^29 |
| GoEncoder.UnitTagsAgreeIff | runtime-go/volex.go:343-346 | the two tags of a unit variant agree exactly for indices below 2^29 |
| Skipping.SkipPayload | runtime-rust/src/lib.rs:685-740 | skipping by a type's wire type consumes exactly any payload of that type, with no schema |
| Skipping.SkipMessage | runtime-rust/src/lib.rs:719-725 | the same for the fields of a message in any order |
| FixedSizes.FixedSizeIsExact | volexc/src/schema.rs:57-85 | a type with a size n takes n bytes, whatever the value; `FixedSizes.NoSizeIff` says which types have one |
| FixedSizes.ElemsSize | runtime-rust/src/lib.rs:456-461 | so the count of fixed-size elements can be told from their length |
| Evolution.ValueDecodes | volexc/src/codegen_rust.rs:392-469 | deep schema evolution: a compatible reader decodes any legible value to its projection and leaves exactly what follows, at any depth |
| Evolution.PayloadDecodes | runtime-rust/src/lib.rs:655-753 | the same for tagged payloads |
| Evolution.MessageSeen | doc/reference.md:142-146 | field by field: what was sent arrives projected; a required field that was not is zero in all its parts, an optional one absent; unknown fields are gone |
| Defaults.DefaultIffZero | volexc/src/codegen_rust.rs:172-206 | a value is the default of its type exactly if it is zero in all its parts: false, 0, empty, required fields zero and optional ones absent, the first declared variant |
| Defaults.ZeroBytes | doc/wire_format.md:242-249 | of everything but an item, exactly the default is written in zero bytes only |
| Defaults.EmptyMessageRead | volexc/src/codegen_rust.rs:421-482 | the one byte 0 is read as a message of exactly the required fields, each zero |
| Evolution.FieldsDecode | volexc/src/codegen_rust.rs:428-469 | the reader's loop over fields written in any order keeps what it knows and skips the rest |
| Evolution.StructDecodes | volexc/src/codegen_rust.rs:264-351 | structs of equal layout, with their presence bits |
| Evolution.UnionDecodes | volexc/src/codegen_rust.rs:584-651 | a reader that knows at least the writer's variants reads the one that was written |
| Evolution.FixedSizesAgree | volexc/src/schema.rs:57-85 | compatible schemas give every shared type the same fixed size |
| Compatibility.CodableIsLegible | runtime-rust/src/lib.rs:456-605 | in a schema within the format's two limits every value is legible to every reader |
| Truncation.DecStable | runtime-rust/src/lib.rs:137-151 | for every type and input, bytes behind a value or behind an error change neither; only an early end may turn out otherwise |
| Truncation.CutOffFails | runtime-rust/src/lib.rs:137-151 | no proper beginning of a legible value's encoding decodes: the reader reports an early end and nothing else |
| Truncation.ElemsLeftover | runtime-rust/src/lib.rs:485-515 | elements with their count in front: bytes behind the last one, within the length of the field, are ignored |
| RoundTrip.ValueRoundTrip | runtime-rust/src/lib.rs:445-605 | with one schema on both sides every legible value comes back and nothing more is consumed |
| RoundTrip.CodableRoundTrip | runtime-rust/src/lib.rs:445-605 | in a schema within the limits that is every value of every type |
| RoundTrip.FieldRoundTripIff | runtime-rust/src/lib.rs:655-753 | a field, legible inside, comes back exactly if it is not a bare array or map of zero-byte elements |
| RoundTrip.UncountableFails | runtime-rust/src/lib.rs:485-495 | for those the decoder panics on what the encoder writes, for every value, even an empty one |
| RoundTrip.UnitVariantRoundTripIff | volexc/src/codegen_rust.rs:598-607 | a unit variant comes back exactly if its index is below 2^29 |
| RoundTrip.UnitVariantWraps | volexc/src/codegen_rust.rs:600 | a two-variant union whose second variant is read back as the first |
| RoundTrip.EmptyElementsPanic | runtime-rust/src/lib.rs:490-495 | an array of empty structs as a field ends in a remainder by zero, and so do the two bytes 0C 00 as a message with such a field |
| Soundness.DecodedIsTyped | runtime-rust/src/lib.rs:416-566 | whatever bytes arrive, a successful decode is a value of its type: in range, valid UTF-8, distinct keys, known variants, required fields there |
| Utf8.ValidIff | runtime-rust/src/lib.rs:416-438 | the texts that decoders accept are exactly the UTF-8 encodings of sequences of Unicode scalar values |
| Refusals.FixedCanonical | runtime-rust/src/lib.rs:216-268 | bools, bytes and floats are read only from what is written for them; any other bool is refused by its value, a short input left alone |
| Refusals.UnsignedWraps | runtime-rust/src/lib.rs:277-312 | an unsigned integer is the number written modulo 2^16, 2^32 or 2^64 |
| Refusals.SignedWraps | runtime-rust/src/lib.rs:321-357 | a signed integer is the number of its type that agrees with the number written in its low bits |
| Refusals.TextRead | runtime-rust/src/lib.rs:416-438 | a text of the announced length if it is there and UTF-8; bad text is consumed and refused |
| Refusals.EnumRead | volexc/src/codegen_rust.rs:514-534 | the low 32 bits count; an index that is not declared is refused by its number |
| Refusals.UnionRefused | volexc/src/codegen_rust.rs:617-651 | a tag that names no declared variant is refused by its index, whatever its wire type, and nothing behind it is read |
| Refusals.ArrayRefused | runtime-rust/src/lib.rs:485-500 | elements of one size: a length that is no multiple of it, or reaches past the input, is refused with the cursor behind the length |
| Refusals.StructLength | runtime-rust/src/lib.rs:137-151 | the length in front of a struct is read and not looked at |
| Refusals.EveryTag | runtime-rust/src/lib.rs:642-652 | only a whole zero ends a message; every other number is an index and a wire type |
| Refusals.InsertedAt | runtime-rust/src/lib.rs:556-566 | a key met again keeps its place and takes the new value |
| Soundness.DefaultTyped | volexc/src/codegen_rust.rs:566-581 | the default of every type is a value of it |
| Panics.PanicFreeIff | runtime-rust/src/lib.rs:485-605 | no input makes any decoder of a schema compute a remainder by zero, if and only if no message field and no union payload is a bare array or map of zero-byte elements |
| Panics.DecSafe | runtime-rust/src/lib.rs:416-605 | in such a schema every decoder returns a value or an error of the runtime on every input |
| Panics.UncountablePanics | runtime-rust/src/lib.rs:490-495 | a field of zero-byte elements panics whatever its content and whatever follows |
| Panics.MessagePanics | volexc/src/codegen_rust.rs:432-448 | the tag of such a field and a length of 0 make its message's decoder panic |
| Panics.UnionPanics | volexc/src/codegen_rust.rs:618-651 | the same for the payload of a union |
| FieldOrder.SortForgetsOrder | volexc/src/codegen_rust.rs:396-398 | sorting by unique indices gives one result for all declaration orders |
| FieldOrder.DeclarationOrderIrrelevant | volexc/src/codegen_rust.rs:396-418 | permuting the fields of any messages of a schema changes no encoded byte of any value |
| FieldOrder.SegmentOrderIrrelevant | volexc/src/codegen_rust.rs:432-466 | permuting the encoded segments of a message changes nothing of what is read |
| FieldOrder.AnyOrder | volexc/src/codegen_rust.rs:428-469 | two messages of the same field segments are read alike in any order, whoever wrote them: the segments have distinct indices, and the reader decodes those it knows and skips the others |
| FieldOrder.SegmentsDecode | volexc/src/codegen_rust.rs:428-469 | such a message is read as exactly the values of its known segments, and the rest of the input is left |
| FieldOrder.SentIsSegment | runtime-rust/src/lib.rs:655-753 | every field an encoder writes is such a segment to every compatible reader |
| FieldOrder.RepeatedDecode | volexc/src/codegen_rust.rs:437-475 | a message of any self-contained segments, the same index any number of times and with any wire type, is read as its readings put one after the other |
| FieldOrder.LastWins | volexc/src/codegen_rust.rs:437-475 | of a repeated field the last value read remains |
| TsRuntime.WriteBuf.EnsureCapacity | runtime-typescript/volex.ts:20-35 | doubling keeps what was written and makes room |
| TsRuntime.WriteBuf.Push | runtime-typescript/volex.ts:37-41 | the bytes are appended, across a reallocation too |
| TsRuntime.WriteBuf.PushByte | runtime-typescript/volex.ts:43-47 | one byte is appended |
| TsRuntime.EncodeVarint | runtime-typescript/volex.ts:84-92 | division by 128 writes the bytes of the u64 loops for every whole number |
| TsRuntime.DecodeVarint | runtime-typescript/volex.ts:94-112 | the loop on doubles; it never fails, past the end it reads 0 and ends one beyond the data |
| TsRuntime.NumberMeant | runtime-typescript/volex.ts:94-112 | the result is the number the digits stand for, exactly below 2^53 and as some number of 2^53 or more above, unless a digit 0 comes at byte 148 or later, which makes it NaN |
| TsRuntime.NumberRoundTrip | runtime-typescript/volex.ts:84-112 | every u64 that any runtime wrote is read back as the double it is, or as one of 2^53 or more |
| TsRuntime.ExactOrHuge | runtime-typescript/volex.ts:84-112 | what was written below 2^53 is read as itself, anything else as a number of 2^53 or more |
| TsRuntime.VarintRoundTrip | runtime-typescript/volex.ts:84-112 | the digits any runtime wrote stand for the number written, at any offset |
| TsRuntime.AgreesWithU64 | runtime-typescript/volex.ts:94-112 | where the u64 loop succeeds both stop at the same byte, and both hold the same number up to what they can hold |
| TcpTransport.FrameStable | runtime-typescript/rpc.ts:117-153 | a complete frame stays the same frame when more bytes follow |
| TcpTransport.CutStable | runtime-typescript/rpc.ts:117-153 | what processBuffer cuts off behind a length of at most 147 bytes it cuts off again when more bytes follow |
| TcpTransport.CutShort | runtime-typescript/rpc.ts:127-139 | a chunk that ends inside such a length completes no frame |
| TcpTransport.LongHeaderCuts | runtime-typescript/rpc.ts:131-147 | 147 bytes of a length that goes on: processBuffer takes them for an empty frame and consumes nothing, recv (lines 187-201) finds no frame |
| TcpTransport.ReassemblyIff | runtime-typescript/rpc.ts:84-208 | every way of cutting a stream and calling recv hands out the right frames, if and only if none of its lengths is that long |
| TcpTransport.LongHeaderBreaks | runtime-typescript/rpc.ts:84-208 | for any other stream, a run that breaks it: one recv more than there are frames in front of the long length, then a chunk that stops inside it; the last waiter gets a frame that is not there |
| TcpTransport.Reassembly | runtime-typescript/rpc.ts:84-208 | in every run on a safe stream the i-th recv gets the i-th frame, frames consumed and buffer make up what arrived, and nobody waits beside a complete frame |
| TcpTransport.InterleavingIrrelevant | runtime-typescript/rpc.ts:84-208 | while open, on a safe stream, the state depends on the bytes and the number of calls only |
| TcpTransport.RunRecords | runtime-typescript/rpc.ts:84-93 | what counts as received is every chunk in order, and every recv is counted |
| TcpTransport.SettledForGood | runtime-typescript/rpc.ts:95-114 | on any stream, a settled recv never settles again, and after a close nobody waits and no frame is handed out |
| TcpTransport.RefusedRecv | runtime-typescript/rpc.ts:181-184 | in every run a recv is refused exactly if something has closed the transport before it, with the last close or error of the socket |
| TcpTransport.RefusedWaiters | runtime-typescript/rpc.ts:84-115 | in every run a close or error of the socket refuses everyone who waits, with what it says; data refuses nobody, and a close on this side lets them wait |
| TcpTransport.ConsumedExactly | runtime-typescript/rpc.ts:145-147 | the bytes before what is left are exactly those of the frames taken |
| TcpTransport.SentIsFramed | runtime-typescript/rpc.ts:155-179 | what send writes is a safe stream, taken apart into the messages sent with nothing left over |
| TcpTransport.TcpTransport.ProcessBuffer | runtime-typescript/rpc.ts:117-153 | the loop serves waiters until the buffer is shorter than the total of the next frame |
| TcpTransport.TcpTransport.OnData | runtime-typescript/rpc.ts:84-93 | appends the chunk and serves waiters |
| TcpTransport.TcpTransport.RejectWaiters | runtime-typescript/rpc.ts:95-114 | every waiter is refused with the same error and the list is emptied |
| TcpTransport.TcpTransport.ReceiveNext | runtime-typescript/rpc.ts:181-208 | a buffered frame at once if the length of the buffer reaches its total, an error if closed, or a place at the end of the line |
| TcpTransport.TcpTransport.Send | runtime-typescript/rpc.ts:155-179 | length prefix and data, or the last error of the socket if closed |
| HttpStream.SameBytesSameEvents | runtime-rust/src/rpc.rs:1020-1094 | every way of cutting the same body into chunks gives the same events |
| HttpStream.ChunksIrrelevant | runtime-rust/src/rpc.rs:1020-1081 | from any state chunks act like their concatenation |
| HttpStream.NothingAfterTerminal | runtime-rust/src/rpc.rs:1071-1091 | in every run an END or error is last, and the loop goes on exactly until there is one; `HttpStream.RunMeans` says which |
| HttpStream.RunMeans | runtime-rust/src/rpc.rs:1023-1093 | every run: one event for each message the bytes hold, up to the first that closes the stream; if none does, END for a regular end, an error of code 0 with the text of a break |
| HttpStream.EndsAreMeant | runtime-rust/src/rpc.rs:1083-1091 | in every run an END comes from an END message or from the regular end of the body, never from a broken one |
| HttpStream.CutStreamDelivered | runtime-rust/src/rpc.rs:1023-1093 | a body cut off anywhere, in any chunks, and then ended, broken or silent: the events of the messages that came through whole, and that ending unless a closing message was among them |
| HttpStream.StreamDelivered | runtime-rust/src/rpc.rs:1136-1158 | framed by the server and cut anyhow, the events are the messages sent, and an END if the closing one was lost |
| HttpStream.MessagesMean | runtime-rust/src/rpc.rs:1051-1069 | item, END and ERROR messages are read as what they were sent for |
| HttpStream.ErrorMeans | runtime-rust/src/rpc.rs:1054-1066 | any ERROR message: the code keeps 32 bits, a text is cut to its length, and one shorter than it says is replaced |
| HttpStream.BareError | runtime-rust/src/rpc.rs:1054-1066 | a code or a length that cannot be read counts as 0 |
| HttpStream.UnknownKind | runtime-rust/src/rpc.rs:1067-1069 | a message of no known kind is an error of code 0 |
| HttpStream.Stalled | runtime-rust/src/rpc.rs:1040-1047 | a length of zero, or one that overflows, stops the reader until the body ends |
| HttpStream.HttpReader.OnChunk | runtime-rust/src/rpc.rs:1023-1081 | the inner loop drains all complete messages of the buffer |
| HttpStream.HttpReader.ParseEvent | runtime-rust/src/rpc.rs:1051-1069 | the event of a message, with the fallbacks for a bad code, length or type |
| HttpStream.StreamBody.PollFrame | runtime-rust/src/rpc.rs:1136-1158 | the handler moves first; then one queued message, length first, the end once the channel is empty and let go of, or neither yet |
| HttpStream.BodyServed | runtime-rust/src/rpc.rs:1136-1158 | however it is polled, the body is the beginning of the frames of the messages written, and all of them at its end |
| HttpStream.BodyCompletes | runtime-rust/src/rpc.rs:1136-1158 | as many more polls as there are messages queued hand out all of them |
| Containment.ObstructedPast | volexc/src/codegen_rust.rs:157-166 | assuming an item derivable below itself loses no obstacle |
| Containment.HashIsRustKey | volexc/src/checker.rs:344-426 | for a type in scope, the Rust validator's obstacles are those to deriving Hash |
| Containment.HashImpliesEq | volexc/src/codegen_rust.rs:130-169 | a type that can derive Hash can derive Eq |
| Containment.KeysMonotone | volexc/src/checker.rs:376-396 | a key type TypeScript accepts Go accepts, and what Go accepts Rust does |
| Containment.CopyMeans | volexc/src/codegen_rust.rs:130-169 | Copy is for types that contain no string, array or map at any depth |
| Containment.EqAndHashMean | volexc/src/codegen_rust.rs:130-169 | Eq is for types without a float, Hash for those without a float or a map |
| Containment.OthersAlways | volexc/src/codegen_rust.rs:130-169 | the other four traits are for all types |
| Derive.CodeGenerator.CanDerive | volexc/src/codegen_rust.rs:130-169 | terminates on every schema, restores the set, and decides whether a blocking type is contained on a way past the items under way |
| Derive.CodeGenerator.CanDeriveItem | volexc/src/codegen_rust.rs:115-127 | the same for all members of an item |
| Derive.CodeGenerator.Derivable | volexc/src/codegen_rust.rs:130-169 | from an empty set: true exactly if no blocking type is contained |
| Derive.GenDeriveAttr | volexc/src/codegen_rust.rs:172-206 | the attribute lists exactly the traits the item can derive, each once and in the order of the source, without Default for unions |
| Derive.ItemCanMeans | volexc/src/codegen_rust.rs:115-127 | the traits of an item in terms of the types it contains |
| Derive.ItemHashImpliesEq | volexc/src/codegen_rust.rs:172-206 | an item listed as Hash is listed as Eq |
| Checker.Checker.Check | volexc/src/checker.rs:23-38 | whenever the key validator ends: no errors if and only if the schema is accepted, and every error says what is so |
| Checker.AcceptedExactly | volexc/src/checker.rs:23-38 | the accepted schemas member by member: different names, different indices and none a reserved 0, resolved types, keys that can be compared |
| Checker.KeysAllowedMeans | volexc/src/checker.rs:279-311 | no map written anywhere in the type, in keys and values too, has a rejected key |
| Checker.AcceptedMeans | volexc/src/schema.rs:52-103 | an accepted schema resolves every name to a type, identifies members by index and finds items by name, so the lookups of wire_type and fixed_size succeed |
| Checker.AcceptedMonotone | volexc/src/checker.rs:376-396 | a schema accepted for TypeScript is accepted for Go, and one accepted for Go for Rust |
| Checker.Checker.ValidateMapKeyType | volexc/src/checker.rs:344-426 | no reason exactly if nothing incomparable is contained; else the labels lead from the key down to a type that the reason is true of |
| Checker.Checker.ValidateItemAsMapKey | volexc/src/checker.rs:428-510 | all fields or payloads in turn, up to the first invalid one |
| Checker.KeysMean | volexc/src/checker.rs:344-510 | wherever the validator ends, no reason exactly for keys of bools, integers, strings and enums, in Rust and Go of structs and messages of such parts, in Rust also of arrays and unions |
| Checker.TypeScriptKeys | volexc/src/checker.rs:428-510 | for TypeScript exactly bools, integers, strings and enums |
| Checker.FinishesIff | volexc/src/checker.rs:344-510 | the unguarded recursion of the validator ends on a key exactly if the items it enters, each only after the members in front of it passed, can be put in layers |
| Checker.TypeScriptFinishes | volexc/src/checker.rs:428-510 | for TypeScript it ends on every schema |
| Checker.LinkedNeverEnds | volexc/src/checker.rs:344-458 | for Rust and Go it does not end on a struct that may contain another of its kind |
| Checker.Checker.LeafFault | volexc/src/checker.rs:363-424 | what each language rejects on sight, and a fault that is true of it |
| Checker.Checker.CheckType | volexc/src/checker.rs:279-311 | an error exactly for an unresolved name, a service or a bad key somewhere in the type, whenever the validator ends on its keys |
| Checker.Checker.CheckNames | volexc/src/checker.rs:84-100 | an error exactly if a member name repeats, and only for names that do |
| Checker.Checker.CheckIndices | volexc/src/checker.rs:102-128 | an error exactly if an index repeats or is a reserved 0, each for what it says |
| Checker.Checker.CheckItem | volexc/src/checker.rs:62-277 | an error exactly if one of the item's checks fails |
| Checker.Checker.CheckDuplicateDefinitions | volexc/src/checker.rs:40-60 | an error exactly if an item name repeats |
| RpcMessages.ReplyRead | runtime-typescript/rpc.ts:374-436 | the client reads back id, kind and body of every packet the server builds, with id and error code as doubles |
| RpcMessages.ErrorClamped | runtime-typescript/rpc.ts:429-436 | an error whose length does not fit its text: a longer text is cut, a shorter one taken as it is |
| RpcMessages.RequestRead | runtime-rust/src/rpc.rs:707-735 | the server reads back id, method index and payload of a request, and the id of a cancel |
| RpcMessages.BuildRequest | runtime-typescript/rpc.ts:465-471 | type byte, id, method index, payload |
| RpcMessages.BuildCancel | runtime-typescript/rpc.ts:563-567 | type byte and id |
| RpcMessages.BuildReply | runtime-rust/src/rpc.rs:216-220 | the message with the call id after its type byte |
| RpcClient.StreamsInOrder | runtime-typescript/rpc.ts:353-427 | in every run what recv returned, in call order, is a prefix of the items that arrived for that stream while pending; no item follows an end or an error; queue and waiters are never both non-empty |
| RpcClient.PacketsInOrder | runtime-typescript/rpc.ts:392-427 | from its opening on, while the client receives, what recv returned for a stream is a prefix of the items in the packets that came in for its id |
| RpcClient.PacketsArrive | runtime-typescript/rpc.ts:374-427 | what is recorded as arrived is a prefix of those items, and all of them while the stream is pending |
| RpcClient.StepKeeps | runtime-typescript/rpc.ts:330-574 | every step keeps: ids below the counter, unary calls pending exactly until they settle, nothing pending after a receive error, streams in order and without items behind their end, distinct ids sent |
| RpcClient.SettledForGood | runtime-typescript/rpc.ts:455-506 | over every run a settled unary call keeps its first outcome |
| RpcClient.PendingUnsettled | runtime-typescript/rpc.ts:342-372 | a pending unary call is unsettled, and after a receive error nothing is pending ever again |
| RpcClient.CancelMeansAborted | runtime-typescript/rpc.ts:488-495 | at most one CANCEL for a unary call, and only for one that its abort settled |
| RpcClient.CancelRemoves | runtime-typescript/rpc.ts:488-495 | that CANCEL goes out in the step that takes the call out of pending |
| RpcClient.PacketClient.HandleMessage | runtime-typescript/rpc.ts:374-453 | unknown ids and packets of the wrong kind change nothing; others settle, deliver or end their call |
| RpcClient.PacketClient.HandEvent | runtime-typescript/rpc.ts:402-427 | to the first waiter, else to the queue; an end leaves pending |
| RpcClient.PacketClient.WakeAll | runtime-typescript/rpc.ts:547-553 | every waiter gets the event, and the queue once more |
| RpcClient.PacketClient.OnRecvError | runtime-typescript/rpc.ts:353-371 | every pending call fails with the transport's error |
| RpcClient.PacketClient.BeginUnary | runtime-typescript/rpc.ts:455-476 | a fresh id, a pending promise and its request; or the receive error, or the caller's own abort |
| RpcClient.PacketClient.BeginStream | runtime-typescript/rpc.ts:508-532 | the same for a stream |
| RpcClient.PacketClient.OnSendError | runtime-typescript/rpc.ts:481-484 | the call leaves pending and fails with the send's error |
| RpcClient.PacketClient.OnAbort | runtime-typescript/rpc.ts:487-557 | a pending unary call is rejected, a stream woken and ended once; either way a CANCEL |
| RpcClient.PacketClient.ReceiveNext | runtime-typescript/rpc.ts:587-600 | the queue's head, or a place behind the other waiters |
| RpcOutcomes.Dropped | runtime-typescript/rpc.ts:374-453 | packets of no known kind, for no pending call, or of a kind the call does not take change nothing |
| RpcOutcomes.UnaryFate | runtime-typescript/rpc.ts:353-506 | in every reachable state: what each event does to a pending unary call, its response, its error, the end of the connection, its abort and a failed send each with their own outcome |
| RpcOutcomes.StreamFate | runtime-typescript/rpc.ts:353-600 | in every reachable state: what each event tells the receiver of a pending stream, and which events end it |
| RpcOutcomes.EndedStreamFate | runtime-typescript/rpc.ts:538-557 | once it is not pending, only the caller's own first abort still tells a receiver anything |
| RpcOutcomes.SentExactly | runtime-typescript/rpc.ts:455-574 | all a client sends: a request for each call it begins, one CANCEL for each call aborted in time |
| RpcServer.StreamGrammar | runtime-rust/src/rpc.rs:316-354 | for every sequence of sends, error, drop and forwarding: items, then at most one END or ERROR, and nothing once the sender is gone |
| RpcServer.EndsIff | runtime-rust/src/rpc.rs:335-354 | in every run, what got into a channel ends in an END or an error exactly if the step that ended its sender, a drop while open or the push of its error, found room |
| RpcServer.EndLost | runtime-rust/src/rpc.rs:346-354 | a handler that sends up to 16 items nobody takes and is dropped: an END after fewer than 16, none after 16 |
| RpcServer.CallsAnswerLegally | runtime-rust/src/rpc.rs:699-775 | in every run of the server, with any interleaving and cancellation, a call's packets are one answer, or items and at most one END or ERROR |
| RpcServer.ChannelsBounded | runtime-rust/src/rpc.rs:686-732 | in every run the out channel holds at most 64 packets and each stream channel (line 214) at most 16 |
| RpcServer.CancelReaches | runtime-rust/src/rpc.rs:727-758 | in every run a CANCEL leaves no run of its id uncancelled, a repeated request only its own, and neither touches another id |
| RpcServer.CutForGood | runtime-rust/src/rpc.rs:43-50 | once the cancel channel has won, a call says no more than its stream had already written, and an END |
| RpcServer.HandlerKeeps | runtime-rust/src/rpc.rs:193-259 | every step of a handler keeps: said, held and queued messages are what its stream's sender wrote, in order; `RpcReplies.HandlerSays` says what they are |
| RpcServer.StreamSenderBase.Send | runtime-rust/src/rpc.rs:323-331 | an item goes to the end of the channel, fails if the channel is closed, and waits if it is full |
| RpcServer.StreamSenderBase.BeginError | runtime-rust/src/rpc.rs:335-341 | finished is set before the message is sent, so a drop in between sends no END |
| RpcServer.StreamSenderBase.EndError | runtime-rust/src/rpc.rs:336-342 | the error goes into the channel when there is room; a closed channel is ignored |
| RpcServer.StreamSenderBase.Drop | runtime-rust/src/rpc.rs:346-354 | an END if unfinished and there is room |
| RpcServer.PacketServer.Receive | runtime-rust/src/rpc.rs:704-760 | a request starts a run under its id and cancels an earlier one, a cancel reaches the latest run of its id, a bad method index is answered once there is room, the rest ignored |
| RpcServer.PacketServer.SendNext | runtime-rust/src/rpc.rs:766-772 | packets leave in the order they were queued |
| RpcReplies.WrittenExactly | runtime-rust/src/rpc.rs:316-354 | everything a stream ever says: its accepted items, each whole and in order, and at most one last word, the END of a dropped sender or the first error it was given |
| RpcReplies.HandlerSays | runtime-rust/src/rpc.rs:193-259 | in every reachable state: the bytes each step of a handler says, an answer 00 and payload, a failure 03, code, length and text; nothing for any other step, and nothing for other runs |
| RpcReplies.HandlerMoves | runtime-rust/src/rpc.rs:193-259 | what each step makes of the call context |
| RpcReplies.ChannelMoves | runtime-rust/src/rpc.rs:203-235 | messages enter a channel at the back and leave it at the front onto the forwarder's hand |
| RpcReplies.ReceiveSays | runtime-rust/src/rpc.rs:704-760 | in every reachable state: what the receive loop does with any packet; only a bad method index is answered, with code 2 and its text |
| RpcSystem.UnaryCorrelated | runtime-typescript/rpc.ts:374-506 | in every reachable state a unary call's response, or server error, was said by the run started with exactly its method and payload |
| RpcSystem.StreamCorrelated | runtime-typescript/rpc.ts:402-600 | in every reachable state every item, end or server's error a recv was given was said by the run started with exactly its method and payload; the items given are a prefix of those it said, and an end or error came after all of them |
| RpcSystem.ServedOnce | runtime-rust/src/rpc.rs:737-752 | no call is served by two runs |
| RpcSystem.CancelledByClient | runtime-rust/src/rpc.rs:754-758 | in every reachable state a cancelled run is one whose call the client has cancelled |
| RpcSystem.OthersUntouched | runtime-typescript/rpc.ts:384-390 | a packet changes no call but the one whose id it carries, and that only while it is pending |
| RpcSystem.IdsOnTheWire | runtime-typescript/rpc.ts:463-516 | requests sent carry distinct ids, all past values of the counter |
| RpcSystem.StepKeeps | runtime-rust/src/rpc.rs:699-775 | every step of client, server and links keeps: what a run said is handled, on the link or queued, in that order, and nothing else is |
| RpcDelivery.UnaryDelivered | runtime-typescript/rpc.ts:374-506 | in every reachable state a unary call whose run has said a response or an error, with no packet for it under way, is not pending and has its result, or is still sending |
| RpcDelivery.StreamDelivered | runtime-typescript/rpc.ts:402-427 | in every reachable state a pending stream with no packet under way has all items its run has said, and its run has not ended it |
| RpcDelivery.CanDrain | runtime-rust/src/rpc.rs:766-772 | from every reachable state in which the client listens, sends and receives empty the out channel and the link |
| RpcDelivery.Answered | runtime-rust/src/rpc.rs:193-201 | in every reachable state in which the client listens, a pending unary call whose run has not answered can be, and then gets exactly that response, the one thing the run says |
| RpcDelivery.Refused | runtime-rust/src/rpc.rs:238-247 | the same for a handler that fails: the call is rejected with the handler's own code and text, and that is all the run has said |
| RpcDelivery.Called | runtime-typescript/rpc.ts:455-532 | in every reachable state in which the client listens, a call can be made: its request starts a run of just that method and payload |
| RpcDelivery.CallCompletes | runtime-typescript/rpc.ts:455-506 | from every such state a unary call made now can be carried to the response of its handler |
| RpcDelivery.CallFails | runtime-typescript/rpc.ts:455-506 | or to the handler's own error |
| RpcStreaming.ReceivesTold | runtime-typescript/rpc.ts:392-427 | as the client takes packets off the link, a pending stream's receiver is told exactly what those with its id say, in order |
| RpcStreaming.StreamCompletes | runtime-typescript/rpc.ts:508-600 | from every such state a stream call made now can carry any items: its receiver is told just these, in order, and then the end |

## Left out

- TsRuntime.DecodeVarint: from 2^53 on it says only that the result is such a number, not which double or whether it is Infinity.
- TsRuntime.WriteBuf.constructor: a capacity of 0 is excluded, since doubling it would never end; every caller uses the default.
- Checker.Checker.Check: order, spans and colours of the errors are not modelled, and the loops that each item kind repeats over names and indices are one method each.
- RpcSystem.UnaryCorrelated: ids stay below 2^53 and method indices within u32, as JavaScript numbers and the generated clients have them.
- RpcClient.PacketClient.OnAbort: streams and promises are values kept per call id in the client, not heap objects shared with the receiver.
- RpcServer.PacketServer.Receive: the state of a handler run, its channel and its forwarder are values stepped by `HandlerStep`; an await that does not complete is a step that does nothing.
- RpcServer.CutForGood: a handler that has moved its stream sender into another task keeps it alive in the source; here the sender goes with the handler.
- RpcDelivery.CallCompletes: there is always a way to carry a call to its end; that tokio and the network take it, which is fairness, is not modelled.
- RpcStreaming.StreamCompletes: the same for streams.
- HttpStream.HttpReader.OnChunk: the 16 places of the channel to the receiver, and the return of the reader when the receiver is gone (`runtime-rust/src/rpc.rs:1073`), are not modelled.
- GoEncoder.EncodeTaggedField: values carry a valid union tag, so the zero value of a Go union and its `init` do not occur; the Go decoder is not modelled.
- Values.Default: defaults are Rust's (first declared variant); Go takes the lowest index for a union, and no agreement is claimed.
- Evolution.ValueDecodes: struct layouts are frozen, since the length in front of a struct field is ignored by its decoder; lengths are below 2^64, the size of an address space.
- Decoder.Dec: the panic of `with_capacity(count)` for a count whose elements exceed the address space, and the depth of the stack, are not modelled: they depend on the layout of the generated types.
- Reading.DecodeElems: that panic of `Vec::with_capacity` is not modelled.
- Reading.DecodeEntries: that panic of `HashMap::with_capacity` is not modelled.
- Maps are entry lists in the iteration order of the HashMap, distinct by key; which order that is stays open.
- Floats are their 4 or 8 bytes, and error texts are bytes: lossy UTF-8 decoding is not modelled.
- Sockets, WebSockets, HTTP headers and status codes, hyper and tokio internals: only queues, chunks and steps remain.
- The Rust and Go packet clients: the TypeScript one is the clean state machine, and Go's drops events when its channel is full.
- The TypeScript codecs and the Go decoders: they throw on unknown fields or use 32-bit tags, so the laws above do not hold for them.
- Parser, language server, emitted text, identifier escaping and JSON: foreign code, lookups or layout.
