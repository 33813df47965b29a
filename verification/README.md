# bassoon BSON encoder, modelled in Dafny

bassoon is a header-only C++ library that writes BSON documents into a
caller's fixed-size buffer, and it has the beginning of a decoder. This
project models its core, and proves what the code promises about the
bytes it writes and the state it keeps.

What is modelled:

- **The byte sink.** `array_writer` is a class over an `array<byte>` with a
  position and an `ok` flag, and `linear_cursor` is a class holding a writer
  and an address. `reserve` sets `ok` (it is not sticky), `write` copies and
  advances, and `write_at` patches in place.
- **The encoding steps.** `encode_with` skips a step once the writer is not
  ok. The model of one step is a fold over chunks (`Sink.Emit`). Each
  chunk is one guarded `reserve` + `write`. A chain that fails part-way
  leaves the chunks before the failure in the buffer, and nothing rolls
  them back.
- **The frame encoder** `encoder<W>`. `start_document`, `start_subdocument`
  and `start_subarray` open a frame: they remember the position and write
  the `0xABABABAB` sentinel there. Every `encode_*` writes a type byte,
  the name and a per-type payload. `finish` appends `0x00` and patches the
  frame's length.
- **The frame stack** `concrete_encoder`, and the array auto-naming
  `array_encoder`, whose `%u` counter wraps at 2^32.
- **The value views** `string_data` and `binary_data`, the tag and subtype
  tables, and the byte-order conversions. The host byte order is a parameter
  (`Endian.ByteOrder`), and the value encoders' bytes are proved for both
  little- and big-endian hosts. The length that `finish` patches is
  modelled as evidently intended, little-endian and guarded by `ok`
  (`Sink.FinishState`). Whenever the terminator fits, that is the code's
  own `finish` on a little-endian host (`Sink.FinishAsWrittenAgrees`); on a
  big-endian host the code writes the four length bytes reversed
  (`Sink.FinishAsWrittenReversed`).
- **The decoder's framing loop** `decode_document`. It reads the length,
  walks element headers up to the byte before the terminator, and
  dispatches on the tag. The length is read as the code reads it, in host
  byte order (`read_length_from_cursor`). On a little-endian host that is
  the little-endian read of `read_length_from_document`
  (`Decoders.DecodedAsWrittenHosts`), which the round-trip lemmas use.
- **The example programs**, for any names and values that fit the buffer
  and for the example's own data. The proofs give byte-exact results,
  including the 22 bytes of `{"hello": "world"}`. They use the intended
  forms of the findings below; `Programs.HelloWorldAsWritten` gives what
  `do_example` writes as the code stands, on both hosts.

Encoding and decoding are tied together: decoding a document the encoder
wrote calls each element's type handler once, in order, with the element's
name, provided each handler moves the cursor past its element's payload.
The library's handlers are stubs that leave the cursor where it is; with
them the walk reads payload bytes as headers
(`Decoders.HelloWorldStubHandlers`).

The per-type `encode_*` methods (22 of them on each encoder class) are
modelled as one `Encode(name, v: Value)`. `Value` has one variant per
method, carrying that method's arguments.

## Model

| member | source | states |
|---|---|---|
| `Bson.TypeByte` | src/lib/bassoon/bson.hpp:31-54 | Every tag is 0x01–0x12, 0x7F or 0xFF; only max is 0x7F and only min is 0xFF |
| `Bson.TypeFromByte` | src/lib/bassoon/bson.hpp:31-54 | Reading a byte back finds the type whose tag it is; exactly 0x00 and the bytes above 0x12 other than 0x7F and 0xFF name no type |
| `Bson.TypeByteRoundTrip` | src/lib/bassoon/bson.hpp:31-54 | Reading a type's tag gives the type back |
| `Bson.TypeByteInjective` | src/lib/bassoon/bson.hpp:31-54 | Distinct types (aliases folded) have distinct tags |
| `Bson.SubtypeByte` | src/lib/bassoon/bson.hpp:56-63 | Subtype bytes are at most 0x05 or 0x80, and 0x80 is exactly `user` |
| `Bson.SubtypeByteInjective` | src/lib/bassoon/bson.hpp:56-63 | Distinct binary subtypes have distinct bytes |
| `DataViews.ClampSize` | src/lib/bassoon/binary_data.hpp:23-25 | A binary size is kept when non-negative and becomes 0 otherwise |
| `DataViews.MakeBinary` | src/lib/bassoon/binary_data.hpp:23-25 | A binary view exists exactly when the clamped size fits the memory, and is that prefix of it |
| `DataViews.MakeObjectId` | src/lib/bassoon/binary_data.hpp:38-51 | An object-id view is always 12 bytes, whatever it is given, and fails only when the memory is shorter |
| `DataViews.CheckSize` | src/lib/bassoon/string_data.hpp:67-77 | The size comes back unchanged when it fits the view's size type, and aborts otherwise |
| `DataViews.FromNullIncluded` | src/lib/bassoon/string_data.hpp:35-38 | The null-included constructor succeeds exactly when the last counted byte is NUL; the view is that prefix |
| `DataViews.FromLength` | src/lib/bassoon/string_data.hpp:42-43 | (ptr, strlen) gives size strlen + 1 through `check_size`, so the view ends at the NUL; it aborts when that size does not fit |
| `DataViews.StrLen` | src/lib/bassoon/string_data.hpp:47-48 | `strlen` finds the first NUL: no NUL before it, and none at all when it finds nothing |
| `DataViews.FromPointer` | src/lib/bassoon/string_data.hpp:47-48 | A bare-pointer view is a C string that starts the memory |
| `DataViews.FromStdString` | src/lib/bassoon/string_data.hpp:52-53 | A `std::string` view is its characters plus NUL, and it fails only when length + 1 does not fit |
| `DataViews.FromLiteral` | src/lib/bassoon/string_data.hpp:63-65 | The literal constructor, as intended: an N-element literal gives a view of size N exactly when it ends in NUL and N fits the size type |
| `DataViews.LiteralAsWrittenNeverBuilds` | src/lib/bassoon/string_data.hpp:63-65 | As written, the literal constructor never builds a view |
| `DataViews.LiteralAsWrittenCounterexample` | src/lib/bassoon/string_data.hpp:63-65 | `"hi"` fails as written and gives `68 69 00` as intended |
| `DataViews.FromPointerCString` | src/lib/bassoon/string_data.hpp:47-48 | The pointer constructor on a C string followed by anything gives exactly that C string |
| `DataViews.StrLenOfCString` | src/lib/bassoon/string_data.hpp:47-48 | `strlen` of a C string followed by anything is its length without the NUL |
| `Endian.FromLittleBytes` | src/lib/bassoon/endian.hpp:46-86 | Reading back the little-endian bytes of a value gives the value |
| `Endian.LittleBytesFrom` | src/lib/bassoon/endian.hpp:46-86 | Any bytes are the little-endian image of the value they read as |
| `Endian.MemoryRoundTrip` | src/lib/bassoon/endian.hpp:46-86 | A value stored and loaded on the same host comes back, on either host |
| `Endian.ByteSwapInvolution` | src/lib/bassoon/endian.hpp:46-86 | The byte swap is its own inverse |
| `Endian.ConverterStoresLittle` | src/lib/bassoon/endian.hpp:32-86 | `native_to_little` stores the value's little-endian bytes in memory, on either host, at every width |
| `Endian.ConverterRoundTrip` | src/lib/bassoon/endian.hpp:32-86 | `little_to_native(native_to_little(x)) == x` for uint8/16/32/64 |
| `Endian.SignedRoundTrip` | src/lib/bassoon/endian.hpp:88-92 | Going through the same-width unsigned pattern and back keeps a signed value |
| `Endian.UnsignedRoundTrip` | src/lib/bassoon/endian.hpp:88-92 | Going through the signed pattern and back keeps an unsigned value |
| `Endian.GenericRoundTrip` | src/lib/bassoon/endian.hpp:88-98 | The generic `little_to_native` (which calls `native_to_little`) still inverts `native_to_little` for every in-range value, signed or unsigned |
| `Endian.HostToLittleEndian32Bytes` | endian.hpp:16 | The in-memory bytes of `host_to_little_endian(int32 v)` are v's 4 little-endian bytes, on either host |
| `Endian.HostToLittleEndian64Bytes` | endian.hpp:17 | The in-memory bytes of `host_to_little_endian(int64 v)` are v's 8 little-endian bytes, on either host |
| `Endian.Int32RoundTrip` | endian.hpp:16-18 | `little_endian_to_host` inverts `host_to_little_endian` for int32 |
| `Endian.Int64RoundTrip` | endian.hpp:17-19 | `little_endian_to_host` inverts `host_to_little_endian` for int64 |
| `Endian.Int32BytesRead` | src/lib/bassoon/encoder.hpp:286-297 | An int32 written as its little-endian image reads back as itself |
| `Endian.ReadLengthFromAddressHosts` | src/lib/bassoon/decoder.hpp:186-190 | The raw length read is the little-endian int32 on a little-endian host, and the little-endian int32 of the reversed bytes on a big-endian host |
| `Endian.ReadLengthIsLittleEndian` | src/lib/bassoon/encoder.hpp:559-572 | `read_length_from_document` reads the 4 bytes as a little-endian int32, on either host |
| `Endian.Int32Truncation` | src/lib/bassoon/encoder.hpp:286-297 | Wrapping a length to int32 does not change the 4 bytes written |
| `Sink.Overwrite` | src/lib/bassoon/array_writer.hpp:64-71 | `memcpy` at an address: those bytes are the data and every other byte is unchanged |
| `Sink.EmitOk` | src/lib/bassoon/encoder.hpp:537-549 | A chain stays ok exactly when it fits; then it has written all its bytes at the position and advanced by their number |
| `Sink.EmitSticky` | src/lib/bassoon/encoder.hpp:541-546 | Once the writer is not ok, a chain reserves and writes nothing |
| `Sink.EmitAppend` | src/lib/bassoon/encoder.hpp:537-549 | Two chains in a row are the concatenated chain |
| `Sink.EmitFrame` | src/lib/bassoon/encoder.hpp:537-549 | A chain, even a failed one, changes only the bytes between the old and new positions, and those are a prefix of its bytes; a failure is never undone |
| `Sink.FlattenAppend` | src/lib/bassoon/encoder.hpp:428-436 | The bytes of two chains in a row are the bytes of each |
| `Sink.SentinelBytes` | src/lib/bassoon/encoder.hpp:438-447 | `k_invalid_length` is written as `AB AB AB AB` on either host |
| `Sink.OpenSlot` | src/lib/bassoon/encoder.hpp:517-520 | Opening a frame leaves the sentinel at the remembered position, unless the writer failed |
| `Sink.EmitKeepsSlot` | src/lib/bassoon/encoder.hpp:225-233 | Writing after a frame's slot never touches the slot's sentinel |
| `Sink.FinishState` | src/lib/bassoon/encoder.hpp:220-236 | `finish`, as intended: its position and `ok` are those of appending `0x00` |
| `Sink.FinishStateCases` | src/lib/bassoon/encoder.hpp:220-236 | If the `0x00` fits, the slot is overwritten with the distance from the slot to the new position; otherwise nothing more is written |
| `Sink.FinishLength` | src/lib/bassoon/encoder.hpp:220-236 | After a successful `finish`: the position moved by exactly one, the last byte is 0, the slot reads back the frame's size (length field and terminator counted), and the bytes before the slot and inside the frame are unchanged |
| `Sink.FinishFails` | src/lib/bassoon/encoder.hpp:220-236 | `finish` succeeds exactly when the writer was ok with a byte to spare; a failed `finish` changes no byte |
| `Sink.FinishKeepsSlot` | src/lib/bassoon/encoder.hpp:225-233 | Finishing an inner frame keeps an outer frame's sentinel intact |
| `Sink.FinishAsWrittenOverflows` | src/lib/bassoon/encoder.hpp:235 | As written, `finish` after a failed sentinel reserve writes the length past the buffer's end |
| `Sink.FinishAsWrittenAgrees` | src/lib/bassoon/encoder.hpp:220-236 | Whenever the terminator fits, the code's own `finish` on a little-endian host is the intended `finish` |
| `Sink.FinishAsWrittenReversed` | src/lib/bassoon/encoder.hpp:220-236 | Whenever the terminator fits, the code's own `finish` on a big-endian host differs from the intended one only in the slot, which holds the length's four bytes reversed |
| `Sink.FinishAsWrittenBigEndian` | src/lib/bassoon/encoder.hpp:223-235 | As written, on a big-endian host the 22-byte document gets length bytes `00 00 00 16`; as intended, `16 00 00 00` |
| `Sink.EmitKeepsStack` | src/lib/bassoon/concrete_encoder.hpp:33-141 | Forwarded `encode_*` calls keep every open frame's sentinel |
| `Sink.OpenKeepsStack` | src/lib/bassoon/concrete_encoder.hpp:143-151 | Pushing a frame keeps the stack of sentinels intact with the new slot on top |
| `Sink.FinishKeepsStack` | src/lib/bassoon/concrete_encoder.hpp:153-157 | Finishing the top frame keeps the sentinels of the frames below |
| `LinearCursors.LinearCursor.constructor` | src/lib/bassoon/linear_cursor.hpp:15-17 | A cursor keeps the writer and address it is given |
| `LinearCursors.LinearCursor.Advance` | src/lib/bassoon/linear_cursor.hpp:35-37 | `advance(n)` moves the address by exactly n |
| `ArrayWriters.ArrayWriter.constructor` | src/lib/bassoon/array_writer.hpp:20-23 | A new writer is ok, at the buffer's start |
| `ArrayWriters.ArrayWriter.Available` | src/lib/bassoon/array_writer.hpp:73-75 | `available()` is the distance from the position to the buffer's end |
| `ArrayWriters.ArrayWriter.Reserve` | src/lib/bassoon/array_writer.hpp:25-28 | `reserve(n)` sets `ok` to whether n bytes are available and returns it; only `ok` changes |
| `ArrayWriters.ArrayWriter.Ok` | src/lib/bassoon/array_writer.hpp:39-41 | `ok()` is the flag |
| `ArrayWriters.ArrayWriter.Position` | src/lib/bassoon/array_writer.hpp:30-32 | `position()` is a cursor on this writer at its position |
| `ArrayWriters.ArrayWriter.Begin` | src/lib/bassoon/array_writer.hpp:43-45 | `begin()` is a cursor at address 0 |
| `ArrayWriters.ArrayWriter.End` | src/lib/bassoon/array_writer.hpp:47-49 | `end()` is a cursor at the buffer's length |
| `ArrayWriters.ArrayWriter.Distance` | src/lib/bassoon/array_writer.hpp:55-57 | `distance(a, b)` is how far b is past a |
| `ArrayWriters.ArrayWriter.ValidBytes` | src/lib/bassoon/array_writer.hpp:51-53 | `valid()` is the number of bytes written: the position |
| `ArrayWriters.ArrayWriter.Advance` | src/lib/bassoon/array_writer.hpp:34-37 | `advance(n)` needs n ≤ available and moves the position by n |
| `ArrayWriters.ArrayWriter.WriteAt` | src/lib/bassoon/array_writer.hpp:64-71 | `write_at` copies the data at the cursor's address and changes no other byte; the position does not move |
| `ArrayWriters.ArrayWriter.Write` | src/lib/bassoon/array_writer.hpp:59-62 | `write` copies the data at the position, changes no other byte, and advances by its size |
| `Layout.DocumentBytes` | src/lib/bassoon/encoder.hpp:220-236 | A finished document is 4 + body + 1 bytes |
| `Layout.ElementLayout` | src/lib/bassoon/encoder.hpp:308-322 | An element is its tag byte, then its name with the NUL, then its payload |
| `Layout.PayloadSizes` | src/lib/bassoon/encoder.hpp:324-384 | Null, undefined, min and max have no payload; a boolean is one byte 0x01 or 0x00; int32 is 4 bytes; double, datetime, timestamp and int64 are 8; an object id is 12 |
| `Layout.StringSelfDescribing` | src/lib/bassoon/encoder.hpp:367-374 | A string payload is its int32 size (NUL counted), then the string, which ends in NUL |
| `Layout.DocumentSelfDescribing` | src/lib/bassoon/encoder.hpp:398-405 | A document's length field reads as its whole size, it ends in `0x00`, and the body lies in between |
| `Layout.AsDocumentIsDocument` | src/lib/bassoon/encoder.hpp:398-405 | `encode_as_subdocument` writes LE(4 + size + 1), the bytes and `0x00`: a document |
| `Layout.RawDocumentCopiesDocument` | src/lib/bassoon/encoder.hpp:386-396 | The pointer form, as intended, copies exactly the document its own length field describes |
| `Layout.RawDocumentAsWrittenOverreads` | src/lib/bassoon/encoder.hpp:390-395 | As written, the pointer form copies the length + 5 bytes, and fails when fewer are reachable |
| `Layout.EmptyDocumentCounterexample` | src/lib/bassoon/encoder.hpp:390-395 | As written, the pointer form cannot copy the 5-byte empty document `05 00 00 00 00`, because it needs 10 bytes; the intended copy is exactly those 5 bytes |
| `Layout.ScopedJavascriptSelfDescribing` | src/lib/bassoon/encoder.hpp:408-425 | Scoped JavaScript as intended: the total reads as the payload's size, then the code string, then the scope document |
| `Layout.ScopedJavascriptAsWrittenOverreads` | src/lib/bassoon/encoder.hpp:408-425 | As written, scoped JavaScript succeeds exactly when the 5 bytes after the scope are reachable; it then writes the scope's length + 13 + code size bytes under a total that is 4 less, and copies the scope and the 5 bytes after it |
| `Layout.ScopedJavascriptCounterexample` | src/lib/bassoon/encoder.hpp:408-425 | With an empty code string and the 5-byte empty scope, the code as written cannot copy the scope; with 5 more bytes readable after it, it writes 19 bytes under a total of 15, where the intended payload is 14 bytes under a total of 14 |
| `Layout.FinishedDocument` | src/lib/bassoon/encoder.hpp:80-84 | With the intended `finish`: opening a frame, writing its elements and finishing it writes `DocumentBytes` of the body at the position when it fits, and fails exactly when it does not |
| `Layout.BuildDocumentAsWrittenHosts` | src/lib/bassoon/encoder.hpp:220-236 | Whenever a frame finishes ok, the code's own `finish` gives the same state on a little-endian host, and the same state with the length bytes reversed on a big-endian host |
| `Layout.FinishedDocumentAsWritten` | src/lib/bassoon/encoder.hpp:80-84 | A frame that fits, finished by the code's own `finish`: `DocumentBytes` of the body on a little-endian host, and the same bytes with the length field reversed on a big-endian host |
| `Layout.OpenAndFill` | src/lib/bassoon/encoder.hpp:438-447 | The sentinel plus the elements are written in one piece when they fit |
| `Layout.NestedFrameIsEmbedded` | src/lib/bassoon/encoder.hpp:123-154 | With the intended `finish` and pointer copy: a subdocument or subarray frame writes the same bytes as one embedded-document element with that tag and name |
| `Layout.StringElementBytes` | src/lib/bassoon/encoder.hpp:100-102 | A string element is 0x02, the name, the int32 size and the text |
| `Layout.HelloWorldLayout` | src/test/test_encode_hello_world.cpp:53-58 | `{"hello": "world"}` lays out as the 22 bytes of the test |
| `Encoders.RawDataEncode` | src/lib/bassoon/encoder.hpp:246-252 | `raw_data_encoder`: reserve, then write only if the reserve succeeded |
| `Encoders.EncodeChain` | src/lib/bassoon/encoder.hpp:537-549 | A chain of `encode_with` steps: each step runs only while the writer is ok |
| `Encoders.Int32Image` | src/lib/bassoon/encoder.hpp:286-297 | An int32 is written as its little-endian bytes on either host |
| `Encoders.Int64Image` | src/lib/bassoon/encoder.hpp:286-297 | An int64 is written as its little-endian bytes on either host |
| `Encoders.StringImage` | src/lib/bassoon/encoder.hpp:367-374 | `string_encoder` writes the int32 size, then the string |
| `Encoders.RawDocumentImage` | src/lib/bassoon/encoder.hpp:386-396 | The pointer form, as intended, writes the document as its length field describes it (as written it copies 5 more bytes: `Layout.RawDocumentAsWrittenOverreads`) |
| `Encoders.AsDocumentImage` | src/lib/bassoon/encoder.hpp:398-405 | The binary form writes LE(4 + size + 1), the bytes and `0x00` |
| `Encoders.ScopedJavascriptImage` | src/lib/bassoon/encoder.hpp:408-425 | Scoped JavaScript, as intended, writes the total, the code string and the scope document (as written: `Layout.ScopedJavascriptAsWrittenOverreads`) |
| `Encoders.PayloadImage` | src/lib/bassoon/encoder.hpp:324-406 | Each value encoder writes its type's payload, the pointer document and scoped JavaScript as intended |
| `Encoders.ElementImage` | src/lib/bassoon/encoder.hpp:428-436 | `element_encoder` writes the tag and name, then the payload |
| `Encoders.Encoder.constructor` | src/lib/bassoon/encoder.hpp:52-53 | A frame encoder remembers the writer and the position it is created at |
| `Encoders.Encoder.PrivateStartDocument` | src/lib/bassoon/encoder.hpp:517-520 | Opening a frame writes the sentinel at the remembered position |
| `Encoders.Encoder.Ok` | src/lib/bassoon/encoder.hpp:92-94 | `ok()` is the writer's flag |
| `Encoders.Encoder.Encode` | src/lib/bassoon/encoder.hpp:96-218 | Every `encode_*` appends the element's tag, name and payload, each step guarded; the pointer document and scoped JavaScript as intended |
| `Encoders.Encoder.StartChild` | src/lib/bassoon/encoder.hpp:522-530 | Opening a child writes tag and name to the parent and returns a frame at the position after them, holding the sentinel |
| `Encoders.Encoder.StartSubdocument` | src/lib/bassoon/encoder.hpp:123-128 | `start_subdocument` writes tag 0x03 and the name, then opens a child frame |
| `Encoders.Encoder.StartSubarray` | src/lib/bassoon/encoder.hpp:149-154 | `start_subarray` writes tag 0x04 and the name, then opens a child frame |
| `Encoders.Encoder.Finish` | src/lib/bassoon/encoder.hpp:220-236 | `finish` appends `0x00` and patches the frame's length in place, guarded and little-endian as intended; when it ends ok, that is the code's own `finish` on a little-endian host, and on a big-endian host the code's differs only in the slot's byte order |
| `Encoders.Encoder.WriteLength` | src/lib/bassoon/encoder.hpp:232-235 | The debug check that the slot still holds the sentinel, then the length written over it |
| `Encoders.FinishResult` | src/lib/bassoon/encoder.hpp:220-236 | The steps of `finish` compose to `FinishState` |
| `ConcreteEncoders.ConcreteEncoder.Slots` | src/lib/bassoon/concrete_encoder.hpp:168 | The stack's frames, bottom first, by slot address |
| `ConcreteEncoders.ConcreteEncoder.constructor` | src/lib/bassoon/concrete_encoder.hpp:22-24 | The stack starts with exactly one frame, the root, holding the sentinel |
| `ConcreteEncoders.ConcreteEncoder.Ok` | src/lib/bassoon/concrete_encoder.hpp:29-31 | `ok()` is the top frame's, which is the writer's flag |
| `ConcreteEncoders.ConcreteEncoder.Encode` | src/lib/bassoon/concrete_encoder.hpp:33-141 | Every `encode_*` forwards to the top frame and leaves the stack unchanged |
| `ConcreteEncoders.ConcreteEncoder.StartChild` | src/lib/bassoon/concrete_encoder.hpp:143-151 | Starting a child pushes the frame the top frame returns; depth grows by one and the frames below are unchanged |
| `ConcreteEncoders.ConcreteEncoder.StartSubdocument` | src/lib/bassoon/concrete_encoder.hpp:143-146 | `start_subdocument` pushes a subdocument frame |
| `ConcreteEncoders.ConcreteEncoder.StartSubarray` | src/lib/bassoon/concrete_encoder.hpp:148-151 | `start_subarray` pushes a subarray frame |
| `ConcreteEncoders.ConcreteEncoder.Finish` | src/lib/bassoon/concrete_encoder.hpp:153-157 | `finish` finishes the top frame and pops it; depth shrinks by one |
| `ArrayEncoders.Decimal` | src/lib/bassoon/array_encoder.hpp:29 | `%u` prints at least one digit, with no leading zero |
| `ArrayEncoders.DecimalRoundTrip` | src/lib/bassoon/array_encoder.hpp:29 | Reading back the digits `%u` prints gives the number |
| `ArrayEncoders.DecimalInjective` | src/lib/bassoon/array_encoder.hpp:27-31 | Distinct indices give distinct element names |
| `ArrayEncoders.IndexFits` | src/lib/bassoon/array_encoder.hpp:34-35 | Any `unsigned int` prints in at most 10 digits, so the 128-byte work buffer holds it |
| `ArrayEncoders.IndexName` | src/lib/bassoon/array_encoder.hpp:27-31 | The name for index n is its digits plus NUL, a C string |
| `ArrayEncoders.ArrayEncoder.constructor` | src/lib/bassoon/array_encoder.hpp:22-25 | The counter starts at 0 |
| `ArrayEncoders.ArrayEncoder.Ok` | src/lib/bassoon/array_encoder.hpp:45-47 | `ok()` is the wrapped encoder's and consumes no index |
| `ArrayEncoders.ArrayEncoder.Index` | src/lib/bassoon/array_encoder.hpp:27-31 | `index()` names the current counter and increments it modulo 2^32 |
| `ArrayEncoders.ArrayEncoder.Encode` | src/lib/bassoon/array_encoder.hpp:49-157 | Every `encode_*` writes one element named by the next index |
| `ArrayEncoders.ArrayEncoder.StartSubdocument` | src/lib/bassoon/array_encoder.hpp:159-161 | `start_subdocument` consumes one index and opens a subdocument with that name |
| `ArrayEncoders.ArrayEncoder.StartSubarray` | src/lib/bassoon/array_encoder.hpp:163-165 | `start_subarray` consumes one index and opens a subarray with that name |
| `ArrayEncoders.ArrayEncoder.Finish` | src/lib/bassoon/array_encoder.hpp:167-169 | `finish()` finishes the wrapped encoder's top frame, consumes no index, and returns the wrapped encoder |
| `Decoders.HandlerFor` | src/lib/bassoon/decoder.hpp:42-106 | Every known tag selects its own handler and any other byte selects `handle_unknown_type` |
| `Decoders.HandlerForTypeByte` | src/lib/bassoon/decoder.hpp:42-106 | Every tag the encoder writes selects the handler of its own type |
| `Decoders.SizeT` | src/lib/bassoon/decoder.hpp:32 | `size_t` arithmetic wraps modulo 2^64 |
| `Decoders.ElementHeader` | src/lib/bassoon/decoder.hpp:36-40 | A header is the tag byte and a NUL-terminated name; the cursor then points past the NUL |
| `Decoders.HeaderIsPointerRead` | src/lib/bassoon/decoder.hpp:39 | The header's name is exactly the view `cstring_cdata name_data(cursor())` builds, and the header fails exactly when that view does |
| `Decoders.ElementHeaderNone` | src/lib/bassoon/decoder.hpp:39 | A header fails to read exactly when no NUL follows the tag in the buffer |
| `Decoders.ReadName` | src/lib/bassoon/decoder.hpp:39-40 | The name read at the cursor is the header's name, and the cursor moves by its size, NUL included |
| `Decoders.DecodeDocument` | src/lib/bassoon/decoder.hpp:27-35 | `decode_document` reads the length in host byte order, as `read_length_from_cursor` does, starts past it and stops at start + length − 1; on a little-endian host this is the walk with the little-endian length |
| `Decoders.DecodedAsWrittenHosts` | src/lib/bassoon/decoder.hpp:27-35 | On a little-endian host the decoder as written is the decoder with the little-endian length read; on a big-endian host it walks to the end the length field gives when read reversed |
| `Decoders.DecodeElements` | src/lib/bassoon/decoder.hpp:35-111 | The loop reads one header per element, dispatches on its tag, and moves past what the handler consumes until the cursor reaches the end |
| `Decoders.WalkDispatches` | src/lib/bassoon/decoder.hpp:35-106 | Every handler call follows a header: its name is a C string in the buffer ending at the cursor, and its handler is the one the tag before it selects |
| `Decoders.LengthReadBack` | src/lib/bassoon/decoder.hpp:197-199 | The length `read_length_from_document` reads at a document's start is the int32 the encoder wrote there, on either host |
| `Decoders.DecodedWalksBody` | src/lib/bassoon/decoder.hpp:27-35 | With the little-endian length read: on a document the encoder wrote, the walk runs from past the length field to the terminator |
| `Decoders.WalkLaid` | src/lib/bassoon/decoder.hpp:35-111 | Provided each handler moves the cursor past its element's payload, walking elements laid out back to back calls one handler per element, in order |
| `Decoders.DecodeLaid` | src/lib/bassoon/decoder.hpp:27-111 | With the little-endian length read, and provided each handler moves the cursor past its element's payload, decoding a document of laid-out elements gives one call per element, with its type's handler and name |
| `Decoders.EncodedLaid` | src/lib/bassoon/encoder.hpp:428-436 | The body the encoder writes is its elements back to back as tag, name and payload |
| `Decoders.DecodeEncoded` | src/lib/bassoon/decoder.hpp:27-111 | With the little-endian length read, and provided each handler moves the cursor past its element's payload, decoding what the encoder wrote calls each element's type handler once, in order, with the element's name |
| `Decoders.HelloWorldDecodes` | src/test/test_encode_hello_world.cpp:53-58 | With the little-endian length read, and provided the string handler moves the cursor past the 10-byte payload, the 22 hello-world bytes decode to one string-handler call named "hello" |
| `Decoders.HelloWorldBigEndianAsWritten` | src/lib/bassoon/decoder.hpp:186-194 | As written, on a big-endian host the hello-world length reads as 0x1600_0000 and the walk reads past the buffer after the string element; on a little-endian host it makes the one call |
| `Decoders.HelloWorldStubHandlers` | src/lib/bassoon/decoder.hpp:116-180 | With the library's stub handlers, which leave the cursor where it is, the hello-world bytes give four handler calls: the string "hello", then an undefined and an unknown element with empty names (the size field), then an unknown element named "orld" |
| `Programs.FlatProgram` | src/bin/encoder_example.cpp:18-30 | With the intended `finish` (little-endian lengths): one element in a fresh 128-byte buffer: ok, and the bytes written are exactly its document |
| `Programs.NestedProgram` | src/bin/encoder_example.cpp:32-47 | With the intended `finish` (little-endian lengths): an element inside a subdocument through frame encoders writes the nested document, byte for byte |
| `Programs.NestedStackProgram` | src/bin/encoder_example.cpp:49-66 | With the intended `finish` (little-endian lengths): the same calls through the frame stack write the same bytes as through frame encoders |
| `Programs.ArrayProgram` | src/bin/encoder_example.cpp:68-84 | With the intended `finish` (little-endian lengths): two elements inside a subarray through frame encoders write the nested array |
| `Programs.ArrayChain` | src/bin/encoder_example.cpp:110-113 | With the intended `finish` (little-endian lengths): a subarray, two auto-named items, then `finish`: the array's document, with the stack back as before |
| `Programs.ArrayStackProgram` | src/bin/encoder_example.cpp:104-120 | With the intended `finish` (little-endian lengths): auto-named items give the same bytes as naming them "0" and "1" by hand |
| `Programs.HelloWorldAsWritten` | src/bin/encoder_example.cpp:18-30 | `do_example` with the code's own `finish`: the 22 hello-world bytes on a little-endian host, and the same bytes with length field `00 00 00 16` on a big-endian host |
| `Programs.HelloWorldExample` | src/bin/encoder_example.cpp:18-30 | With the intended `finish` (little-endian lengths): `do_example` writes the 22 hello-world bytes and stays ok |
| `Programs.NestedExample` | src/bin/encoder_example.cpp:32-47 | With the intended `finish` (little-endian lengths): `do_nested_example` writes `{"message": {"hello": "world"}}` |
| `Programs.NestedConcrete` | src/bin/encoder_example.cpp:49-66 | With the intended `finish` (little-endian lengths): `do_nested_concrete` writes the same bytes as `do_nested_example` |
| `Programs.ArrayManually` | src/bin/encoder_example.cpp:68-84 | With the intended `finish` (little-endian lengths): `do_array_manually` writes `{"array": ["hello", "world"]}` |
| `Programs.ArrayConcrete` | src/bin/encoder_example.cpp:104-120 | With the intended `finish` (little-endian lengths): `do_array_concrete` writes the same bytes as `do_array_manually` |

## Left out

- Doubles: `double_t_encoder` copies the native representation. The model takes it as 8 opaque bytes (`FloatingPointValue`), and `handle_floating_point` is not modelled. Floating-point semantics are out of scope.
- `clone()` (heap allocation for the abstract interface) and the `noexcept` plumbing have no effect on the bytes.
- Platform macros (`htole32`, `le32toh` and the `#error` branch) are modelled by their meaning: a byte-order parameter and little-endian images.
- The decoder's per-type handlers are empty stubs. What a handler does with the cursor is a parameter (`Decoders.Reader`: the number of bytes it consumes). Handler results are ignored, because the `switch` on them is empty. With the stubs as written no handler moves the cursor (`handle_floating_point` copies 8 bytes without advancing), so the walk reads payload bytes as headers (`Decoders.HelloWorldStubHandlers`); the round-trip lemmas hold for handlers that move past their payloads.
- DecodeDocument (`Decoders.DecodeDocument`): `decoder.hpp` does not compile as written, and the model repairs it. It declares `cursor end` where `cursor_type` is meant. It calls `read_length_from_cursor(cursor)`, which takes no argument; the model reads the length as that member does, four bytes in host byte order (`read_length_from_address`). `read_type_from_cursor` and the type `type` are undefined (the enum is `types`); the model reads the tag byte at the cursor. `cursor()` is not a member of `linear_cursor`; the model reads the name at the cursor's address. `handler_result` is never declared; the model discards the handlers' results. The cursor is taken by value, so the model uses a local position. The decoder does not check the terminator byte, and neither does the model.
- The root `decoder.hpp` is an unfinished older copy of the decoder, and is not part of this model.
- `src/lib/bassoon/document_data.hpp` refers to undefined names and has no logic, so it is not part of this model.
- `bson.h` repeats the tables of `bson.hpp` with the same values. `abstract_encoder.hpp` is an interface whose one-finish-per-start rule the frame stack realises.
- Debug hex dumps and printing (`debug.cpp`, the examples' `std::cout`) are I/O. The example programs return the bytes they would dump.
- `foo.cpp`, the version plumbing and the test's `xcp_wrapper` scaffolding are unrelated to the codec.
- `do_array` (`src/bin/encoder_example.cpp:86-102`) wraps a frame encoder in `array_encoder`. That combination does not compile: `finish()` returns `encoder&` from a `void` call. The model wraps only the concrete encoder, as `do_array_concrete` does. `details::encoder_storage` chooses between by-value and by-reference storage, which cannot be told apart in a model without copies.
- `ok()` on an empty `concrete_encoder` stack is undefined behaviour. `do_nested_concrete` and `do_array_concrete` call it after the last `finish`. `ConcreteEncoders.ConcreteEncoder.Ok` requires a non-empty stack, so the examples read the writer's flag instead, which is the value the top frame would have returned.
- FromLength (`DataViews.FromLength`): `strlen + 1` is computed in `size_t`. The model requires `strlen` to be below the `size_t` maximum, so that addition never wraps.
- FromPointer (`DataViews.FromPointer`): the size `strlen + 1` is computed in `size_t`. The model requires the memory to be shorter than the `size_t` maximum, so that addition never wraps.
- FromNullIncluded, WriteLength, Advance (`DataViews.FromNullIncluded`, `Encoders.Encoder.WriteLength`, `ArrayWriters.ArrayWriter.Advance`): the model follows a debug build. The `assert`s at string_data.hpp:37, encoder.hpp:232 and array_writer.hpp:35 become a failure or a precondition. In a build with `NDEBUG` defined they do not exist: the view is built without checking its NUL, the length overwrites whatever the slot holds, and the position can move past the buffer's end.
- The encoder classes' 22 `encode_*` methods are modelled as one `Encode(name, v)` over `Layout.Value`, with one variant per method.
- A failed element is not rolled back: the chunks written before the failing `reserve` stay in the buffer and `valid()` counts them (`Sink.EmitFrame`).
- FlatProgram (`Programs.FlatProgram`): proved with the intended `finish`, whose length fields are little-endian. On a big-endian host the code writes each length field reversed (`Sink.FinishAsWrittenReversed`; `Programs.HelloWorldAsWritten` gives those bytes for `do_example`).
- NestedProgram (`Programs.NestedProgram`): proved with the intended `finish`, whose length fields are little-endian. On a big-endian host the code writes each length field reversed (`Sink.FinishAsWrittenReversed`; `Programs.HelloWorldAsWritten` gives those bytes for `do_example`).
- NestedStackProgram (`Programs.NestedStackProgram`): proved with the intended `finish`, whose length fields are little-endian. On a big-endian host the code writes each length field reversed (`Sink.FinishAsWrittenReversed`; `Programs.HelloWorldAsWritten` gives those bytes for `do_example`).
- ArrayProgram (`Programs.ArrayProgram`): proved with the intended `finish`, whose length fields are little-endian. On a big-endian host the code writes each length field reversed (`Sink.FinishAsWrittenReversed`; `Programs.HelloWorldAsWritten` gives those bytes for `do_example`).
- ArrayChain (`Programs.ArrayChain`): proved with the intended `finish`, whose length fields are little-endian. On a big-endian host the code writes each length field reversed (`Sink.FinishAsWrittenReversed`; `Programs.HelloWorldAsWritten` gives those bytes for `do_example`).
- ArrayStackProgram (`Programs.ArrayStackProgram`): proved with the intended `finish`, whose length fields are little-endian. On a big-endian host the code writes each length field reversed (`Sink.FinishAsWrittenReversed`; `Programs.HelloWorldAsWritten` gives those bytes for `do_example`).
- HelloWorldExample (`Programs.HelloWorldExample`): proved with the intended `finish`, whose length fields are little-endian. On a big-endian host the code writes each length field reversed (`Sink.FinishAsWrittenReversed`; `Programs.HelloWorldAsWritten` gives those bytes for `do_example`).
- NestedExample (`Programs.NestedExample`): proved with the intended `finish`, whose length fields are little-endian. On a big-endian host the code writes each length field reversed (`Sink.FinishAsWrittenReversed`; `Programs.HelloWorldAsWritten` gives those bytes for `do_example`).
- NestedConcrete (`Programs.NestedConcrete`): proved with the intended `finish`, whose length fields are little-endian. On a big-endian host the code writes each length field reversed (`Sink.FinishAsWrittenReversed`; `Programs.HelloWorldAsWritten` gives those bytes for `do_example`).
- ArrayManually (`Programs.ArrayManually`): proved with the intended `finish`, whose length fields are little-endian. On a big-endian host the code writes each length field reversed (`Sink.FinishAsWrittenReversed`; `Programs.HelloWorldAsWritten` gives those bytes for `do_example`).
- ArrayConcrete (`Programs.ArrayConcrete`): proved with the intended `finish`, whose length fields are little-endian. On a big-endian host the code writes each length field reversed (`Sink.FinishAsWrittenReversed`; `Programs.HelloWorldAsWritten` gives those bytes for `do_example`).
- RawDocumentImage (`Encoders.RawDocumentImage`): copies the document's own length of bytes. As written the pointer form copies the length + 5 bytes (see Findings).
- ScopedJavascriptImage (`Encoders.ScopedJavascriptImage`): uses the intended total and the intended scope copy. As written the pointer form copies the length + 5 bytes and the scoped total is one too large (see Findings).
- PayloadImage (`Encoders.PayloadImage`): uses the intended pointer-document copy and scoped-JavaScript total. As written the pointer form copies the length + 5 bytes and the scoped total is one too large (see Findings).
- Encoder.Encode (`Encoders.Encoder.Encode`): uses the intended pointer-document copy and scoped-JavaScript total. As written the pointer form copies the length + 5 bytes and the scoped total is one too large (see Findings).
- NestedFrameIsEmbedded (`Layout.NestedFrameIsEmbedded`): is stated with the intended `finish` and pointer-document copy. As written the pointer form copies the length + 5 bytes (see Findings).
- FinishedDocument (`Layout.FinishedDocument`): stated with the intended `finish`; `Layout.FinishedDocumentAsWritten` gives the code's own bytes on both hosts.

## Findings

| source | as written | input that shows it | evidently intended | confidence | as-written member | corrected member |
|---|---|---|---|---|---|---|
| src/lib/bassoon/encoder.hpp:220-236 | `finish` calls `write_at` for the length even when the writer is not ok | a 2-byte buffer: the sentinel reserve fails at position 0, and `finish` copies 4 bytes at position 0 | write the length only when the writer is ok | not executed | `Sink.FinishAsWrittenOverflows` | `Sink.FinishState` |
| src/lib/bassoon/encoder.hpp:223-235 | the length is copied in host byte order, without `host_to_little_endian` | `{"hello": "world"}` on a big-endian host gets length bytes `00 00 00 16` | little-endian `16 00 00 00` on every host | not executed | `Sink.FinishAsWrittenBigEndian` | `Sink.FinishLength` |
| src/lib/bassoon/encoder.hpp:390-395 | the pointer form copies the document's length + 5 bytes, but that length already counts the field and the terminator | the empty document `05 00 00 00 00` makes it copy 10 bytes | copy exactly the length field's number of bytes | not executed | `Layout.EmptyDocumentCounterexample` | `Layout.RawDocumentCopiesDocument` |
| src/lib/bassoon/encoder.hpp:408-425 | the scoped-JavaScript total adds 5 to an already self-inclusive scope length (the copy adds 5 more) | empty code `""` and the empty scope `05 00 00 00 00`: the copy needs 10 bytes of the 5-byte scope; with 5 more readable bytes, the code writes 19 bytes under a total of 15 (in general the scope length + 13 + code size bytes under a total 4 less) | total = 4 + string + scope length, and the scope copied by its own length | not executed | `Layout.ScopedJavascriptCounterexample` | `Layout.ScopedJavascriptSelfDescribing` |
| src/lib/bassoon/decoder.hpp:186-194 | `decode_document` reads its length with `read_length_from_cursor`, a raw copy in host byte order with no `little_endian_to_host` | the 22 hello-world bytes on a big-endian host: the length reads as 0x1600_0000, and after the string element the walk reads past the buffer | read the length with `read_length_from_document` | not executed | `Decoders.HelloWorldBigEndianAsWritten` | `Decoders.HelloWorldDecodes` |
| src/lib/bassoon/string_data.hpp:63-65 | the literal constructor calls the (ptr, strlen) constructor with N, giving size N + 1 and a NUL check one byte past the array | `"hi"` (3 elements) gets size 4 and reads `str[3]` | size N, the NUL at `str[N-1]` | not executed | `DataViews.LiteralAsWrittenCounterexample` | `DataViews.FromLiteral` |
