/**
 * `encoder<array_writer>`: a document frame over a writer. The only state
 * of an encoder is a cursor on its length slot (`cursor_`), which also
 * reaches the writer; every operation is a chain of guarded raw writes on
 * that writer, and `finish` patches the slot with the frame's size.
 *
 * The byte order of the host is a constant of the encoder (`host`): the
 * integer images below are built the way the source builds them, by
 * converting to little-endian and taking the in-memory bytes, and each is
 * proved equal to the wire image `Layout` specifies.
 */
module Encoders {
  import opened Bytes
  import opened Wrappers
  import opened Endian
  import opened Bson
  import opened DataViews
  import opened Sink
  import opened Layout
  import opened LinearCursors
  import opened ArrayWriters

  // ---------------------------------------------------------------------
  // Primitive encoders
  // ---------------------------------------------------------------------

  /** `raw_data_encoder`: reserve, then write only if the reservation succeeded. */
  method RawDataEncode(w: ArrayWriter, data: seq<byte>)
    requires w.Valid()
    modifies w, w.buffer
    ensures w.Valid() && w.State() == RawData(old(w.State()), data)
  {
    var fits := w.Reserve(|data|);
    if fits {
      w.Write(data);
    }
  }

  /**
   * A chain of `encode_with` links, one raw write per chunk: each link runs
   * only while the writer is ok.
   */
  method EncodeChain(w: ArrayWriter, chunks: seq<seq<byte>>)
    requires w.Valid()
    modifies w, w.buffer
    ensures w.Valid() && w.State() == Emit(old(w.State()), chunks)
  {
    var i := 0;
    while i < |chunks|
      invariant 0 <= i <= |chunks| && w.Valid()
      invariant w.State() == Emit(old(w.State()), chunks[..i])
    {
      var before := w.State();
      var ok := w.Ok();
      if ok {
        RawDataEncode(w, chunks[i]);
      }
      assert w.State() == Emit(before, [chunks[i]]) by {
        assert Emit(before, [chunks[i]]) == Emit(Guarded(before, chunks[i]), []);
      }
      EmitAppend(old(w.State()), chunks[..i], [chunks[i]]);
      assert chunks[..i + 1] == chunks[..i] + [chunks[i]];
      i := i + 1;
    }
    assert chunks[..i] == chunks;
  }

  /**
   * `little_endian_integer_encoder<int32_t>`'s bytes: `host_to_little_endian`
   * then the in-memory copy of the converted value. On either host these
   * are the four little-endian bytes of the value.
   */
  method Int32Image(host: ByteOrder, v: int) returns (b: seq<byte>)
    ensures b == Int32Bytes(v)
  {
    var converted := HostToLittleEndian32(host, v);
    b := InMemory(host, 4, ToUnsigned(4, converted));
    HostToLittleEndian32Bytes(host, v);
  }

  /** `little_endian_integer_encoder<int64_t>`'s bytes: eight little-endian bytes on either host. */
  method Int64Image(host: ByteOrder, v: int) returns (b: seq<byte>)
    ensures b == Int64Bytes(v)
  {
    var converted := HostToLittleEndian64(host, v);
    b := InMemory(host, 8, ToUnsigned(8, converted));
    HostToLittleEndian64Bytes(host, v);
  }

  /** `string_encoder`: the int32 size, which counts the NUL, then the bytes. */
  method StringImage(host: ByteOrder, s: StringData) returns (chunks: seq<seq<byte>>)
    ensures chunks == StringChunks(s)
  {
    var size := Int32Image(host, |s.bytes|);
    chunks := [size, s.bytes];
  }

  /**
   * `raw_document_encoder` for a pointer, with the copy length the
   * document's own length field (the corrected form): the field is read
   * with `read_length_from_document` and a negative length copies nothing.
   */
  method RawDocumentImage(host: ByteOrder, document: seq<byte>) returns (chunks: seq<seq<byte>>)
    requires DocumentReadable(document)
    ensures chunks == RawDocumentChunks(document)
  {
    var length := ReadLengthFromDocument(host, document);
    ReadLengthIsLittleEndian(host, document);
    chunks := [document[..ClampSize(length)]];
  }

  /** `raw_document_encoder` for a `binary_cdata`: size field, bytes, NUL. */
  method AsDocumentImage(host: ByteOrder, data: BinaryData) returns (chunks: seq<seq<byte>>)
    ensures chunks == AsDocumentChunks(data)
  {
    var encodedLength := Int32Image(host, 4 + |data.bytes| + 1);
    chunks := [encodedLength, data.bytes, [Bson.NullValue]];
  }

  /** `scoped_javascript_encoder` with the corrected total: total, code string, scope document. */
  method ScopedJavascriptImage(host: ByteOrder, code: StringData, scope: seq<byte>) returns (chunks: seq<seq<byte>>)
    requires DocumentReadable(scope)
    ensures chunks == ScopedJavascriptChunks(code, scope)
  {
    var length := ReadLengthFromDocument(host, scope);
    ReadLengthIsLittleEndian(host, scope);
    var total := Int32Image(host, ScopedTotal(code, length));
    var codeChunks := StringImage(host, code);
    var scopeChunks := RawDocumentImage(host, scope);
    chunks := [total] + codeChunks + scopeChunks;
  }

  /** The chunks the value encoder of each `encode_*` method writes after the name. */
  method PayloadImage(host: ByteOrder, v: Value) returns (chunks: seq<seq<byte>>)
    requires WellFormed(v)
    ensures chunks == Payload(v)
  {
    match v
    case FloatingPointValue(image) =>
      chunks := [image];
    case Utf8StringValue(s) =>
      chunks := StringImage(host, s);
    case SubdocumentAt(d) =>
      chunks := RawDocumentImage(host, d);
    case AsSubdocument(data) =>
      chunks := AsDocumentImage(host, data);
    case SubarrayAt(d) =>
      chunks := RawDocumentImage(host, d);
    case AsSubarray(data) =>
      chunks := AsDocumentImage(host, data);
    case BinaryValue(subtype, data) =>
      var size := Int32Image(host, |data.bytes|);
      chunks := [size, [SubtypeByte(subtype)], data.bytes];
    case UndefinedValue =>
      chunks := [];
    case ObjectIdValue(id) =>
      chunks := [id.bytes];
    case BooleanValue(b) =>
      chunks := [[if b then TrueValue else FalseValue]];
    case UtcDatetimeValue(m) =>
      var image := Int64Image(host, m);
      chunks := [image];
    case NullValue =>
      chunks := [];
    case RegexValue(r, o) =>
      chunks := [r.bytes, o.bytes];
    case DbPointerValue(db, id) =>
      var dbChunks := StringImage(host, db);
      chunks := dbChunks + [id.bytes];
    case JavascriptValue(c) =>
      chunks := StringImage(host, c);
    case SymbolValue(s) =>
      chunks := StringImage(host, s);
    case ScopedJavascriptValue(c, scope) =>
      chunks := ScopedJavascriptImage(host, c, scope);
    case Int32Value(i) =>
      var image := Int32Image(host, i);
      chunks := [image];
    case TimestampValue(t) =>
      var image := Int64Image(host, t);
      chunks := [image];
    case Int64Value(i) =>
      var image := Int64Image(host, i);
      chunks := [image];
    case MinKeyValue =>
      chunks := [];
    case MaxKeyValue =>
      chunks := [];
  }

  /** `element_encoder`: `fixed_type_and_name_encoder` for the value's tag, then its payload. */
  method ElementImage(host: ByteOrder, name: StringData, v: Value) returns (chunks: seq<seq<byte>>)
    requires WellFormed(v)
    ensures chunks == ElementChunks(name, v)
  {
    var payload := PayloadImage(host, v);
    chunks := [[TypeByte(ValueType(v))], name.bytes] + payload;
  }

  // ---------------------------------------------------------------------
  // The encoder
  // ---------------------------------------------------------------------

  class Encoder {
    /** `cursor_`: the frame's length slot, and through it the writer. */
    const cursor: LinearCursor<ArrayWriter>
    const host: ByteOrder

    /**
     * The writer is consistent, the slot lies at or before the position,
     * and while the writer is ok the slot still holds the sentinel.
     */
    ghost predicate Valid()
      reads this, cursor, cursor.writer, cursor.writer.buffer
    {
      && cursor.writer.Valid()
      && cursor.address <= cursor.writer.position
      && SlotIntact(cursor.writer.State(), cursor.address)
    }

    /** The abstract state of the writer this encoder writes through. */
    ghost function State(): SinkState
      reads cursor.writer, cursor.writer.buffer
    {
      cursor.writer.State()
    }

    /** The private constructor `encoder(writer)`: a cursor at the writer's position. */
    constructor (writer: ArrayWriter, host: ByteOrder)
      ensures fresh(cursor) && cursor.writer == writer && cursor.address == writer.position
      ensures this.host == host
    {
      var c := writer.Position();
      cursor := c;
      this.host := host;
    }

    /**
     * `start_document`: a new frame at the writer's position, whose length
     * slot is filled with the sentinel.
     */
    static method StartDocument(writer: ArrayWriter, host: ByteOrder) returns (e: Encoder)
      requires writer.Valid()
      modifies writer, writer.buffer
      ensures fresh(e) && fresh(e.cursor) && e.cursor.writer == writer && e.host == host
      ensures e.cursor.address == old(writer.position)
      ensures writer.State() == Emit(old(writer.State()), [Sentinel])
      ensures e.Valid()
    {
      e := new Encoder(writer, host);
      e.PrivateStartDocument();
    }

    /** `private_start_document`: `document_start_encoder`, the sentinel through the length encoder. */
    method PrivateStartDocument()
      requires cursor.writer.Valid() && cursor.address == cursor.writer.position
      modifies cursor.writer, cursor.writer.buffer
      ensures Valid() && State() == Emit(old(State()), [Sentinel])
    {
      var sentinel := Int32Image(host, InvalidLength);
      SentinelBytes(host);
      EncodeChain(cursor.writer, [sentinel]);
      OpenSlot(old(State()));
    }

    /** `ok()`: the writer's flag. */
    method Ok() returns (r: bool)
      ensures r == cursor.writer.ok
    {
      r := cursor.writer.ok;
    }

    /**
     * The `encode_*` methods: one element, its tag, its name and the
     * payload of `v`, appended through the chain.
     */
    method Encode(name: StringData, v: Value)
      requires Valid() && WellFormed(v)
      modifies cursor.writer, cursor.writer.buffer
      ensures Valid() && State() == Emit(old(State()), ElementChunks(name, v))
    {
      var chunks := ElementImage(host, name, v);
      EncodeChain(cursor.writer, chunks);
      EmitFrame(old(State()), chunks);
      EmitKeepsSlot(old(State()), chunks, cursor.address);
    }

    /**
     * `start_subdocument` / `start_subarray` (`Document` or `Array` as
     * `t`): the tag and name, then a new frame at the position after them.
     * The child shares the writer; this frame's slot stays intact.
     */
    method StartChild(t: BsonType, name: StringData) returns (child: Encoder)
      requires Valid() && (t == Document || t == Array)
      modifies cursor.writer, cursor.writer.buffer
      ensures fresh(child) && fresh(child.cursor)
      ensures child.cursor.writer == cursor.writer && child.host == host
      ensures child.cursor.address == Emit(old(State()), TypeAndNameChunks(t, name)).pos
      ensures State() == Emit(Emit(old(State()), TypeAndNameChunks(t, name)), [Sentinel])
      ensures Valid() && child.Valid()
      ensures cursor.address + 4 <= child.cursor.address || !State().ok
    {
      var head := TypeAndNameChunks(t, name);
      EncodeChain(cursor.writer, head);
      EmitFrame(old(State()), head);
      EmitKeepsSlot(old(State()), head, cursor.address);
      var mid := State();
      child := StartDocument(cursor.writer, host);
      EmitFrame(mid, [Sentinel]);
      EmitKeepsSlot(mid, [Sentinel], cursor.address);
    }

    method StartSubdocument(name: StringData) returns (child: Encoder)
      requires Valid()
      modifies cursor.writer, cursor.writer.buffer
      ensures fresh(child) && fresh(child.cursor)
      ensures child.cursor.writer == cursor.writer && child.host == host
      ensures child.cursor.address == Emit(old(State()), TypeAndNameChunks(Document, name)).pos
      ensures State() == Emit(Emit(old(State()), TypeAndNameChunks(Document, name)), [Sentinel])
      ensures Valid() && child.Valid()
      ensures cursor.address + 4 <= child.cursor.address || !State().ok
    {
      child := StartChild(Document, name);
    }

    method StartSubarray(name: StringData) returns (child: Encoder)
      requires Valid()
      modifies cursor.writer, cursor.writer.buffer
      ensures fresh(child) && fresh(child.cursor)
      ensures child.cursor.writer == cursor.writer && child.host == host
      ensures child.cursor.address == Emit(old(State()), TypeAndNameChunks(Array, name)).pos
      ensures State() == Emit(Emit(old(State()), TypeAndNameChunks(Array, name)), [Sentinel])
      ensures Valid() && child.Valid()
      ensures cursor.address + 4 <= child.cursor.address || !State().ok
    {
      child := StartChild(Array, name);
    }

    /**
     * `finish`, with the length patch guarded by the writer's `ok` and
     * written little-endian: the terminating NUL through the chain, then
     * the distance from the slot to the position, as an int32, into the
     * slot. Whenever the terminator fits, this is the code's own `finish`
     * on a little-endian host, and on a big-endian host differs from it
     * only in the order of the slot's bytes.
     */
    method Finish()
      requires Valid()
      modifies cursor.writer, cursor.writer.buffer
      ensures cursor.writer.Valid() && State() == FinishState(old(State()), cursor.address)
      ensures State().ok ==> FinishAsWritten(LittleEndian, old(State()), cursor.address) == Some(State())
      ensures State().ok ==> cursor.address + 4 <= |State().bytes|
      ensures State().ok ==>
        FinishAsWritten(BigEndian, old(State()), cursor.address)
        == Some(State().(bytes := Overwrite(State().bytes, cursor.address, Reverse(Int32Bytes(State().pos - cursor.address)))))
    {
      var w := cursor.writer;
      ghost var start := cursor.address;
      ghost var s0 := State();
      EncodeChain(w, [[Bson.NullValue]]);
      ghost var t := State();
      assert [[Bson.NullValue]] == [[0 as byte]];
      FinishSteps(s0, start);
      var position := w.Position();
      var distance := w.Distance(cursor, position);
      assert distance == t.pos - start && State() == t;
      var ok := w.Ok();
      if ok {
        WriteLength(distance);
      }
      FinishResult(s0, start, State());
      if State().ok {
        FinishAsWrittenAgrees(s0, start);
        FinishAsWrittenReversed(s0, start);
      }
    }

    /**
     * The guarded tail of `finish`: check (the debug assertion) that the
     * slot still holds the sentinel, then copy the distance, as an int32,
     * into it.
     */
    method WriteLength(distance: int)
      requires cursor.address + 4 <= cursor.writer.buffer.Length
      requires cursor.writer.buffer[..][cursor.address..cursor.address + 4] == Sentinel
      modifies cursor.writer.buffer
      ensures cursor.writer.buffer[..] == Overwrite(old(cursor.writer.buffer[..]), cursor.address, Int32Bytes(distance))
    {
      var written := ToSigned(4, ToUnsigned(4, distance));
      var image := Int32Image(host, written);
      Int32Truncation(distance);
      cursor.writer.WriteAt(cursor, image);
    }
  }

  /** What `finish` relies on after the terminator chain from `s`. */
  lemma FinishSteps(s: SinkState, start: nat)
    requires Valid(s) && start <= s.pos && SlotIntact(s, start)
    ensures var t := Emit(s, [[0]]);
      start <= t.pos && SlotIntact(t, start)
  {
    EmitFrame(s, [[0]]);
    EmitKeepsSlot(s, [[0]], start);
  }

  /** The state `finish` leaves, in either branch, is `FinishState`. */
  lemma FinishResult(s: SinkState, start: nat, r: SinkState)
    requires Valid(s) && start <= s.pos && SlotIntact(s, start)
    requires var t := Emit(s, [[0]]);
      && (t.ok ==> start + 4 <= |t.bytes| && r == SinkState(Overwrite(t.bytes, start, Int32Bytes(t.pos - start)), t.pos, true))
      && (!t.ok ==> r == t)
    ensures r == FinishState(s, start)
  {
    FinishStateCases(s, start);
  }
}
