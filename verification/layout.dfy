/**
 * The byte layout the encoder's primitive encoders produce (`encoder.hpp`,
 * the private encoders between `raw_data_encoder` and
 * `document_start_encoder`). Each encoder is a chain of raw writes; here
 * a chain is the list of chunks it writes, one chunk per
 * `raw_data_encoder` call, so that a failure part-way leaves exactly the
 * chunks before it.
 */
module Layout {
  import opened Bytes
  import opened Wrappers
  import opened Endian
  import opened Bson
  import opened DataViews
  import opened Sink

  /** The argument of one `encode_*` call, tagged by the method called. */
  datatype Value =
    | FloatingPointValue(image: seq<byte>)
    | Utf8StringValue(text: StringData)
    | SubdocumentAt(document: seq<byte>)
    | AsSubdocument(data: BinaryData)
    | SubarrayAt(document: seq<byte>)
    | AsSubarray(data: BinaryData)
    | BinaryValue(subtype: BinarySubtype, data: BinaryData)
    | UndefinedValue
    | ObjectIdValue(id: BinaryData)
    | BooleanValue(b: bool)
    | UtcDatetimeValue(millis: int)
    | NullValue
    | RegexValue(regex: StringData, options: StringData)
    | DbPointerValue(dbname: StringData, id: BinaryData)
    | JavascriptValue(code: StringData)
    | SymbolValue(symbol: StringData)
    | ScopedJavascriptValue(code: StringData, scope: seq<byte>)
    | Int32Value(i32: int)
    | TimestampValue(stamp: int)
    | Int64Value(i64: int)
    | MinKeyValue
    | MaxKeyValue

  /** The tag each `encode_*` method writes. */
  function ValueType(v: Value): BsonType
  {
    match v
    case FloatingPointValue(_) => FloatingPoint
    case Utf8StringValue(_) => Utf8String
    case SubdocumentAt(_) => Document
    case AsSubdocument(_) => Document
    case SubarrayAt(_) => Array
    case AsSubarray(_) => Array
    case BinaryValue(_, _) => Binary
    case UndefinedValue => Undefined
    case ObjectIdValue(_) => ObjectId
    case BooleanValue(_) => Boolean
    case UtcDatetimeValue(_) => UtcDatetime
    case NullValue => Null
    case RegexValue(_, _) => Regex
    case DbPointerValue(_, _) => DbPointer
    case JavascriptValue(_) => Javascript
    case SymbolValue(_) => Symbol
    case ScopedJavascriptValue(_, _) => ScopedJavascript
    case Int32Value(_) => Int32
    case TimestampValue(_) => Timestamp
    case Int64Value(_) => Int64
    case MinKeyValue => MinKey
    case MaxKeyValue => MaxKey
  }

  predicate IsInt64(v: int)
  {
    -0x8000_0000_0000_0000 <= v < 0x8000_0000_0000_0000
  }

  /** A `string_cdata` as the constructors build it: int32 size that counts its NUL. */
  predicate GoodString(s: StringData)
  {
    NullIncluded(s.bytes) && |s.bytes| <= MaxOf(Int32Size)
  }

  /**
   * A document pointer the encoder may copy from: its length field can be
   * read and the (clamped) length stays inside the memory it reaches.
   */
  predicate DocumentReadable(region: seq<byte>)
  {
    |region| >= 4 && ClampSize(ReadInt32(region, 0)) <= |region|
  }

  /**
   * What the views and the debug assertions guarantee of an argument:
   * strings carry their NUL, object ids are 12 bytes, binary sizes are
   * int32, integers are in range, a double is its 8 in-memory bytes.
   */
  predicate WellFormed(v: Value)
  {
    match v
    case FloatingPointValue(image) => |image| == 8
    case Utf8StringValue(s) => GoodString(s)
    case SubdocumentAt(d) => DocumentReadable(d)
    case AsSubdocument(data) => |data.bytes| <= MaxOf(Int32Size)
    case SubarrayAt(d) => DocumentReadable(d)
    case AsSubarray(data) => |data.bytes| <= MaxOf(Int32Size)
    case BinaryValue(_, data) => |data.bytes| <= MaxOf(Int32Size)
    case UndefinedValue => true
    case ObjectIdValue(id) => |id.bytes| == ObjectIdLength
    case BooleanValue(_) => true
    case UtcDatetimeValue(m) => IsInt64(m)
    case NullValue => true
    case RegexValue(r, o) => NullIncluded(r.bytes) && NullIncluded(o.bytes)
    case DbPointerValue(db, id) => GoodString(db) && |id.bytes| == ObjectIdLength
    case JavascriptValue(c) => GoodString(c)
    case SymbolValue(s) => GoodString(s)
    case ScopedJavascriptValue(c, scope) => GoodString(c) && DocumentReadable(scope)
    case Int32Value(i) => IsInt32(i)
    case TimestampValue(t) => IsInt64(t)
    case Int64Value(i) => IsInt64(i)
    case MinKeyValue => true
    case MaxKeyValue => true
  }

  /** `string_encoder`: the int32 size (NUL included), then the bytes. */
  function StringChunks(s: StringData): seq<seq<byte>>
  {
    [Int32Bytes(|s.bytes|), s.bytes]
  }

  /**
   * `raw_document_encoder` for a pointer, as evidently intended: copy the
   * document's own length of bytes, which already counts the length field
   * and the terminator.
   */
  function RawDocumentChunks(document: seq<byte>): seq<seq<byte>>
    requires DocumentReadable(document)
  {
    [document[..ClampSize(ReadInt32(document, 0))]]
  }

  /**
   * `raw_document_encoder` for a pointer as written: the length read from
   * the document is increased by 5 (int32 arithmetic) before the copy.
   * `None` when that copy reads past the memory the pointer reaches.
   */
  function RawDocumentChunksAsWritten(document: seq<byte>): (r: Option<seq<seq<byte>>>)
    requires |document| >= 4
  {
    var n := ClampSize(ToSigned(4, ToUnsigned(4, ReadInt32(document, 0) + 5)));
    if n <= |document| then Some([document[..n]]) else None
  }

  /** `raw_document_encoder` for a `binary_cdata`: wrap the bytes as a document. */
  function AsDocumentChunks(data: BinaryData): seq<seq<byte>>
  {
    [Int32Bytes(4 + |data.bytes| + 1), data.bytes, [Bson.NullValue]]
  }

  /** `binary_encoder`: int32 size, subtype byte, bytes. */
  function BinaryChunks(subtype: BinarySubtype, data: BinaryData): seq<seq<byte>>
  {
    [Int32Bytes(|data.bytes|), [SubtypeByte(subtype)], data.bytes]
  }

  /** `boolean_encoder`: one byte, `values::true_` or `values::false_`. */
  function BooleanByte(b: bool): byte
  {
    if b then TrueValue else FalseValue
  }

  /**
   * The `code_w_s` total as evidently intended: the total field, the
   * code string's size field, the code bytes and the scope document.
   */
  function ScopedTotal(code: StringData, scopeLength: int): int
  {
    4 + 4 + |code.bytes| + scopeLength
  }

  /** The total as written: `length += sizeof(length) + 1; length += sizeof(length) + code.size`. */
  function ScopedTotalAsWritten(code: StringData, scopeLength: int): int
  {
    scopeLength + 4 + 1 + 4 + |code.bytes|
  }

  function ScopedJavascriptChunks(code: StringData, scope: seq<byte>): seq<seq<byte>>
    requires DocumentReadable(scope)
  {
    [Int32Bytes(ScopedTotal(code, ReadInt32(scope, 0)))] + StringChunks(code) + RawDocumentChunks(scope)
  }

  /**
   * `code_w_s` as written: the as-written total, the code string, then the
   * scope through the as-written pointer copy. `None` when that copy reads
   * past the memory the scope pointer reaches.
   */
  function ScopedJavascriptChunksAsWritten(code: StringData, scope: seq<byte>): Option<seq<seq<byte>>>
    requires |scope| >= 4
  {
    match RawDocumentChunksAsWritten(scope)
    case None => None
    case Some(doc) =>
      Some([Int32Bytes(ScopedTotalAsWritten(code, ReadInt32(scope, 0)))] + StringChunks(code) + doc)
  }

  /** The chunks the value encoder of each `encode_*` method writes after the name. */
  function Payload(v: Value): seq<seq<byte>>
    requires WellFormed(v)
  {
    match v
    case FloatingPointValue(image) => [image]
    case Utf8StringValue(s) => StringChunks(s)
    case SubdocumentAt(d) => RawDocumentChunks(d)
    case AsSubdocument(data) => AsDocumentChunks(data)
    case SubarrayAt(d) => RawDocumentChunks(d)
    case AsSubarray(data) => AsDocumentChunks(data)
    case BinaryValue(st, data) => BinaryChunks(st, data)
    case UndefinedValue => []
    case ObjectIdValue(id) => [id.bytes]
    case BooleanValue(b) => [[BooleanByte(b)]]
    case UtcDatetimeValue(m) => [Int64Bytes(m)]
    case NullValue => []
    case RegexValue(r, o) => [r.bytes, o.bytes]
    case DbPointerValue(db, id) => StringChunks(db) + [id.bytes]
    case JavascriptValue(c) => StringChunks(c)
    case SymbolValue(s) => StringChunks(s)
    case ScopedJavascriptValue(c, scope) => ScopedJavascriptChunks(c, scope)
    case Int32Value(i) => [Int32Bytes(i)]
    case TimestampValue(t) => [Int64Bytes(t)]
    case Int64Value(i) => [Int64Bytes(i)]
    case MinKeyValue => []
    case MaxKeyValue => []
  }

  /** `type_and_name_encoder`: the tag byte, then the name with its NUL. */
  function TypeAndNameChunks(t: BsonType, name: StringData): seq<seq<byte>>
  {
    [[TypeByte(t)], name.bytes]
  }

  /** `element_encoder`: type and name, then the payload. */
  function ElementChunks(name: StringData, v: Value): seq<seq<byte>>
    requires WellFormed(v)
  {
    TypeAndNameChunks(ValueType(v), name) + Payload(v)
  }

  /** One `encode_*(name, value)` call. */
  datatype Element = Element(name: StringData, value: Value)

  predicate WellFormedElements(es: seq<Element>)
  {
    forall i :: 0 <= i < |es| ==> WellFormed(es[i].value)
  }

  function ElementsChunks(es: seq<Element>): seq<seq<byte>>
    requires WellFormedElements(es)
    decreases |es|
  {
    if es == [] then [] else ElementChunks(es[0].name, es[0].value) + ElementsChunks(es[1..])
  }

  /** A BSON document around `body`: int32 total size, the body, the terminating NUL. */
  function DocumentBytes(body: seq<byte>): (d: seq<byte>)
    ensures |d| == 4 + |body| + 1
  {
    Int32Bytes(4 + |body| + 1) + body + [Bson.NullValue]
  }

  // ---------------------------------------------------------------------
  // Properties of the layout
  // ---------------------------------------------------------------------

  /**
   * An element is its tag byte, its name (NUL included) and its payload,
   * and the tag is the one its `encode_*` method names.
   */
  lemma ElementLayout(name: StringData, v: Value)
    requires WellFormed(v)
    ensures Flatten(ElementChunks(name, v)) == [TypeByte(ValueType(v))] + name.bytes + Flatten(Payload(v))
  {
    FlattenAppend(TypeAndNameChunks(ValueType(v), name), Payload(v));
    assert Flatten(TypeAndNameChunks(ValueType(v), name)) == [TypeByte(ValueType(v))] + name.bytes;
  }

  /**
   * The fixed-size payloads: none for null, undefined, min and max keys,
   * one byte (1 for true, 0 for false) for a boolean, 4 for an int32, 8 for
   * a double, datetime, timestamp or int64, 12 for an object id.
   */
  lemma PayloadSizes(v: Value)
    requires WellFormed(v)
    ensures v.NullValue? || v.UndefinedValue? || v.MinKeyValue? || v.MaxKeyValue? ==> Flatten(Payload(v)) == []
    ensures v.BooleanValue? ==> Flatten(Payload(v)) == [if v.b then 0x01 else 0x00]
    ensures v.Int32Value? ==> |Flatten(Payload(v))| == 4
    ensures v.FloatingPointValue? || v.UtcDatetimeValue? || v.TimestampValue? || v.Int64Value? ==>
      |Flatten(Payload(v))| == 8
    ensures v.ObjectIdValue? ==> |Flatten(Payload(v))| == 12
  {
    var p := Payload(v);
    if |p| == 1 {
      assert Flatten(p) == p[0] + Flatten([]);
    }
  }

  /**
   * A string payload describes itself: its first four bytes read as the
   * number of bytes after them, the string ends with its NUL, and the
   * bytes after the size field are the string.
   */
  lemma StringSelfDescribing(s: StringData)
    requires GoodString(s)
    ensures var b := Flatten(StringChunks(s));
      && |b| == 4 + |s.bytes|
      && ReadInt32(b, 0) == |b| - 4
      && b[|b| - 1] == 0x00
      && b[4..] == s.bytes
  {
    FlattenSmall(Int32Bytes(|s.bytes|), s.bytes, []);
    LengthPrefixRead(|s.bytes|, s.bytes);
  }

  /** A well-formed document describes itself: its length field is its size and it ends in NUL. */
  lemma DocumentSelfDescribing(body: seq<byte>)
    requires 4 + |body| + 1 < 0x8000_0000
    ensures var d := DocumentBytes(body);
      && ReadInt32(d, 0) == |d|
      && d[|d| - 1] == 0x00
      && d[4..|d| - 1] == body
  {
    LengthPrefixRead(4 + |body| + 1, body + [Bson.NullValue]);
    assert DocumentBytes(body) == Int32Bytes(4 + |body| + 1) + (body + [Bson.NullValue]);
  }

  /**
   * `encode_as_subdocument`/`encode_as_subarray` wrap their bytes as a
   * document: a length field of 4 + size + 1, the bytes, a NUL.
   */
  lemma AsDocumentIsDocument(data: BinaryData)
    requires 4 + |data.bytes| + 1 < 0x8000_0000
    ensures Flatten(AsDocumentChunks(data)) == DocumentBytes(data.bytes)
  {
    FlattenSmall(Int32Bytes(4 + |data.bytes| + 1), data.bytes, [Bson.NullValue]);
  }

  /** The corrected copy of a document by pointer is exactly the document. */
  lemma RawDocumentCopiesDocument(document: seq<byte>)
    requires |document| >= 4 && 4 <= ReadInt32(document, 0) <= |document|
    ensures DocumentReadable(document)
    ensures Flatten(RawDocumentChunks(document)) == document[..ReadInt32(document, 0)]
  {
    FlattenSmall(RawDocumentChunks(document)[0], [], []);
  }

  /**
   * As written, the copy takes 5 bytes more than the document's own
   * length: past the end of a document that fills the memory it is in.
   */
  lemma RawDocumentAsWrittenOverreads(document: seq<byte>)
    requires |document| >= 4 && 0 <= ReadInt32(document, 0) < 0x8000_0000 - 5
    ensures var r := RawDocumentChunksAsWritten(document);
      && (r.Some? <==> ReadInt32(document, 0) + 5 <= |document|)
      && (r.Some? ==> |Flatten(r.value)| == ReadInt32(document, 0) + 5)
  {
    var n := ReadInt32(document, 0) + 5;
    Pow256Values();
    SignedRoundTrip(4, n);
    var r := RawDocumentChunksAsWritten(document);
    if r.Some? {
      FlattenSmall(r.value[0], [], []);
    }
  }

  /** The empty document `05 00 00 00 00`, alone in its memory. */
  const EmptyDocument: seq<byte> := [0x05, 0x00, 0x00, 0x00, 0x00]

  lemma EmptyDocumentLength()
    ensures ReadInt32(EmptyDocument, 0) == 5
  {
    Pow256Values();
    assert EmptyDocument[0..4] == [0x05, 0x00, 0x00, 0x00];
    assert FromLittle([0x00]) == 0;
    assert FromLittle([0x00, 0x00]) == 0;
    assert FromLittle([0x00, 0x00, 0x00]) == 0;
    assert FromLittle([0x05, 0x00, 0x00, 0x00]) == 5;
  }

  /**
   * Finding: copying the empty document by pointer reads 10 bytes of a
   * 5-byte object as written; the corrected copy is the document itself.
   */
  lemma EmptyDocumentCounterexample()
    ensures RawDocumentChunksAsWritten(EmptyDocument).None?
    ensures DocumentReadable(EmptyDocument) && Flatten(RawDocumentChunks(EmptyDocument)) == EmptyDocument
  {
    EmptyDocumentLength();
    RawDocumentAsWrittenOverreads(EmptyDocument);
    RawDocumentCopiesDocument(EmptyDocument);
    assert EmptyDocument[..5] == EmptyDocument;
  }

  /**
   * A corrected scoped-JavaScript payload describes itself: its total
   * field is the number of bytes of the whole payload.
   */
  lemma ScopedJavascriptSelfDescribing(code: StringData, scope: seq<byte>)
    requires GoodString(code) && |scope| >= 4 && 5 <= ReadInt32(scope, 0) <= |scope|
    requires ScopedTotal(code, ReadInt32(scope, 0)) < 0x8000_0000
    ensures DocumentReadable(scope)
    ensures var b := Flatten(ScopedJavascriptChunks(code, scope));
      && |b| == ScopedTotal(code, ReadInt32(scope, 0))
      && ReadInt32(b, 0) == |b|
      && b[4..8 + |code.bytes|] == Flatten(StringChunks(code))
      && b[8 + |code.bytes|..] == scope[..ReadInt32(scope, 0)]
  {
    var len := ReadInt32(scope, 0);
    var total := ScopedTotal(code, len);
    var head := Int32Bytes(total);
    var str := Flatten(StringChunks(code));
    var doc := scope[..len];
    StringSelfDescribing(code);
    assert |str| == 4 + |code.bytes|;
    RawDocumentCopiesDocument(scope);
    assert Flatten(RawDocumentChunks(scope)) == doc;
    ScopedFlatten(head, StringChunks(code), RawDocumentChunks(scope));
    var b := Flatten(ScopedJavascriptChunks(code, scope));
    assert b == head + (str + doc);
    assert |b| == total;
    LengthPrefixRead(total, str + doc);
  }

  lemma ScopedFlatten(head: seq<byte>, s: seq<seq<byte>>, r: seq<seq<byte>>)
    ensures Flatten([head] + s + r) == head + (Flatten(s) + Flatten(r))
  {
    FlattenAppend([head] + s, r);
    FlattenAppend([head], s);
    FlattenSmall(head, [], []);
  }

  /** An int32 length field in front of any bytes reads back as the length. */
  lemma LengthPrefixRead(v: int, rest: seq<byte>)
    requires IsInt32(v)
    ensures ReadInt32(Int32Bytes(v) + rest, 0) == v
  {
    var b := Int32Bytes(v) + rest;
    assert b[0..4] == Int32Bytes(v);
    Int32BytesRead(v, b, 0);
  }

  /**
   * As written, scoped JavaScript copies 5 bytes past the scope's own
   * length, and fails when they are not reachable; when it succeeds, its
   * total field is 4 less than the bytes it writes, and the bytes after
   * the code string are the scope followed by the 5 bytes after it.
   */
  lemma ScopedJavascriptAsWrittenOverreads(code: StringData, scope: seq<byte>)
    requires GoodString(code) && |scope| >= 4 && 0 <= ReadInt32(scope, 0) < 0x8000_0000 - 5
    requires ScopedTotalAsWritten(code, ReadInt32(scope, 0)) < 0x8000_0000
    ensures var r := ScopedJavascriptChunksAsWritten(code, scope);
      r.Some? <==> ReadInt32(scope, 0) + 5 <= |scope|
    ensures var r := ScopedJavascriptChunksAsWritten(code, scope);
      r.Some? ==>
        var b := Flatten(r.value);
        && |b| == ScopedTotal(code, ReadInt32(scope, 0)) + 5
        && ReadInt32(b, 0) == ScopedTotalAsWritten(code, ReadInt32(scope, 0)) == |b| - 4
        && b[4..8 + |code.bytes|] == Flatten(StringChunks(code))
        && b[8 + |code.bytes|..] == scope[..ReadInt32(scope, 0) + 5]
  {
    var len := ReadInt32(scope, 0);
    RawDocumentAsWrittenOverreads(scope);
    var raw := RawDocumentChunksAsWritten(scope);
    if raw.Some? {
      var total := ScopedTotalAsWritten(code, len);
      var head := Int32Bytes(total);
      var str := Flatten(StringChunks(code));
      StringSelfDescribing(code);
      Pow256Values();
      SignedRoundTrip(4, len + 5);
      assert raw.value == [scope[..len + 5]];
      FlattenSmall(scope[..len + 5], [], []);
      ScopedFlatten(head, StringChunks(code), raw.value);
      var b := Flatten(ScopedJavascriptChunksAsWritten(code, scope).value);
      assert b == head + (str + scope[..len + 5]);
      LengthPrefixRead(total, str + scope[..len + 5]);
    }
  }

  /**
   * Finding: the empty code string with the empty scope. As written, the
   * copy needs 10 bytes of the 5-byte scope; with 5 more bytes readable
   * after it, the code writes 19 bytes under a total of 15, while the
   * corrected payload is 14 bytes under a total of 14.
   */
  lemma ScopedJavascriptCounterexample()
    ensures GoodString(StringData([0x00])) && DocumentReadable(EmptyDocument)
    ensures ScopedJavascriptChunksAsWritten(StringData([0x00]), EmptyDocument).None?
    ensures var r := ScopedJavascriptChunksAsWritten(StringData([0x00]), EmptyDocument + [0, 0, 0, 0, 0]);
      r.Some? && |Flatten(r.value)| == 19 && ReadInt32(Flatten(r.value), 0) == 15
    ensures var b := Flatten(ScopedJavascriptChunks(StringData([0x00]), EmptyDocument));
      |b| == 14 && ReadInt32(b, 0) == 14
  {
    var code := StringData([0x00]);
    var padded := EmptyDocument + [0, 0, 0, 0, 0];
    EmptyDocumentLength();
    assert padded[0..4] == EmptyDocument[0..4];
    assert ReadInt32(padded, 0) == 5;
    ScopedJavascriptAsWrittenOverreads(code, EmptyDocument);
    ScopedJavascriptAsWrittenOverreads(code, padded);
    ScopedJavascriptSelfDescribing(code, EmptyDocument);
  }

  // ---------------------------------------------------------------------
  // A whole frame: open, elements, finish
  // ---------------------------------------------------------------------

  /**
   * The writer after a frame is opened at the position of `s` (the
   * sentinel chain), its element chunks are written, and it is finished.
   */
  function BuildDocument(s: SinkState, body: seq<seq<byte>>): (r: SinkState)
    requires Valid(s)
    ensures Valid(r)
  {
    var framed := Emit(s, [Sentinel]);
    EmitFrame(s, [Sentinel]);
    EmitOk(s, [Sentinel]);
    FlattenSmall(Sentinel, [], []);
    var filled := Emit(framed, body);
    EmitFrame(framed, body);
    FinishState(filled, s.pos)
  }

  /**
   * Opening, filling and finishing a frame on an ok writer yields exactly
   * the BSON document of the elements at the frame start, with the
   * position just past it, when the document fits; otherwise the writer
   * ends not ok.
   */
  lemma FinishedDocument(s: SinkState, body: seq<seq<byte>>)
    requires Valid(s) && s.ok
    ensures var r := BuildDocument(s, body);
      var d := DocumentBytes(Flatten(body));
      && (r.ok <==> s.pos + |d| <= |s.bytes|)
      && (r.ok ==> r.pos == s.pos + |d| && r.bytes == Overwrite(s.bytes, s.pos, d))
  {
    var filled := Emit(Emit(s, [Sentinel]), body);
    OpenAndFill(s, body);
    FinishFails(filled, s.pos);
    assert BuildDocument(s, body) == FinishState(filled, s.pos);
    if filled.ok {
      FinishFilled(s.bytes, s.pos, Flatten(body));
    }
  }

  /**
   * `BuildDocument` with the code's own `finish` on `host`: `None` when its
   * unguarded length patch would fall outside the buffer.
   */
  function BuildDocumentAsWritten(host: ByteOrder, s: SinkState, body: seq<seq<byte>>): Option<SinkState>
    requires Valid(s)
  {
    var framed := Emit(s, [Sentinel]);
    EmitFrame(s, [Sentinel]);
    var filled := Emit(framed, body);
    EmitFrame(framed, body);
    FinishAsWritten(host, filled, s.pos)
  }

  /**
   * Whenever the document fits, the code's own frame ends as the guarded
   * one on a little-endian host, and on a big-endian host differs from it
   * only in the order of the length field's bytes.
   */
  lemma BuildDocumentAsWrittenHosts(s: SinkState, body: seq<seq<byte>>)
    requires Valid(s) && BuildDocument(s, body).ok
    ensures BuildDocumentAsWritten(LittleEndian, s, body) == Some(BuildDocument(s, body))
    ensures s.pos + 4 <= |BuildDocument(s, body).bytes|
    ensures var r := BuildDocument(s, body);
      BuildDocumentAsWritten(BigEndian, s, body)
      == Some(r.(bytes := Overwrite(r.bytes, s.pos, Reverse(Int32Bytes(r.pos - s.pos)))))
  {
    var framed := Emit(s, [Sentinel]);
    EmitFrame(s, [Sentinel]);
    EmitOk(s, [Sentinel]);
    FlattenSmall(Sentinel, [], []);
    var filled := Emit(framed, body);
    EmitFrame(framed, body);
    assert BuildDocument(s, body) == FinishState(filled, s.pos);
    FinishAsWrittenAgrees(filled, s.pos);
    FinishAsWrittenReversed(filled, s.pos);
  }

  /**
   * What the code's own frame writes on an ok writer when the document
   * fits: the document itself on a little-endian host, and on a
   * big-endian host the document with its length field's bytes reversed.
   */
  lemma FinishedDocumentAsWritten(s: SinkState, body: seq<seq<byte>>)
    requires Valid(s) && s.ok && s.pos + |DocumentBytes(Flatten(body))| <= |s.bytes|
    ensures var d := DocumentBytes(Flatten(body));
      BuildDocumentAsWritten(LittleEndian, s, body)
      == Some(SinkState(Overwrite(s.bytes, s.pos, d), s.pos + |d|, true))
    ensures var d := DocumentBytes(Flatten(body));
      BuildDocumentAsWritten(BigEndian, s, body)
      == Some(SinkState(Overwrite(s.bytes, s.pos, Reverse(d[..4]) + d[4..]), s.pos + |d|, true))
  {
    var d := DocumentBytes(Flatten(body));
    FinishedDocument(s, body);
    BuildDocumentAsWrittenHosts(s, body);
    assert d[..4] == Int32Bytes(|d|);
    assert d == d[..4] + d[4..];
    OverwritePatch(s.bytes, s.pos, d[..4], d[4..], Reverse(d[..4]));
  }

  /** Finishing a frame that holds the sentinel and the body `e`. */
  lemma FinishFilled(bytes: seq<byte>, p: nat, e: seq<byte>)
    requires p + 4 + |e| <= |bytes|
    ensures var f := SinkState(Overwrite(bytes, p, Sentinel + e), p + 4 + |e|, true);
      var r := FinishState(f, p);
      r.ok ==> r.pos == p + |DocumentBytes(e)| && r.bytes == Overwrite(bytes, p, DocumentBytes(e))
  {
    var f := SinkState(Overwrite(bytes, p, Sentinel + e), p + 4 + |e|, true);
    var r := FinishState(f, p);
    if r.ok {
      EmitOk(f, [[0]]);
      FlattenSmall([0], [], []);
      var t := Emit(f, [[0]]);
      assert t.bytes == Overwrite(f.bytes, p + 4 + |e|, [0]);
      OverwriteTwice(bytes, p, Sentinel + e, [0]);
      assert Sentinel + e + [0] == Sentinel + (e + [0]);
      OverwritePatch(bytes, p, Sentinel, e + [0], Int32Bytes(4 + |e| + 1));
      assert Int32Bytes(4 + |e| + 1) + (e + [0]) == DocumentBytes(e);
    }
  }

  /** The sentinel chain then the element chains, on an ok writer. */
  lemma OpenAndFill(s: SinkState, body: seq<seq<byte>>)
    requires Valid(s) && s.ok
    ensures var f := Emit(Emit(s, [Sentinel]), body);
      && s.pos <= f.pos
      && (f.ok <==> s.pos + 4 + |Flatten(body)| <= |s.bytes|)
      && (f.ok ==> f == SinkState(Overwrite(s.bytes, s.pos, Sentinel + Flatten(body)),
                                  s.pos + 4 + |Flatten(body)|, true))
  {
    EmitAppend(s, [Sentinel], body);
    FlattenAppend([Sentinel], body);
    FlattenSmall(Sentinel, [], []);
    EmitOk(s, [Sentinel] + body);
    EmitFrame(s, [Sentinel] + body);
  }

  /** Overwriting the head of a written run replaces just that head. */
  lemma OverwritePatch(bytes: seq<byte>, at: nat, x: seq<byte>, y: seq<byte>, w: seq<byte>)
    requires |w| == |x| && at + |x| + |y| <= |bytes|
    ensures Overwrite(Overwrite(bytes, at, x + y), at, w) == Overwrite(bytes, at, w + y)
  {
    var l := Overwrite(Overwrite(bytes, at, x + y), at, w);
    var r := Overwrite(bytes, at, w + y);
    forall i | 0 <= i < |bytes|
      ensures l[i] == r[i]
    {
    }
  }

  /**
   * A nested frame is an embedded document: opening a subdocument or
   * subarray frame after its tag and name, writing `body` into it and
   * finishing it leaves the writer exactly as encoding the finished
   * document by pointer would (`encode_subdocument`/`encode_subarray`).
   */
  lemma NestedFrameIsEmbedded(f: SinkState, t: BsonType, name: StringData, body: seq<seq<byte>>)
    requires Valid(f) && f.ok && (t == Document || t == Array)
    requires var d := DocumentBytes(Flatten(body));
      f.pos + 1 + |name.bytes| + |d| <= |f.bytes| && |d| < 0x8000_0000
    ensures var d := DocumentBytes(Flatten(body));
      var v := if t == Document then SubdocumentAt(d) else SubarrayAt(d);
      && WellFormed(v)
      && Flatten(ElementChunks(name, v)) == [TypeByte(t)] + name.bytes + d
      && BuildDocument(Emit(f, TypeAndNameChunks(t, name)), body) == Emit(f, ElementChunks(name, v))
  {
    var d := DocumentBytes(Flatten(body));
    var v := if t == Document then SubdocumentAt(d) else SubarrayAt(d);
    var tan := TypeAndNameChunks(t, name);
    FlattenSmall([TypeByte(t)], name.bytes, []);
    EmitOk(f, tan);
    var m := Emit(f, tan);
    FinishedDocument(m, body);
    FlattenSmall(d, [], []);
    EmitOk(m, [d]);
    EmitAppend(f, tan, [d]);
    DocumentSelfDescribing(Flatten(body));
    assert d[..ReadInt32(d, 0)] == d;
    assert ElementChunks(name, v) == tan + [d];
    FlattenSmall([TypeByte(t)], name.bytes, d);
  }

  /** The name `"hello"` and the string `"world"`, each with its NUL. */
  const Hello: StringData := StringData([0x68, 0x65, 0x6C, 0x6C, 0x6F, 0x00])
  const World: StringData := StringData([0x77, 0x6F, 0x72, 0x6C, 0x64, 0x00])
  /** The hello-world document: `16 00 00 00 02 'hello' 00 06 00 00 00 'world' 00 00`. */
  const HelloWorld: seq<byte> := [0x16, 0x00, 0x00, 0x00, 0x02] + Hello.bytes + [0x06, 0x00, 0x00, 0x00] + World.bytes + [0x00]

  /** A string element, byte by byte: tag 0x02, the name, the size field, the text. */
  lemma StringElementBytes(name: StringData, text: StringData)
    requires WellFormed(Utf8StringValue(text))
    ensures Flatten(ElementChunks(name, Utf8StringValue(text)))
      == [0x02 as byte] + name.bytes + Int32Bytes(|text.bytes|) + text.bytes
  {
    ElementLayout(name, Utf8StringValue(text));
    FlattenSmall(Int32Bytes(|text.bytes|), text.bytes, []);
  }

  /** A document of one string element, given the images of its two int32 fields. */
  lemma StringDocumentBytes(name: StringData, text: StringData, size: seq<byte>, total: seq<byte>)
    requires WellFormed(Utf8StringValue(text))
    requires size == Int32Bytes(|text.bytes|)
    requires total == Int32Bytes(4 + 1 + |name.bytes| + 4 + |text.bytes| + 1)
    ensures DocumentBytes(Flatten(ElementChunks(name, Utf8StringValue(text))))
      == total + [0x02] + name.bytes + size + text.bytes + [0x00]
  {
    StringElementBytes(name, text);
  }

  /** `{"hello": "world"}` lays out as the 22 hello-world bytes. */
  lemma HelloWorldLayout()
    ensures WellFormed(Utf8StringValue(World))
    ensures DocumentBytes(Flatten(ElementChunks(Hello, Utf8StringValue(World)))) == HelloWorld
  {
    assert GoodString(World);
    HelloWorldFields();
    StringDocumentBytes(Hello, World, [0x06, 0x00, 0x00, 0x00], [0x16, 0x00, 0x00, 0x00]);
    assert [0x16, 0x00, 0x00, 0x00] + [0x02] == [0x16 as byte, 0x00, 0x00, 0x00, 0x02];
  }

  lemma HelloWorldFields()
    ensures Int32Bytes(6) == [0x06, 0x00, 0x00, 0x00] && Int32Bytes(22) == [0x16, 0x00, 0x00, 0x00]
  {
    SmallInt32Bytes(6);
    SmallInt32Bytes(22);
  }
}
