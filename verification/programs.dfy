/**
 * The programs of the example binary, each over a fresh 128-byte buffer:
 * `{"hello": "world"}`, `{"message": {"hello": "world"}}` and
 * `{"array": ["hello", "world"]}`, written through the frame encoders, the
 * concrete encoder and the array encoder. Each returns the writer's `ok`
 * and the bytes up to the writer's position, the bytes the program dumps.
 *
 * Each program is first written for any names and values that fit the
 * buffer, and its result stated as a document; the example's own names
 * and values are then plugged in and the bytes spelled out.
 */
module Programs {
  import opened Bytes
  import opened Endian
  import opened Bson
  import opened DataViews
  import opened Sink
  import opened Layout
  import opened ArrayWriters
  import opened Encoders
  import opened ConcreteEncoders
  import opened ArrayEncoders

  const BufferSize: nat := 128

  /** The names `"message"`, `"array"`, `"0"` and `"1"`, each with its NUL. */
  const Message: StringData := StringData([0x6D, 0x65, 0x73, 0x73, 0x61, 0x67, 0x65, 0x00])
  const ArrayName: StringData := StringData([0x61, 0x72, 0x72, 0x61, 0x79, 0x00])
  const Zero: StringData := StringData([0x30, 0x00])
  const One: StringData := StringData([0x31, 0x00])

  /** `{"message": {"hello": "world"}}`: tag 0x03, the name, the hello-world document. */
  const NestedHelloWorld: seq<byte> := DocumentBytes([0x03] + Message.bytes + HelloWorld)

  /** The two elements of the array: `"0": "hello"` and `"1": "world"`. */
  const HelloWorldItems: seq<byte> :=
    [0x02] + Zero.bytes + [0x06, 0x00, 0x00, 0x00] + Hello.bytes
    + [0x02] + One.bytes + [0x06, 0x00, 0x00, 0x00] + World.bytes

  /** `{"array": ["hello", "world"]}`: tag 0x04, the name, the array as a document. */
  const ArrayHelloWorld: seq<byte> := DocumentBytes([0x04] + ArrayName.bytes + DocumentBytes(HelloWorldItems))

  /** The element chunks of `"hello": "world"`. */
  function HelloWorldBody(): (r: seq<seq<byte>>)
    ensures WellFormed(Utf8StringValue(World))
    ensures DocumentBytes(Flatten(r)) == HelloWorld
  {
    HelloWorldLayout();
    ElementChunks(Hello, Utf8StringValue(World))
  }

  /** The element chunks of the two array items. */
  function ArrayBody(k0: StringData, k1: StringData): (r: seq<seq<byte>>)
    ensures WellFormed(Utf8StringValue(Hello)) && WellFormed(Utf8StringValue(World))
    ensures k0 == Zero && k1 == One ==> Flatten(r) == HelloWorldItems
  {
    HelloWorldLayout();
    assert WellFormed(Utf8StringValue(Hello));
    var a := ElementChunks(k0, Utf8StringValue(Hello));
    var b := ElementChunks(k1, Utf8StringValue(World));
    FlattenAppend(a, b);
    StringElementBytes(k0, Hello);
    StringElementBytes(k1, World);
    HelloWorldFields();
    a + b
  }

  /** The value a finished nested frame amounts to: the document by pointer. */
  function Embedded(t: BsonType, d: seq<byte>): Value
  {
    if t == Document then SubdocumentAt(d) else SubarrayAt(d)
  }

  /** The document with one element embedding the document of `body`. */
  function NestedBytes(t: BsonType, name: StringData, body: seq<seq<byte>>): seq<byte>
  {
    DocumentBytes([TypeByte(t)] + name.bytes + DocumentBytes(Flatten(body)))
  }

  /**
   * A document of elements on a fresh ok writer: opening it, writing the
   * element chunks and finishing it leaves the document bytes at the start
   * of the buffer.
   */
  lemma FlatDocument(s0: SinkState, body: seq<seq<byte>>)
    requires Valid(s0) && s0.ok && s0.pos == 0 && |DocumentBytes(Flatten(body))| <= |s0.bytes|
    ensures var r := BuildDocument(s0, body);
      var d := DocumentBytes(Flatten(body));
      r.ok && r.pos == |d| && r.bytes[..|d|] == d
  {
    var d := DocumentBytes(Flatten(body));
    FinishedDocument(s0, body);
    var r := BuildDocument(s0, body);
    assert r.bytes[..|d|] == d;
  }

  /** The outer frame and the tag and name of the nested one, on a fresh ok writer. */
  lemma OpenedFrames(s0: SinkState, t: BsonType, name: StringData)
    requires Valid(s0) && s0.ok && s0.pos == 0 && 4 + 1 + |name.bytes| <= |s0.bytes|
    ensures var f := Emit(s0, [Sentinel]);
      var m := Emit(f, TypeAndNameChunks(t, name));
      f.ok && f.pos == 4 && m.ok && m.pos == 4 + 1 + |name.bytes|
  {
    var f := Emit(s0, [Sentinel]);
    EmitOk(s0, [Sentinel]);
    FlattenSmall(Sentinel, [], []);
    FlattenSmall([TypeByte(t)], name.bytes, []);
    EmitOk(f, TypeAndNameChunks(t, name));
  }

  /**
   * A document holding one subdocument or subarray frame, on a fresh ok
   * writer: the inner frame, once finished, is the element embedding the
   * inner document, and the result is the outer document.
   */
  lemma NestedDocument(s0: SinkState, t: BsonType, name: StringData, body: seq<seq<byte>>)
    requires Valid(s0) && s0.ok && s0.pos == 0 && (t == Document || t == Array) && |s0.bytes| < 0x8000_0000
    requires |NestedBytes(t, name, body)| <= |s0.bytes|
    ensures var f := Emit(s0, [Sentinel]);
      var m := Emit(f, TypeAndNameChunks(t, name));
      var v := Embedded(t, DocumentBytes(Flatten(body)));
      && WellFormed(v)
      && BuildDocument(m, body) == Emit(f, ElementChunks(name, v))
      && var outer := NestedBytes(t, name, body);
         var r := BuildDocument(s0, ElementChunks(name, v));
         r.ok && r.pos == |outer| && r.bytes[..|outer|] == outer
  {
    var d := DocumentBytes(Flatten(body));
    OpenedFrames(s0, t, name);
    NestedFrameIsEmbedded(Emit(s0, [Sentinel]), t, name, body);
    FlatDocument(s0, ElementChunks(name, Embedded(t, d)));
  }

  // ---------------------------------------------------------------------
  // The programs, for any names and values that fit
  // ---------------------------------------------------------------------

  /** One element in a document of its own, through one frame encoder. */
  method FlatProgram(host: ByteOrder, key: StringData, v: Value) returns (ok: bool, written: seq<byte>)
    requires WellFormed(v) && |DocumentBytes(Flatten(ElementChunks(key, v)))| <= BufferSize
    ensures ok && written == DocumentBytes(Flatten(ElementChunks(key, v)))
  {
    var buffer := new byte[BufferSize];
    var writer := new ArrayWriter(buffer);
    ghost var s0 := writer.State();
    var document := Encoder.StartDocument(writer, host);
    document.Encode(key, v);
    document.Finish();
    FlatDocument(s0, ElementChunks(key, v));
    assert writer.State() == BuildDocument(s0, ElementChunks(key, v));
    var n := writer.ValidBytes();
    written := buffer[..n];
    ok := document.Ok();
  }

  /** One element inside a subdocument, through two frame encoders. */
  method NestedProgram(host: ByteOrder, name: StringData, key: StringData, v: Value) returns (ok: bool, written: seq<byte>)
    requires WellFormed(v) && |NestedBytes(Document, name, ElementChunks(key, v))| <= BufferSize
    ensures ok && written == NestedBytes(Document, name, ElementChunks(key, v))
  {
    var buffer := new byte[BufferSize];
    var writer := new ArrayWriter(buffer);
    ghost var s0 := writer.State();
    OpenedFrames(s0, Document, name);
    ghost var m := Emit(Emit(s0, [Sentinel]), TypeAndNameChunks(Document, name));
    var document := Encoder.StartDocument(writer, host);
    var message := document.StartSubdocument(name);
    ghost var a := writer.State();
    message.Encode(key, v);
    EmitKeepsSlot(a, ElementChunks(key, v), 0);
    ghost var s := writer.State();
    message.Finish();
    assert writer.State() == BuildDocument(m, ElementChunks(key, v));
    FinishKeepsSlot(s, m.pos, 0);
    document.Finish();
    NestedDocument(s0, Document, name, ElementChunks(key, v));
    ghost var d := DocumentBytes(Flatten(ElementChunks(key, v)));
    assert writer.State() == BuildDocument(s0, ElementChunks(name, SubdocumentAt(d)));
    var n := writer.ValidBytes();
    written := buffer[..n];
    ok := document.Ok();
  }

  /** The same document through the concrete encoder's stack of frames. */
  method NestedStackProgram(host: ByteOrder, name: StringData, key: StringData, v: Value) returns (ok: bool, written: seq<byte>)
    requires WellFormed(v) && |NestedBytes(Document, name, ElementChunks(key, v))| <= BufferSize
    ensures ok && written == NestedBytes(Document, name, ElementChunks(key, v))
  {
    var buffer := new byte[BufferSize];
    var writer := new ArrayWriter(buffer);
    ghost var s0 := writer.State();
    OpenedFrames(s0, Document, name);
    ghost var m := Emit(Emit(s0, [Sentinel]), TypeAndNameChunks(Document, name));
    var document := new ConcreteEncoder(writer, host);
    document.StartSubdocument(name);
    document.Encode(key, v);
    document.Finish();
    assert writer.State() == BuildDocument(m, ElementChunks(key, v));
    document.Finish();
    NestedDocument(s0, Document, name, ElementChunks(key, v));
    ghost var d := DocumentBytes(Flatten(ElementChunks(key, v)));
    assert writer.State() == BuildDocument(s0, ElementChunks(name, SubdocumentAt(d)));
    var n := writer.ValidBytes();
    written := buffer[..n];
    ok := writer.Ok();
  }

  /** Two items inside a subarray, through two frame encoders, with the names given. */
  method ArrayProgram(host: ByteOrder, name: StringData, k0: StringData, v0: Value, k1: StringData, v1: Value)
    returns (ok: bool, written: seq<byte>)
    requires WellFormed(v0) && WellFormed(v1)
    requires |NestedBytes(Array, name, ElementChunks(k0, v0) + ElementChunks(k1, v1))| <= BufferSize
    ensures ok && written == NestedBytes(Array, name, ElementChunks(k0, v0) + ElementChunks(k1, v1))
  {
    var buffer := new byte[BufferSize];
    var writer := new ArrayWriter(buffer);
    ghost var s0 := writer.State();
    ghost var body := ElementChunks(k0, v0) + ElementChunks(k1, v1);
    OpenedFrames(s0, Array, name);
    ghost var m := Emit(Emit(s0, [Sentinel]), TypeAndNameChunks(Array, name));
    var document := Encoder.StartDocument(writer, host);
    var items := document.StartSubarray(name);
    ghost var a := writer.State();
    items.Encode(k0, v0);
    items.Encode(k1, v1);
    EmitAppend(a, ElementChunks(k0, v0), ElementChunks(k1, v1));
    EmitKeepsSlot(a, body, 0);
    ghost var s := writer.State();
    items.Finish();
    assert writer.State() == BuildDocument(m, body);
    FinishKeepsSlot(s, m.pos, 0);
    document.Finish();
    NestedDocument(s0, Array, name, body);
    ghost var d := DocumentBytes(Flatten(body));
    assert writer.State() == BuildDocument(s0, ElementChunks(name, SubarrayAt(d)));
    var n := writer.ValidBytes();
    written := buffer[..n];
    ok := document.Ok();
  }

  /** A frame opened at `m`, two element chains, and the frame finished: the frame's document. */
  lemma TwoElementFrame(m: SinkState, x: seq<seq<byte>>, y: seq<seq<byte>>, a1: SinkState, a2: SinkState, r: SinkState)
    requires Valid(m) && a1 == Emit(Emit(m, [Sentinel]), x) && a2 == Emit(a1, y)
    requires m.pos <= a2.pos && (a2.ok ==> m.pos + 4 <= a2.pos)
    requires r == FinishState(a2, m.pos)
    ensures r == BuildDocument(m, x + y)
  {
    EmitFrame(m, [Sentinel]);
    EmitAppend(Emit(m, [Sentinel]), x, y);
  }

  /** `make_array_encoder(document.start_subarray(name))`: a subarray frame pushed, and an array encoder over it. */
  method OpenItems(document: ConcreteEncoder, name: StringData) returns (items: ArrayEncoder)
    requires document.Valid() && |document.encoders| > 0
    modifies document, document.writer, document.writer.buffer
    ensures fresh(items) && fresh(items.work)
    ensures items.Valid() && items.target == document && items.index == 0
    ensures |document.encoders| == |old(document.encoders)| + 1
    ensures document.encoders[..|old(document.encoders)|] == old(document.encoders)
    ensures document.Slots()[|old(document.encoders)|] == Emit(old(document.writer.State()), TypeAndNameChunks(Array, name)).pos
    ensures document.writer.State() == Emit(Emit(old(document.writer.State()), TypeAndNameChunks(Array, name)), [Sentinel])
  {
    document.StartSubarray(name);
    items := new ArrayEncoder(document);
  }

  /** The two items, named by the array encoder's indices `k0` and `k1`, written into the subarray frame. */
  method ArrayItems(document: ConcreteEncoder, name: StringData, k0: StringData, v0: Value, k1: StringData, v1: Value)
    returns (items: ArrayEncoder)
    requires k0 == IndexName(0) && k1 == IndexName(1)
    requires document.Valid() && |document.encoders| > 0 && WellFormed(v0) && WellFormed(v1)
    modifies document, document.writer, document.writer.buffer
    ensures items.Valid() && items.target == document
    ensures |document.encoders| == |old(document.encoders)| + 1
    ensures document.encoders[..|old(document.encoders)|] == old(document.encoders)
    ensures document.Slots()[|old(document.encoders)|] == Emit(old(document.writer.State()), TypeAndNameChunks(Array, name)).pos
    ensures document.writer.State()
      == Emit(Emit(Emit(Emit(old(document.writer.State()), TypeAndNameChunks(Array, name)), [Sentinel]), ElementChunks(k0, v0)), ElementChunks(k1, v1))
  {
    ghost var m := Emit(document.writer.State(), TypeAndNameChunks(Array, name));
    items := OpenItems(document, name);
    ghost var s1 := document.writer.State();
    assert s1 == Emit(m, [Sentinel]);
    items.Encode(v0);
    ghost var a1 := document.writer.State();
    assert a1 == Emit(s1, ElementChunks(IndexName(0), v0));
    assert items.index == 1;
    items.Encode(v1);
    ghost var a2 := document.writer.State();
    assert a2 == Emit(a1, ElementChunks(IndexName(1), v1));
  }

  /**
   * The chained statement `make_array_encoder(document.start_subarray(name))
   * .encode(v0).encode(v1).finish()`: a subarray frame on top of the
   * concrete encoder's stack, two items named by the array encoder's
   * indices `k0` and `k1`, and the frame finished and popped.
   */
  method ArrayChain(document: ConcreteEncoder, name: StringData, k0: StringData, v0: Value, k1: StringData, v1: Value)
    requires k0 == IndexName(0) && k1 == IndexName(1)
    requires document.Valid() && |document.encoders| > 0 && WellFormed(v0) && WellFormed(v1)
    modifies document, document.writer, document.writer.buffer
    ensures document.Valid() && document.encoders == old(document.encoders)
    ensures document.writer.State()
      == BuildDocument(Emit(old(document.writer.State()), TypeAndNameChunks(Array, name)), ElementChunks(k0, v0) + ElementChunks(k1, v1))
  {
    ghost var stack := document.encoders;
    ghost var m := Emit(document.writer.State(), TypeAndNameChunks(Array, name));
    ghost var x, y := ElementChunks(k0, v0), ElementChunks(k1, v1);
    var items := ArrayItems(document, name, k0, v0, k1, v1);
    ghost var a2 := document.writer.State();
    ghost var a1 := Emit(Emit(m, [Sentinel]), x);
    assert document.Slots()[|stack|] == m.pos;
    var _ := items.Finish();
    assert document.encoders == stack;
    TwoElementFrame(m, x, y, a1, a2, document.writer.State());
  }

  /**
   * Two items inside a subarray, through the array encoder over the
   * concrete encoder: the names `k0` and `k1` are the indices it prints.
   */
  method ArrayStackProgram(host: ByteOrder, name: StringData, k0: StringData, v0: Value, k1: StringData, v1: Value)
    returns (ok: bool, written: seq<byte>)
    requires k0 == IndexName(0) && k1 == IndexName(1)
    requires WellFormed(v0) && WellFormed(v1)
    requires |NestedBytes(Array, name, ElementChunks(k0, v0) + ElementChunks(k1, v1))| <= BufferSize
    ensures ok && written == NestedBytes(Array, name, ElementChunks(k0, v0) + ElementChunks(k1, v1))
  {
    var buffer := new byte[BufferSize];
    var writer := new ArrayWriter(buffer);
    ghost var s0 := writer.State();
    ghost var body := ElementChunks(k0, v0) + ElementChunks(k1, v1);
    var document := new ConcreteEncoder(writer, host);
    ArrayChain(document, name, k0, v0, k1, v1);
    document.Finish();
    NestedDocument(s0, Array, name, body);
    ghost var d := DocumentBytes(Flatten(body));
    assert writer.State() == BuildDocument(s0, ElementChunks(name, SubarrayAt(d)));
    var n := writer.ValidBytes();
    written := buffer[..n];
    ok := writer.Ok();
  }

  // ---------------------------------------------------------------------
  // The example programs
  // ---------------------------------------------------------------------

  /**
   * `do_example` with the code's own `finish`, on a fresh ok writer over
   * the 128-byte buffer: on a little-endian host the 22 bytes of
   * `{"hello": "world"}`, on a big-endian host the same bytes with the
   * length field `00 00 00 16`.
   */
  lemma HelloWorldAsWritten(s0: SinkState)
    requires Valid(s0) && s0.ok && s0.pos == 0 && |s0.bytes| == BufferSize
    ensures var r := BuildDocumentAsWritten(LittleEndian, s0, HelloWorldBody());
      r.Some? && r.value.ok && r.value.pos == 22 && r.value.bytes[..22] == HelloWorld
    ensures var r := BuildDocumentAsWritten(BigEndian, s0, HelloWorldBody());
      r.Some? && r.value.ok && r.value.pos == 22
      && r.value.bytes[..22] == [0x00, 0x00, 0x00, 0x16] + HelloWorld[4..]
  {
    var body := HelloWorldBody();
    assert |HelloWorld| == 22;
    FinishedDocumentAsWritten(s0, body);
    assert HelloWorld[..4] == [0x16, 0x00, 0x00, 0x00];
    assert Reverse(HelloWorld[..4]) == [0x00, 0x00, 0x00, 0x16];
  }

  /** `do_example`: `{"hello": "world"}`. */
  method HelloWorldExample(host: ByteOrder) returns (ok: bool, written: seq<byte>)
    ensures ok && written == HelloWorld
  {
    var body := HelloWorldBody();
    ok, written := FlatProgram(host, Hello, Utf8StringValue(World));
  }

  /** `do_nested_example`: `{"message": {"hello": "world"}}` through frame encoders. */
  method NestedExample(host: ByteOrder) returns (ok: bool, written: seq<byte>)
    ensures ok && written == NestedHelloWorld
  {
    var body := HelloWorldBody();
    ok, written := NestedProgram(host, Message, Hello, Utf8StringValue(World));
  }

  /** `do_nested_concrete`: the same document through the concrete encoder. */
  method NestedConcrete(host: ByteOrder) returns (ok: bool, written: seq<byte>)
    ensures ok && written == NestedHelloWorld
  {
    var body := HelloWorldBody();
    ok, written := NestedStackProgram(host, Message, Hello, Utf8StringValue(World));
  }

  /** `do_array_manually`: `{"array": ["hello", "world"]}` with the indices spelled out. */
  method ArrayManually(host: ByteOrder) returns (ok: bool, written: seq<byte>)
    ensures ok && written == ArrayHelloWorld
  {
    var body := ArrayBody(Zero, One);
    ok, written := ArrayProgram(host, ArrayName, Zero, Utf8StringValue(Hello), One, Utf8StringValue(World));
  }

  /**
   * `do_array_concrete`: the same document through the array encoder; the
   * indices it prints are the names spelled out by hand, so the bytes are
   * the same.
   */
  method ArrayConcrete(host: ByteOrder) returns (ok: bool, written: seq<byte>)
    ensures ok && written == ArrayHelloWorld
  {
    assert IndexName(0) == Zero && IndexName(1) == One;
    var body := ArrayBody(Zero, One);
    ok, written := ArrayStackProgram(host, ArrayName, Zero, Utf8StringValue(Hello), One, Utf8StringValue(World));
  }
}
