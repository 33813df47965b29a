/**
 * `concrete_encoder<array_writer>`: the `abstract_encoder` interface over
 * one writer, kept as a stack of encoders. The top of the stack is the
 * frame being written; starting a subdocument or subarray pushes its
 * frame and `finish` completes and pops the top frame.
 */
module ConcreteEncoders {
  import opened Endian
  import opened Bson
  import opened DataViews
  import opened Sink
  import opened Layout
  import opened LinearCursors
  import opened ArrayWriters
  import opened Encoders

  class ConcreteEncoder {
    const writer: ArrayWriter
    const host: ByteOrder
    /** `encoders_`, bottom first: the last element is `current()`. */
    var encoders: seq<Encoder>

    /** The encoders on the stack and their cursors. */
    ghost function Frames(): set<object>
      reads this
    {
      (set i | 0 <= i < |encoders| :: encoders[i]) + (set i | 0 <= i < |encoders| :: encoders[i].cursor)
    }

    /** The slot addresses of the frames, bottom first. */
    ghost function Slots(): (r: seq<nat>)
      reads this, Frames()
      ensures |r| == |encoders|
      ensures forall i :: 0 <= i < |encoders| ==> r[i] == encoders[i].cursor.address
    {
      seq(|encoders|, i reads this, Frames() requires 0 <= i < |encoders| => encoders[i].cursor.address)
    }

    /**
     * Every frame writes through this writer on this host, and the stack
     * of their slots is intact.
     */
    ghost predicate Valid()
      reads this, writer, writer.buffer, Frames()
    {
      && writer.Valid()
      && (forall i :: 0 <= i < |encoders| ==> encoders[i].cursor.writer == writer && encoders[i].host == host)
      && StackIntact(writer.State(), Slots())
    }

    /** The constructor pushes the document frame `start_document` opens. */
    constructor (writer: ArrayWriter, host: ByteOrder)
      requires writer.Valid()
      modifies writer, writer.buffer
      ensures this.writer == writer && this.host == host
      ensures |encoders| == 1 && Slots() == [old(writer.position)]
      ensures writer.State() == Emit(old(writer.State()), [Sentinel])
      ensures Valid()
    {
      var e := Encoder.StartDocument(writer, host);
      this.writer := writer;
      this.host := host;
      encoders := [e];
    }

    /** `ok()`: the writer's flag, read through the top frame. */
    method Ok() returns (r: bool)
      requires Valid() && |encoders| > 0
      ensures r == writer.ok
    {
      r := encoders[|encoders| - 1].Ok();
    }

    /** The `encode_*` methods: forward to the top frame; the stack is unchanged. */
    method Encode(name: StringData, v: Value)
      requires Valid() && |encoders| > 0 && WellFormed(v)
      modifies writer, writer.buffer
      ensures Valid() && encoders == old(encoders) && Slots() == old(Slots())
      ensures writer.State() == Emit(old(writer.State()), ElementChunks(name, v))
    {
      var top := encoders[|encoders| - 1];
      EmitKeepsStack(writer.State(), ElementChunks(name, v), Slots());
      top.Encode(name, v);
    }

    /**
     * `start_subdocument` / `start_subarray`: the top frame writes the tag
     * and name, and the frame it opens is pushed.
     */
    method StartChild(t: BsonType, name: StringData)
      requires Valid() && |encoders| > 0 && (t == Document || t == Array)
      modifies this, writer, writer.buffer
      ensures Valid() && |encoders| == |old(encoders)| + 1 && encoders[..|old(encoders)|] == old(encoders)
      ensures Slots() == old(Slots()) + [Emit(old(writer.State()), TypeAndNameChunks(t, name)).pos]
      ensures writer.State() == Emit(Emit(old(writer.State()), TypeAndNameChunks(t, name)), [Sentinel])
    {
      var top := encoders[|encoders| - 1];
      ghost var slots := Slots();
      ghost var mid := Emit(writer.State(), TypeAndNameChunks(t, name));
      EmitKeepsStack(writer.State(), TypeAndNameChunks(t, name), slots);
      OpenKeepsStack(mid, slots);
      var child := top.StartChild(t, name);
      encoders := encoders + [child];
      assert Slots() == slots + [mid.pos];
    }

    method StartSubdocument(name: StringData)
      requires Valid() && |encoders| > 0
      modifies this, writer, writer.buffer
      ensures Valid() && |encoders| == |old(encoders)| + 1 && encoders[..|old(encoders)|] == old(encoders)
      ensures Slots() == old(Slots()) + [Emit(old(writer.State()), TypeAndNameChunks(Document, name)).pos]
      ensures writer.State() == Emit(Emit(old(writer.State()), TypeAndNameChunks(Document, name)), [Sentinel])
    {
      StartChild(Document, name);
    }

    method StartSubarray(name: StringData)
      requires Valid() && |encoders| > 0
      modifies this, writer, writer.buffer
      ensures Valid() && |encoders| == |old(encoders)| + 1 && encoders[..|old(encoders)|] == old(encoders)
      ensures Slots() == old(Slots()) + [Emit(old(writer.State()), TypeAndNameChunks(Array, name)).pos]
      ensures writer.State() == Emit(Emit(old(writer.State()), TypeAndNameChunks(Array, name)), [Sentinel])
    {
      StartChild(Array, name);
    }

    /** `finish`: the top frame finishes, then it is popped. */
    method Finish()
      requires Valid() && |encoders| > 0
      modifies this, writer, writer.buffer
      ensures Valid() && encoders == old(encoders[..|encoders| - 1])
      ensures Slots() == old(Slots()[..|encoders| - 1])
      ensures writer.State() == FinishState(old(writer.State()), old(Slots()[|encoders| - 1]))
    {
      var n := |encoders| - 1;
      var top := encoders[n];
      ghost var slots := Slots();
      FinishKeepsStack(writer.State(), slots);
      top.Finish();
      encoders := encoders[..n];
      assert Slots() == slots[..n];
    }
  }
}
