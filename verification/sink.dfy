/**
 * The abstract state of a fixed-capacity writer and the write steps the
 * encoder performs on it.
 *
 * `SinkState(bytes, pos, ok)` is the buffer contents, the write position
 * and the writer's `ok` flag. Every encoder step is a chain of
 * `encode_with` calls, each of which runs only while the writer is ok and
 * ends in `raw_data_encoder`: reserve the chunk, then copy it if the
 * reserve succeeded. `Emit` is that chain over a list of chunks.
 */
module Sink {
  import opened Bytes
  import opened Endian
  import opened Wrappers

  datatype SinkState = SinkState(bytes: seq<byte>, pos: nat, ok: bool)

  predicate Valid(s: SinkState)
  {
    s.pos <= |s.bytes|
  }

  /** `bytes` with `data` copied over it from index `at`. */
  function Overwrite(bytes: seq<byte>, at: nat, data: seq<byte>): (r: seq<byte>)
    requires at + |data| <= |bytes|
    ensures |r| == |bytes|
    ensures forall i :: 0 <= i < |r| ==> r[i] == if at <= i < at + |data| then data[i - at] else bytes[i]
  {
    bytes[..at] + data + bytes[at + |data|..]
  }

  function Available(s: SinkState): int
  {
    |s.bytes| - s.pos
  }

  /** `array_writer::reserve`: `ok` becomes whether `n` bytes fit; nothing else changes. */
  function Reserve(s: SinkState, n: nat): SinkState
  {
    s.(ok := Available(s) >= n)
  }

  /** `array_writer::write`: copy at the position, then advance past the copy. */
  function Write(s: SinkState, data: seq<byte>): SinkState
    requires s.pos + |data| <= |s.bytes|
  {
    SinkState(Overwrite(s.bytes, s.pos, data), s.pos + |data|, s.ok)
  }

  /** `raw_data_encoder::encode`: reserve, and write only if the reserve succeeded. */
  function RawData(s: SinkState, data: seq<byte>): (r: SinkState)
    requires Valid(s)
    ensures Valid(r)
  {
    var t := Reserve(s, |data|);
    if t.ok then Write(t, data) else t
  }

  /** One `encode_with<raw_data_encoder>` link: skipped when the writer is not ok. */
  function Guarded(s: SinkState, data: seq<byte>): (r: SinkState)
    requires Valid(s)
    ensures Valid(r)
  {
    if s.ok then RawData(s, data) else s
  }

  /** A chain of guarded raw writes, one per chunk, in order. */
  function Emit(s: SinkState, chunks: seq<seq<byte>>): (r: SinkState)
    requires Valid(s)
    ensures Valid(r)
    decreases |chunks|
  {
    if chunks == [] then s else Emit(Guarded(s, chunks[0]), chunks[1..])
  }

  function Flatten(chunks: seq<seq<byte>>): seq<byte>
    decreases |chunks|
  {
    if chunks == [] then [] else chunks[0] + Flatten(chunks[1..])
  }

  lemma {:induction false} FlattenAppend(a: seq<seq<byte>>, b: seq<seq<byte>>)
    ensures Flatten(a + b) == Flatten(a) + Flatten(b)
    decreases |a|
  {
    if a == [] {
      assert a + b == b;
    } else {
      assert (a + b)[1..] == a[1..] + b;
      FlattenAppend(a[1..], b);
    }
  }

  lemma FlattenSmall(a: seq<byte>, b: seq<byte>, c: seq<byte>)
    ensures Flatten([a]) == a
    ensures Flatten([a, b]) == a + b
    ensures Flatten([a, b, c]) == a + b + c
  {
    assert [c][1..] == [];
    assert Flatten([c]) == c;
    assert [b][1..] == [];
    assert Flatten([b]) == b;
    assert [a][1..] == [];
    assert [a, b][1..] == [b];
    assert [b, c][1..] == [c];
    assert Flatten([b, c]) == b + c;
    assert [a, b, c][1..] == [b, c];
    assert Flatten([a, b, c]) == a + (b + c);
  }

  /** Once the writer is not ok, a chain writes nothing and changes nothing. */
  lemma {:induction false} EmitSticky(s: SinkState, chunks: seq<seq<byte>>)
    requires Valid(s) && !s.ok
    ensures Emit(s, chunks) == s
    decreases |chunks|
  {
    if chunks != [] {
      EmitSticky(s, chunks[1..]);
    }
  }

  /** Running two chains one after the other is running their concatenation. */
  lemma {:induction false} EmitAppend(s: SinkState, a: seq<seq<byte>>, b: seq<seq<byte>>)
    requires Valid(s)
    ensures Emit(s, a + b) == Emit(Emit(s, a), b)
    decreases |a|
  {
    if a == [] {
      assert a + b == b;
    } else {
      assert (a + b)[1..] == a[1..] + b;
      EmitAppend(Guarded(s, a[0]), a[1..], b);
    }
  }

  lemma OverwriteTwice(bytes: seq<byte>, at: nat, x: seq<byte>, y: seq<byte>)
    requires at + |x| + |y| <= |bytes|
    ensures Overwrite(Overwrite(bytes, at, x), at + |x|, y) == Overwrite(bytes, at, x + y)
  {
  }

  lemma OverwriteNothing(bytes: seq<byte>, at: nat)
    requires at <= |bytes|
    ensures Overwrite(bytes, at, []) == bytes
  {
  }

  /**
   * A chain leaves the writer ok exactly when it started ok and all of its
   * bytes fit; then the bytes are copied in one piece at the old position
   * and the position moves past them.
   */
  lemma {:induction false} EmitOk(s: SinkState, chunks: seq<seq<byte>>)
    requires Valid(s)
    ensures Emit(s, chunks).ok <==> s.ok && s.pos + |Flatten(chunks)| <= |s.bytes|
    ensures Emit(s, chunks).ok ==>
      Emit(s, chunks) == SinkState(Overwrite(s.bytes, s.pos, Flatten(chunks)), s.pos + |Flatten(chunks)|, true)
    decreases |chunks|
  {
    if chunks == [] {
      OverwriteNothing(s.bytes, s.pos);
    } else if !s.ok {
      EmitSticky(s, chunks);
    } else {
      var g := Guarded(s, chunks[0]);
      var rest := Flatten(chunks[1..]);
      if g.ok {
        EmitOk(g, chunks[1..]);
        if Emit(g, chunks[1..]).ok {
          OverwriteTwice(s.bytes, s.pos, chunks[0], rest);
        }
      } else {
        EmitSticky(g, chunks[1..]);
      }
    }
  }

  /**
   * What a chain may change: bytes before the old position stay, the
   * length of the buffer stays, the position only grows and by no more than
   * the chain's size, a failed chain never ends ok, and the bytes now
   * between the old and new position are a prefix of the chain's bytes.
   */
  lemma {:induction false} EmitFrame(s: SinkState, chunks: seq<seq<byte>>)
    requires Valid(s)
    ensures var r := Emit(s, chunks);
      && |r.bytes| == |s.bytes|
      && r.bytes[..s.pos] == s.bytes[..s.pos]
      && r.bytes[r.pos..] == s.bytes[r.pos..]
      && s.pos <= r.pos <= s.pos + |Flatten(chunks)|
      && r.bytes[s.pos..r.pos] == Flatten(chunks)[..r.pos - s.pos]
      && (r.ok ==> s.ok)
    decreases |chunks|
  {
    if chunks == [] {
    } else if !s.ok {
      EmitSticky(s, chunks);
    } else {
      var g := Guarded(s, chunks[0]);
      var rest := Flatten(chunks[1..]);
      EmitFrame(g, chunks[1..]);
      var r := Emit(g, chunks[1..]);
      assert Flatten(chunks) == chunks[0] + rest;
      if !g.ok {
        EmitSticky(g, chunks[1..]);
      } else {
        assert g.bytes == Overwrite(s.bytes, s.pos, chunks[0]);
        ComposeFrames(s.bytes, s.pos, g.bytes, chunks[0], r.bytes, r.pos, rest);
      }
    }
  }

  /** A write of `c` at `at` followed by a frame-keeping chain over `rest`. */
  lemma ComposeFrames(sb: seq<byte>, at: nat, gb: seq<byte>, c: seq<byte>, rb: seq<byte>, rp: nat, rest: seq<byte>)
    requires at + |c| <= rp <= at + |c| + |rest| && rp <= |rb| && at + |c| <= |sb|
    requires gb == Overwrite(sb, at, c) && |rb| == |gb|
    requires rb[..at + |c|] == gb[..at + |c|] && rb[rp..] == gb[rp..]
    requires rb[at + |c|..rp] == rest[..rp - (at + |c|)]
    ensures rb[..at] == sb[..at] && rb[rp..] == sb[rp..]
    ensures rb[at..rp] == (c + rest)[..rp - at]
  {
    var gp := at + |c|;
    assert rb[..at] == gb[..gp][..at];
    assert rb[at..gp] == gb[..gp][at..] == c;
    assert rb[at..rp] == rb[at..gp] + rb[gp..rp];
    assert gb[rp..] == sb[rp..];
  }

  /** The four bytes `document_start_encoder` leaves in a frame's length slot. */
  const Sentinel: seq<byte> := [0xAB, 0xAB, 0xAB, 0xAB]

  /** `k_invalid_length`: 0xABABABAB stored in an int32. */
  const InvalidLength: int := ToSigned(4, 0xABAB_ABAB)

  /** The sentinel's wire bytes are four 0xAB bytes, in either byte order. */
  lemma SentinelBytes(host: ByteOrder)
    ensures Int32Bytes(InvalidLength) == Sentinel
    ensures InMemory(host, 4, ToUnsigned(4, HostToLittleEndian32(host, InvalidLength))) == Sentinel
  {
    InvalidLengthPattern();
    HostToLittleEndian32Bytes(host, InvalidLength);
    SentinelPattern();
  }

  lemma InvalidLengthPattern()
    ensures ToUnsigned(4, InvalidLength) == 0xABAB_ABAB
  {
    Pow256Values();
    assert InvalidLength == 0xABAB_ABAB - 0x1_0000_0000;
  }

  lemma SentinelPattern()
    ensures LittleBytes(4, 0xABAB_ABAB) == Sentinel
  {
    LittleBytesStep(0, 0xAB, 0);
    LittleBytesStep(1, 0xAB, 0xAB);
    LittleBytesStep(2, 0xAB, 0xABAB);
    LittleBytesStep(3, 0xAB, 0xAB_ABAB);
  }

  /**
   * A frame's length slot at `start` is intact: while the writer is ok the
   * slot lies before the position and still holds the sentinel.
   */
  predicate SlotIntact(s: SinkState, start: nat)
  {
    s.ok ==> start + 4 <= s.pos <= |s.bytes| && s.bytes[start..start + 4] == Sentinel
  }

  /** A chain keeps every intact slot intact. */
  lemma EmitKeepsSlot(s: SinkState, chunks: seq<seq<byte>>, start: nat)
    requires Valid(s) && SlotIntact(s, start)
    ensures SlotIntact(Emit(s, chunks), start)
  {
    EmitFrame(s, chunks);
    var r := Emit(s, chunks);
    if r.ok {
      assert r.bytes[start..start + 4] == r.bytes[..s.pos][start..start + 4];
      assert s.bytes[start..start + 4] == s.bytes[..s.pos][start..start + 4];
    }
  }

  /** The sentinel chain opens an intact slot at the position it started from. */
  lemma OpenSlot(s: SinkState)
    requires Valid(s)
    ensures s.pos <= Emit(s, [Sentinel]).pos && SlotIntact(Emit(s, [Sentinel]), s.pos)
  {
    EmitFrame(s, [Sentinel]);
    EmitOk(s, [Sentinel]);
    FlattenSmall(Sentinel, [], []);
  }

  /**
   * `encoder::finish`, with the length patch guarded by the writer's `ok`
   * and written little-endian: append the terminating NUL through the
   * chain, then overwrite the slot at `start` with the distance from
   * `start` to the position, truncated to int32.
   */
  function FinishState(s: SinkState, start: nat): (r: SinkState)
    requires Valid(s) && start <= s.pos && (s.ok ==> start + 4 <= s.pos)
    ensures Valid(r) && r.pos == Emit(s, [[0]]).pos && r.ok == Emit(s, [[0]]).ok
  {
    var t := Emit(s, [[0]]);
    EmitFrame(s, [[0]]);
    if t.ok then t.(bytes := Overwrite(t.bytes, start, Int32Bytes(t.pos - start))) else t
  }

  /** The two outcomes of `FinishState`, one per branch of the terminator chain. */
  lemma FinishStateCases(s: SinkState, start: nat)
    requires Valid(s) && start <= s.pos && (s.ok ==> start + 4 <= s.pos)
    ensures var t := Emit(s, [[0]]);
      && (t.ok ==>
            start + 4 <= |t.bytes|
            && FinishState(s, start) == SinkState(Overwrite(t.bytes, start, Int32Bytes(t.pos - start)), t.pos, true))
      && (!t.ok ==> FinishState(s, start) == t)
  {
    var t := Emit(s, [[0]]);
    EmitFrame(s, [[0]]);
    if t.ok {
      assert s.ok && start + 4 <= s.pos <= t.pos;
      assert FinishState(s, start) == t.(bytes := Overwrite(t.bytes, start, Int32Bytes(t.pos - start)));
    }
  }

  /**
   * Finishing the frame at `start` keeps intact every slot that ends at or
   * before it, and never moves the position back.
   */
  lemma FinishKeepsSlot(s: SinkState, start: nat, other: nat)
    requires Valid(s) && start <= s.pos && SlotIntact(s, start)
    requires SlotIntact(s, other) && (s.ok ==> other + 4 <= start)
    ensures s.pos <= FinishState(s, start).pos && SlotIntact(FinishState(s, start), other)
    ensures FinishState(s, start).ok ==> s.ok
  {
    EmitFrame(s, [[0]]);
    EmitKeepsSlot(s, [[0]], other);
    FinishStateCases(s, start);
    var t := Emit(s, [[0]]);
    var r := FinishState(s, start);
    if r.ok {
      assert r.bytes[other..other + 4] == t.bytes[other..other + 4];
    }
  }

  /**
   * `encoder::finish` as written: the patch is not guarded, and it copies
   * the in-memory bytes of `written` on `host` with no byte-order
   * conversion. `None` when the copy would leave the buffer.
   */
  function FinishAsWritten(host: ByteOrder, s: SinkState, start: nat): (r: Option<SinkState>)
    requires Valid(s) && start <= s.pos
  {
    var t := Emit(s, [[0]]);
    EmitFrame(s, [[0]]);
    var written := ToSigned(4, ToUnsigned(4, t.pos - start));
    if start + 4 <= |t.bytes| then
      Some(t.(bytes := Overwrite(t.bytes, start, InMemory(host, 4, ToUnsigned(4, written)))))
    else None
  }

  /**
   * Whenever the terminator fits, the code's own `finish` on a
   * little-endian host leaves exactly the state of the guarded one.
   */
  lemma FinishAsWrittenAgrees(s: SinkState, start: nat)
    requires Valid(s) && start <= s.pos && (s.ok ==> start + 4 <= s.pos) && Emit(s, [[0]]).ok
    ensures FinishAsWritten(LittleEndian, s, start) == Some(FinishState(s, start))
  {
    var t := Emit(s, [[0]]);
    FinishStateCases(s, start);
    WrittenInMemory(t.pos - start);
  }

  /**
   * Whenever the terminator fits, the code's own `finish` on a big-endian
   * host differs from the guarded one in the slot alone, which holds the
   * little-endian length's bytes in reverse order.
   */
  lemma FinishAsWrittenReversed(s: SinkState, start: nat)
    requires Valid(s) && start <= s.pos && (s.ok ==> start + 4 <= s.pos) && Emit(s, [[0]]).ok
    ensures start + 4 <= |FinishState(s, start).bytes|
    ensures var r := FinishState(s, start);
      FinishAsWritten(BigEndian, s, start)
      == Some(r.(bytes := Overwrite(r.bytes, start, Reverse(Int32Bytes(r.pos - start)))))
  {
    var t := Emit(s, [[0]]);
    FinishStateCases(s, start);
    WrittenInMemory(t.pos - start);
    OverwriteAgain(t.bytes, start, Int32Bytes(t.pos - start), Reverse(Int32Bytes(t.pos - start)));
  }

  /**
   * The length `finish` copies, truncated to int32 and read from memory:
   * the int32's bytes on a little-endian host, reversed on a big-endian one.
   */
  lemma WrittenInMemory(v: int)
    ensures InMemory(LittleEndian, 4, ToUnsigned(4, ToSigned(4, ToUnsigned(4, v)))) == Int32Bytes(v)
    ensures InMemory(BigEndian, 4, ToUnsigned(4, ToSigned(4, ToUnsigned(4, v)))) == Reverse(Int32Bytes(v))
  {
    Pow256Values();
    UnsignedRoundTrip(4, ToUnsigned(4, v));
  }

  /** A second copy at the same address over as many bytes replaces the first. */
  lemma OverwriteAgain(bytes: seq<byte>, at: nat, x: seq<byte>, y: seq<byte>)
    requires |x| == |y| && at + |x| <= |bytes|
    ensures Overwrite(Overwrite(bytes, at, x), at, y) == Overwrite(bytes, at, y)
  {
    var l := Overwrite(Overwrite(bytes, at, x), at, y);
    var r := Overwrite(bytes, at, y);
    forall i | 0 <= i < |bytes|
      ensures l[i] == r[i]
    {
    }
  }

  /**
   * When the frame is ok and fits, the patched slot reads back as the
   * frame's size, the size counts the slot and the terminator, and the
   * byte before the new position is the terminator.
   */
  lemma FinishLength(s: SinkState, start: nat)
    requires Valid(s) && start <= s.pos && (s.ok ==> start + 4 <= s.pos)
    requires FinishState(s, start).ok && s.pos + 1 - start < 0x8000_0000
    ensures var r := FinishState(s, start);
      && r.pos == s.pos + 1
      && r.bytes[r.pos - 1] == 0
      && ReadInt32(r.bytes, start) == r.pos - start
      && r.bytes[..start] == s.bytes[..start]
      && r.bytes[start + 4..s.pos] == s.bytes[start + 4..s.pos]
  {
    EmitOk(s, [[0]]);
    var t := Emit(s, [[0]]);
    var r := FinishState(s, start);
    assert Flatten([[0]]) == [0];
    assert t.bytes[s.pos] == 0;
    Int32BytesRead(t.pos - start, r.bytes, start);
    assert r.bytes[start..start + 4] == Int32Bytes(t.pos - start);
  }

  /** Finishing fails exactly when the terminator does not fit, and then nothing is patched. */
  lemma FinishFails(s: SinkState, start: nat)
    requires Valid(s) && start <= s.pos && (s.ok ==> start + 4 <= s.pos)
    ensures FinishState(s, start).ok <==> s.ok && s.pos < |s.bytes|
    ensures !FinishState(s, start).ok ==> FinishState(s, start).bytes == s.bytes
  {
    EmitOk(s, [[0]]);
    assert Flatten([[0]]) == [0];
    if !Emit(s, [[0]]).ok {
      if s.ok {
        assert Guarded(s, [0]) == s.(ok := false);
        EmitSticky(s.(ok := false), []);
      } else {
        EmitSticky(s, [[0]]);
      }
    }
  }

  /**
   * Finding: when the sentinel did not fit (here a 2-byte buffer), the
   * unguarded patch copies four bytes at the frame start, past the end of
   * the buffer; the guarded finish leaves the failed writer untouched.
   */
  lemma FinishAsWrittenOverflows(host: ByteOrder)
    ensures var s := Emit(SinkState([0, 0], 0, true), [Sentinel]);
      && !s.ok && s.pos == 0
      && FinishAsWritten(host, s, 0).None?
      && FinishState(s, 0) == s
  {
    var s0 := SinkState([0, 0], 0, true);
    var s := Emit(s0, [Sentinel]);
    assert Emit(s0, [Sentinel]) == Emit(Guarded(s0, Sentinel), []);
    assert s == s0.(ok := false);
    EmitSticky(s, [[0]]);
  }

  /**
   * Finding: on a big-endian host the unpatched in-memory copy writes the
   * length's bytes most significant first: a 22-byte frame gets
   * `00 00 00 16` instead of `16 00 00 00`.
   */
  lemma FinishAsWrittenBigEndian(s: SinkState)
    requires Valid(s) && s.ok && s.pos == 21 && |s.bytes| >= 22
    requires s.bytes[..4] == Sentinel
    ensures FinishAsWritten(BigEndian, s, 0).Some?
    ensures FinishAsWritten(BigEndian, s, 0).value.bytes[..4] == [0x00, 0x00, 0x00, 0x16]
    ensures FinishState(s, 0).bytes[..4] == [0x16, 0x00, 0x00, 0x00]
  {
    Pow256Values();
    EmitOk(s, [[0]]);
    assert Flatten([[0]]) == [0];
    var t := Emit(s, [[0]]);
    assert t.pos == 22;
    assert ToUnsigned(4, 22) == 22;
    assert ToSigned(4, 22) == 22;
    assert LittleBytes(4, 22) == [0x16, 0x00, 0x00, 0x00];
    assert Reverse([0x16, 0x00, 0x00, 0x00]) == [0x00, 0x00, 0x00, 0x16];
  }

  // ---------------------------------------------------------------------
  // A stack of open frames
  // ---------------------------------------------------------------------

  /**
   * The slots of a stack of open frames, bottom first: each lies at or
   * before the position and is intact, and while the writer is ok each
   * ends at or before the next one starts.
   */
  ghost predicate StackIntact(s: SinkState, slots: seq<nat>)
  {
    && (forall i :: 0 <= i < |slots| ==> slots[i] <= s.pos && SlotIntact(s, slots[i]))
    && (s.ok ==> forall i, j :: 0 <= i < j < |slots| ==> slots[i] + 4 <= slots[j])
  }

  /** Writing through any chain keeps every open frame intact. */
  lemma EmitKeepsStack(s: SinkState, chunks: seq<seq<byte>>, slots: seq<nat>)
    requires Valid(s) && StackIntact(s, slots)
    ensures StackIntact(Emit(s, chunks), slots)
  {
    EmitFrame(s, chunks);
    forall i | 0 <= i < |slots|
      ensures SlotIntact(Emit(s, chunks), slots[i])
    {
      EmitKeepsSlot(s, chunks, slots[i]);
    }
  }

  /** Opening a frame at the position pushes a slot that keeps the stack intact. */
  lemma OpenKeepsStack(s: SinkState, slots: seq<nat>)
    requires Valid(s) && StackIntact(s, slots)
    ensures StackIntact(Emit(s, [Sentinel]), slots + [s.pos])
  {
    EmitKeepsStack(s, [Sentinel], slots);
    OpenSlot(s);
    EmitFrame(s, [Sentinel]);
    var r := Emit(s, [Sentinel]);
    var t := slots + [s.pos];
    if r.ok {
      forall i, j | 0 <= i < j < |t|
        ensures t[i] + 4 <= t[j]
      {
        if j < |slots| {
        } else {
          assert t[j] == s.pos;
          assert slots[i] + 4 <= slots[|slots| - 1] + 4 || i == |slots| - 1;
        }
      }
    }
  }

  /** Finishing the top frame and popping it leaves the rest of the stack intact. */
  lemma FinishKeepsStack(s: SinkState, slots: seq<nat>)
    requires Valid(s) && StackIntact(s, slots) && |slots| > 0
    ensures StackIntact(FinishState(s, slots[|slots| - 1]), slots[..|slots| - 1])
  {
    var n := |slots| - 1;
    var rest := slots[..n];
    forall i | 0 <= i < n
      ensures rest[i] <= FinishState(s, slots[n]).pos && SlotIntact(FinishState(s, slots[n]), rest[i])
    {
      FinishKeepsSlot(s, slots[n], rest[i]);
    }
    if n > 0 {
      FinishKeepsSlot(s, slots[n], slots[0]);
    } else {
      FinishFails(s, slots[n]);
    }
  }
}
