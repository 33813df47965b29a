/**
 * `decoder::decode_document`: the framing walk of the reading side. It
 * reads the document's length, then, until the cursor reaches the byte
 * before the terminator, reads one element header (a tag byte and a
 * NUL-terminated name) and hands the name and the cursor to the handler
 * the tag selects.
 *
 * The per-type handlers are stubs in the library, so what a handler does
 * with the cursor is a parameter here: `reader(h, at)` is the number of
 * bytes handler `h` moves the cursor past when called at address `at`.
 * A walk records every handler call as a `Dispatch`.
 */
module Decoders {
  import opened Bytes
  import opened Wrappers
  import opened Endian
  import opened Bson
  import opened DataViews
  import opened Sink
  import opened Layout

  /** The handler `decode_document` calls: one per enumerator, or `handle_unknown_type`. */
  datatype Handler = Known(t: BsonType) | UnknownType

  /** The `switch` on the tag byte. */
  function HandlerFor(tag: byte): (h: Handler)
    ensures h.Known? <==> TypeFromByte(tag).Some?
    ensures h.Known? ==> TypeByte(h.t) == tag
    ensures h == UnknownType <==> TypeFromByte(tag) == None
  {
    match TypeFromByte(tag)
    case Some(t) => Known(t)
    case None => UnknownType
  }

  /** Every tag the encoder writes selects the handler of its own type. */
  lemma HandlerForTypeByte(t: BsonType)
    ensures HandlerFor(TypeByte(t)) == Known(t)
  {
    TypeByteRoundTrip(t);
  }

  /** One handler call: the handler, the name view it is given, and the cursor's address. */
  datatype Dispatch = Dispatch(handler: Handler, name: seq<byte>, payloadAt: nat)

  /** What a handler does with the cursor: the number of bytes it moves it past. */
  type Reader = (Handler, nat) -> nat

  /** `size_t` arithmetic: the value modulo 2^64. */
  function SizeT(v: int): (r: nat)
    ensures r < 0x1_0000_0000_0000_0000
    ensures 0 <= v < 0x1_0000_0000_0000_0000 ==> r == v
  {
    v % 0x1_0000_0000_0000_0000
  }

  /** The address of the first NUL at or after `i`, the scan `std::strlen` makes. */
  function NulFrom(bytes: seq<byte>, i: nat): (r: Option<nat>)
    ensures r.Some? ==> i <= r.value < |bytes| && bytes[r.value] == 0
    decreases |bytes| - i
  {
    if i >= |bytes| then None
    else if bytes[i] == 0 then Some(i)
    else NulFrom(bytes, i + 1)
  }

  /** `strlen` on the bytes from `i` on finds the NUL the scan finds. */
  lemma {:induction false} NulFromStrLen(bytes: seq<byte>, i: nat)
    requires i <= |bytes|
    ensures StrLen(bytes[i..]) == (match NulFrom(bytes, i) case Some(n) => Some(n - i) case None => None)
    decreases |bytes| - i
  {
    if i < |bytes| && bytes[i] != 0 {
      assert bytes[i..][1..] == bytes[i + 1..];
      NulFromStrLen(bytes, i + 1);
    }
  }

  /**
   * The element header at `cursor`: the tag byte, then the name up to and
   * including the first NUL after it. `None` when no NUL follows within
   * the buffer. `HeaderIsPointerRead` shows the name is what the
   * `cstring_cdata` pointer constructor reads.
   */
  function ElementHeader(bytes: seq<byte>, cursor: nat): (r: Option<Dispatch>)
    requires cursor < |bytes|
    ensures r.Some? ==> r.value.payloadAt == cursor + 1 + |r.value.name| <= |bytes|
  {
    match NulFrom(bytes, cursor + 1)
    case Some(n) => Some(Dispatch(HandlerFor(bytes[cursor]), bytes[cursor + 1..n + 1], n + 1))
    case None => None
  }

  /** The header's name is the view the pointer constructor builds on the bytes after the tag. */
  lemma HeaderIsPointerRead(bytes: seq<byte>, cursor: nat, name: Result<StringData>)
    requires cursor < |bytes| < MaxOf(SizeTSize)
    requires name == FromPointer(bytes[cursor + 1..], SizeTSize)
    ensures name.Err? <==> ElementHeader(bytes, cursor).None?
    ensures name.Ok? ==>
      ElementHeader(bytes, cursor) == Some(Dispatch(HandlerFor(bytes[cursor]), name.value.bytes, cursor + 1 + |name.value.bytes|))
  {
    NulFromStrLen(bytes, cursor + 1);
    if NulFrom(bytes, cursor + 1).Some? {
      var n := NulFrom(bytes, cursor + 1).value;
      assert bytes[cursor + 1..][..n - cursor] == bytes[cursor + 1..n + 1];
    }
  }

  /**
   * A header read: its handler is the one the tag selects, and its name is
   * a C string that sits in the buffer right after the tag.
   */
  lemma HeaderFacts(bytes: seq<byte>, cursor: nat)
    requires cursor < |bytes| < MaxOf(SizeTSize) && ElementHeader(bytes, cursor).Some?
    ensures var d := ElementHeader(bytes, cursor).value;
      && d.handler == HandlerFor(bytes[cursor])
      && IsCString(d.name)
      && bytes[cursor + 1..d.payloadAt] == d.name
  {
    HeaderIsPointerRead(bytes, cursor, FromPointer(bytes[cursor + 1..], SizeTSize));
  }

  /** A header fails to read exactly when no NUL follows the tag within the buffer. */
  lemma ElementHeaderNone(bytes: seq<byte>, cursor: nat)
    requires cursor < |bytes| < MaxOf(SizeTSize)
    ensures ElementHeader(bytes, cursor).None? <==> forall i :: cursor < i < |bytes| ==> bytes[i] != 0
  {
    HeaderIsPointerRead(bytes, cursor, FromPointer(bytes[cursor + 1..], SizeTSize));
    var region := bytes[cursor + 1..];
    assert forall i :: cursor < i < |bytes| ==> bytes[i] == region[i - cursor - 1];
    if ElementHeader(bytes, cursor).None? {
      assert StrLen(region).None?;
    }
  }

  /** `ds` in front of the dispatches of `r`; a failure stays a failure. */
  function Prepend(ds: seq<Dispatch>, r: Result<seq<Dispatch>>): (p: Result<seq<Dispatch>>)
    ensures p.Ok? <==> r.Ok?
  {
    match r
    case Ok(rest) => Ok(ds + rest)
    case Err(f) => Err(f)
  }

  lemma PrependNothing(r: Result<seq<Dispatch>>)
    ensures Prepend([], r) == r
  {
    if r.Ok? {
      assert [] + r.value == r.value;
    }
  }

  lemma PrependTwice(a: seq<Dispatch>, b: seq<Dispatch>, r: Result<seq<Dispatch>>)
    ensures Prepend(a, Prepend(b, r)) == Prepend(a + b, r)
  {
    if r.Ok? {
      assert a + (b + r.value) == (a + b) + r.value;
    }
  }

  /**
   * The `while (cursor != end)` loop from `cursor` on. Reading a tag or a
   * name outside the buffer is a failure; a cursor that steps over `end`
   * keeps walking until it reads outside the buffer.
   */
  function Walk(bytes: seq<byte>, cursor: nat, end: nat, reader: Reader): (r: Result<seq<Dispatch>>)
    requires |bytes| < MaxOf(SizeTSize)
    decreases if cursor < |bytes| then |bytes| - cursor else 0
  {
    if cursor == end then Ok([])
    else if cursor >= |bytes| then Err(OutOfBounds)
    else match ElementHeader(bytes, cursor)
      case None => Err(OutOfBounds)
      case Some(d) => Prepend([d], Walk(bytes, d.payloadAt + reader(d.handler, d.payloadAt), end, reader))
  }

  /** One iteration: the header at `cursor`, then the walk from past what its handler consumes. */
  lemma WalkStep(bytes: seq<byte>, cursor: nat, end: nat, reader: Reader)
    requires |bytes| < MaxOf(SizeTSize) && cursor != end
    ensures cursor >= |bytes| ==> Walk(bytes, cursor, end, reader) == Err(OutOfBounds)
    ensures cursor < |bytes| && ElementHeader(bytes, cursor).None? ==> Walk(bytes, cursor, end, reader) == Err(OutOfBounds)
    ensures cursor < |bytes| && ElementHeader(bytes, cursor).Some? ==>
      var d := ElementHeader(bytes, cursor).value;
      Walk(bytes, cursor, end, reader) == Prepend([d], Walk(bytes, d.payloadAt + reader(d.handler, d.payloadAt), end, reader))
  {
  }

  lemma PrependOk(ds: seq<Dispatch>, r: Result<seq<Dispatch>>, rest: seq<Dispatch>)
    requires r == Ok(rest)
    ensures Prepend(ds, r) == Ok(ds + rest)
  {
  }

  /** A loop that fails to read a header at `here` fails the whole walk. */
  lemma WalkFails(bytes: seq<byte>, here: nat, end: nat, reader: Reader, ds: seq<Dispatch>, whole: Result<seq<Dispatch>>)
    requires |bytes| < MaxOf(SizeTSize) && here != end
    requires here >= |bytes| || ElementHeader(bytes, here).None?
    requires whole == Prepend(ds, Walk(bytes, here, end, reader))
    ensures whole == Err(OutOfBounds)
  {
    WalkStep(bytes, here, end, reader);
  }

  /**
   * The loop's bookkeeping: once the header at `here` is read, its handler
   * call moves from the walk to the record, and the walk resumes at `next`.
   */
  lemma WalkAdvances(bytes: seq<byte>, here: nat, end: nat, reader: Reader, name: seq<byte>, ds: seq<Dispatch>, whole: Result<seq<Dispatch>>)
    returns (d: Dispatch, next: nat)
    requires |bytes| < MaxOf(SizeTSize) && here != end && here < |bytes|
    requires ElementHeader(bytes, here) == Some(Dispatch(HandlerFor(bytes[here]), name, here + 1 + |name|))
    requires whole == Prepend(ds, Walk(bytes, here, end, reader))
    ensures d == Dispatch(HandlerFor(bytes[here]), name, here + 1 + |name|)
    ensures next == d.payloadAt + reader(d.handler, d.payloadAt)
    ensures whole == Prepend(ds + [d], Walk(bytes, next, end, reader))
  {
    d := Dispatch(HandlerFor(bytes[here]), name, here + 1 + |name|);
    next := d.payloadAt + reader(d.handler, d.payloadAt);
    WalkHeader(bytes, here, end, reader, d);
    PrependTwice(ds, [d], Walk(bytes, next, end, reader));
  }

  /** The address `end` stops at: the cursor after the length field plus `length - 4 - 1` in `size_t`. */
  function EndOfWalk(start: nat, length: int): nat
  {
    start + 4 + SizeT(length - 4 - 1)
  }

  /** `decode_document` on the document at `start`. */
  function Decoded(host: ByteOrder, bytes: seq<byte>, start: nat, reader: Reader): Result<seq<Dispatch>>
    requires |bytes| < MaxOf(SizeTSize)
  {
    if start + 4 > |bytes| then Err(OutOfBounds)
    else Walk(bytes, start + 4, EndOfWalk(start, ReadLengthFromDocument(host, bytes[start..])), reader)
  }

  /**
   * `decode_document` as written: the length comes from
   * `read_length_from_cursor`, the raw host-order read.
   */
  function DecodedAsWritten(host: ByteOrder, bytes: seq<byte>, start: nat, reader: Reader): Result<seq<Dispatch>>
    requires |bytes| < MaxOf(SizeTSize)
  {
    if start + 4 > |bytes| then Err(OutOfBounds)
    else Walk(bytes, start + 4, EndOfWalk(start, ReadLengthFromAddress(host, bytes[start..])), reader)
  }

  /**
   * On a little-endian host the decoder as written is the decoder with the
   * little-endian length read, on any host; on a big-endian host it walks
   * up to the end its length field gives when read reversed.
   */
  lemma DecodedAsWrittenHosts(host: ByteOrder, bytes: seq<byte>, start: nat, reader: Reader)
    requires |bytes| < MaxOf(SizeTSize)
    ensures DecodedAsWritten(LittleEndian, bytes, start, reader) == Decoded(host, bytes, start, reader)
    ensures start + 4 <= |bytes| ==>
      DecodedAsWritten(BigEndian, bytes, start, reader)
      == Walk(bytes, start + 4, EndOfWalk(start, ReadInt32(Reverse(bytes[start..start + 4]), 0)), reader)
  {
    if start + 4 <= |bytes| {
      var region := bytes[start..];
      ReadLengthFromAddressHosts(region);
      ReadLengthIsLittleEndian(host, region);
      assert region[..4] == bytes[start..start + 4];
    }
  }

  /**
   * `cstring_cdata const name_data(cursor())`: the pointer constructor on
   * the bytes from `at`, which is where the cursor stands after the tag.
   */
  method ReadName(bytes: seq<byte>, at: nat) returns (name: Result<StringData>)
    requires 1 <= at <= |bytes| < MaxOf(SizeTSize)
    ensures name.Err? <==> ElementHeader(bytes, at - 1).None?
    ensures name.Ok? ==>
      ElementHeader(bytes, at - 1) == Some(Dispatch(HandlerFor(bytes[at - 1]), name.value.bytes, at + |name.value.bytes|))
  {
    name := FromPointer(bytes[at..], SizeTSize);
    HeaderIsPointerRead(bytes, at - 1, name);
  }

  /**
   * `decode_document`: the length is read at the document in host byte
   * order, as `read_length_from_cursor` reads it; the cursor moves past
   * the length field, and `end` is that address plus `length - 4 - 1` in
   * `size_t`. The cursor is taken and copied by value, so it is a local
   * address here.
   */
  method DecodeDocument(host: ByteOrder, bytes: seq<byte>, start: nat, reader: Reader)
    returns (r: Result<seq<Dispatch>>)
    requires |bytes| < MaxOf(SizeTSize)
    ensures r == DecodedAsWritten(host, bytes, start, reader)
    ensures host == LittleEndian ==> r == Decoded(host, bytes, start, reader)
  {
    if start + 4 > |bytes| {
      return Err(OutOfBounds);
    }
    var length := ReadLengthFromAddress(host, bytes[start..]);
    var cursor := start + 4;
    var end := cursor + SizeT(length - 4 - 1);
    assert end == EndOfWalk(start, length);
    r := DecodeElements(bytes, cursor, end, reader);
    assert r == DecodedAsWritten(host, bytes, start, reader);
    if host == LittleEndian {
      DecodedAsWrittenHosts(host, bytes, start, reader);
    }
  }

  /**
   * The `while (cursor != end)` loop of `decode_document`: each iteration
   * moves the cursor past a tag, a name and what the handler consumes.
   * The handler results are discarded.
   */
  method DecodeElements(bytes: seq<byte>, start: nat, end: nat, reader: Reader)
    returns (r: Result<seq<Dispatch>>)
    requires |bytes| < MaxOf(SizeTSize)
    ensures r == Walk(bytes, start, end, reader)
  {
    var cursor := start;
    var dispatched: seq<Dispatch> := [];
    ghost var whole := Walk(bytes, cursor, end, reader);
    PrependNothing(whole);
    while cursor != end
      invariant whole == Prepend(dispatched, Walk(bytes, cursor, end, reader))
      decreases if cursor < |bytes| then |bytes| - cursor else 0
    {
      if cursor >= |bytes| {
        WalkFails(bytes, cursor, end, reader, dispatched, whole);
        return Err(OutOfBounds);
      }
      var tag := bytes[cursor];
      var name := ReadName(bytes, cursor + 1);
      if name.Err? {
        WalkFails(bytes, cursor, end, reader, dispatched, whole);
        return Err(OutOfBounds);
      }
      ghost var e, next := WalkAdvances(bytes, cursor, end, reader, name.value.bytes, dispatched, whole);
      var d := Dispatch(HandlerFor(tag), name.value.bytes, cursor + 1 + |name.value.bytes|);
      assert d == e;
      dispatched := dispatched + [d];
      cursor := d.payloadAt + reader(d.handler, d.payloadAt);
      assert cursor == next;
    }
    assert dispatched + [] == dispatched;
    return Ok(dispatched);
  }

  /**
   * Every handler call of a walk that ends at `end` is made right after a
   * header in the buffer: the name it is given is a C string that ends
   * where its cursor points, the handler is the one the byte before the
   * name selects, and no header is read at `end` itself.
   */
  lemma {:induction false} WalkDispatches(bytes: seq<byte>, cursor: nat, end: nat, reader: Reader)
    requires |bytes| < MaxOf(SizeTSize)
    requires Walk(bytes, cursor, end, reader).Ok?
    ensures var ds := Walk(bytes, cursor, end, reader).value;
      forall i :: 0 <= i < |ds| ==> HeaderBefore(bytes, ds[i], cursor, end)
    decreases if cursor < |bytes| then |bytes| - cursor else 0
  {
    if cursor != end {
      WalkStep(bytes, cursor, end, reader);
      HeaderFacts(bytes, cursor);
      var d := ElementHeader(bytes, cursor).value;
      var next := d.payloadAt + reader(d.handler, d.payloadAt);
      WalkDispatches(bytes, next, end, reader);
      var tail := Walk(bytes, next, end, reader).value;
      var ds := Walk(bytes, cursor, end, reader).value;
      assert ds == [d] + tail;
      assert HeaderBefore(bytes, d, cursor, end);
      forall i | 0 <= i < |tail|
        ensures HeaderBefore(bytes, tail[i], cursor, end)
      {
        assert HeaderBefore(bytes, tail[i], next, end);
      }
    }
  }

  /**
   * `d` is a handler call made right after a header that starts at or
   * after `cursor`: its name is a C string ending where its cursor points,
   * its handler is the one the byte before the name selects, and that byte
   * is not the one at `end`.
   */
  predicate HeaderBefore(bytes: seq<byte>, d: Dispatch, cursor: nat, end: nat)
  {
    && IsCString(d.name)
    && cursor + 1 + |d.name| <= d.payloadAt <= |bytes|
    && bytes[d.payloadAt - |d.name|..d.payloadAt] == d.name
    && d.handler == HandlerFor(bytes[d.payloadAt - |d.name| - 1])
    && d.payloadAt - |d.name| - 1 != end
  }

  /**
   * An element as the decoder meets it: the type its tag names, its name
   * with the NUL, and the bytes of its payload.
   */
  datatype Laid = Laid(t: BsonType, name: seq<byte>, payload: seq<byte>)

  /** The bytes an element takes: tag, name, payload. */
  function LaidSize(l: Laid): nat
  {
    1 + |l.name| + |l.payload|
  }

  /** Elements back to back. */
  function LaidBytes(ls: seq<Laid>): (r: seq<byte>)
    decreases |ls|
  {
    if ls == [] then [] else [TypeByte(ls[0].t)] + ls[0].name + ls[0].payload + LaidBytes(ls[1..])
  }

  /** What the encoder writes for each `encode_*(name, value)` call, seen as tag, name and payload. */
  function LaidOf(es: seq<Element>): (ls: seq<Laid>)
    requires WellFormedElements(es)
    ensures |ls| == |es|
    decreases |es|
  {
    if es == [] then []
    else [Laid(ValueType(es[0].value), es[0].name.bytes, Flatten(Payload(es[0].value)))] + LaidOf(es[1..])
  }

  /** The first element's bytes, then the rest's. */
  lemma ElementsFirst(es: seq<Element>)
    requires es != [] && WellFormedElements(es)
    ensures WellFormedElements(es[1..])
    ensures Flatten(ElementsChunks(es))
      == [TypeByte(ValueType(es[0].value))] + es[0].name.bytes + Flatten(Payload(es[0].value)) + Flatten(ElementsChunks(es[1..]))
  {
    FlattenAppend(ElementChunks(es[0].name, es[0].value), ElementsChunks(es[1..]));
    ElementLayout(es[0].name, es[0].value);
  }

  /** The body the encoder writes for `es` is its elements, each a tag, a name and a payload, back to back. */
  lemma {:induction false} EncodedLaid(es: seq<Element>)
    requires WellFormedElements(es)
    ensures Flatten(ElementsChunks(es)) == LaidBytes(LaidOf(es))
    decreases |es|
  {
    if es != [] {
      ElementsFirst(es);
      EncodedLaid(es[1..]);
      assert LaidOf(es)[1..] == LaidOf(es[1..]);
    }
  }

  /** Element names the decoder can read back: each ends at its only NUL. */
  predicate NamesAreCStrings(ls: seq<Laid>)
  {
    forall i :: 0 <= i < |ls| ==> IsCString(ls[i].name)
  }

  /** `reader` moves the cursor past the payload of each of `ls`, laid out one after another from `at`. */
  predicate SkipsPayloads(reader: Reader, ls: seq<Laid>, at: nat)
    decreases |ls|
  {
    ls == [] ||
    (&& reader(Known(ls[0].t), at + 1 + |ls[0].name|) == |ls[0].payload|
     && SkipsPayloads(reader, ls[1..], at + LaidSize(ls[0])))
  }

  /** The handler call the header of `l`, laid out at `at`, should produce. */
  function HeaderDispatch(l: Laid, at: nat): Dispatch
  {
    Dispatch(Known(l.t), l.name, at + 1 + |l.name|)
  }

  /** The handler calls that decoding `ls`, laid out from `at`, should make. */
  function Dispatches(ls: seq<Laid>, at: nat): (ds: seq<Dispatch>)
    ensures |ds| == |ls|
    decreases |ls|
  {
    if ls == [] then [] else [HeaderDispatch(ls[0], at)] + Dispatches(ls[1..], at + LaidSize(ls[0]))
  }

  /** A slice that holds `x + y` holds `x` first and `y` after it. */
  lemma SplitSlice(bytes: seq<byte>, at: nat, end: nat, x: seq<byte>, y: seq<byte>)
    requires at <= end <= |bytes| && bytes[at..end] == x + y
    ensures at + |x| <= end && bytes[at..at + |x|] == x && bytes[at + |x|..end] == y
  {
    assert bytes[at..at + |x|] == bytes[at..end][..|x|];
    assert bytes[at + |x|..end] == bytes[at..end][|x|..];
  }

  /** The scan from the start of a C string in the buffer stops at its NUL. */
  lemma {:induction false} NulFromCString(bytes: seq<byte>, i: nat, s: seq<byte>)
    requires IsCString(s) && i + |s| <= |bytes| && bytes[i..i + |s|] == s
    ensures NulFrom(bytes, i) == Some(i + |s| - 1)
    decreases |s|
  {
    assert bytes[i] == s[0];
    if |s| > 1 {
      assert bytes[i + 1..i + |s|] == s[1..];
      NulFromCString(bytes, i + 1, s[1..]);
    }
  }

  /** A tag followed by a C string reads as a header with that name. */
  lemma HeaderOfCString(bytes: seq<byte>, at: nat, name: seq<byte>)
    requires IsCString(name) && at + 1 + |name| <= |bytes| && bytes[at + 1..at + 1 + |name|] == name
    ensures ElementHeader(bytes, at) == Some(Dispatch(HandlerFor(bytes[at]), name, at + 1 + |name|))
  {
    NulFromCString(bytes, at + 1, name);
  }

  /** The walk from a header it reads: that handler call, then the walk past what the handler consumes. */
  lemma WalkHeader(bytes: seq<byte>, at: nat, end: nat, reader: Reader, d: Dispatch)
    requires |bytes| < MaxOf(SizeTSize) && at != end && at < |bytes| && ElementHeader(bytes, at) == Some(d)
    ensures Walk(bytes, at, end, reader) == Prepend([d], Walk(bytes, d.payloadAt + reader(d.handler, d.payloadAt), end, reader))
  {
    WalkStep(bytes, at, end, reader);
  }

  /**
   * The headers of `ls` are read one after another from `at`, each element
   * taking `LaidSize` bytes, and the last one ends at `end`.
   */
  predicate HeadersAt(bytes: seq<byte>, at: nat, end: nat, ls: seq<Laid>)
    decreases |ls|
  {
    if ls == [] then at == end
    else
      && at < end && at < |bytes|
      && ElementHeader(bytes, at) == Some(HeaderDispatch(ls[0], at))
      && HeadersAt(bytes, at + LaidSize(ls[0]), end, ls[1..])
  }

  /** The first of the elements laid out from `at`: its header, and the rest laid out after it. */
  lemma LayoutFirst(bytes: seq<byte>, at: nat, end: nat, l: Laid, rest: seq<byte>)
    requires at <= end <= |bytes| && IsCString(l.name)
    requires bytes[at..end] == [TypeByte(l.t)] + l.name + l.payload + rest
    ensures at + LaidSize(l) <= end && at < |bytes|
    ensures ElementHeader(bytes, at) == Some(HeaderDispatch(l, at))
    ensures bytes[at + LaidSize(l)..end] == rest
  {
    var p := at + 1 + |l.name|;
    SplitSlice(bytes, at, end, [TypeByte(l.t)] + l.name + l.payload, rest);
    SplitSlice(bytes, at, p + |l.payload|, [TypeByte(l.t)] + l.name, l.payload);
    SplitSlice(bytes, at, p, [TypeByte(l.t)], l.name);
    assert bytes[at] == bytes[at..at + 1][0] == TypeByte(l.t);
    HeaderOfCString(bytes, at, l.name);
    HandlerForTypeByte(l.t);
  }

  /** Elements laid out from `at` to `end` have their headers there. */
  lemma {:induction false} LaidOutHeaders(bytes: seq<byte>, at: nat, end: nat, ls: seq<Laid>)
    requires at <= end <= |bytes| && NamesAreCStrings(ls) && bytes[at..end] == LaidBytes(ls)
    ensures HeadersAt(bytes, at, end, ls)
    decreases |ls|
  {
    if ls == [] {
      assert |bytes[at..end]| == 0;
    } else {
      LaidOutFirst(bytes, at, end, ls);
      LaidOutHeaders(bytes, at + LaidSize(ls[0]), end, ls[1..]);
    }
  }

  /** The first of several elements laid out from `at`: its header, then the others. */
  lemma LaidOutFirst(bytes: seq<byte>, at: nat, end: nat, ls: seq<Laid>)
    requires at <= end <= |bytes| && ls != [] && NamesAreCStrings(ls) && bytes[at..end] == LaidBytes(ls)
    ensures at < at + LaidSize(ls[0]) <= end && at < |bytes|
    ensures ElementHeader(bytes, at) == Some(HeaderDispatch(ls[0], at))
    ensures bytes[at + LaidSize(ls[0])..end] == LaidBytes(ls[1..])
    ensures NamesAreCStrings(ls[1..])
  {
    var l := ls[0];
    assert IsCString(l.name);
    LayoutFirst(bytes, at, end, l, LaidBytes(ls[1..]));
    forall i | 0 <= i < |ls[1..]|
      ensures IsCString(ls[1..][i].name)
    {
      assert ls[1..][i] == ls[i + 1];
    }
  }

  /** A walk over headers whose payloads the reader moves past makes one handler call per element. */
  lemma {:induction false} WalkHeaders(bytes: seq<byte>, at: nat, end: nat, reader: Reader, ls: seq<Laid>)
    requires |bytes| < MaxOf(SizeTSize) && HeadersAt(bytes, at, end, ls) && SkipsPayloads(reader, ls, at)
    ensures Walk(bytes, at, end, reader) == Ok(Dispatches(ls, at))
    decreases |ls|
  {
    if ls != [] {
      var d := HeaderDispatch(ls[0], at);
      var next := at + LaidSize(ls[0]);
      assert next == d.payloadAt + reader(d.handler, d.payloadAt);
      WalkHeader(bytes, at, end, reader, d);
      WalkHeaders(bytes, next, end, reader, ls[1..]);
      PrependOk([d], Walk(bytes, next, end, reader), Dispatches(ls[1..], next));
    }
  }

  /** Walking elements laid out from `at` to `end` makes one handler call per element, in order. */
  lemma WalkLaid(bytes: seq<byte>, at: nat, end: nat, reader: Reader, ls: seq<Laid>)
    requires at <= end <= |bytes| < MaxOf(SizeTSize) && bytes[at..end] == LaidBytes(ls)
    requires NamesAreCStrings(ls) && SkipsPayloads(reader, ls, at)
    ensures Walk(bytes, at, end, reader) == Ok(Dispatches(ls, at))
  {
    LaidOutHeaders(bytes, at, end, ls);
    WalkHeaders(bytes, at, end, reader, ls);
  }

  /** The length field the encoder writes reads back as the length, on either host. */
  lemma LengthReadBack(host: ByteOrder, bytes: seq<byte>, start: nat, length: int)
    requires start + 4 <= |bytes| && bytes[start..start + 4] == Int32Bytes(length)
    requires -0x8000_0000 <= length < 0x8000_0000
    ensures ReadLengthFromDocument(host, bytes[start..]) == length
  {
    var region := bytes[start..];
    assert region[..4] == bytes[start..start + 4];
    ReadLengthIsLittleEndian(host, region);
    Int32BytesRead(length, region, 0);
  }

  /** A document in the buffer is walked from past its length field to its terminator. */
  lemma DecodedWalksBody(host: ByteOrder, bytes: seq<byte>, start: nat, body: seq<byte>, reader: Reader)
    requires |bytes| < MaxOf(SizeTSize) && |body| + 5 < 0x8000_0000
    requires start + |body| + 5 <= |bytes| && bytes[start..start + |body| + 5] == DocumentBytes(body)
    ensures start + 4 + |body| <= |bytes| && bytes[start + 4..start + 4 + |body|] == body
    ensures Decoded(host, bytes, start, reader) == Walk(bytes, start + 4, start + 4 + |body|, reader)
  {
    var length := |body| + 5;
    SplitSlice(bytes, start, start + length, Int32Bytes(length) + body, [Bson.NullValue]);
    SplitSlice(bytes, start, start + 4 + |body|, Int32Bytes(length), body);
    LengthReadBack(host, bytes, start, length);
    assert EndOfWalk(start, length) == start + 4 + |body|;
  }

  /**
   * Decoding a document made of `ls`: with a reader that moves past each
   * payload, the decoder calls the handler of each element's type, in
   * order, with the element's name, and stops at the terminator, on
   * either host.
   */
  lemma {:induction false} DecodeLaid(host: ByteOrder, bytes: seq<byte>, start: nat, ls: seq<Laid>, body: seq<byte>, reader: Reader)
    requires NamesAreCStrings(ls) && SkipsPayloads(reader, ls, start + 4) && body == LaidBytes(ls)
    requires |bytes| < MaxOf(SizeTSize) && |body| + 5 < 0x8000_0000
    requires start + |body| + 5 <= |bytes| && bytes[start..start + |body| + 5] == DocumentBytes(body)
    ensures Decoded(host, bytes, start, reader) == Ok(Dispatches(ls, start + 4))
  {
    var end := start + 4 + |body|;
    DecodedWalksBody(host, bytes, start, body, reader);
    assert bytes[start + 4..end] == LaidBytes(ls);
    WalkLaid(bytes, start + 4, end, reader, ls);
  }

  /**
   * Decoding what the encoder writes for `es`: one call of each element's
   * type handler, in order, with the element's name.
   */
  lemma DecodeEncoded(host: ByteOrder, bytes: seq<byte>, start: nat, es: seq<Element>, reader: Reader)
    requires WellFormedElements(es) && NamesAreCStrings(LaidOf(es)) && SkipsPayloads(reader, LaidOf(es), start + 4)
    requires var d := DocumentBytes(Flatten(ElementsChunks(es)));
      |bytes| < MaxOf(SizeTSize) && start + |d| <= |bytes| && bytes[start..start + |d|] == d && |d| < 0x8000_0000
    ensures Decoded(host, bytes, start, reader) == Ok(Dispatches(LaidOf(es), start + 4))
  {
    EncodedLaid(es);
    DecodeLaid(host, bytes, start, LaidOf(es), Flatten(ElementsChunks(es)), reader);
  }

  /** The hello-world element, seen as tag, name and payload. */
  const HelloLaid: Laid := Laid(Utf8String, Hello.bytes, [0x06, 0x00, 0x00, 0x00] + World.bytes)

  /** The hello-world document is that element laid out as a document. */
  lemma HelloWorldLaid()
    ensures NamesAreCStrings([HelloLaid])
    ensures |LaidBytes([HelloLaid])| == 17 && DocumentBytes(LaidBytes([HelloLaid])) == HelloWorld
  {
    HelloWorldLaidBody();
    HelloWorldFields();
    HelloWorldFrame();
    HelloIsCString();
  }

  lemma HelloWorldFrame()
    ensures [0x16 as byte, 0x00, 0x00, 0x00] + ([0x02 as byte] + Hello.bytes + [0x06, 0x00, 0x00, 0x00] + World.bytes) + [0x00] == HelloWorld
  {
    assert [0x16 as byte, 0x00, 0x00, 0x00] + [0x02] == [0x16 as byte, 0x00, 0x00, 0x00, 0x02];
  }

  lemma HelloIsCString()
    ensures NamesAreCStrings([HelloLaid])
  {
    assert IsCString(Hello.bytes);
  }

  lemma HelloWorldLaidBody()
    ensures LaidBytes([HelloLaid]) == [0x02 as byte] + Hello.bytes + [0x06, 0x00, 0x00, 0x00] + World.bytes
  {
    assert LaidBytes([HelloLaid][1..]) == [];
  }

  /** The handler call the hello-world element should produce. */
  lemma HelloWorldDispatches()
    ensures Dispatches([HelloLaid], 4) == [Dispatch(Known(Utf8String), Hello.bytes, 11)]
  {
    assert Dispatches([HelloLaid][1..], 4 + LaidSize(HelloLaid)) == [];
  }

  /** The 22 hello-world bytes decode to one call of the string handler with the name "hello". */
  lemma HelloWorldDecodes(host: ByteOrder, reader: Reader)
    requires reader(Known(Utf8String), 11) == 10
    ensures Decoded(host, HelloWorld, 0, reader) == Ok([Dispatch(Known(Utf8String), Hello.bytes, 11)])
  {
    var ls := [HelloLaid];
    HelloWorldLaid();
    assert SkipsPayloads(reader, ls[1..], 4 + LaidSize(HelloLaid));
    assert HelloWorld[0..22] == HelloWorld;
    DecodeLaid(host, HelloWorld, 0, ls, LaidBytes(ls), reader);
    HelloWorldDispatches();
  }

  /**
   * Finding: on a big-endian host the decoder as written reads the
   * hello-world length field `16 00 00 00` as 0x1600_0000, so after the
   * string element it takes the terminator for a tag and reads past the
   * buffer; with the little-endian read it makes the one call.
   */
  lemma HelloWorldBigEndianAsWritten(reader: Reader)
    requires reader(Known(Utf8String), 11) == 10
    ensures DecodedAsWritten(BigEndian, HelloWorld, 0, reader) == Err(OutOfBounds)
    ensures DecodedAsWritten(LittleEndian, HelloWorld, 0, reader) == Ok([Dispatch(Known(Utf8String), Hello.bytes, 11)])
  {
    DecodedAsWrittenHosts(LittleEndian, HelloWorld, 0, reader);
    HelloWorldDecodes(LittleEndian, reader);
    var end := EndOfWalk(0, ReadInt32(Reverse(HelloWorld[0..4]), 0));
    ReversedHelloLength();
    var d := Dispatch(Known(Utf8String), Hello.bytes, 11);
    HelloHeader();
    WalkHeader(HelloWorld, 4, end, reader, d);
    assert Walk(HelloWorld, 21, end, reader) == Err(OutOfBounds);
  }

  /** The hello-world length field read reversed: `00 00 00 16` is 0x1600_0000. */
  lemma ReversedHelloLength()
    ensures ReadInt32(Reverse(HelloWorld[0..4]), 0) == 0x1600_0000
  {
    Pow256Values();
    assert HelloWorld[0..4] == [0x16, 0x00, 0x00, 0x00];
    var r := Reverse(HelloWorld[0..4]);
    assert r == [0x00, 0x00, 0x00, 0x16];
    assert r[0..4] == r;
    assert FromLittle([0x16]) == 0x16;
    assert FromLittle([0x00, 0x16]) == 0x1600;
    assert FromLittle([0x00, 0x00, 0x16]) == 0x16_0000;
    assert FromLittle(r) == 0x1600_0000;
  }

  /** The header of the hello-world element: a string tag and the name "hello". */
  lemma HelloHeader()
    ensures ElementHeader(HelloWorld, 4) == Some(Dispatch(Known(Utf8String), Hello.bytes, 11))
  {
    assert IsCString(Hello.bytes);
    assert HelloWorld[5..11] == Hello.bytes;
    HeaderOfCString(HelloWorld, 4, Hello.bytes);
    HandlerForTypeByte(Utf8String);
  }

  /**
   * The library's handlers are empty stubs, which leave the cursor where
   * it is (`handle_floating_point` copies 8 bytes without moving it).
   */
  const StubHandlers: Reader := (h: Handler, at: nat) => 0

  /**
   * With the stub handlers, the walk reads payload bytes as headers: the
   * 22 hello-world bytes give four handler calls, not one. After the
   * string element's header come the string's size field `06 00 00 00`,
   * read as an undefined element and an unknown one with empty names, and
   * the text, read as an unknown element named "orld".
   */
  lemma HelloWorldStubHandlers(host: ByteOrder)
    ensures Decoded(host, HelloWorld, 0, StubHandlers) == Ok(StubDispatches)
  {
    LengthReadBack(host, HelloWorld, 0, 22);
    assert EndOfWalk(0, 22) == 21;
    StubWalk();
  }

  /** The four calls: the string header, then payload bytes read as headers. */
  const StubDispatches: seq<Dispatch> := [
    Dispatch(Known(Utf8String), Hello.bytes, 11),
    Dispatch(Known(Undefined), [0x00], 13),
    Dispatch(UnknownType, [0x00], 15),
    Dispatch(UnknownType, [0x6F, 0x72, 0x6C, 0x64, 0x00], 21)]

  lemma StubWalk()
    ensures Walk(HelloWorld, 4, 21, StubHandlers) == Ok(StubDispatches)
  {
    var ds := StubDispatches;
    var d1, d2, d3, d4 := ds[0], ds[1], ds[2], ds[3];
    StubHeaders();
    assert d4.payloadAt == 21 && d3.payloadAt == 15 && d2.payloadAt == 13 && d1.payloadAt == 11;
    StubEnd();
    StubStep(15, d4, []);
    assert [d4] + [] == [d4];
    StubStep(13, d3, [d4]);
    assert [d3] + [d4] == [d3, d4];
    StubStep(11, d2, [d3, d4]);
    assert [d2] + [d3, d4] == [d2, d3, d4];
    StubStep(4, d1, [d2, d3, d4]);
    assert [d1] + [d2, d3, d4] == ds;
  }

  lemma StubEnd()
    ensures Walk(HelloWorld, 21, 21, StubHandlers) == Ok([])
  {
  }

  /** One step of the stub-handler walk: the header at `at`, and the cursor left at its payload. */
  lemma StubStep(at: nat, d: Dispatch, rest: seq<Dispatch>)
    requires at < 21 && ElementHeader(HelloWorld, at) == Some(d)
    requires Walk(HelloWorld, d.payloadAt, 21, StubHandlers) == Ok(rest)
    ensures Walk(HelloWorld, at, 21, StubHandlers) == Ok([d] + rest)
  {
    assert |HelloWorld| == 22;
    assert StubHandlers(d.handler, d.payloadAt) == 0;
    WalkHeader(HelloWorld, at, 21, StubHandlers, d);
    PrependOk([d], Walk(HelloWorld, d.payloadAt, 21, StubHandlers), rest);
  }

  /** The four headers the stub-handler walk reads in the hello-world bytes. */
  lemma StubHeaders()
    ensures ElementHeader(HelloWorld, 4) == Some(StubDispatches[0])
    ensures ElementHeader(HelloWorld, 11) == Some(StubDispatches[1])
    ensures ElementHeader(HelloWorld, 13) == Some(StubDispatches[2])
    ensures ElementHeader(HelloWorld, 15) == Some(StubDispatches[3])
  {
    var b := HelloWorld;
    HelloHeader();
    assert b[12..13] == [0x00] && b[14..15] == [0x00];
    assert b[16..21] == [0x6F, 0x72, 0x6C, 0x64, 0x00];
    assert IsCString([0x00]);
    assert IsCString([0x6F, 0x72, 0x6C, 0x64, 0x00]);
    HeaderOfCString(b, 11, [0x00]);
    HeaderOfCString(b, 13, [0x00]);
    HeaderOfCString(b, 15, [0x6F, 0x72, 0x6C, 0x64, 0x00]);
    HandlerForTypeByte(Undefined);
    assert b[11] == 0x06 && b[13] == 0x00 && b[15] == 0x77;
    assert TypeFromByte(0x00) == None && TypeFromByte(0x77) == None;
  }
}
