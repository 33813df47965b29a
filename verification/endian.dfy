/**
 * Byte-order conversion: `endian::converter<>` and the generic
 * `native_to_little` / `little_to_native` templates, and the four
 * `host_to_little_endian` / `little_endian_to_host` overloads the encoder
 * calls.
 *
 * Integers are unbounded here, so a fixed-width value is a `nat` below
 * 256^width, and the host's byte order is an explicit parameter: the
 * in-memory image of a value (what `memcpy` copies) is its little-endian
 * bytes on a little-endian host and their reverse on a big-endian one.
 */
module Endian {
  import opened Bytes

  /** 256^n, the number of distinct n-byte values. */
  function Pow256(n: nat): (r: nat)
    ensures r >= 1
  {
    if n == 0 then 1 else 256 * Pow256(n - 1)
  }

  /** The `width` little-endian bytes of `x` (taken modulo 256^width). */
  function LittleBytes(width: nat, x: nat): (r: seq<byte>)
    ensures |r| == width
  {
    if width == 0 then [] else [(x % 256) as byte] + LittleBytes(width - 1, x / 256)
  }

  /** The bytes of `b + 256 * rest`: `b`, then those of `rest`. */
  lemma LittleBytesStep(width: nat, b: nat, rest: nat)
    requires b < 256
    ensures LittleBytes(width + 1, b + 256 * rest) == [b as byte] + LittleBytes(width, rest)
  {
    DivModByte(b, rest);
  }

  /** The unsigned value whose little-endian bytes are `bytes`. */
  function FromLittle(bytes: seq<byte>): (r: nat)
    ensures r < Pow256(|bytes|)
  {
    if bytes == [] then 0 else bytes[0] as nat + 256 * FromLittle(bytes[1..])
  }

  function Reverse(s: seq<byte>): (r: seq<byte>)
    ensures |r| == |s|
    ensures forall i :: 0 <= i < |s| ==> r[i] == s[|s| - 1 - i]
  {
    if s == [] then [] else Reverse(s[1..]) + [s[0]]
  }

  lemma ReverseReverse(s: seq<byte>)
    ensures Reverse(Reverse(s)) == s
  {
    var r := Reverse(Reverse(s));
    assert |r| == |s|;
    forall i | 0 <= i < |s| ensures r[i] == s[i] {
      assert r[i] == Reverse(s)[|s| - 1 - i];
    }
  }

  /** Reading back the bytes of an in-range value gives the value. */
  lemma {:induction false} FromLittleBytes(width: nat, x: nat)
    requires x < Pow256(width)
    ensures FromLittle(LittleBytes(width, x)) == x
  {
    if width > 0 {
      SplitByte(x, Pow256(width - 1));
      FromLittleBytes(width - 1, x / 256);
      var b := LittleBytes(width, x);
      assert b[1..] == LittleBytes(width - 1, x / 256);
      assert b[0] as nat == x % 256;
    }
  }

  lemma SplitByte(x: nat, p: nat)
    requires x < 256 * p
    ensures x / 256 < p && x == x % 256 + 256 * (x / 256)
  {
  }

  /** Writing out the value of a byte sequence gives the same bytes. */
  lemma {:induction false} LittleBytesFrom(bytes: seq<byte>)
    ensures LittleBytes(|bytes|, FromLittle(bytes)) == bytes
  {
    if bytes != [] {
      LittleBytesFrom(bytes[1..]);
      LittleBytesStep(|bytes| - 1, bytes[0] as nat, FromLittle(bytes[1..]));
      assert bytes == [bytes[0]] + bytes[1..];
    }
  }

  lemma DivModByte(b: nat, rest: nat)
    requires b < 256
    ensures (b + 256 * rest) % 256 == b && (b + 256 * rest) / 256 == rest
  {
  }

  /** The byte order of the machine the code is compiled for. */
  datatype ByteOrder = LittleEndian | BigEndian

  /** The `width` bytes an unsigned value occupies in memory on `host`. */
  function InMemory(host: ByteOrder, width: nat, x: nat): (r: seq<byte>)
    ensures |r| == width
  {
    match host
    case LittleEndian => LittleBytes(width, x)
    case BigEndian => Reverse(LittleBytes(width, x))
  }

  /** The unsigned value a `memcpy` of `bytes` into an integer yields on `host`. */
  function FromMemory(host: ByteOrder, bytes: seq<byte>): (r: nat)
    ensures r < Pow256(|bytes|)
  {
    match host
    case LittleEndian => FromLittle(bytes)
    case BigEndian => FromLittle(Reverse(bytes))
  }

  lemma MemoryRoundTrip(host: ByteOrder, width: nat, x: nat)
    requires x < Pow256(width)
    ensures FromMemory(host, InMemory(host, width, x)) == x
  {
    FromLittleBytes(width, x);
    if host == BigEndian {
      ReverseReverse(LittleBytes(width, x));
    }
  }

  /** Reverses the order of the `width` bytes of x. */
  function ByteSwap(width: nat, x: nat): nat
  {
    FromLittle(Reverse(LittleBytes(width, x)))
  }

  lemma ByteSwapBytes(width: nat, x: nat)
    ensures LittleBytes(width, ByteSwap(width, x)) == Reverse(LittleBytes(width, x))
  {
    LittleBytesFrom(Reverse(LittleBytes(width, x)));
  }

  lemma ByteSwapInvolution(width: nat, x: nat)
    requires x < Pow256(width)
    ensures ByteSwap(width, ByteSwap(width, x)) == x
  {
    ByteSwapBytes(width, x);
    ReverseReverse(LittleBytes(width, x));
    FromLittleBytes(width, x);
  }

  /** The widths `converter<>` is specialised for: uint8, uint16, uint32, uint64. */
  predicate ConverterWidth(width: nat)
  {
    width == 1 || width == 2 || width == 4 || width == 8
  }

  /**
   * `converter<uintN>::native_to_little`: the identity for uint8, `htoleN`
   * otherwise (the identity on a little-endian host, a byte swap on a
   * big-endian one).
   */
  function ConverterNativeToLittle(host: ByteOrder, width: nat, t: nat): nat
    requires ConverterWidth(width)
  {
    if width == 1 then t
    else match host
      case LittleEndian => t
      case BigEndian => ByteSwap(width, t)
  }

  /** `converter<uintN>::little_to_native`: the identity for uint8, `leNtoh` otherwise. */
  function ConverterLittleToNative(host: ByteOrder, width: nat, t: nat): nat
    requires ConverterWidth(width)
  {
    if width == 1 then t
    else match host
      case LittleEndian => t
      case BigEndian => ByteSwap(width, t)
  }

  /** The result of `native_to_little` sits in memory as the value's little-endian bytes. */
  lemma ConverterStoresLittle(host: ByteOrder, width: nat, t: nat)
    requires ConverterWidth(width) && t < Pow256(width)
    ensures InMemory(host, width, ConverterNativeToLittle(host, width, t)) == LittleBytes(width, t)
  {
    if width == 1 {
      assert Reverse(LittleBytes(1, t)) == LittleBytes(1, t);
    } else if host == BigEndian {
      ByteSwapBytes(width, t);
      ReverseReverse(LittleBytes(width, t));
    }
  }

  /** For every converter width and host, converting to little-endian and back is the identity. */
  lemma ConverterRoundTrip(host: ByteOrder, width: nat, t: nat)
    requires ConverterWidth(width) && t < Pow256(width)
    ensures ConverterLittleToNative(host, width, ConverterNativeToLittle(host, width, t)) == t
  {
    if width != 1 && host == BigEndian {
      ByteSwapInvolution(width, t);
    }
  }

  lemma ConverterBounded(host: ByteOrder, width: nat, t: nat)
    requires ConverterWidth(width) && t < Pow256(width)
    ensures ConverterNativeToLittle(host, width, t) < Pow256(width)
  {
    if width != 1 && host == BigEndian {
      assert |Reverse(LittleBytes(width, t))| == width;
    }
  }

  /** An integer type of the source: its width in bytes and whether it is signed. */
  datatype IntType = IntType(width: nat, signed: bool)

  predicate InRange(t: IntType, v: int)
  {
    if t.signed then -(Pow256(t.width) / 2) <= v < Pow256(t.width) / 2
    else 0 <= v < Pow256(t.width)
  }

  /**
   * The bit pattern of `v` read as the same-width unsigned type (two's
   * complement); Dafny's `%` is Euclidean, so this is also the truncating
   * conversion of an out-of-range value.
   */
  function ToUnsigned(width: nat, v: int): (u: nat)
    ensures u < Pow256(width)
  {
    v % Pow256(width)
  }

  /** The signed value whose two's-complement bit pattern is `u`. */
  function ToSigned(width: nat, u: nat): int
  {
    if u >= Pow256(width) / 2 then u - Pow256(width) else u
  }

  lemma Pow256Values()
    ensures Pow256(1) == 0x100 && Pow256(2) == 0x1_0000
    ensures Pow256(4) == 0x1_0000_0000 && Pow256(8) == 0x1_0000_0000_0000_0000
  {
    assert Pow256(2) == 256 * Pow256(1);
    assert Pow256(4) == 256 * 256 * Pow256(2);
    assert Pow256(8) == 256 * 256 * 256 * 256 * Pow256(4);
  }

  lemma SignedRoundTrip(width: nat, v: int)
    requires ConverterWidth(width) && -(Pow256(width) / 2) <= v < Pow256(width) / 2
    ensures ToSigned(width, ToUnsigned(width, v)) == v
  {
    Pow256Values();
    var p := Pow256(width);
    assert p / 2 * 2 == p;
    WrapOnce(v, p);
  }

  lemma WrapOnce(v: int, p: int)
    requires 0 < p && -p <= v < p
    ensures v % p == if v >= 0 then v else v + p
  {
  }

  lemma UnsignedRoundTrip(width: nat, u: nat)
    requires ConverterWidth(width) && u < Pow256(width)
    ensures ToUnsigned(width, ToSigned(width, u)) == u
  {
    Pow256Values();
  }

  /** `*reinterpret_cast<UT*>(&t)`: the unsigned bit pattern of a value of type `t`. */
  function AsUnsigned(t: IntType, v: int): nat
  {
    ToUnsigned(t.width, v)
  }

  /** Converting an unsigned result back to the type `t` (the implicit return conversion). */
  function FromUnsigned(t: IntType, u: nat): int
  {
    if t.signed then ToSigned(t.width, u) else u
  }

  /** Generic `native_to_little<T>`: convert through the same-width unsigned type. */
  function NativeToLittle(host: ByteOrder, t: IntType, v: int): int
    requires ConverterWidth(t.width)
  {
    FromUnsigned(t, ConverterNativeToLittle(host, t.width, AsUnsigned(t, v)))
  }

  /** Generic `little_to_native<T>`: as written it calls `native_to_little` of the converter. */
  function LittleToNative(host: ByteOrder, t: IntType, v: int): int
    requires ConverterWidth(t.width)
  {
    FromUnsigned(t, ConverterNativeToLittle(host, t.width, AsUnsigned(t, v)))
  }

  /**
   * Even though `little_to_native` calls `native_to_little`, the round trip
   * holds for every in-range value, because a byte swap is its own inverse.
   */
  lemma GenericRoundTrip(host: ByteOrder, t: IntType, v: int)
    requires ConverterWidth(t.width) && InRange(t, v)
    ensures LittleToNative(host, t, NativeToLittle(host, t, v)) == v
  {
    if t.signed {
      SignedGenericRoundTrip(host, t.width, v);
    } else {
      UnsignedGenericRoundTrip(host, t.width, v);
    }
  }

  lemma SignedGenericRoundTrip(host: ByteOrder, w: nat, v: int)
    requires ConverterWidth(w) && -(Pow256(w) / 2) <= v < Pow256(w) / 2
    ensures LittleToNative(host, IntType(w, true), NativeToLittle(host, IntType(w, true), v)) == v
  {
    var u := ToUnsigned(w, v);
    ConverterBounded(host, w, u);
    var c := ConverterNativeToLittle(host, w, u);
    UnsignedRoundTrip(w, c);
    ConverterRoundTrip(host, w, u);
    SignedRoundTrip(w, v);
  }

  lemma UnsignedGenericRoundTrip(host: ByteOrder, w: nat, v: int)
    requires ConverterWidth(w) && 0 <= v < Pow256(w)
    ensures LittleToNative(host, IntType(w, false), NativeToLittle(host, IntType(w, false), v)) == v
  {
    var t := IntType(w, false);
    SmallMod(v, Pow256(w));
    ConverterBounded(host, w, v);
    var c := ConverterNativeToLittle(host, w, v);
    SmallMod(c, Pow256(w));
    ConverterRoundTrip(host, w, v);
  }

  lemma SmallMod(x: nat, m: nat)
    requires x < m
    ensures x % m == x
  {
  }

  const Int32Type := IntType(4, true)
  const Int64Type := IntType(8, true)

  /** `host_to_little_endian(int32_t)`: `htole32` applied to the value's bit pattern. */
  function HostToLittleEndian32(host: ByteOrder, v: int): int
  {
    ToSigned(4, ConverterNativeToLittle(host, 4, ToUnsigned(4, v)))
  }

  /** `host_to_little_endian(int64_t)`: `htole64` applied to the value's bit pattern. */
  function HostToLittleEndian64(host: ByteOrder, v: int): int
  {
    ToSigned(8, ConverterNativeToLittle(host, 8, ToUnsigned(8, v)))
  }

  /** `little_endian_to_host(int32_t)`: `le32toh` applied to the value's bit pattern. */
  function LittleEndianToHost32(host: ByteOrder, v: int): int
  {
    ToSigned(4, ConverterLittleToNative(host, 4, ToUnsigned(4, v)))
  }

  /** `little_endian_to_host(int64_t)`: `le64toh` applied to the value's bit pattern. */
  function LittleEndianToHost64(host: ByteOrder, v: int): int
  {
    ToSigned(8, ConverterLittleToNative(host, 8, ToUnsigned(8, v)))
  }

  /** The in-memory bytes of `host_to_little_endian(v)` for an int32 are v's four little-endian bytes. */
  lemma HostToLittleEndian32Bytes(host: ByteOrder, v: int)
    ensures InMemory(host, 4, ToUnsigned(4, HostToLittleEndian32(host, v))) == LittleBytes(4, ToUnsigned(4, v))
  {
    var u := ToUnsigned(4, v);
    ConverterBounded(host, 4, u);
    UnsignedRoundTrip(4, ConverterNativeToLittle(host, 4, u));
    ConverterStoresLittle(host, 4, u);
  }

  /** The in-memory bytes of `host_to_little_endian(v)` for an int64 are v's eight little-endian bytes. */
  lemma HostToLittleEndian64Bytes(host: ByteOrder, v: int)
    ensures InMemory(host, 8, ToUnsigned(8, HostToLittleEndian64(host, v))) == LittleBytes(8, ToUnsigned(8, v))
  {
    var u := ToUnsigned(8, v);
    ConverterBounded(host, 8, u);
    UnsignedRoundTrip(8, ConverterNativeToLittle(host, 8, u));
    ConverterStoresLittle(host, 8, u);
  }

  /** `little_endian_to_host` inverts `host_to_little_endian` on every int32. */
  lemma Int32RoundTrip(host: ByteOrder, v: int)
    requires -0x8000_0000 <= v < 0x8000_0000
    ensures LittleEndianToHost32(host, HostToLittleEndian32(host, v)) == v
  {
    assert Pow256(4) == 0x1_0000_0000;
    var u := ToUnsigned(4, v);
    ConverterBounded(host, 4, u);
    UnsignedRoundTrip(4, ConverterNativeToLittle(host, 4, u));
    ConverterRoundTrip(host, 4, u);
    SignedRoundTrip(4, v);
  }

  /** `little_endian_to_host` inverts `host_to_little_endian` on every int64. */
  lemma Int64RoundTrip(host: ByteOrder, v: int)
    requires -0x8000_0000_0000_0000 <= v < 0x8000_0000_0000_0000
    ensures LittleEndianToHost64(host, HostToLittleEndian64(host, v)) == v
  {
    assert Pow256(8) == 0x1_0000_0000_0000_0000;
    var u := ToUnsigned(8, v);
    ConverterBounded(host, 8, u);
    UnsignedRoundTrip(8, ConverterNativeToLittle(host, 8, u));
    ConverterRoundTrip(host, 8, u);
    SignedRoundTrip(8, v);
  }

  /** The four wire bytes of an int32 field: little-endian, value truncated to 32 bits. */
  function Int32Bytes(v: int): (r: seq<byte>)
    ensures |r| == 4
  {
    LittleBytes(4, ToUnsigned(4, v))
  }

  /** The eight wire bytes of an int64 field. */
  function Int64Bytes(v: int): (r: seq<byte>)
    ensures |r| == 8
  {
    LittleBytes(8, ToUnsigned(8, v))
  }

  /** The int32 stored little-endian in `bytes[at..at + 4]`. */
  function ReadInt32(bytes: seq<byte>, at: nat): int
    requires at + 4 <= |bytes|
  {
    ToSigned(4, FromLittle(bytes[at..at + 4]))
  }

  /** An int32 field reads back as the value written. */
  lemma Int32BytesRead(v: int, bytes: seq<byte>, at: nat)
    requires -0x8000_0000 <= v < 0x8000_0000
    requires at + 4 <= |bytes| && bytes[at..at + 4] == Int32Bytes(v)
    ensures ReadInt32(bytes, at) == v
  {
    assert Pow256(4) == 0x1_0000_0000;
    FromLittleBytes(4, ToUnsigned(4, v));
    SignedRoundTrip(4, v);
  }

  /**
   * `read_length_from_address`: four bytes copied into a `length_t` in
   * memory, with no byte-order conversion.
   */
  function ReadLengthFromAddress(host: ByteOrder, region: seq<byte>): (v: int)
    requires |region| >= 4
  {
    ToSigned(4, FromMemory(host, region[..4]))
  }

  /**
   * The raw read is the little-endian reading of the four bytes on a
   * little-endian host, and the little-endian reading of them reversed on
   * a big-endian host.
   */
  lemma ReadLengthFromAddressHosts(region: seq<byte>)
    requires |region| >= 4
    ensures ReadLengthFromAddress(LittleEndian, region) == ReadInt32(region, 0)
    ensures ReadLengthFromAddress(BigEndian, region) == ReadInt32(Reverse(region[..4]), 0)
  {
    assert region[..4] == region[0..4];
    assert Reverse(region[..4])[0..4] == Reverse(region[..4]);
  }

  /**
   * `read_length_from_document`: `read_length_from_address`, then
   * `little_endian_to_host`. On either host this is the little-endian
   * reading of the bytes.
   */
  function ReadLengthFromDocument(host: ByteOrder, region: seq<byte>): (v: int)
    requires |region| >= 4
  {
    LittleEndianToHost32(host, ReadLengthFromAddress(host, region))
  }

  lemma ReadLengthIsLittleEndian(host: ByteOrder, region: seq<byte>)
    requires |region| >= 4
    ensures ReadLengthFromDocument(host, region) == ReadInt32(region, 0)
  {
    var b := region[..4];
    var m := FromMemory(host, b);
    UnsignedRoundTrip(4, m);
    if host == BigEndian {
      LittleBytesFrom(Reverse(b));
      ReverseReverse(b);
      assert ByteSwap(4, m) == FromLittle(b);
    }
  }

  lemma LittleBytesZero(width: nat)
    ensures LittleBytes(width, 0) == seq(width, _ => 0 as byte)
  {
    if width > 0 {
      LittleBytesZero(width - 1);
    }
  }

  /** A length below 256 is one low byte followed by three zero bytes. */
  lemma SmallInt32Bytes(v: int)
    requires 0 <= v < 256
    ensures Int32Bytes(v) == [v as byte, 0, 0, 0]
  {
    Pow256Values();
    assert ToUnsigned(4, v) == v;
    LittleBytesZero(3);
    LittleBytesStep(3, v, 0);
  }

  /** Truncating a value to int32 first does not change its four wire bytes. */
  lemma Int32Truncation(v: int)
    ensures Int32Bytes(ToSigned(4, ToUnsigned(4, v))) == Int32Bytes(v)
  {
    Pow256Values();
    UnsignedRoundTrip(4, ToUnsigned(4, v));
  }
}
