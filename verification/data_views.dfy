/**
 * Views over caller memory: `generic_binary_data` with its size clamp,
 * the fixed-length object id view, and `generic_string_data` with its
 * constructors and `check_size`.
 *
 * A pointer is modelled by the memory it can reach: `region` is the
 * sequence of bytes from the pointer to the end of the object it points
 * into. A view keeps the bytes it covers; building a view that reaches past
 * `region` is `OutOfBounds`.
 */
module DataViews {
  import opened Bytes
  import opened Wrappers
  import Bson

  /** The int32 range (`length_t`, `std::int32_t`). */
  predicate IsInt32(v: int)
  {
    -0x8000_0000 <= v < 0x8000_0000
  }

  /** The size the base constructor stores: `size_ >= 0 ? size_ : 0`. */
  function ClampSize(size: int): (r: nat)
    ensures size >= 0 ==> r == size
    ensures size < 0 ==> r == 0
  {
    if size >= 0 then size else 0
  }

  /** The bytes a binary view covers; its `size` is `|bytes|`. */
  datatype BinaryData = BinaryData(bytes: seq<byte>)

  /** `binary_cdata(data, size)`: an int32 size, negative sizes clamped to 0. */
  function MakeBinary(region: seq<byte>, size: int): (r: Result<BinaryData>)
    requires IsInt32(size)
    ensures r.Ok? <==> ClampSize(size) <= |region|
    ensures r.Ok? ==> |r.value.bytes| == ClampSize(size) && r.value.bytes <= region
  {
    var n := ClampSize(size);
    if n <= |region| then Ok(BinaryData(region[..n])) else Err(OutOfBounds)
  }

  /** `object_id_cdata(data)`: always `k_object_id_length` bytes, whatever the pointer. */
  function MakeObjectId(region: seq<byte>): (r: Result<BinaryData>)
    ensures r.Ok? <==> Bson.ObjectIdLength <= |region|
    ensures r.Ok? ==> |r.value.bytes| == 12 && r.value.bytes <= region
  {
    if Bson.ObjectIdLength <= |region| then Ok(BinaryData(region[..Bson.ObjectIdLength]))
    else Err(OutOfBounds)
  }

  /**
   * The size type of a string view: `length_t` for `string_cdata`,
   * `std::size_t` for `cstring_cdata`.
   */
  datatype SizeType = Int32Size | SizeTSize

  function MaxOf(st: SizeType): nat
  {
    match st
    case Int32Size => 0x7FFF_FFFF
    case SizeTSize => 0xFFFF_FFFF_FFFF_FFFF
  }

  /**
   * The bytes a string view covers. Its `size` is `|bytes|` and, when it
   * was built correctly, counts the terminating NUL.
   */
  datatype StringData = StringData(bytes: seq<byte>)

  predicate NullIncluded(bytes: seq<byte>)
  {
    |bytes| >= 1 && bytes[|bytes| - 1] == 0
  }

  /** A BSON cstring: NUL-terminated with no NUL before the end. */
  predicate IsCString(bytes: seq<byte>)
  {
    NullIncluded(bytes) && forall i :: 0 <= i < |bytes| - 1 ==> bytes[i] != 0
  }

  /**
   * `check_size<size_t>` for a view whose size type is `st`: the argument
   * is a `size_t`, so the check runs only for an int32 size type, and
   * aborts when the size does not fit.
   */
  function CheckSize(st: SizeType, size: nat): (r: Result<nat>)
    requires size <= MaxOf(SizeTSize)
    ensures r.Ok? <==> size <= MaxOf(st)
    ensures r.Ok? ==> r.value == size
    ensures r.Err? ==> r.failure == Abort
  {
    match st
    case Int32Size => if MaxOf(Int32Size) < size then Err(Abort) else Ok(size)
    case SizeTSize => Ok(size)
  }

  /**
   * The null-included constructor: the base constructor clamps the size,
   * then the debug assertion requires the last covered byte to be NUL.
   */
  function FromNullIncluded(region: seq<byte>, size: int): (r: Result<StringData>)
    ensures r.Ok? <==> 1 <= ClampSize(size) <= |region| && region[ClampSize(size) - 1] == 0
    ensures r.Ok? ==> r.value.bytes == region[..ClampSize(size)] && NullIncluded(r.value.bytes)
  {
    var n := ClampSize(size);
    if n > |region| then Err(OutOfBounds)
    else if n == 0 then Err(OutOfBounds)
    else if region[n - 1] != 0 then Err(AssertionFailure)
    else Ok(StringData(region[..n]))
  }

  /** `(str, strlen_str)`: size `strlen_str + 1`, passed through `check_size`. */
  function FromLength(region: seq<byte>, strlen: nat, st: SizeType): (r: Result<StringData>)
    requires strlen < MaxOf(SizeTSize)
    ensures r.Ok? <==> strlen + 1 <= MaxOf(st) && strlen < |region| && region[strlen] == 0
    ensures r.Ok? ==> r.value.bytes == region[..strlen + 1]
    ensures r.Err? && strlen + 1 > MaxOf(st) ==> r.failure == Abort
  {
    match CheckSize(st, strlen + 1)
    case Err(f) => Err(f)
    case Ok(size) => FromNullIncluded(region, size)
  }

  /** The position of the first NUL in `region`, as `std::strlen` finds it. */
  function StrLen(region: seq<byte>): (r: Option<nat>)
    ensures r.Some? ==> r.value < |region| && region[r.value] == 0
    ensures r.Some? ==> forall i :: 0 <= i < r.value ==> region[i] != 0
    ensures r.None? ==> forall i :: 0 <= i < |region| ==> region[i] != 0
  {
    if region == [] then None
    else if region[0] == 0 then Some(0)
    else match StrLen(region[1..])
      case None => None
      case Some(n) => Some(n + 1)
  }

  /**
   * The bare-pointer constructor: `std::strlen`, then the length
   * constructor. With no NUL in reach, `strlen` reads past the region.
   */
  function FromPointer(region: seq<byte>, st: SizeType): (r: Result<StringData>)
    requires |region| < MaxOf(SizeTSize)
    ensures r.Ok? ==> IsCString(r.value.bytes) && r.value.bytes <= region
  {
    match StrLen(region)
    case None => Err(OutOfBounds)
    case Some(n) => FromLength(region, n, st)
  }

  /** The bytes `c_str()` exposes for a `std::string` holding `s`. */
  function CStr(s: seq<byte>): seq<byte>
  {
    s + [0]
  }

  /** The `std::string` constructor: `length()` as the strlen, so the size is `|s| + 1`. */
  function FromStdString(s: seq<byte>, st: SizeType): (r: Result<StringData>)
    requires |s| < MaxOf(SizeTSize)
    ensures r.Ok? <==> |s| + 1 <= MaxOf(st)
    ensures r.Ok? ==> r.value.bytes == CStr(s)
  {
    assert CStr(s)[|s|] == 0;
    assert CStr(s)[..|s| + 1] == CStr(s);
    FromLength(CStr(s), |s|, st)
  }

  /**
   * The literal-tag constructor as written: it forwards `(&str[0], N)` to
   * the length constructor, which takes N as a strlen and checks the byte
   * at index N, one past the N-element array.
   */
  function FromLiteralAsWritten(chars: seq<byte>, st: SizeType): (r: Result<StringData>)
    requires |chars| < MaxOf(SizeTSize)
  {
    FromLength(chars, |chars|, st)
  }

  /** No literal array, however it is terminated, yields a view as written. */
  lemma LiteralAsWrittenNeverBuilds(chars: seq<byte>, st: SizeType)
    requires |chars| < MaxOf(SizeTSize)
    ensures FromLiteralAsWritten(chars, st).Err?
  {
  }

  /** The literal `"hi"` (three bytes with its NUL) reads past its array as written. */
  lemma LiteralAsWrittenCounterexample()
    ensures FromLiteralAsWritten([0x68, 0x69, 0x00], Int32Size) == Err(OutOfBounds)
    ensures FromLiteral([0x68, 0x69, 0x00], Int32Size) == Ok(StringData([0x68, 0x69, 0x00]))
  {
  }

  /**
   * The literal constructor as evidently intended: a NUL-terminated array
   * of N elements gives a view of size N.
   */
  function FromLiteral(chars: seq<byte>, st: SizeType): (r: Result<StringData>)
    ensures r.Ok? <==> NullIncluded(chars) && |chars| <= MaxOf(st)
    ensures r.Ok? ==> r.value.bytes == chars
  {
    if |chars| > MaxOf(st) then Err(Abort) else FromNullIncluded(chars, |chars|)
  }

  /** The pointer constructor applied to a terminated string yields exactly that string. */
  lemma {:induction false} FromPointerCString(s: seq<byte>, rest: seq<byte>, st: SizeType)
    requires IsCString(s) && |s| <= MaxOf(st) && |s + rest| < MaxOf(SizeTSize)
    ensures FromPointer(s + rest, st) == Ok(StringData(s))
  {
    StrLenOfCString(s, rest);
    assert (s + rest)[..|s|] == s;
  }

  lemma {:induction false} StrLenOfCString(s: seq<byte>, rest: seq<byte>)
    requires IsCString(s)
    ensures StrLen(s + rest) == Some(|s| - 1)
  {
    if |s| > 1 {
      assert (s + rest)[1..] == s[1..] + rest;
      StrLenOfCString(s[1..], rest);
    }
  }
}
