/**
 * The byte tables of the library (`bson.hpp`): element type tags, the
 * value bytes of null and booleans, binary subtypes and the object id
 * length, as fixed by the BSON 1.1 specification.
 */
module Bson {
  import opened Bytes
  import opened Wrappers

  /**
   * The element types. The deprecated `undefined` and `db_pointer`
   * enumerators are aliases with the same byte as their `_no_deprecated`
   * spellings, so each is one constructor here.
   */
  datatype BsonType =
    | FloatingPoint | Utf8String | Document | Array | Binary | Undefined
    | ObjectId | Boolean | UtcDatetime | Null | Regex | DbPointer
    | Javascript | Symbol | ScopedJavascript | Int32 | Timestamp | Int64
    | MinKey | MaxKey

  /** The tag byte written before an element of type `t`. */
  function TypeByte(t: BsonType): (b: byte)
    ensures 0x01 <= b <= 0x12 || b == 0x7F || b == 0xFF
    ensures (b == 0x7F) == (t == MaxKey) && (b == 0xFF) == (t == MinKey)
  {
    match t
    case FloatingPoint => 0x01
    case Utf8String => 0x02
    case Document => 0x03
    case Array => 0x04
    case Binary => 0x05
    case Undefined => 0x06
    case ObjectId => 0x07
    case Boolean => 0x08
    case UtcDatetime => 0x09
    case Null => 0x0A
    case Regex => 0x0B
    case DbPointer => 0x0C
    case Javascript => 0x0D
    case Symbol => 0x0E
    case ScopedJavascript => 0x0F
    case Int32 => 0x10
    case Timestamp => 0x11
    case Int64 => 0x12
    case MinKey => 0xFF
    case MaxKey => 0x7F
  }

  /** The enumerator a byte names, if any. */
  function TypeFromByte(b: byte): (r: Option<BsonType>)
    ensures r.Some? ==> TypeByte(r.value) == b
    ensures r.None? <==> (b == 0x00 || (0x13 <= b && b != 0x7F && b != 0xFF))
  {
    if b == 0x01 then Some(FloatingPoint)
    else if b == 0x02 then Some(Utf8String)
    else if b == 0x03 then Some(Document)
    else if b == 0x04 then Some(Array)
    else if b == 0x05 then Some(Binary)
    else if b == 0x06 then Some(Undefined)
    else if b == 0x07 then Some(ObjectId)
    else if b == 0x08 then Some(Boolean)
    else if b == 0x09 then Some(UtcDatetime)
    else if b == 0x0A then Some(Null)
    else if b == 0x0B then Some(Regex)
    else if b == 0x0C then Some(DbPointer)
    else if b == 0x0D then Some(Javascript)
    else if b == 0x0E then Some(Symbol)
    else if b == 0x0F then Some(ScopedJavascript)
    else if b == 0x10 then Some(Int32)
    else if b == 0x11 then Some(Timestamp)
    else if b == 0x12 then Some(Int64)
    else if b == 0xFF then Some(MinKey)
    else if b == 0x7F then Some(MaxKey)
    else None
  }

  /** Every tag reads back as its own type, so distinct types have distinct tags. */
  lemma TypeByteRoundTrip(t: BsonType)
    ensures TypeFromByte(TypeByte(t)) == Some(t)
  {
  }

  lemma TypeByteInjective(t1: BsonType, t2: BsonType)
    requires TypeByte(t1) == TypeByte(t2)
    ensures t1 == t2
  {
    TypeByteRoundTrip(t1);
    TypeByteRoundTrip(t2);
  }

  /** `values::null` and `values::false_`. */
  const NullValue: byte := 0x00
  const FalseValue: byte := 0x00
  /** `values::true_`. */
  const TrueValue: byte := 0x01

  datatype BinarySubtype = Generic | Function | OldBinary | Uuid | Md5 | User

  function SubtypeByte(s: BinarySubtype): (b: byte)
    ensures b <= 0x05 || b == 0x80
    ensures (b == 0x80) == (s == User)
  {
    match s
    case Generic => 0x00
    case Function => 0x01
    case OldBinary => 0x02
    case Uuid => 0x03
    case Md5 => 0x05
    case User => 0x80
  }

  lemma SubtypeByteInjective(s1: BinarySubtype, s2: BinarySubtype)
    requires SubtypeByte(s1) == SubtypeByte(s2)
    ensures s1 == s2
  {
  }

  /** `k_object_id_length`. */
  const ObjectIdLength: nat := 12
}
