/**
 * `array_encoder`: a BSON array is a document whose element names are the
 * decimal indices "0", "1", "2", ... The encoder keeps an `unsigned int`
 * counter and a 128-byte work buffer; `index()` prints the counter into the
 * buffer with `%u` and bumps it, and every `encode_*` forwards to the
 * wrapped encoder with that name.
 */
module ArrayEncoders {
  import opened Bytes
  import opened DataViews
  import opened Sink
  import opened Layout
  import opened ArrayWriters
  import opened ConcreteEncoders
  import Bson

  /** `unsigned int` wraps at 2^32. */
  const UintModulus: nat := 0x1_0000_0000

  /** The size of `work_`. */
  const WorkSize: nat := 128

  predicate IsDigit(b: byte)
  {
    0x30 <= b <= 0x39
  }

  predicate AllDigits(s: seq<byte>)
  {
    forall i :: 0 <= i < |s| ==> IsDigit(s[i])
  }

  /** The character of one decimal digit. */
  function Digit(d: nat): (c: byte)
    requires d < 10
    ensures IsDigit(c) && c as int - 0x30 == d
  {
    (0x30 + d) as byte
  }

  /** The characters `%u` prints for `n`: decimal, most significant digit first, no leading zero. */
  function Decimal(n: nat): (r: seq<byte>)
    ensures |r| >= 1 && AllDigits(r)
    ensures n >= 10 ==> r[0] != 0x30
  {
    if n < 10 then [Digit(n)]
    else Decimal(n / 10) + [Digit(n % 10)]
  }

  /** The value of a string of decimal digits: the reading `%u` is the inverse of. */
  function ParseDecimal(s: seq<byte>): nat
    requires AllDigits(s)
  {
    if s == [] then 0
    else ParseDecimal(s[..|s| - 1]) * 10 + (s[|s| - 1] as int - 0x30)
  }

  /** Reading back what `%u` printed gives the number. */
  lemma {:induction false} DecimalRoundTrip(n: nat)
    ensures ParseDecimal(Decimal(n)) == n
  {
    if n >= 10 {
      var q, d := n / 10, n % 10;
      ParseLast(Decimal(q), Digit(d));
      DecimalRoundTrip(q);
      assert n == q * 10 + d;
    }
  }

  lemma ParseLast(s: seq<byte>, c: byte)
    requires AllDigits(s) && IsDigit(c)
    ensures ParseDecimal(s + [c]) == ParseDecimal(s) * 10 + (c as int - 0x30)
  {
    assert (s + [c])[..|s|] == s;
  }

  /** Distinct indices give distinct element names. */
  lemma DecimalInjective(m: nat, n: nat)
    ensures Decimal(m) == Decimal(n) ==> m == n
  {
    DecimalRoundTrip(m);
    DecimalRoundTrip(n);
  }

  function Pow10(k: nat): (r: nat)
    ensures r >= 1
  {
    if k == 0 then 1 else 10 * Pow10(k - 1)
  }

  /** A number below 10^k prints in at most k digits. */
  lemma {:induction false} DecimalLength(n: nat, k: nat)
    requires 1 <= k && n < Pow10(k)
    ensures |Decimal(n)| <= k
  {
    if n >= 10 {
      assert k != 1;
      DecimalLength(n / 10, k - 1);
    }
  }

  /** Any `unsigned int` prints in at most ten digits, so `work_` always holds it with its NUL. */
  lemma IndexFits(n: nat)
    requires n < UintModulus
    ensures |Decimal(n)| <= 10
  {
    assert Pow10(10) == 10_000_000_000;
    DecimalLength(n, 10);
  }

  /** The element name `index()` hands on for counter value `n`. */
  function IndexName(n: nat): (r: StringData)
    ensures IsCString(r.bytes) && |r.bytes| == |Decimal(n)| + 1
  {
    StringData(Decimal(n) + [0])
  }

  class ArrayEncoder {
    /** `encoder_`: the concrete encoder whose top frame is the array. */
    const target: ConcreteEncoder
    /** `index_`. */
    var index: nat
    /** `work_`. */
    const work: array<byte>

    ghost predicate Valid()
      reads this, target, target.writer, target.writer.buffer, target.Frames()
    {
      && target.Valid()
      && index < UintModulus
      && work.Length == WorkSize
      && work != target.writer.buffer
    }

    /** The counter starts at zero. */
    constructor (target: ConcreteEncoder)
      requires target.Valid()
      ensures this.target == target && index == 0
      ensures fresh(work)
      ensures Valid()
    {
      this.target := target;
      index := 0;
      work := new byte[WorkSize];
    }

    /** `ok()`: the wrapped encoder's flag. */
    method Ok() returns (r: bool)
      requires Valid() && |target.encoders| > 0
      ensures r == target.writer.ok
    {
      r := target.Ok();
    }

    /**
     * `index()`: `sprintf(work_, "%u", index_++)`, read back as a C string.
     * The name is the counter's decimal form; the counter advances modulo 2^32.
     */
    method Index() returns (name: StringData)
      requires Valid()
      modifies this`index, work
      ensures Valid()
      ensures name == IndexName(old(index))
      ensures index == (old(index) + 1) % UintModulus
    {
      var digits := Decimal(index);
      IndexFits(index);
      forall i | 0 <= i < |digits| {
        work[i] := digits[i];
      }
      work[|digits|] := 0;
      ghost var text := digits + [0];
      assert work[..] == text + work[|text|..];
      FromPointerCString(text, work[|text|..], SizeTSize);
      var r := FromPointer(work[..], SizeTSize);
      name := r.value;
      index := (index + 1) % UintModulus;
    }

    /** The `encode_*` methods: one element named by the next index. */
    method Encode(v: Value)
      requires Valid() && |target.encoders| > 0 && WellFormed(v)
      modifies this`index, work, target.writer, target.writer.buffer
      ensures Valid() && target.encoders == old(target.encoders) && target.Slots() == old(target.Slots())
      ensures index == (old(index) + 1) % UintModulus
      ensures target.writer.State() == Emit(old(target.writer.State()), ElementChunks(IndexName(old(index)), v))
    {
      var name := Index();
      target.Encode(name, v);
    }

    /** `start_subdocument()`: opens a subdocument named by the next index. */
    method StartSubdocument()
      requires Valid() && |target.encoders| > 0
      modifies this`index, work, target, target.writer, target.writer.buffer
      ensures Valid() && index == (old(index) + 1) % UintModulus
      ensures |target.encoders| == |old(target.encoders)| + 1
      ensures target.encoders[..|old(target.encoders)|] == old(target.encoders)
      ensures target.writer.State()
        == Emit(Emit(old(target.writer.State()), TypeAndNameChunks(Bson.Document, IndexName(old(index)))), [Sentinel])
    {
      var name := Index();
      target.StartSubdocument(name);
    }

    /** `start_subarray()`: opens a subarray named by the next index. */
    method StartSubarray()
      requires Valid() && |target.encoders| > 0
      modifies this`index, work, target, target.writer, target.writer.buffer
      ensures Valid() && index == (old(index) + 1) % UintModulus
      ensures |target.encoders| == |old(target.encoders)| + 1
      ensures target.encoders[..|old(target.encoders)|] == old(target.encoders)
      ensures target.writer.State()
        == Emit(Emit(old(target.writer.State()), TypeAndNameChunks(Bson.Array, IndexName(old(index)))), [Sentinel])
    {
      var name := Index();
      target.StartSubarray(name);
    }

    /** `finish()`: finishes the array's frame and hands back the wrapped encoder. */
    method Finish() returns (e: ConcreteEncoder)
      requires Valid() && |target.encoders| > 0
      modifies target, target.writer, target.writer.buffer
      ensures e == target
      ensures target.Valid() && target.encoders == old(target.encoders[..|target.encoders| - 1])
      ensures target.writer.State()
        == FinishState(old(target.writer.State()), old(target.Slots()[|target.encoders| - 1]))
    {
      target.Finish();
      e := target;
    }
  }
}
