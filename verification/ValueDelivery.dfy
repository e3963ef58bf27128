/** Each field decoder inverts its field encoder, and each skip takes one value. */
module ValueDelivery {
  import opened Bytes
  import opened Parsing
  import opened Varint
  import opened Words
  import opened Descriptor
  import opened Encoding
  import opened Decoding
  import opened Contents

  /** The value a reader stores: a string loses what followed its NUL. */
  function Stored(f: Field, v: Value): Value {
    if f.ltype.Text? && v.Raw? then Raw(UpToNul(v.bytes)) else v
  }

  lemma VarintValue(f: Field, n: int, tail: seq<byte>)
    requires IntSize(f.dataSize) && InSigned(n, Modulus(f.dataSize))
    ensures DecVarintValue(f, EncVarint(n % TWO64) + tail) == Ok(Num(n), tail)
  {
    hide EncVarint, DecVarint, Signed;
    VarintRoundTrip(n % TWO64, tail);
    if f.dataSize == 8 {
      SignedOfWrapped(n, TWO64);
    } else {
      LowWord(n);
      SignedOfWrapped(n, TWO32);
      SignedOfWrapped(n, Modulus(f.dataSize));
      SameWord(n % TWO64, n);
    }
  }

  lemma LowWord(n: int)
    ensures n % TWO64 % TWO32 == n % TWO32
  {
    var q, r := n / TWO64, n % TWO64;
    assert n == TWO64 * q + r;
    ModUnique(n, TWO32, TWO32 * q + r / TWO32, r % TWO32);
  }

  lemma SameWord(a: int, b: int)
    requires a % TWO32 == b % TWO32
    ensures Signed(a, TWO32) == Signed(b, TWO32)
  {
  }

  lemma UVarintValue(f: Field, n: nat, tail: seq<byte>)
    requires IntSize(f.dataSize) && n < Modulus(f.dataSize)
    ensures DecUVarintValue(f, EncVarint(n) + tail) == Ok(Num(n), tail)
  {
    hide EncVarint, DecVarint;
    VarintRoundTrip(n, tail);
    SmallMod(n, Modulus(f.dataSize));
  }

  lemma SVarintValue(f: Field, n: int, tail: seq<byte>)
    requires IntSize(f.dataSize) && InSigned(n, Modulus(f.dataSize))
    ensures DecSVarintValue(f, EncVarint(ZigZag(n)) + tail) == Ok(Num(n), tail)
  {
    hide EncVarint, DecVarint, ZigZag, UnZigZag, Signed;
    VarintRoundTrip(ZigZag(n), tail);
    ZigZagRoundTrip(n);
    SignedOfWrapped(n, Modulus(f.dataSize));
  }

  lemma FixedValue(n: nat, size: nat, tail: seq<byte>)
    requires (size == 4 && n < TWO32) || (size == 8 && n < TWO64)
    ensures DecFixedValue(size, LittleEndian(n, size) + tail) == Ok(Num(n), tail)
    ensures Take(LittleEndian(n, size) + tail, size) == Ok(LittleEndian(n, size), tail)
  {
    hide LittleEndian, FromLittleEndian;
    var b := LittleEndian(n, size);
    Pow2Values();
    LittleEndianRoundTrip(n, size);
    assert (b + tail)[..size] == b && (b + tail)[size..] == tail;
  }

  /** A length-prefixed string, read back. */
  lemma StringValue(b: seq<byte>, tail: seq<byte>)
    ensures EncString(b) + tail == EncVarint(|b|) + (b + tail)
    ensures |b| < TWO32 ==>
              DecVarint32(EncString(b) + tail) == Ok(|b|, b + tail)
              && Take(b + tail, |b|) == Ok(b, tail)
              && DecString(EncString(b) + tail) == Ok(b, tail)
    ensures TWO32 <= |b| < 0x8000_0000_0000_0000 ==> DecVarint32(EncString(b) + tail) == Fail
  {
    hide EncVarint, DecVarint32;
    assert EncString(b) + tail == EncVarint(|b|) + (b + tail);
    if |b| < TWO64 {
      Varint32Cases(|b|, b + tail);
    }
    assert (b + tail)[..|b|] == b && (b + tail)[|b|..] == tail;
  }

  lemma RawValue(f: Field, b: seq<byte>, tail: seq<byte>)
    requires f.dataSize < TWO32
    ensures forall header: nat :: |b| + header <= f.dataSize ==>
              DecBlobValue(f, header, EncString(b) + tail) == Ok(Raw(b), tail)
    ensures |b| <= f.dataSize ==>
              DecTextValue(f, EncString(b) + tail) == if |b| < f.dataSize then Ok(Raw(b), tail) else Fail
    ensures |b| == f.dataSize ==> DecFixedLengthValue(f, EncString(b) + tail) == Ok(Raw(b), tail)
  {
    hide EncString, DecVarint32;
    StringValue(b, tail);
    if |b| == 0 {
      assert b == Zeros(0);
    }
  }

  /** Every value but a submessage: taken in exactly when it can be, and then as it was. */
  lemma ScalarArrives(f': Field, f: Field, v: Value, bytes: seq<byte>, tail: seq<byte>, prior: Value)
    requires !f.ltype.Submessage? && !f'.ltype.Submessage? && FitsField(f', f) && f.dataSize < TWO32
    requires TypedValue(f, v) && EncValue(f, v) == Some(bytes)
    ensures DecValue(f', bytes + tail, prior) == if ValueArrives(f', f, v) then Ok(Stored(f, v), tail) else Fail
  {
    hide EncVarint, EncString, DecVarintValue, DecUVarintValue, DecSVarintValue, DecFixedValue;
    hide DecBlobValue, DecTextValue, DecFixedLengthValue, LittleEndian;
    match f.ltype
    case Varint => VarintValue(f', v.n, tail);
    case UVarint => UVarintValue(f', v.n, tail);
    case SVarint => SVarintValue(f', v.n, tail);
    case Fixed32 => FixedValue(v.n, 4, tail);
    case Fixed64 => FixedValue(v.n, 8, tail);
    case Blob(_) => RawValue(f', v.bytes, tail);
    case Text => RawValue(f', UpToNul(v.bytes), tail);
    case FixedLengthBlob => RawValue(f', v.bytes, tail);
  }

  lemma StoredLooksSame(f': Field, f: Field, v: Value)
    requires FitsField(f', f) && !f.ltype.Submessage? && TypedValue(f, v)
    ensures ContentOf(f', f', Stored(f, v)) == ContentOf(f', f, v)
  {
    if f.ltype.Text? {
      UpToNulIdempotent(v.bytes);
    }
  }

  lemma {:induction false} UpToNulIdempotent(b: seq<byte>)
    ensures UpToNul(UpToNul(b)) == UpToNul(b)
  {
    if b != [] && b[0] != 0 {
      UpToNulIdempotent(b[1..]);
      assert UpToNul(b)[1..] == UpToNul(b[1..]);
    }
  }

  /** A reader that does not know the field steps over exactly one value. */
  lemma ValueSkipped(f: Field, v: Value, bytes: seq<byte>, tail: seq<byte>)
    requires GoodField(f) && TypedValue(f, v) && EncValue(f, v) == Some(bytes)
    requires |bytes| < 0x8000_0000_0000_0000
    ensures SkipField(WireType(f.ltype), bytes + tail) == if ValueSkippable(f, v) then Ok((), tail) else Fail
  {
    hide EncVarint, EncString, SkipVarint, DecString, GoodFields, Typed, LittleEndian;
    match f.ltype
    case Varint => SkipEncVarint(v.n % TWO64, tail);
    case UVarint => SkipEncVarint(v.n, tail);
    case SVarint => SkipEncVarint(ZigZag(v.n), tail);
    case Fixed32 => FixedValue(v.n, 4, tail);
    case Fixed64 => FixedValue(v.n, 8, tail);
    case Blob(_) => StringSkipped(v.bytes, tail);
    case Text => StringSkipped(UpToNul(v.bytes), tail);
    case FixedLengthBlob => StringSkipped(v.bytes, tail);
    case Submessage(sub) => StringSkipped(EncStruct(sub, v.cells).value, tail);
  }

  lemma StringSkipped(b: seq<byte>, tail: seq<byte>)
    requires |EncString(b)| < 0x8000_0000_0000_0000
    ensures DecString(EncString(b) + tail) == if |b| < TWO32 then Ok(b, tail) else Fail
  {
    StringValue(b, tail);
  }
}
