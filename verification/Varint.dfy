/** Base 128 varints, zigzag integers and little-endian words, on byte sequences. */
module Varint {
  import opened Bytes
  import opened Parsing

  /** Least significant group first, the high bit of every byte but the last set. */
  function EncVarint(v: nat): (s: seq<byte>)
    ensures s != []
  {
    if v < 128 then [v] else [128 + v % 128] + EncVarint(v / 128)
  }

  /** The seven bits of a byte that carry data. */
  function Group(b: byte): (g: nat)
    ensures g < 128
  {
    if b >= 128 then b - 128 else b
  }

  /** Or-ing a group into a register of the given modulus at a bit position. */
  function OrGroup(result: nat, g: nat, bitpos: nat, modulus: nat): (r: nat)
    requires modulus > 0
    ensures r < modulus
  {
    Or(result, Shl(g, bitpos, modulus)) % modulus
  }

  /** The loop of pb_decode_varint, after k bytes. */
  function DecVarintFrom(s: seq<byte>, k: nat, result: nat): (r: Parsed<nat>)
    ensures r.Ok? ==> |r.rest| < |s| && r.value < TWO64
  {
    if 7 * k >= 64 || s == [] then
      Fail
    else
      var next := OrGroup(result, Group(s[0]), 7 * k, TWO64);
      if s[0] >= 128 then DecVarintFrom(s[1..], k + 1, next) else Ok(next, s[1..])
  }

  function DecVarint(s: seq<byte>): (r: Parsed<nat>)
    ensures r.Ok? ==> |r.rest| < |s| && r.value < TWO64
  {
    DecVarintFrom(s, 0, 0)
  }

  /** A byte that may stand at bit position 32 or above of a varint read into 32 bits. */
  predicate MayFollow(b: byte, bitpos: nat, result: nat) {
    Group(b) == 0 || (result >= 0x8000_0000 && b == (if bitpos < 63 then 0xFF else 0x01))
  }

  /** The eight-bit counter of pb_decode_varint32_eof wraps. */
  function NextBitpos(bitpos: nat): (r: nat)
    requires bitpos < 256
    ensures r < 256
  {
    if bitpos + 7 < 256 then bitpos + 7 else bitpos + 7 - 256
  }

  /**
   * The loop of pb_decode_varint32_eof after its first byte. No bound is put on the number of
   * bytes; a fifth and last byte must have its bits 4 to 6 clear.
   */
  function DecVarint32From(s: seq<byte>, bitpos: nat, result: nat): (r: Parsed<nat>)
    requires bitpos < 256 && result < TWO32
    ensures r.Ok? ==> |r.rest| < |s| && r.value < TWO32
  {
    if s == [] then
      Fail
    else if bitpos >= 32 && !MayFollow(s[0], bitpos, result) then
      Fail
    else
      var next := if bitpos >= 32 then result else OrGroup(result, Group(s[0]), bitpos, TWO32);
      if s[0] >= 128 then DecVarint32From(s[1..], NextBitpos(bitpos), next)
      else if NextBitpos(bitpos) == 35 && s[0] >= 16 then Fail
      else Ok(next, s[1..])
  }

  function DecVarint32(s: seq<byte>): (r: Parsed<nat>)
    ensures r.Ok? ==> |r.rest| < |s| && r.value < TWO32
  {
    if s == [] then Fail
    else if s[0] < 128 then Ok(s[0], s[1..])
    else DecVarint32From(s[1..], 7, Group(s[0]))
  }

  /** pb_skip_varint: everything up to the first byte without the high bit. */
  function SkipVarint(s: seq<byte>): (r: Parsed<()>)
    ensures r.Ok? ==> |r.rest| < |s|
  {
    if s == [] then Fail
    else if s[0] >= 128 then SkipVarint(s[1..])
    else Ok((), s[1..])
  }

  // ---- Arithmetic ----

  /** Or-ing a group into the bits above an accumulator that fits below them adds it. */
  lemma OrGroupAdds(result: nat, g: nat, bitpos: nat, p: nat, modulus: nat)
    requires p == Pow2(bitpos) && result < p && result + g * p < modulus
    ensures OrGroup(result, g, bitpos, modulus) == result + g * p
  {
    OrDisjoint(result, g, bitpos);
    SmallMod(g * p, modulus);
    SmallMod(result + g * p, modulus);
  }

  lemma NextAccumulator(result: nat, g: nat, p: nat)
    requires result < p && g < 128
    ensures result + g * p < 128 * p
  {
    MulMonotone(p, g, 127);
  }

  lemma NextGroup(k: nat)
    ensures Pow2(7 * (k + 1)) == 128 * Pow2(7 * k)
  {
    Pow2Add(7 * k, 7);
    Pow2Values();
    assert 7 * (k + 1) == 7 * k + 7;
  }

  // ---- The 64-bit decoder inverts the encoder ----

  /** The encoding of g + 128 w, for a group g and more groups w. */
  lemma EncSplit(g: nat, w: nat)
    requires g < 128 && w > 0
    ensures EncVarint(g + 128 * w) == [128 + g] + EncVarint(w)
  {
    assert (g + 128 * w) / 128 == w;
  }

  lemma {:induction false} DecEncFrom(v: nat, k: nat, result: nat, p: nat, tail: seq<byte>)
    requires p == Pow2(7 * k) && result < p && result + v * p < TWO64
    requires v > 0 || k == 0
    ensures DecVarintFrom(EncVarint(v) + tail, k, result) == Ok(result + v * p, tail)
    decreases v
  {
    hide Pow2, OrGroup;
    VarintRoom(v, k, p);
    if v < 128 {
      OrGroupAdds(result, v, 7 * k, p, TWO64);
      assert (EncVarint(v) + tail)[1..] == tail;
    } else {
      hide DecVarintFrom, EncVarint;
      var g, w := v % 128, v / 128;
      SplitProduct(v, g, w, p);
      OrGroupAdds(result, g, 7 * k, p, TWO64);
      NextAccumulator(result, g, p);
      NextGroup(k);
      DecStep(g, w, k, result, result + g * p, tail);
      DecEncFrom(w, k + 1, result + g * p, 128 * p, tail);
    }
  }

  lemma SplitProduct(v: nat, g: nat, w: nat, p: nat)
    requires v == g + 128 * w
    ensures v * p == g * p + w * (128 * p) && g * p <= v * p
  {
    assert (g + 128 * w) * p == g * p + (128 * w) * p;
    MulMonotone(128 * p, 0, w);
  }

  lemma DecStep(g: nat, w: nat, k: nat, result: nat, next: nat, tail: seq<byte>)
    requires g < 128 && w > 0 && 7 * k < 64 && next == OrGroup(result, g, 7 * k, TWO64)
    ensures DecVarintFrom(EncVarint(g + 128 * w) + tail, k, result) == DecVarintFrom(EncVarint(w) + tail, k + 1, next)
  {
    hide OrGroup;
    EncSplit(g, w);
    var s := EncVarint(g + 128 * w) + tail;
    assert s[0] == 128 + g && s[1..] == EncVarint(w) + tail;
  }

  /** A positive value placed at bit 7k below 2^64 leaves room: at most ten bytes are ever used. */
  lemma VarintRoom(v: nat, k: nat, p: nat)
    requires p == Pow2(7 * k) && v * p < TWO64
    requires v > 0 || k == 0
    ensures 7 * k < 64
  {
    if 7 * k >= 64 {
      Pow2Values();
      Pow2Monotone(64, 7 * k);
      MulMonotone(p, 1, v);
    }
  }

  /** pb_decode_varint inverts pb_encode_varint on every 64-bit value and stops where it ended. */
  lemma VarintRoundTrip(v: u64, tail: seq<byte>)
    ensures DecVarint(EncVarint(v) + tail) == Ok(v, tail)
  {
    DecEncFrom(v, 0, 0, 1, tail);
  }

  /** Skipping a varint takes exactly the encoder's bytes. */
  lemma {:induction false} SkipEncVarint(v: nat, tail: seq<byte>)
    ensures SkipVarint(EncVarint(v) + tail) == Ok((), tail)
  {
    var s := EncVarint(v) + tail;
    if v < 128 {
      assert s[1..] == tail;
    } else {
      assert s[1..] == EncVarint(v / 128) + tail;
      SkipEncVarint(v / 128, tail);
    }
  }

  // ---- The 32-bit decoder: exactly which 64-bit values it accepts, and what it makes of them ----

  /** The five low groups of a value and everything above them, from bit 35 up. */
  datatype Split = Split(a: nat, b: nat, c: nat, d: nat, e: nat, high: nat) {
    predicate Valid() { a < 128 && b < 128 && c < 128 && d < 128 && e < 128 }
    function Low(): nat { a + 0x80 * b + 0x4000 * c + 0x20_0000 * d }
    function Value(): nat { Low() + 0x1000_0000 * e + 0x8_0000_0000 * high }
  }

  function SplitOf(v: nat): (r: Split)
    ensures r.Valid() && r.Value() == v
  {
    var v1 := v / 128;
    var v2 := v1 / 128;
    var v3 := v2 / 128;
    var v4 := v3 / 128;
    Split(v % 128, v1 % 128, v2 % 128, v3 % 128, v4 % 128, v4 / 128)
  }

  /** The low 32 bits: four groups and four bits of the fifth. */
  function Word(r: Split): nat { r.Low() + 0x1000_0000 * (r.e % 16) }

  predicate AllZerosOrOnes(g: nat) { g == 0 || g == 127 }

  /**
   * The bits from 35 up when the low 32 bits came out negative or not: four groups that are each
   * all zeros or all ones, and then bit 63 alone.
   */
  predicate SignExtension(high: nat, negative: bool) {
    negative
    && AllZerosOrOnes(high % 128)
    && AllZerosOrOnes(high / 128 % 128)
    && AllZerosOrOnes(high / 128 / 128 % 128)
    && AllZerosOrOnes(high / 128 / 128 / 128 % 128)
    && high / 128 / 128 / 128 / 128 == 1
  }

  /**
   * What pb_decode_varint32 accepts: a 32-bit value, or a ten-byte one whose bit 31 is set and
   * whose bits from 35 up look like a sign extension. (Bits 32 to 34 share a byte with bits 28
   * to 31 and are not looked at when more bytes follow.)
   */
  predicate FitsWord(v: nat) {
    GroupsFitWord(SplitOf(v))
  }

  predicate GroupsFitWord(r: Split) {
    if r.high == 0 then r.e < 16 else SignExtension(r.high, Word(r) >= 0x8000_0000)
  }

  /** The loop from bit position 35 up. */
  predicate HighGroupsOk(w: nat, bitpos: nat, negative: bool) {
    if w < 128 then negative && bitpos >= 63 && w == 1
    else
      (w % 128 == 0 || (negative && bitpos < 63 && w % 128 == 127))
      && HighGroupsOk(w / 128, bitpos + 7, negative)
  }

  lemma {:induction false} HighGroups(w: nat, bitpos: nat, p: nat, result: nat, tail: seq<byte>)
    requires w > 0 && result < TWO32 && w < p && bitpos < 256
    requires HighPosition(bitpos, p)
    ensures DecVarint32From(EncVarint(w) + tail, bitpos, result)
            == if HighGroupsOk(w, bitpos, result >= 0x8000_0000) then Ok(result, tail) else Fail
    decreases w
  {
    var s := EncVarint(w) + tail;
    if w < 128 {
      assert s[0] == w && s[1..] == tail;
    } else {
      var g := w % 128;
      EncSplit(g, w / 128);
      assert s[0] == 128 + g && s[1..] == EncVarint(w / 128) + tail;
      HighGroups(w / 128, bitpos + 7, p / 128, result, tail);
    }
  }

  /** Bit positions from 35 up, with one more than the largest value that fits below bit 64. */
  predicate HighPosition(bitpos: nat, p: nat) {
    (bitpos == 35 && p == 0x2000_0000) || (bitpos == 42 && p == 0x40_0000) || (bitpos == 49 && p == 0x8000)
    || (bitpos == 56 && p == 0x100) || (bitpos == 63 && p == 2)
  }

  lemma HighGroupsMeaning(w: nat, negative: bool)
    requires 0 < w < 0x2000_0000
    ensures HighGroupsOk(w, 35, negative) <==> SignExtension(w, negative)
  {
    HighGroupsUnroll(w, 35, negative);
    if w >= 128 {
      HighGroupsUnroll(w / 128, 42, negative);
      if w / 128 >= 128 {
        HighGroupsUnroll(w / 128 / 128, 49, negative);
        if w / 128 / 128 >= 128 {
          HighGroupsUnroll(w / 128 / 128 / 128, 56, negative);
          if w / 128 / 128 / 128 >= 128 {
            HighGroupsUnroll(w / 128 / 128 / 128 / 128, 63, negative);
          }
        }
      }
    }
  }

  lemma HighGroupsUnroll(w: nat, bitpos: nat, negative: bool)
    ensures HighGroupsOk(w, bitpos, negative)
            == if w < 128 then negative && bitpos >= 63 && w == 1
               else (w % 128 == 0 || (negative && bitpos < 63 && w % 128 == 127))
                    && HighGroupsOk(w / 128, bitpos + 7, negative)
  {
  }

  /** The bit positions below 28 after the first byte, with their weights. */
  predicate LowPosition(bitpos: nat, p: nat) {
    (bitpos == 7 && p == 0x80) || (bitpos == 14 && p == 0x4000) || (bitpos == 21 && p == 0x20_0000)
  }

  lemma LowOr(result: nat, g: nat, bitpos: nat, p: nat)
    requires LowPosition(bitpos, p) && result < p && g < 128
    ensures OrGroup(result, g, bitpos, TWO32) == result + g * p
  {
    Pow2Values();
    NextAccumulator(result, g, p);
    OrGroupAdds(result, g, bitpos, p, TWO32);
  }

  /** Below bit 28 the loop only accumulates. */
  lemma LowGroup(g: nat, w: nat, bitpos: nat, p: nat, result: nat, tail: seq<byte>)
    requires g < 128 && LowPosition(bitpos, p) && result < p
    ensures result + g * p < 128 * p
    ensures w > 0 ==> DecVarint32From(EncVarint(g + 128 * w) + tail, bitpos, result)
                      == DecVarint32From(EncVarint(w) + tail, bitpos + 7, result + g * p)
    ensures w == 0 ==> DecVarint32From(EncVarint(g) + tail, bitpos, result) == Ok(result + g * p, tail)
  {
    hide OrGroup, Pow2;
    NextAccumulator(result, g, p);
    LowOr(result, g, bitpos, p);
    if w > 0 {
      EncSplit(g, w);
      hide EncVarint;
      var s := EncVarint(g + 128 * w) + tail;
      assert s[0] == 128 + g && s[1..] == EncVarint(w) + tail;
    } else {
      var s := EncVarint(g) + tail;
      assert s[0] == g && s[1..] == tail;
    }
  }

  lemma FifthByteOr(g: nat, result: nat)
    requires result < 0x1000_0000 && g < 128
    ensures OrGroup(result, g, 28, TWO32) == result + 0x1000_0000 * (g % 16)
  {
    Pow2Values();
    var low := g % 16;
    assert g * 0x1000_0000 == TWO32 * (g / 16) + low * 0x1000_0000;
    assert Shl(g, 28, TWO32) == low * 0x1000_0000;
    OrDisjoint(result, low, 28);
    SmallMod(result + low * 0x1000_0000, TWO32);
  }

  /** The fifth byte: four of its bits still fit. */
  lemma FifthByte(e: nat, high: nat, result: nat, tail: seq<byte>)
    requires result < 0x1000_0000 && e < 128 && high < 0x2000_0000
    ensures DecVarint32From(EncVarint(e + 128 * high) + tail, 28, result)
            == (var word := result + 0x1000_0000 * (e % 16);
                if (if high == 0 then e < 16 else HighGroupsOk(high, 35, word >= 0x8000_0000))
                then Ok(word, tail) else Fail)
  {
    FifthByteOr(e, result);
    var word := result + 0x1000_0000 * (e % 16);
    var s := EncVarint(e + 128 * high) + tail;
    if high > 0 {
      EncSplit(e, high);
      assert s[0] == 128 + e && s[1..] == EncVarint(high) + tail;
      HighGroups(high, 35, 0x2000_0000, word, tail);
    } else {
      assert s[0] == e && s[1..] == tail;
    }
  }

  /** The first byte, and then the loop from bit 7. */
  lemma FirstGroup(g: nat, w: nat, tail: seq<byte>)
    requires g < 128
    ensures DecVarint32(EncVarint(g + 128 * w) + tail)
            == if w == 0 then Ok(g, tail) else DecVarint32From(EncVarint(w) + tail, 7, g)
  {
    var s := EncVarint(g + 128 * w) + tail;
    if w > 0 {
      EncSplit(g, w);
      assert s[0] == 128 + g && s[1..] == EncVarint(w) + tail;
    } else {
      assert s[0] == g && s[1..] == tail;
    }
  }

  lemma Horner(r: Split, w1: nat)
    requires w1 == r.b + 128 * (r.c + 128 * (r.d + 128 * (r.e + 128 * r.high)))
    ensures r.Value() == r.a + 128 * w1
  {
  }

  /** The accumulator after the four low groups, or the result when there are no more. */
  lemma FourGroups(r: Split, tail: seq<byte>)
    requires r.Valid()
    ensures var w4 := r.e + 128 * r.high;
            DecVarint32(EncVarint(r.Value()) + tail)
            == if w4 == 0 then Ok(r.Low(), tail) else DecVarint32From(EncVarint(w4) + tail, 28, r.Low())
  {
    hide EncVarint, DecVarint32From, DecVarint32, OrGroup;
    var w4 := r.e + 128 * r.high;
    var w3 := r.d + 128 * w4;
    var w2 := r.c + 128 * w3;
    var w1 := r.b + 128 * w2;
    Horner(r, w1);
    FirstGroup(r.a, w1, tail);
    LowGroup(r.b, w2, 7, 0x80, r.a, tail);
    LowGroup(r.c, w3, 14, 0x4000, r.a + r.b * 0x80, tail);
    LowGroup(r.d, w4, 21, 0x20_0000, r.a + r.b * 0x80 + r.c * 0x4000, tail);
  }

  lemma WordMod(word: nat, q: nat)
    requires word < TWO32
    ensures (word + TWO32 * q) % TWO32 == word
  {
  }

  lemma WordIsLow(r: Split)
    requires r.Valid()
    ensures Word(r) == r.Value() % TWO32
  {
    var word := Word(r);
    var q := r.e / 16 + 8 * r.high;
    assert r.e == r.e % 16 + 16 * (r.e / 16);
    assert r.Value() == word + TWO32 * q;
    assert word < TWO32;
    WordMod(word, q);
  }

  lemma Varint32OfGroups(r: Split, tail: seq<byte>)
    requires r.Valid() && r.high < 0x2000_0000
    ensures DecVarint32(EncVarint(r.Value()) + tail) == if GroupsFitWord(r) then Ok(Word(r), tail) else Fail
  {
    hide EncVarint, DecVarint32From, DecVarint32, SignExtension, HighGroupsOk;
    FourGroups(r, tail);
    FifthByte(r.e, r.high, r.Low(), tail);
    if r.high > 0 {
      HighGroupsMeaning(r.high, Word(r) >= 0x8000_0000);
    }
  }

  /**
   * pb_decode_varint32 on anything pb_encode_varint wrote: it accepts exactly the values that
   * FitsWord describes, and then returns the low 32 bits and stops where the encoding ended.
   */
  lemma Varint32OfEncoded(v: u64, tail: seq<byte>)
    ensures DecVarint32(EncVarint(v) + tail) == if FitsWord(v) then Ok(v % TWO32, tail) else Fail
  {
    hide EncVarint, DecVarint32From, DecVarint32, SplitOf, GroupsFitWord;
    var r := SplitOf(v);
    Varint32OfGroups(r, tail);
    WordIsLow(r);
  }

  /** 32-bit values arrive unchanged, negative 32-bit integers by their low word; [2^32, 2^63) is refused. */
  lemma Varint32Cases(v: u64, tail: seq<byte>)
    ensures v < TWO32 ==> DecVarint32(EncVarint(v) + tail) == Ok(v, tail)
    ensures v >= TWO64 - 0x8000_0000 ==> DecVarint32(EncVarint(v) + tail) == Ok(v - (TWO64 - TWO32), tail)
    ensures TWO32 <= v < 0x8000_0000_0000_0000 ==> DecVarint32(EncVarint(v) + tail) == Fail
  {
    hide EncVarint, DecVarint32From, DecVarint32, SplitOf;
    Varint32OfEncoded(v, tail);
    var r := SplitOf(v);
    if v < TWO32 {
      assert r.high == 0;
      SmallMod(v, TWO32);
    } else if v >= TWO64 - 0x8000_0000 {
      assert r.high == 0x1FFF_FFFF;
      NegativeWord(v);
      WordIsLow(r);
    } else if v < 0x8000_0000_0000_0000 {
      assert r.high < 0x1000_0000;
    }
  }

  lemma NegativeWord(v: u64)
    requires v >= TWO64 - 0x8000_0000
    ensures v % TWO32 == v - (TWO64 - TWO32)
  {
    var u := v - (TWO64 - TWO32);
    assert v == u + TWO32 * 0xFFFF_FFFF;
    SmallMod(u, TWO32);
  }
}
