/** Incoming DTLS handshake messages and the bitmask that says which bytes have arrived. */
module Reassembly {
  import opened Bytes
  import opened Bits
  import opened Words

  const HEADER_LENGTH: nat := 12

  /** The 12-byte header of a fragment of a handshake message (RFC 6347, section 4.2.2). */
  function HeaderBytes(typ: byte, msgLen: nat, seqNo: nat, off: nat, len: nat): (s: seq<byte>)
    ensures |s| == HEADER_LENGTH
  {
    [typ] + ToBigEndian(msgLen, 3) + ToBigEndian(seqNo, 2) + ToBigEndian(off, 3) + ToBigEndian(len, 3)
  }

  /** A message as if it had never been fragmented. */
  function Unfragmented(typ: byte, seqNo: nat, body: seq<byte>): seq<byte> {
    HeaderBytes(typ, |body|, seqNo, 0, |body|) + body
  }

  /** The byte indices from start up to end. */
  function Range(start: nat, end: nat): (r: set<nat>)
    ensures forall k :: k in r <==> start <= k < end
  {
    if start >= end then {} else Range(start, end - 1) + {end - 1}
  }

  // ---- Bitmasks ----

  /** The bit of byte k of the message. */
  predicate MaskBit(mask: seq<byte>, k: nat)
    requires k < 8 * |mask|
  {
    BitAt(mask[k / 8], k % 8)
  }

  /** The mask is the characteristic function of the set. */
  ghost predicate Covers(mask: seq<byte>, got: set<nat>) {
    forall k :: 0 <= k < 8 * |mask| ==> (MaskBit(mask, k) <==> k in got)
  }

  lemma ClearMask(n: nat)
    ensures Covers(seq(n, _ => 0), {})
  {
    var mask: seq<byte> := seq(n, _ => 0);
    forall k | 0 <= k < 8 * n ensures !MaskBit(mask, k) {
      ZeroBits(k % 8);
    }
  }

  /** bit_range: the bits from start up to end, in an eight-bit result. */
  function BitRange(start: nat, end: nat): (b: byte)
    requires start <= 8 && end <= 8
  {
    var below := Pow2(start) - 1;
    Pow2Monotone(start, 8);
    EightBits();
    Pow2Monotone(8, 32);
    And(Not(below, 32), Pow2(end) - 1) % 256
  }

  lemma BitRangeBits(start: nat, end: nat, j: nat)
    requires start <= 8 && end <= 8 && j < 8
    ensures BitAt(BitRange(start, end), j) <==> start <= j < end
  {
    hide And, BitAt;
    EightBits();
    Pow2Monotone(start, 32);
    var below, upto := Pow2(start) - 1, Pow2(end) - 1;
    KeptBits(And(Not(below, 32), upto), 8, j);
    AndBits(Not(below, 32), upto, j);
    NotBits(below, 32, j);
    OnesBits(start, j);
    OnesBits(end, j);
  }

  /** Or-ing a bit range into byte i. */
  lemma ByteMarked(mask: seq<byte>, got: set<nat>, i: nat, start: nat, end: nat, b: byte)
    requires i < |mask| && start <= 8 && end <= 8 && Covers(mask, got)
    requires b == Or(mask[i], BitRange(start, end))
    ensures Covers(mask[i := b], got + Range(8 * i + start, 8 * i + end))
  {
    var mask' := mask[i := b];
    forall k | 0 <= k < 8 * |mask'|
      ensures MaskBit(mask', k) <==> k in got + Range(8 * i + start, 8 * i + end)
    {
      assert MaskBit(mask, k) <==> k in got;
      if k / 8 == i {
        OrBits(mask[i], BitRange(start, end), k % 8);
        BitRangeBits(start, end, k % 8);
        assert k == 8 * i + k % 8;
      }
    }
  }

  lemma ByteFilled(mask: seq<byte>, got: set<nat>, i: nat)
    requires i < |mask| && Covers(mask, got)
    ensures Covers(mask[i := 0xFF], got + Range(8 * i, 8 * i + 8))
  {
    var mask' := mask[i := 0xFF];
    EightBits();
    forall k | 0 <= k < 8 * |mask'| ensures MaskBit(mask', k) <==> k in got + Range(8 * i, 8 * i + 8) {
      assert MaskBit(mask, k) <==> k in got;
      if k / 8 == i {
        OnesBits(8, k % 8);
      }
    }
  }

  lemma OrByte(a: byte, b: byte)
    ensures Or(a, b) < 256
  {
    EightBits();
    OrBound(a, b, 8);
  }

  /** Byte i is a run of r ones exactly when its first r message bytes, and no others, have arrived. */
  lemma ByteComplete(mask: seq<byte>, got: set<nat>, i: nat, r: nat)
    requires i < |mask| && r <= 8 && Covers(mask, got)
    requires forall k :: k in got && k / 8 == i ==> k < 8 * i + r
    ensures mask[i] == BitRange(0, r) <==> Range(8 * i, 8 * i + r) <= got
    ensures r == 8 ==> BitRange(0, r) == 0xFF
  {
    hide BitAt, BitRange, Range;
    FullByte();
    if mask[i] == BitRange(0, r) {
      forall k | k in Range(8 * i, 8 * i + r) ensures k in got {
        BitRangeBits(0, r, k - 8 * i);
        assert MaskBit(mask, k);
      }
    }
    if Range(8 * i, 8 * i + r) <= got {
      forall j | 0 <= j < 8 ensures BitAt(mask[i], j) <==> BitAt(BitRange(0, r), j) {
        ByteBit(mask, got, i, r, j);
      }
      EightBits();
      SameBits(mask[i], BitRange(0, r), 8);
    }
  }

  lemma ByteBit(mask: seq<byte>, got: set<nat>, i: nat, r: nat, j: nat)
    requires i < |mask| && r <= 8 && j < 8 && Covers(mask, got)
    requires forall k :: k in got && k / 8 == i ==> k < 8 * i + r
    requires Range(8 * i, 8 * i + r) <= got
    ensures BitAt(mask[i], j) <==> BitAt(BitRange(0, r), j)
  {
    hide BitAt, BitRange;
    BitRangeBits(0, r, j);
    var k := 8 * i + j;
    assert k / 8 == i && k % 8 == j;
    assert MaskBit(mask, k) <==> k in got;
    assert j < r ==> k in Range(8 * i, 8 * i + r);
  }

  lemma FullByte()
    ensures BitRange(0, 8) == 0xFF
  {
    EightBits();
    forall j | 0 <= j < 8 ensures BitAt(BitRange(0, 8), j) <==> BitAt(0xFF, j) {
      BitRangeBits(0, 8, j);
      OnesBits(8, j);
    }
    SameBits(BitRange(0, 8), 0xFF, 8);
  }

  // ---- Fragments ----

  class HmFragment {
    const typ: byte
    const seqNo: nat
    const msgLen: nat
    const data: array<byte>
    var reassembly: array?<byte>   // null when the message is complete
    ghost var got: set<nat>        // which bytes of the body have arrived

    ghost predicate Valid()
      reads this, data, reassembly
    {
      data.Length == HEADER_LENGTH + msgLen
      && data[..HEADER_LENGTH] == HeaderBytes(typ, msgLen, seqNo, 0, msgLen)
      && got <= Range(0, msgLen)
      && (reassembly == null <==> got == Range(0, msgLen))
      && (reassembly != null ==>
            reassembly != data && reassembly.Length == (msgLen + 7) / 8 && Covers(reassembly[..], got))
    }

    ghost function Body(): seq<byte>
      requires data.Length >= HEADER_LENGTH
      reads this, data
    {
      data[HEADER_LENGTH..]
    }

    /** dtls1_hm_fragment_new */
    constructor (typ: byte, seqNo: nat, msgLen: nat)
      ensures Valid() && got == {} && fresh(data) && (reassembly == null || fresh(reassembly))
      ensures this.typ == typ && this.seqNo == seqNo && this.msgLen == msgLen
      ensures forall k :: 0 <= k < msgLen ==> Body()[k] == 0
    {
      this.typ, this.seqNo, this.msgLen := typ, seqNo, msgLen;
      var header := HeaderBytes(typ, msgLen, seqNo, 0, msgLen);
      data := new byte[HEADER_LENGTH + msgLen](i => if 0 <= i < HEADER_LENGTH then header[i] else 0);
      got := {};
      if msgLen > 0 {
        reassembly := new byte[(msgLen + 7) / 8](_ => 0);
      } else {
        reassembly := null;
      }
      new;
      if msgLen > 0 {
        ClearMask(reassembly.Length);
        assert reassembly[..] == seq(reassembly.Length, _ => 0);
        assert 0 in Range(0, msgLen);
      }
    }

    /** The completeness check at the end of dtls1_hm_fragment_mark. */
    method IsComplete(mask: array<byte>) returns (complete: bool)
      requires mask.Length == (msgLen + 7) / 8 && got <= Range(0, msgLen) && Covers(mask[..], got)
      ensures complete <==> got == Range(0, msgLen)
    {
      ghost var m := mask[..];
      var i := 0;
      while i < msgLen / 8
        invariant 0 <= i <= msgLen / 8
        invariant Range(0, 8 * i) <= got
      {
        ByteComplete(m, got, i, 8);
        if mask[i] != 0xFF {
          assert m[i] != 0xFF;
          assert !(Range(0, msgLen) <= got);
          return false;
        }
        assert forall k :: k in Range(0, 8 * (i + 1)) ==> k in Range(0, 8 * i) || k in Range(8 * i, 8 * i + 8);
        i := i + 1;
      }
      if msgLen % 8 != 0 {
        ByteComplete(m, got, msgLen / 8, msgLen % 8);
        if mask[msgLen / 8] != BitRange(0, msgLen % 8) {
          assert m[msgLen / 8] != BitRange(0, msgLen % 8);
          assert !(Range(0, msgLen) <= got);
          return false;
        }
        assert forall k :: k in Range(0, msgLen) ==> k in Range(0, 8 * i) || k in Range(8 * i, 8 * i + msgLen % 8);
      }
      assert Range(0, msgLen) <= got;
      return true;
    }

    /** dtls1_hm_fragment_mark: after any marks, bit k is set exactly when some range contained k. */
    method Mark(start: nat, end: nat)
      requires Valid() && reassembly != null && start <= end <= msgLen
      modifies this`reassembly, this`got, reassembly
      ensures Valid() && got == old(got) + Range(start, end)
      ensures reassembly == null || reassembly == old(reassembly)
      ensures reassembly == null <==> Range(0, msgLen) <= old(got) + Range(start, end)
    {
      if start == end {
        assert got + Range(start, end) == got;
        return;
      }
      var mask := reassembly;
      ghost var was := got;
      MarkBits(mask, start, end);
      assert got <= Range(0, msgLen);
      var complete := IsComplete(mask);
      if complete {
        reassembly := null;
      }
    }

    /** Copies part of the body into place and marks it, as dtls1_open_handshake does. */
    method Store(off: nat, part: seq<byte>)
      requires Valid() && reassembly != null && off + |part| <= msgLen
      modifies this, data, reassembly
      ensures Valid() && got == old(got) + Range(off, off + |part|)
      ensures reassembly == null || reassembly == old(reassembly)
      ensures Body() == old(Body())[..off] + part + old(Body())[off + |part|..]
    {
      ghost var header := data[..HEADER_LENGTH];
      forall i | 0 <= i < |part| {
        data[HEADER_LENGTH + off + i] := part[i];
      }
      assert data[..HEADER_LENGTH] == header;
      assert Body() == old(Body())[..off] + part + old(Body())[off + |part|..];
      Mark(off, off + |part|);
    }

    /** The updates of the bitmask in dtls1_hm_fragment_mark. */
    method MarkBits(mask: array<byte>, start: nat, end: nat)
      requires start < end <= msgLen && mask.Length == (msgLen + 7) / 8 && Covers(mask[..], got)
      modifies this`got, mask
      ensures got == old(got) + Range(start, end) && Covers(mask[..], got)
    {
      hide Covers, BitRange, Or, Range;
      var first, last := start / 8, end / 8;
      ghost var m := mask[..];
      OrByte(mask[first], BitRange(start % 8, if first == last then end % 8 else 8));
      if first == last {
        mask[first] := Or(mask[first], BitRange(start % 8, end % 8));
        assert mask[..] == m[first := mask[first]];
        ByteMarked(m, got, first, start % 8, end % 8, mask[first]);
        assert Range(start, end) == Range(8 * first + start % 8, 8 * first + end % 8);
        got := got + Range(start, end);
      } else {
        mask[first] := Or(mask[first], BitRange(start % 8, 8));
        assert mask[..] == m[first := mask[first]];
        ByteMarked(m, got, first, start % 8, 8, mask[first]);
        got := got + Range(start, 8 * (first + 1));
        var i := first + 1;
        while i < last
          invariant first < i <= last
          invariant got == old(got) + Range(start, 8 * i) && Covers(mask[..], got)
        {
          m := mask[..];
          mask[i] := 0xFF;
          assert mask[..] == m[i := 0xFF];
          ByteFilled(m, got, i);
          assert Range(start, 8 * (i + 1)) == Range(start, 8 * i) + Range(8 * i, 8 * i + 8);
          got := got + Range(8 * i, 8 * i + 8);
          i := i + 1;
        }
        if end % 8 != 0 {
          m := mask[..];
          OrByte(mask[last], BitRange(0, end % 8));
          mask[last] := Or(mask[last], BitRange(0, end % 8));
          assert mask[..] == m[last := mask[last]];
          ByteMarked(m, got, last, 0, end % 8, mask[last]);
          assert Range(start, end) == Range(start, 8 * last) + Range(8 * last, 8 * last + end % 8);
          got := got + Range(8 * last, 8 * last + end % 8);
        }
      }
    }
  }
}
