/** Zigzag integers and little-endian words. */
module Words {
  import opened Bytes

  /** pb_encode_svarint: doubled in a 64-bit register, complemented when the value is negative. */
  function ZigZag(value: int): (r: u64)
    requires -0x8000_0000_0000_0000 <= value < 0x8000_0000_0000_0000
  {
    var doubled := (value * 2) % TWO64;
    if value < 0 then TWO64 - 1 - doubled else doubled
  }

  /** pb_decode_svarint. */
  function UnZigZag(value: u64): (r: int)
    ensures -0x8000_0000_0000_0000 <= r < 0x8000_0000_0000_0000
  {
    if value % 2 == 1 then Signed(TWO64 - 1 - value / 2, TWO64) else Signed(value / 2, TWO64)
  }

  lemma ZigZagRoundTrip(value: int)
    requires -0x8000_0000_0000_0000 <= value < 0x8000_0000_0000_0000
    ensures UnZigZag(ZigZag(value)) == value
  {
    if value < 0 {
      assert (value * 2) % TWO64 == value * 2 + TWO64 by {
        Reduce(value * 2 + TWO64, -1);
      }
      assert ZigZag(value) == -2 * value - 1;
      assert (-2 * value - 1) / 2 == -value - 1;
    } else {
      Reduce(value * 2, 0);
    }
  }

  lemma Reduce(x: nat, q: int)
    requires x < TWO64
    ensures (x + q * TWO64) % TWO64 == x
  {
  }

  /** The k low bytes of n, least significant first. */
  function LittleEndian(n: nat, k: nat): (s: seq<byte>)
    ensures |s| == k
  {
    if k == 0 then [] else [n % 256] + LittleEndian(n / 256, k - 1)
  }

  function FromLittleEndian(s: seq<byte>): nat {
    if s == [] then 0 else s[0] + 256 * FromLittleEndian(s[1..])
  }

  lemma {:induction false} LittleEndianRoundTrip(n: nat, k: nat)
    requires n < Pow2(8 * k)
    ensures FromLittleEndian(LittleEndian(n, k)) == n
  {
    if k > 0 {
      Pow2Add(8, 8 * (k - 1));
      EightBits();
      hide Pow2;
      DivBound(n, Pow2(8 * (k - 1)));
      assert LittleEndian(n, k)[1..] == LittleEndian(n / 256, k - 1);
      LittleEndianRoundTrip(n / 256, k - 1);
    }
  }

  lemma {:induction false} FromLittleEndianBound(s: seq<byte>)
    ensures FromLittleEndian(s) < Pow2(8 * |s|)
  {
    if s != [] {
      FromLittleEndianBound(s[1..]);
      Pow2Add(8, 8 * (|s| - 1));
      assert Pow2(8) == 256 by { assert Pow2(4) == 16; Pow2Add(4, 4); }
    }
  }

  /** Big-endian value of a byte sequence. */
  function BigEndian(s: seq<byte>): nat {
    if s == [] then 0 else 256 * BigEndian(s[..|s| - 1]) + s[|s| - 1]
  }

  /** The k low bytes of n, most significant first. */
  function ToBigEndian(n: nat, k: nat): (s: seq<byte>)
    ensures |s| == k
  {
    if k == 0 then [] else ToBigEndian(n / 256, k - 1) + [n % 256]
  }

  lemma EightBits()
    ensures Pow2(8) == 256
  {
    assert Pow2(4) == 16;
    Pow2Add(4, 4);
  }

  lemma {:induction false} BigEndianBound(s: seq<byte>)
    ensures BigEndian(s) < Pow2(8 * |s|)
  {
    if s != [] {
      BigEndianBound(s[..|s| - 1]);
      Pow2Add(8, 8 * (|s| - 1));
      EightBits();
    }
  }

  lemma DivBound(n: nat, p: nat)
    requires n < 256 * p
    ensures n / 256 < p
  {
  }

  lemma {:induction false} BigEndianRoundTrip(n: nat, k: nat)
    requires n < Pow2(8 * k)
    ensures BigEndian(ToBigEndian(n, k)) == n
  {
    if k > 0 {
      Pow2Add(8, 8 * (k - 1));
      EightBits();
      hide Pow2;
      DivBound(n, Pow2(8 * (k - 1)));
      assert ToBigEndian(n, k)[..k - 1] == ToBigEndian(n / 256, k - 1);
      BigEndianRoundTrip(n / 256, k - 1);
    }
  }
}
