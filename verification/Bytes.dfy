/** Octets, machine-word ranges and the bit-level arithmetic that the codecs need. */
module Bytes {

  type byte = x: int | 0 <= x < 256

  const TWO32: nat := 0x1_0000_0000
  const TWO64: nat := 0x1_0000_0000_0000_0000

  type u32 = x: int | 0 <= x < TWO32
  type u64 = x: int | 0 <= x < TWO64

  function Pow2(k: nat): (p: nat)
    ensures p >= 1
  {
    if k == 0 then 1 else 2 * Pow2(k - 1)
  }

  /** Bitwise or of two unbounded naturals. */
  function Or(a: nat, b: nat): nat {
    if a == 0 then b
    else (if a % 2 == 1 || b % 2 == 1 then 1 else 0) + 2 * Or(a / 2, b / 2)
  }

  /** A left shift in a register of the given modulus: bits that leave the register are lost. */
  function Shl(x: nat, k: nat, modulus: nat): nat
    requires modulus > 0
  {
    (x * Pow2(k)) % modulus
  }

  lemma {:induction false} Pow2Add(a: nat, b: nat)
    ensures Pow2(a + b) == Pow2(a) * Pow2(b)
  {
    if a != 0 {
      Pow2Add(a - 1, b);
      assert Pow2(a + b) == 2 * (Pow2(a - 1) * Pow2(b));
    }
  }

  lemma {:induction false} Pow2Monotone(a: nat, b: nat)
    requires a <= b
    ensures Pow2(a) <= Pow2(b)
  {
    if a < b {
      Pow2Monotone(a, b - 1);
    }
  }

  lemma Pow2Values()
    ensures Pow2(7) == 128 && Pow2(14) == 0x4000 && Pow2(21) == 0x20_0000 && Pow2(28) == 0x1000_0000
    ensures Pow2(32) == TWO32 && Pow2(35) == 0x8_0000_0000 && Pow2(63) == 0x8000_0000_0000_0000
    ensures Pow2(64) == TWO64
  {
    assert Pow2(4) == 16;
    assert Pow2(7) == 128;
    Pow2Add(7, 7);
    Pow2Add(14, 7);
    Pow2Add(21, 7);
    Pow2Add(28, 4);
    Pow2Add(28, 7);
    Pow2Add(35, 28);
    Pow2Add(32, 32);
  }

  /** The bits shifted in above an accumulator do not overlap it, so or-ing them is adding them. */
  lemma {:induction false} OrDisjoint(a: nat, x: nat, k: nat)
    requires a < Pow2(k)
    ensures Or(a, x * Pow2(k)) == a + x * Pow2(k)
  {
    if a != 0 {
      assert k > 0;
      var y := x * Pow2(k - 1);
      assert x * Pow2(k) == 2 * y;
      OrDisjoint(a / 2, x, k - 1);
    }
  }

  /** The integer a two's complement register of `modulus` values holds after being given x. */
  function Signed(x: int, modulus: nat): (r: int)
    requires modulus > 0
  {
    var m := x % modulus;
    if 2 * m >= modulus then m - modulus else m
  }

  /** Number of values of an integer of the given byte size; other sizes are not integer sizes. */
  function Modulus(size: nat): (m: nat)
    ensures m > 0
  {
    match size
    case 1 => 0x100
    case 2 => 0x1_0000
    case 4 => TWO32
    case 8 => TWO64
    case _ => 1
  }

  predicate IntSize(size: nat) {
    size == 1 || size == 2 || size == 4 || size == 8
  }

  // ---- Division and remainder ----

  lemma SmallMod(x: nat, m: nat)
    requires x < m
    ensures x % m == x
  {
  }

  lemma MulMonotone(m: nat, a: int, b: int)
    requires a <= b
    ensures m * a <= m * b
  {
    assert m * (b - a) >= 0;
  }

  lemma QuotientUnique(m: nat, q: int, r: int, q': int, r': int)
    requires 0 <= r < m && 0 <= r' < m && m * q + r == m * q' + r'
    ensures q == q' && r == r'
  {
    if q < q' {
      MulMonotone(m, q + 1, q');
    } else if q' < q {
      MulMonotone(m, q' + 1, q);
    }
  }

  lemma ModUnique(x: int, m: nat, q: int, r: int)
    requires 0 <= r < m && x == m * q + r
    ensures x % m == r && x / m == q
  {
    QuotientUnique(m, q, r, x / m, x % m);
  }

  /** What a register of `modulus` values keeps of an in-range signed number gives it back. */
  lemma SignedOfWrapped(n: int, modulus: nat)
    requires modulus > 0 && modulus % 2 == 0 && -(modulus as int) <= 2 * n < modulus
    ensures Signed(n % modulus, modulus) == n && Signed(n, modulus) == n
  {
    var m := if n < 0 then n + modulus else n;
    ModUnique(n, modulus, if n < 0 then -1 else 0, m);
    SmallMod(m, modulus);
  }
}
