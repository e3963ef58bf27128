/** Machine words as naturals, bit by bit. */
module Bits {
  import opened Bytes

  /** Bit j of w. */
  predicate BitAt(w: nat, j: nat) {
    if j == 0 then w % 2 == 1 else BitAt(w / 2, j - 1)
  }

  /** Bitwise and of two naturals. */
  function And(a: nat, b: nat): nat {
    if a == 0 || b == 0 then 0
    else (if a % 2 == 1 && b % 2 == 1 then 1 else 0) + 2 * And(a / 2, b / 2)
  }

  /** Bitwise complement in a register of n bits. */
  function Not(a: nat, n: nat): nat
    requires a < Pow2(n)
  {
    Pow2(n) - 1 - a
  }

  function Shr(w: nat, k: nat): nat { Quotient(w, Pow2(k)) }

  function Quotient(w: nat, p: nat): nat
    requires p > 0
  {
    w / p
  }

  lemma {:induction false} OrBits(a: nat, b: nat, j: nat)
    ensures BitAt(Or(a, b), j) <==> BitAt(a, j) || BitAt(b, j)
    decreases j
  {
    if a == 0 {
      ZeroBits(j);
    } else if j > 0 {
      OrHalves(a, b);
      OrBits(a / 2, b / 2, j - 1);
    } else {
      OrHalves(a, b);
    }
  }

  lemma OrHalves(a: nat, b: nat)
    requires a > 0
    ensures Or(a, b) / 2 == Or(a / 2, b / 2)
    ensures Or(a, b) % 2 == if a % 2 == 1 || b % 2 == 1 then 1 else 0
  {
  }

  lemma {:induction false} ZeroBits(j: nat)
    ensures !BitAt(0, j)
  {
    if j > 0 {
      ZeroBits(j - 1);
    }
  }

  lemma {:induction false} AndBits(a: nat, b: nat, j: nat)
    ensures BitAt(And(a, b), j) <==> BitAt(a, j) && BitAt(b, j)
    decreases j
  {
    if a == 0 || b == 0 {
      ZeroBits(j);
    } else {
      assert And(a, b) / 2 == And(a / 2, b / 2);
      if j > 0 {
        AndBits(a / 2, b / 2, j - 1);
      }
    }
  }

  lemma {:induction false} OrBound(a: nat, b: nat, n: nat)
    requires a < Pow2(n) && b < Pow2(n)
    ensures Or(a, b) < Pow2(n)
    decreases n
  {
    if a != 0 {
      OrBound(a / 2, b / 2, n - 1);
    }
  }

  lemma {:induction false} OnesBits(n: nat, j: nat)
    ensures BitAt(Pow2(n) - 1, j) <==> j < n
    decreases j
  {
    if n == 0 {
      ZeroBits(j);
    } else {
      assert (Pow2(n) - 1) / 2 == Pow2(n - 1) - 1;
      if j > 0 {
        OnesBits(n - 1, j - 1);
      }
    }
  }

  lemma {:induction false} NotBits(a: nat, n: nat, j: nat)
    requires a < Pow2(n) && j < n
    ensures BitAt(Not(a, n), j) <==> !BitAt(a, j)
    decreases n
  {
    assert Not(a, n) / 2 == Not(a / 2, n - 1);
    if j > 0 {
      NotBits(a / 2, n - 1, j - 1);
    }
  }

  /** Multiplying by 2^k moves every bit up. */
  lemma {:induction false} ShiftedBits(w: nat, k: nat, j: nat)
    ensures BitAt(w * Pow2(k), j) <==> j >= k && BitAt(w, j - k)
    decreases k
  {
    if k > 0 {
      var x := w * Pow2(k - 1);
      assert w * Pow2(k) == 2 * x;
      if j > 0 {
        assert 2 * x / 2 == x;
        ShiftedBits(w, k - 1, j - 1);
      }
    }
  }

  /** The bits above a register are lost. */
  lemma {:induction false} KeptBits(w: nat, n: nat, j: nat)
    ensures BitAt(w % Pow2(n), j) <==> j < n && BitAt(w, j)
    decreases n
  {
    if n == 0 {
      assert w % 1 == 0;
      ZeroBits(j);
    } else {
      HalfOfRemainder(w, n);
      if j > 0 {
        KeptBits(w / 2, n - 1, j - 1);
      }
    }
  }

  lemma HalfOfRemainder(w: nat, n: nat)
    requires n > 0
    ensures (w % Pow2(n)) / 2 == (w / 2) % Pow2(n - 1)
    ensures (w % Pow2(n)) % 2 == w % 2
  {
    var p := Pow2(n - 1);
    var q, r := (w / 2) / p, (w / 2) % p;
    assert w / 2 == p * q + r;
    var low := 2 * r + w % 2;
    assert w == Pow2(n) * q + low by {
      assert Pow2(n) * q == 2 * (p * q);
    }
    ModUnique(w, Pow2(n), q, low);
  }

  lemma {:induction false} ShrBits(w: nat, k: nat, j: nat)
    ensures BitAt(Shr(w, k), j) <==> BitAt(w, j + k)
    decreases k
  {
    if k > 0 {
      HalfOfQuotient(w, k);
      ShrBits(w / 2, k - 1, j);
    }
  }

  lemma HalfOfQuotient(w: nat, k: nat)
    requires k > 0
    ensures Shr(w, k) == Shr(w / 2, k - 1)
  {
    var p := Pow2(k - 1);
    var q, r := (w / 2) / p, (w / 2) % p;
    assert w / 2 == p * q + r;
    assert w == Pow2(k) * q + (2 * r + w % 2) by {
      assert Pow2(k) * q == 2 * (p * q);
    }
    ModUnique(w, Pow2(k), q, 2 * r + w % 2);
  }

  lemma {:induction false} PowerBits(i: nat, j: nat)
    ensures BitAt(Pow2(i), j) <==> i == j
    decreases j
  {
    if i == 0 {
      if j > 0 {
        ZeroBits(j - 1);
      }
    } else if j > 0 {
      assert Pow2(i) / 2 == Pow2(i - 1);
      PowerBits(i - 1, j - 1);
    }
  }

  /** Or-ing in one bit. */
  lemma SetBit(w: nat, i: nat, j: nat)
    ensures BitAt(Or(w, Pow2(i)), j) <==> j == i || BitAt(w, j)
  {
    OrBits(w, Pow2(i), j);
    PowerBits(i, j);
  }

  /** Two registers with the same bits are equal. */
  lemma {:induction false} SameBits(a: nat, b: nat, n: nat)
    requires a < Pow2(n) && b < Pow2(n)
    requires forall j :: 0 <= j < n ==> (BitAt(a, j) <==> BitAt(b, j))
    ensures a == b
    decreases n
  {
    if n > 0 {
      assert BitAt(a, 0) <==> BitAt(b, 0);
      forall j | 0 <= j < n - 1 ensures BitAt(a / 2, j) <==> BitAt(b / 2, j) {
        assert BitAt(a, j + 1) <==> BitAt(b, j + 1);
      }
      SameBits(a / 2, b / 2, n - 1);
    }
  }

  ghost predicate OnesBelow(w: nat, r: nat, n: nat) {
    forall j :: 0 <= j < n ==> (BitAt(w, j) <==> j < r)
  }

  lemma OnesAreOnes(r: nat, n: nat)
    ensures OnesBelow(Pow2(r) - 1, r, n)
  {
    var ones := Pow2(r) - 1;
    forall j | 0 <= j < n ensures BitAt(ones, j) <==> j < r {
      OnesBits(r, j);
    }
  }

  /** A register equals a run of r ones exactly when its bits below r, and no others, are set. */
  lemma OnesExactly(w: nat, r: nat, n: nat)
    requires w < Pow2(n) && r <= n
    ensures w == Pow2(r) - 1 <==> OnesBelow(w, r, n)
  {
    Pow2Monotone(r, n);
    OnesAreOnes(r, n);
    if OnesBelow(w, r, n) {
      SameBits(w, Pow2(r) - 1, n);
    }
  }

  /** All of r + k ones shifted right by k are r ones. */
  lemma OnesShifted(r: nat, k: nat)
    ensures Shr(Pow2(r + k) - 1, k) == Pow2(r) - 1
  {
    hide Quotient, Pow2;
    Pow2Add(r, k);
    OnesQuotient(Pow2(r), Pow2(k), Pow2(r + k));
  }

  lemma OnesQuotient(q: nat, p: nat, all: nat)
    requires q >= 1 && p >= 1 && all == q * p
    ensures all >= 1 && Quotient(all - 1, p) == q - 1
  {
    assert all - 1 == p * (q - 1) + (p - 1);
    ModUnique(all - 1, p, q - 1, p - 1);
  }
}
