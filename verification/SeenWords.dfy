/** The two 32-bit words in which pb_decode_noinit notes the required fields it has met. */
module SeenWords {
  import opened Bytes
  import opened Bits

  const ALLBITS: nat := 0xFFFF_FFFF

  /** The words hold exactly the given set of field numbers below 64. */
  ghost predicate Holds(words: seq<nat>, seen: set<nat>) {
    |words| == 2 && words[0] < Pow2(32) && words[1] < Pow2(32)
    && (forall n :: n in seen ==> n < 64)
    && (forall n :: 0 <= n < 64 ==> (n in seen <==> BitAt(words[n / 32], n % 32)))
  }

  lemma NothingSeen()
    ensures Holds([0, 0], {})
  {
    forall n | 0 <= n < 64 ensures !BitAt(0, n % 32) {
      ZeroBits(n % 32);
    }
  }

  /** fields_seen[n >> 5] |= 1 << (n & 31) */
  function Note(words: seq<nat>, n: nat): (r: seq<nat>)
    requires |words| == 2 && n < 64
  {
    words[n / 32 := Or(words[n / 32], Shl(1, n % 32, TWO32))]
  }

  lemma OneShifted(k: nat)
    requires k < 32
    ensures Shl(1, k, TWO32) == Pow2(k) < Pow2(32)
  {
    Pow2Values();
    Pow2Add(k, 31 - k);
    assert Pow2(31) == 0x8000_0000 by { assert Pow2(32) == 2 * Pow2(31); }
    Pow2Monotone(k, 31);
    SmallMod(Pow2(k), TWO32);
  }

  lemma NoteAdds(words: seq<nat>, seen: set<nat>, n: nat)
    requires Holds(words, seen) && n < 64
    ensures Holds(Note(words, n), seen + {n})
  {
    var i, k := n / 32, n % 32;
    OneShifted(k);
    var words' := Note(words, n);
    OrBound(words[i], Pow2(k), 32);
    forall m | 0 <= m < 64 ensures m in seen + {n} <==> BitAt(words'[m / 32], m % 32) {
      if m / 32 == i {
        SetBit(words[i], k, m % 32);
      }
    }
  }

  predicate WordsFull(words: seq<nat>, count: nat)
    requires |words| == 2 && count <= 64
  {
    forall i :: 0 <= i < count / 32 ==> words[i] == ALLBITS
  }

  predicate LastWordFull(words: seq<nat>, count: nat)
    requires |words| == 2 && count <= 64
  {
    count % 32 != 0 ==> words[count / 32] == Shr(ALLBITS, 32 - count % 32)
  }

  lemma WordComplete(words: seq<nat>, seen: set<nat>, i: nat, r: nat)
    requires Holds(words, seen) && i < 2 && r <= 32
    requires forall n :: n in seen && n / 32 == i ==> n < 32 * i + r
    ensures words[i] == Pow2(r) - 1 <==> forall n :: 32 * i <= n < 32 * i + r ==> n in seen
  {
    OnesExactly(words[i], r, 32);
    if OnesBelow(words[i], r, 32) {
      forall n | 32 * i <= n < 32 * i + r ensures n in seen {
        assert BitAt(words[n / 32], n % 32);
      }
    }
    if forall n :: 32 * i <= n < 32 * i + r ==> n in seen {
      forall j | 0 <= j < 32 ensures BitAt(words[i], j) <==> j < r {
        var n := 32 * i + j;
        assert n / 32 == i && n % 32 == j;
        assert n in seen <==> BitAt(words[n / 32], n % 32);
      }
    }
  }

  /** Comparing whole words and the last partial one is checking every field number below the count. */
  lemma FullIffAllSeen(words: seq<nat>, seen: set<nat>, count: nat)
    requires |words| == 2 && Holds(words, seen) && count <= 64
    requires forall n :: n in seen ==> n < count
    ensures WordsFull(words, count) && LastWordFull(words, count) <==> forall n :: 0 <= n < count ==> n in seen
  {
    Pow2Values();
    hide Holds, BitAt, Shr, Pow2;
    var q, r := count / 32, count % 32;
    if r != 0 {
      OnesShifted(r, 32 - r);
      WordComplete(words, seen, q, r);
    }
    if q >= 1 {
      WordComplete(words, seen, 0, 32);
    }
    if q == 2 {
      WordComplete(words, seen, 1, 32);
    }
  }
}
