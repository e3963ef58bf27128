/**
 * DTLS anti-replay (RFC 6347, section 4.1.2.6): a 64-bit window that behaves like the set of all
 * sequence numbers accepted so far.
 */
module ReplayWindow {
  import opened Bytes
  import opened Bits
  import opened Words

  const WINDOW: nat := 64

  // ---- The specification: the full set of accepted numbers ----

  /** Whether a number is to be let through, given all that were accepted. */
  ghost predicate Fresh(accepted: set<nat>, n: nat) {
    n !in accepted && forall m :: m in accepted ==> m < n + WINDOW
  }

  /** An arriving record: its sequence number and whether it passes authentication and its length check. */
  datatype Arrival = Arrival(n: nat, genuine: bool)

  ghost function AcceptedOf(arrivals: seq<Arrival>): set<nat> {
    if arrivals == [] then {}
    else
      var before := AcceptedOf(arrivals[..|arrivals| - 1]);
      var a := arrivals[|arrivals| - 1];
      if Fresh(before, a.n) && a.genuine then before + {a.n} else before
  }

  ghost predicate Accepts(arrivals: seq<Arrival>, i: nat)
    requires i < |arrivals|
  {
    Fresh(AcceptedOf(arrivals[..i]), arrivals[i].n) && arrivals[i].genuine
  }

  lemma {:induction false} AcceptedIsKept(arrivals: seq<Arrival>, i: nat, j: nat)
    requires i < j <= |arrivals| && Accepts(arrivals, i)
    ensures arrivals[i].n in AcceptedOf(arrivals[..j])
    decreases j
  {
    var prefix := arrivals[..j];
    assert prefix[..j - 1] == arrivals[..j - 1];
    if i < j - 1 {
      AcceptedIsKept(arrivals, i, j - 1);
    }
  }

  /** No number is accepted twice. */
  lemma NoReplay(arrivals: seq<Arrival>, i: nat, j: nat)
    requires i < j < |arrivals| && Accepts(arrivals, i) && Accepts(arrivals, j)
    ensures arrivals[i].n != arrivals[j].n
  {
    AcceptedIsKept(arrivals, i, j);
  }

  // ---- The window ----

  lemma {:induction false} OrComm(a: nat, b: nat)
    ensures Or(a, b) == Or(b, a)
  {
    if a != 0 && b != 0 {
      OrComm(a / 2, b / 2);
    } else if a == 0 {
      OrZero(b);
    } else {
      OrZero(a);
    }
  }

  lemma {:induction false} OrZero(a: nat)
    ensures Or(a, 0) == a
  {
    if a != 0 {
      OrZero(a / 2);
    }
  }

  /** to_u64_be */
  method ToU64(s: seq<byte>) returns (r: u64)
    requires |s| == 8
    ensures r == BigEndian(s)
  {
    r := 0;
    var i := 0;
    while i < 8
      invariant 0 <= i <= 8 && r == BigEndian(s[..i])
    {
      assert s[..i + 1][..i] == s[..i];
      BigEndianBound(s[..i + 1]);
      Pow2Values();
      Pow2Monotone(8 * (i + 1), 64);
      ShiftInByte(r, s[i]);
      r := Or(Shl(r, 8, TWO64), s[i]);
      i := i + 1;
    }
    assert s[..8] == s;
  }

  lemma ShiftInByte(r: nat, b: byte)
    requires 256 * r + b < TWO64
    ensures Or(Shl(r, 8, TWO64), b) == 256 * r + b
  {
    assert Pow2(8) == 256 by { assert Pow2(4) == 16; Pow2Add(4, 4); }
    SmallMod(r * 256, TWO64);
    OrComm(Shl(r, 8, TWO64), b);
    OrDisjoint(b, r, 8);
  }

  /** A one at bit idx of a 64-bit word. */
  lemma OneAt(idx: nat)
    requires idx < WINDOW
    ensures Shl(1, idx, TWO64) == Pow2(idx) < Pow2(WINDOW) == TWO64
  {
    Pow2Values();
    Pow2Monotone(idx, 63);
    SmallMod(Pow2(idx), TWO64);
  }

  /** Testing one bit with a mask. */
  lemma TestBit(bits: nat, idx: nat)
    requires idx < WINDOW
    ensures And(bits, Shl(1, idx, TWO64)) != 0 <==> BitAt(bits, idx)
  {
    OneAt(idx);
    AndBits(bits, Pow2(idx), idx);
    PowerBits(idx, idx);
    if And(bits, Pow2(idx)) != 0 && !BitAt(bits, idx) {
      forall j | 0 <= j < WINDOW ensures !BitAt(And(bits, Pow2(idx)), j) && !BitAt(0, j) {
        AndBits(bits, Pow2(idx), j);
        PowerBits(idx, j);
        ZeroBits(j);
      }
      AndBound(bits, Pow2(idx), WINDOW);
      SameBits(And(bits, Pow2(idx)), 0, WINDOW);
    }
    if BitAt(bits, idx) && And(bits, Pow2(idx)) == 0 {
      ZeroBits(idx);
    }
  }

  lemma {:induction false} AndBound(a: nat, b: nat, n: nat)
    requires b < Pow2(n)
    ensures And(a, b) < Pow2(n)
    decreases n
  {
    if a != 0 && b != 0 {
      AndBound(a / 2, b / 2, n - 1);
    }
  }

  /** A shift of the window moves the bits up and drops those that leave it. */
  lemma ShiftWindow(bits: nat, shift: nat, j: nat)
    requires shift < WINDOW && j < WINDOW
    ensures BitAt(Shl(bits, shift, TWO64), j) <==> j >= shift && BitAt(bits, j - shift)
  {
    hide BitAt, Pow2;
    Pow2Values();
    KeptBits(bits * Pow2(shift), WINDOW, j);
    ShiftedBits(bits, shift, j);
  }

  class Bitmap {
    var bits: nat
    var maxSeqNum: nat
    ghost var accepted: set<nat>

    /** Bit i stands for maxSeqNum - i. */
    ghost predicate Valid()
      reads this
    {
      bits < TWO64 && maxSeqNum < TWO64
      && (forall n :: n in accepted ==> n <= maxSeqNum)
      && (accepted == {} ==> maxSeqNum == 0) && (accepted != {} ==> maxSeqNum in accepted)
      && (forall i :: 0 <= i < WINDOW ==> (BitAt(bits, i) <==> i <= maxSeqNum && maxSeqNum - i in accepted))
    }

    constructor ()
      ensures Valid() && accepted == {}
    {
      bits, maxSeqNum, accepted := 0, 0, {};
      new;
      forall i | 0 <= i < WINDOW ensures !BitAt(0, i) {
        ZeroBits(i);
      }
    }

    /** dtls1_bitmap_should_discard */
    method ShouldDiscard(seqNum: seq<byte>) returns (discard: bool)
      requires Valid() && |seqNum| == 8
      ensures discard <==> !Fresh(accepted, BigEndian(seqNum))
    {
      var n := ToU64(seqNum);
      if n > maxSeqNum {
        return false;
      }
      var idx := maxSeqNum - n;
      if idx >= WINDOW {
        assert maxSeqNum in accepted;
        return true;
      }
      TestBit(bits, idx);
      return And(bits, Shl(1, idx, TWO64)) != 0;
    }

    /** dtls1_bitmap_record, on a number that was not discarded */
    method Record(seqNum: seq<byte>)
      requires Valid() && |seqNum| == 8 && Fresh(accepted, BigEndian(seqNum))
      modifies this
      ensures Valid() && accepted == old(accepted) + {BigEndian(seqNum)}
    {
      hide BitAt, Or, Pow2, BigEndian;
      var n := ToU64(seqNum);
      ghost var bits0, max0 := bits, maxSeqNum;
      if n > maxSeqNum {
        var shift := n - maxSeqNum;
        if shift >= WINDOW {
          bits := 0;
        } else {
          bits := Shl(bits, shift, TWO64);
        }
        maxSeqNum := n;
        forall i | 0 <= i < WINDOW
          ensures BitAt(bits, i) <==> i <= maxSeqNum && maxSeqNum - i in old(accepted)
        {
          if shift >= WINDOW {
            ZeroBits(i);
          } else {
            ShiftWindow(bits0, shift, i);
          }
        }
      }
      var idx := maxSeqNum - n;
      if idx < WINDOW {
        OneAt(idx);
        OrBound(bits, Pow2(idx), WINDOW);
        forall i | 0 <= i < WINDOW ensures BitAt(Or(bits, Pow2(idx)), i) <==> i == idx || BitAt(bits, i) {
          SetBit(bits, idx, i);
        }
        bits := Or(bits, Shl(1, idx, TWO64));
      }
      accepted := accepted + {n};
    }
  }

  datatype OpenResult = Discard | Error | Success

  const MAX_PLAIN: nat := 16384

  /**
   * dtls_open_record from the epoch check on. `opens` is what the AEAD says, `plainLen` the length
   * of the plaintext.
   */
  method OpenRecord(bitmap: Bitmap, readEpoch: nat, seqNum: seq<byte>, opens: bool, plainLen: nat)
    returns (result: OpenResult)
    requires bitmap.Valid() && |seqNum| == 8
    modifies bitmap
    ensures bitmap.Valid()
    ensures var takes := BigEndian(seqNum[..2]) == readEpoch && Fresh(old(bitmap.accepted), BigEndian(seqNum)) && opens;
            result == if !takes then Discard else if plainLen > MAX_PLAIN then Error else Success
    ensures bitmap.accepted == old(bitmap.accepted) + if result == Success then {BigEndian(seqNum)} else {}
  {
    var high: nat, low: nat := seqNum[0], seqNum[1];
    var epoch := 256 * high + low;
    assert seqNum[..2][..1] == [seqNum[0]] && seqNum[..2][1] == seqNum[1];
    assert [seqNum[0]][..0] == [];
    assert BigEndian([seqNum[0]]) == seqNum[0];
    assert BigEndian(seqNum[..2]) == epoch;
    var discard := bitmap.ShouldDiscard(seqNum);
    if epoch != readEpoch || discard {
      return Discard;
    }
    if !opens {
      return Discard;
    }
    if plainLen > MAX_PLAIN {
      return Error;
    }
    bitmap.Record(seqNum);
    return Success;
  }

  /** A whole epoch: the window accepts exactly what the full set of accepted numbers says. */
  method ReceiveEpoch(records: seq<seq<byte>>, genuine: seq<bool>) returns (taken: seq<bool>)
    requires |genuine| == |records| && forall i :: 0 <= i < |records| ==> |records[i]| == 8
    ensures |taken| == |records|
    ensures var arrivals := Arrivals(records, genuine);
            forall i :: 0 <= i < |records| ==> (taken[i] <==> Accepts(arrivals, i))
  {
    ghost var arrivals := Arrivals(records, genuine);
    var bitmap := new Bitmap();
    taken := [];
    var i := 0;
    while i < |records|
      invariant 0 <= i <= |records| && |taken| == i && bitmap.Valid() && fresh(bitmap)
      invariant bitmap.accepted == AcceptedOf(arrivals[..i])
      invariant forall j :: 0 <= j < i ==> (taken[j] <==> Accepts(arrivals, j))
    {
      assert arrivals[..i + 1][..i] == arrivals[..i];
      var discard := bitmap.ShouldDiscard(records[i]);
      if !discard && genuine[i] {
        bitmap.Record(records[i]);
      }
      taken := taken + [!discard && genuine[i]];
      i := i + 1;
    }
  }

  function Arrivals(records: seq<seq<byte>>, genuine: seq<bool>): (r: seq<Arrival>)
    requires |genuine| == |records|
    ensures |r| == |records|
    ensures forall i :: 0 <= i < |records| ==> r[i] == Arrival(BigEndian(records[i]), genuine[i])
  {
    seq(|records|, i requires 0 <= i < |records| => Arrival(BigEndian(records[i]), genuine[i]))
  }
}
