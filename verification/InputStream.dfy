/** Input streams over a buffer, and the primitive readers of pb_decode.c. */
module InputStream {
  import opened Bytes
  import opened Parsing
  import opened Varint
  import opened Descriptor
  import opened Decoding

  /** How a reader went: it reports an error, or gives the value and leaves the rest in the stream. */
  ghost predicate Went<T(!new)>(p: Parsed<T>, ok: bool, value: T, rest: seq<byte>) {
    if p.Fail? then !ok else ok && value == p.value && rest == p.rest
  }

  class IStream {
    const buf: seq<byte>
    var state: nat
    var bytesLeft: nat

    ghost predicate Valid()
      reads this
    {
      state + bytesLeft <= |buf|
    }

    /** The bytes that are still to be read. */
    ghost function Rest(): (r: seq<byte>)
      requires Valid()
      reads this
      ensures |r| == bytesLeft
    {
      buf[state..state + bytesLeft]
    }

    /** Where the stream ends; reading does not move it. */
    ghost function End(): nat
      reads this
    {
      state + bytesLeft
    }

    /** pb_istream_from_buffer */
    constructor (buf: seq<byte>)
      ensures Valid() && Rest() == buf
    {
      this.buf := buf;
      state, bytesLeft := 0, |buf|;
    }

    /** The substream of pb_make_string_substream */
    constructor Sub(buf: seq<byte>, state: nat, size: nat)
      requires state + size <= |buf|
      ensures Valid() && this.buf == buf && this.state == state && bytesLeft == size
    {
      this.buf := buf;
      this.state, bytesLeft := state, size;
    }

    /** pb_readbyte */
    method ReadByte() returns (ok: bool, b: byte)
      requires Valid()
      modifies this
      ensures Valid() && End() == old(End())
      ensures ok <==> old(bytesLeft) > 0
      ensures ok ==> old(Rest()) == [b] + Rest()
      ensures !ok ==> Rest() == old(Rest())
    {
      b := 0;
      if bytesLeft == 0 {
        return false, b;
      }
      b := buf[state];
      state := state + 1;
      bytesLeft := bytesLeft - 1;
      return true, b;
    }

    /** pb_read on a buffer stream */
    method Read(count: nat) returns (ok: bool, bytes: seq<byte>)
      requires Valid()
      modifies this
      ensures Valid() && End() == old(End())
      ensures Went(Take(old(Rest()), count), ok, bytes, Rest())
    {
      bytes := [];
      if bytesLeft < count {
        return false, bytes;
      }
      ghost var all := Rest();
      bytes := buf[state..state + count];
      state := state + count;
      bytesLeft := bytesLeft - count;
      assert all[..count] == bytes && all[count..] == Rest();
      return true, bytes;
    }
  }

  /** pb_decode_varint */
  method DecodeVarint(s: IStream) returns (ok: bool, dest: nat)
    requires s.Valid()
    modifies s
    ensures s.Valid() && s.End() == old(s.End())
    ensures Went(DecVarint(old(s.Rest())), ok, dest, s.Rest())
  {
    hide OrGroup, Group;
    dest := 0;
    var result := 0;
    var k := 0;       // bitpos is 7 * k
    var more := true;
    while more
      invariant s.Valid() && s.End() == old(s.End()) && 0 <= k && 0 <= result < TWO64
      invariant more ==> DecVarint(old(s.Rest())) == DecVarintFrom(s.Rest(), k, result)
      invariant !more ==> DecVarint(old(s.Rest())) == Ok(result, s.Rest())
      decreases more, s.bytesLeft
    {
      if 7 * k >= 64 {
        return false, dest;
      }
      ghost var before := s.Rest();
      var got, b := s.ReadByte();
      if !got {
        return false, dest;
      }
      assert before[1..] == s.Rest();
      result := OrGroup(result, Group(b), 7 * k, TWO64);
      k := k + 1;
      more := b >= 128;
    }
    return true, result;
  }

  /** pb_decode_varint32_eof; eof is set when the stream was empty */
  method DecodeVarint32(s: IStream) returns (ok: bool, dest: nat, eof: bool)
    requires s.Valid()
    modifies s
    ensures s.Valid() && s.End() == old(s.End())
    ensures Went(DecVarint32(old(s.Rest())), ok, dest, s.Rest())
    ensures eof <==> old(s.bytesLeft) == 0
  {
    hide OrGroup, Group, MayFollow, NextBitpos;
    dest, eof := 0, false;
    ghost var all := s.Rest();
    var got, b := s.ReadByte();
    if !got {
      eof := s.bytesLeft == 0;
      return false, dest, eof;
    }
    assert all[1..] == s.Rest();
    if b < 128 {
      return true, b, eof;
    }
    var bitpos := 7;
    var result := Group(b);
    var more := true;
    while more
      invariant s.Valid() && s.End() == old(s.End()) && 0 <= bitpos < 256 && 0 <= result < TWO32
      invariant more ==> DecVarint32(all) == DecVarint32From(s.Rest(), bitpos, result)
      invariant !more ==> b < 128 && DecVarint32(all) == if bitpos == 35 && b >= 16 then Fail else Ok(result, s.Rest())
      decreases more, s.bytesLeft
    {
      ghost var before := s.Rest();
      got, b := s.ReadByte();
      if !got {
        return false, dest, eof;
      }
      assert before[1..] == s.Rest();
      if bitpos >= 32 {
        if !MayFollow(b, bitpos, result) {
          return false, dest, eof;
        }
      } else {
        result := OrGroup(result, Group(b), bitpos, TWO32);
      }
      bitpos := NextBitpos(bitpos);
      more := b >= 128;
    }
    if bitpos == 35 && b >= 16 {
      return false, dest, eof;
    }
    return true, result, eof;
  }

  /** pb_skip_varint */
  method SkipVarintBytes(s: IStream) returns (ok: bool)
    requires s.Valid()
    modifies s
    ensures s.Valid() && s.End() == old(s.End())
    ensures Went(SkipVarint(old(s.Rest())), ok, (), s.Rest())
  {
    var more := true;
    while more
      invariant s.Valid() && s.End() == old(s.End())
      invariant more ==> SkipVarint(old(s.Rest())) == SkipVarint(s.Rest())
      invariant !more ==> SkipVarint(old(s.Rest())) == Ok((), s.Rest())
      decreases more, s.bytesLeft
    {
      ghost var before := s.Rest();
      var got, bytes := s.Read(1);
      if !got {
        return false;
      }
      assert before[1..] == s.Rest() && before[0] == bytes[0];
      more := bytes[0] >= 128;
    }
    return true;
  }

  /** pb_skip_string */
  method SkipString(s: IStream) returns (ok: bool)
    requires s.Valid()
    modifies s
    ensures s.Valid() && s.End() == old(s.End())
    ensures var p := DecString(old(s.Rest())); if p.Fail? then !ok else ok && s.Rest() == p.rest
  {
    hide DecVarint32;
    var length, eof;
    ok, length, eof := DecodeVarint32(s);
    if ok {
      var bytes;
      ok, bytes := s.Read(length);
    }
  }

  /** pb_skip_field */
  method SkipFieldBytes(s: IStream, wireType: nat) returns (ok: bool)
    requires s.Valid()
    modifies s
    ensures s.Valid() && s.End() == old(s.End())
    ensures Went(SkipField(wireType, old(s.Rest())), ok, (), s.Rest())
  {
    hide SkipVarint, DecString;
    var bytes;
    if wireType == WT_VARINT {
      ok := SkipVarintBytes(s);
    } else if wireType == WT_64BIT {
      ok, bytes := s.Read(8);
    } else if wireType == WT_STRING {
      ok := SkipString(s);
    } else if wireType == WT_32BIT {
      ok, bytes := s.Read(4);
    } else {
      ok := false;
    }
  }

  /**
   * pb_make_string_substream. The parent has given the substream's bytes away but is only moved
   * past them by CloseSubstream.
   */
  method MakeSubstream(s: IStream) returns (ok: bool, sub: IStream)
    requires s.Valid()
    modifies s
    ensures s.Valid() && sub.Valid() && sub.buf == s.buf && fresh(sub) && s.End() <= old(s.End())
    ensures var p := DecString(old(s.Rest()));
            if p.Fail? then !ok
            else ok && sub.Rest() == p.value && sub.End() + s.bytesLeft == old(s.End()) && s.bytesLeft == |p.rest|
                 && s.buf[sub.End()..sub.End() + s.bytesLeft] == p.rest
  {
    hide DecVarint32;
    var size, eof;
    ok, size, eof := DecodeVarint32(s);
    if !ok || s.bytesLeft < size {
      sub := new IStream.Sub(s.buf, s.state, 0);
      return false, sub;
    }
    ghost var rest := s.Rest();
    sub := new IStream.Sub(s.buf, s.state, size);
    s.bytesLeft := s.bytesLeft - size;
    assert rest[..size] == sub.Rest();
    assert rest[size..] == s.buf[sub.End()..sub.End() + s.bytesLeft];
  }

  /** pb_close_string_substream: whatever is left of the substream is skipped. */
  method CloseSubstream(s: IStream, sub: IStream) returns (ok: bool)
    requires sub.Valid() && sub.buf == s.buf && s != sub && sub.End() + s.bytesLeft <= |s.buf|
    modifies s, sub
    ensures ok && s.Valid() && s.bytesLeft == old(s.bytesLeft) && s.state == old(sub.End())
  {
    if sub.bytesLeft > 0 {
      var bytes;
      ok, bytes := sub.Read(sub.bytesLeft);
    }
    s.state := sub.state;
    return true;
  }
}
