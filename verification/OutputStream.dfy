/** Output streams: a window of a caller's buffer, or a counter that only measures. */
module OutputStream {
  import opened Bytes
  import opened Parsing

  /** The observable state of a stream at one moment. */
  datatype Snapshot = Snapshot(sizing: bool, memory: seq<byte>, state: nat, maxSize: nat, written: nat) {
    /** The stream's share of the buffer lies inside the buffer. */
    predicate Valid() {
      !sizing ==> written <= maxSize && state + (maxSize - written) <= |memory|
    }

    predicate HasRoom(count: nat) { sizing || written + count <= maxSize }
  }

  function Spliced(memory: seq<byte>, at: nat, bytes: seq<byte>): (r: seq<byte>)
    requires at + |bytes| <= |memory|
    ensures |r| == |memory|
  {
    memory[..at] + bytes + memory[at + |bytes|..]
  }

  /** Nothing outside memory[at .. at + room] differs. */
  ghost predicate Confined(memory: seq<byte>, memory': seq<byte>, at: nat, room: nat) {
    |memory'| == |memory| && at + room <= |memory|
    && memory'[..at] == memory[..at] && memory'[at + room..] == memory[at + room..]
  }

  /**
   * What an encoding step that has to emit `bytes` (or to report an error, on None) does to a
   * stream. It succeeds exactly when there is something to emit and room for it. Then the bytes
   * stand where the stream was, and nothing else changed; otherwise nothing beyond the stream's
   * share of the buffer was touched.
   */
  ghost predicate Emits(a: Snapshot, b: Snapshot, bytes: Option<seq<byte>>, ok: bool) {
    a.Valid() && b.Valid() && b.sizing == a.sizing && b.maxSize == a.maxSize
    && (ok <==> bytes.Some? && a.HasRoom(|bytes.value|))
    && (ok ==> b.written == a.written + |bytes.value|)
    && (if a.sizing then b.memory == a.memory && b.state == a.state
        else if ok then b.state == a.state + |bytes.value| && b.memory == Spliced(a.memory, a.state, bytes.value)
        else a.written <= b.written && b.state - a.state == b.written - a.written
             && Confined(a.memory, b.memory, a.state, a.maxSize - a.written))
  }

  function Append(x: Option<seq<byte>>, y: Option<seq<byte>>): Option<seq<byte>> {
    if x.Some? && y.Some? then Some(x.value + y.value) else None
  }

  /** A step that failed fails whatever was to follow. */
  lemma EmitsFailed(a: Snapshot, b: Snapshot, x: Option<seq<byte>>, y: Option<seq<byte>>)
    requires Emits(a, b, x, false)
    ensures Emits(a, b, Append(x, y), false)
  {
  }

  lemma SplicedTwice(m: seq<byte>, at: nat, x: seq<byte>, y: seq<byte>)
    requires at + |x| + |y| <= |m|
    ensures Spliced(Spliced(m, at, x), at + |x|, y) == Spliced(m, at, x + y)
  {
  }

  lemma ConfinedAfterSplice(m: seq<byte>, at: nat, x: seq<byte>, room: nat, m': seq<byte>)
    requires |x| <= room && at + room <= |m|
    requires Confined(Spliced(m, at, x), m', at + |x|, room - |x|)
    ensures Confined(m, m', at, room)
  {
    var s := Spliced(m, at, x);
    assert m'[..at] == m'[..at + |x|][..at] == s[..at + |x|][..at] == m[..at];
    assert m'[at + room..] == s[at + room..] == m[at + room..];
  }

  /** Two steps in a row. */
  lemma EmitsThen(a: Snapshot, b: Snapshot, c: Snapshot, x: seq<byte>, y: Option<seq<byte>>, ok: bool)
    requires Emits(a, b, Some(x), true) && Emits(b, c, y, ok)
    ensures Emits(a, c, Append(Some(x), y), ok)
  {
    if !a.sizing {
      if ok {
        SplicedTwice(a.memory, a.state, x, y.value);
      } else {
        ConfinedAfterSplice(a.memory, a.state, x, a.maxSize - a.written, c.memory);
      }
    }
  }

  lemma EmitsNothing(a: Snapshot)
    requires a.Valid()
    ensures Emits(a, a, Some([]), true)
  {
    if !a.sizing {
      assert Spliced(a.memory, a.state, []) == a.memory;
    }
  }

  class OStream {
    const sizing: bool       // callback == NULL
    const buf: array<byte>
    var state: nat           // where the next byte goes
    var maxSize: nat
    var written: nat

    ghost function Now(): Snapshot
      reads this, buf
    {
      Snapshot(sizing, buf[..], state, maxSize, written)
    }

    ghost predicate Valid()
      reads this, buf
    {
      Now().Valid()
    }

    /** PB_OSTREAM_SIZING */
    constructor Sizing()
      ensures Valid() && sizing && written == 0 && fresh(buf)
    {
      sizing := true;
      buf := new byte[0];
      state, maxSize, written := 0, 0, 0;
    }

    /** pb_ostream_from_buffer, and the substream of pb_encode_submessage */
    constructor FromBuffer(buf: array<byte>, start: nat, size: nat)
      requires start + size <= buf.Length
      ensures Valid() && !sizing && this.buf == buf && state == start && maxSize == size && written == 0
    {
      sizing := false;
      this.buf := buf;
      state, maxSize, written := start, size, 0;
    }

    /** buf_write */
    method BufWrite(bytes: seq<byte>)
      requires state + |bytes| <= buf.Length
      modifies this`state, buf
      ensures state == old(state) + |bytes|
      ensures buf[..] == Spliced(old(buf[..]), old(state), bytes)
    {
      var dest := state;
      state := dest + |bytes|;
      var i := 0;
      while i < |bytes|
        invariant 0 <= i <= |bytes| && state == dest + |bytes|
        invariant buf[..] == Spliced(old(buf[..]), dest, bytes[..i])
      {
        ghost var before := buf[..];
        buf[dest + i] := bytes[i];
        assert buf[..] == before[dest + i := bytes[i]];
        assert bytes[..i + 1] == bytes[..i] + [bytes[i]];
        i := i + 1;
      }
      assert bytes[..i] == bytes;
    }

    /** pb_write */
    method Write(bytes: seq<byte>) returns (ok: bool)
      requires Valid()
      modifies this, buf
      ensures Emits(old(Now()), Now(), Some(bytes), ok)
    {
      if !sizing {
        if written + |bytes| > maxSize {
          return false;
        }
        BufWrite(bytes);
      }
      written := written + |bytes|;
      return true;
    }

    /** pb_write without data, which only a sizing stream is given */
    method Count(size: nat)
      requires Valid() && sizing
      modifies this
      ensures Now() == old(Now()).(written := old(written) + size)
    {
      written := written + size;
    }
  }
}
