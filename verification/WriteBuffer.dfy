/** The buffer between the record layer and the transport. */
module WriteBuffer {
  import opened Bytes

  const ALIGN: nat := 8           // SSL3_ALIGN_PAYLOAD
  const MAX_CAP: nat := 0xffff

  const WORD: nat := 0x1_0000     // the offset, size and capacity are sixteen bits wide

  /** Allocations of at most this size keep every offset within sixteen bits. */
  const SAFE_CAP: nat := WORD - (ALIGN - 1)

  /** What the buffer holds after `len` of the `size` bytes at `offset` were consumed. */
  function AfterConsume(memory: seq<byte>, offset: nat, size: nat, len: nat): seq<byte>
    requires len <= size && offset + size <= |memory| && offset < WORD
  {
    var offset' := (offset + len) % WORD;
    memory[offset'..offset' + size - len]
  }

  /** The right bytes remain, whatever they are, exactly when the offset does not wrap or nothing remains. */
  lemma ConsumeKeepsRestIff(n: nat, offset: nat, size: nat, len: nat)
    requires len <= size && offset + size <= n && offset < WORD
    ensures (forall memory: seq<byte> :: |memory| == n ==>
               AfterConsume(memory, offset, size, len) == memory[offset + len..offset + size])
            <==> offset + len < WORD || len == size
  {
    if offset + len < WORD {
      assert (offset + len) % WORD == offset + len;
    } else if len < size {
      var memory: seq<byte> := seq(n, i => if i == offset + len then 1 else 0);
      assert |memory| == n;
      var there := memory[offset + len..offset + size];
      assert AfterConsume(memory, offset, size, len)[0] == 0 && there[0] == 1;
    }
  }

  /** What follows the header comes to lie on an aligned address. */
  predicate Aligned(headerLen: nat, address: nat, offset: nat) {
    offset < ALIGN && (headerLen + address + offset) % ALIGN == 0
  }

  class SslBuffer {
    var buf: array?<byte>
    var offset: nat
    var size: nat
    var cap: nat

    ghost predicate Valid()
      reads this, buf
    {
      size <= cap <= MAX_CAP && (if buf == null then offset == 0 && cap == 0
                                 else offset < WORD && offset + cap <= buf.Length)
    }

    /** No offset into the contents can wrap. */
    ghost predicate InWord()
      reads this
    {
      offset + cap <= WORD
    }

    ghost function Content(): (s: seq<byte>)
      requires Valid()
      reads this, buf
      ensures |s| == size
    {
      if buf == null then [] else buf[offset..offset + size]
    }

    constructor ()
      ensures Valid() && Content() == [] && buf == null
    {
      buf, offset, size, cap := null, 0, 0, 0;
    }

    method Clear()
      modifies this
      ensures Valid() && Content() == [] && cap == 0 && buf == null
    {
      buf, offset, size, cap := null, 0, 0, 0;
    }

    /** `address` is where the allocator would put a new block. */
    method EnsureCap(headerLen: nat, newCap: nat, address: nat) returns (ok: bool)
      requires Valid()
      modifies this
      ensures Valid() && Content() == old(Content())
      ensures ok <==> newCap <= MAX_CAP
      ensures ok && newCap > old(cap) ==>
                fresh(buf) && buf.Length == newCap + ALIGN - 1 && cap == newCap && Aligned(headerLen, address, offset)
      ensures !ok || newCap <= old(cap) ==> buf == old(buf) && offset == old(offset) && cap == old(cap)
      ensures size == old(size) && (newCap <= SAFE_CAP && old(InWord()) ==> InWord())
    {
      if newCap > MAX_CAP {
        return false;
      }
      if cap >= newCap {
        return true;
      }
      var newBuf := new byte[newCap + ALIGN - 1];
      var newOffset := (ALIGN - (headerLen + address) % ALIGN) % ALIGN;
      if buf != null {
        forall i | 0 <= i < size {
          newBuf[newOffset + i] := buf[offset + i];
        }
        assert newBuf[newOffset..newOffset + size] == old(Content());
      }
      buf, offset, cap := newBuf, newOffset, newCap;
      return true;
    }

    /** Filling part of what remains and then DidWrite. */
    method Append(s: seq<byte>)
      requires Valid() && |s| <= cap - size
      modifies this`size, buf
      ensures size == old(size) + |s| && (old(InWord()) ==> InWord())
      ensures Valid() && Content() == old(Content()) + s
    {
      if s != [] {
        forall i | 0 <= i < |s| {
          buf[offset + size + i] := s[i];
        }
        size := size + |s|;
      }
    }

    method Consume(len: nat)
      requires Valid() && len <= size
      modifies this`offset, this`size, this`cap
      ensures Valid() && cap == old(cap) - len && size == old(size) - len && offset == (old(offset) + len) % WORD
      ensures buf != null ==> Content() == AfterConsume(buf[..], old(offset), old(size), len)
      ensures old(offset) + len < WORD || len == old(size) ==> Content() == old(Content())[len..]
    {
      if len > 0 {
        offset, size, cap := (offset + len) % WORD, size - len, cap - len;
      }
    }

    /** Consumed memory is given back only when nothing is left. */
    method DiscardConsumed()
      requires Valid()
      modifies this
      ensures Valid() && Content() == old(Content())
      ensures old(size) == 0 ==> buf == null
    {
      if size == 0 {
        Clear();
      }
    }
  }

  /** The byte-stream transport; what it took is remembered, and how often it took nothing. */
  class Bio {
    ghost var taken: seq<byte>
    ghost var refusals: nat

    constructor ()
      ensures taken == [] && refusals == 0
    {
      taken, refusals := [], 0;
    }

    /** BIO_write takes some of what it is given, or fails. */
    method Write(data: seq<byte>) returns (ret: int)
      modifies this
      ensures ret <= |data| && taken == old(taken) + if ret > 0 then data[..ret] else []
      ensures refusals == old(refusals) + if ret > 0 then 0 else 1
    {
      ret := *;
      if ret > |data| {
        ret := |data|;
      }
      if ret > 0 {
        taken := taken + data[..ret];
      } else {
        refusals := refusals + 1;
      }
    }
  }

  function Total(took: seq<nat>): nat {
    if took == [] then 0 else Total(took[..|took| - 1]) + took[|took| - 1]
  }

  /** Among the amounts that the transport took there is one after which the offset wraps with bytes left. */
  ghost predicate Wraps(offset: nat, size: nat, took: seq<nat>) {
    exists i :: 0 <= i <= |took| && WrapsAt(offset, size, Total(took[..i]))
  }

  predicate WrapsAt(offset: nat, size: nat, taken: nat) {
    offset + taken >= WORD && taken < size
  }

  lemma OneMoreTaken(offset: nat, size: nat, took: seq<nat>, n: nat)
    ensures Total(took + [n]) == Total(took) + n
    ensures Wraps(offset, size, took + [n]) <==> Wraps(offset, size, took) || WrapsAt(offset, size, Total(took) + n)
  {
    var more := took + [n];
    assert more[..|took|] == took && more[..|more|] == more;
    if Wraps(offset, size, took) {
      var i :| 0 <= i <= |took| && WrapsAt(offset, size, Total(took[..i]));
      assert more[..i] == took[..i];
    }
    if Wraps(offset, size, more) {
      var i :| 0 <= i <= |more| && WrapsAt(offset, size, Total(more[..i]));
      if i <= |took| {
        assert more[..i] == took[..i];
      }
    }
  }

  /** Nothing wraps in a buffer whose end is within sixteen bits. */
  lemma NoWrapBelow(offset: nat, size: nat, took: seq<nat>)
    requires offset + size <= WORD
    ensures !Wraps(offset, size, took)
  {
  }

  lemma NoWrapYet(offset: nat, size: nat)
    requires offset < WORD
    ensures !Wraps(offset, size, []) && Total([]) == 0
  {
  }

  /**
   * tls_write_buffer_flush: nothing is lost, repeated or reordered between buffer and transport, as
   * long as no offset wraps on the way. `took` are the amounts that the transport took.
   */
  method Flush(buffer: SslBuffer, bio: Bio) returns (ret: int, ghost took: seq<nat>)
    requires buffer.Valid() && buffer.offset < WORD
    modifies buffer, bio
    ensures buffer.Valid() && buffer.offset < WORD
    ensures !Wraps(old(buffer.offset), old(buffer.size), took) ==>
              bio.taken + buffer.Content() == old(bio.taken) + old(buffer.Content())
    ensures old(bio.taken) <= bio.taken && |bio.taken| == |old(bio.taken)| + Total(took)
    ensures old(buffer.InWord()) ==> buffer.InWord() && !Wraps(old(buffer.offset), old(buffer.size), took)
    ensures if ret > 0 then ret == 1 && buffer.size == 0 else buffer.size > 0
    ensures bio.refusals == old(bio.refusals) + if ret > 0 then 0 else 1
    ensures buffer.buf == old(buffer.buf) || buffer.buf == null
  {
    hide Wraps, Total, AfterConsume, SslBuffer.Content;
    ghost var all, start, size := bio.taken + buffer.Content(), buffer.offset, buffer.size;
    ghost var inWord := buffer.InWord();
    took := [];
    NoWrapYet(start, size);
    while buffer.size > 0
      invariant buffer.Valid() && buffer.offset < WORD && buffer.buf == old(buffer.buf) && old(bio.taken) <= bio.taken
      invariant |bio.taken| == |old(bio.taken)| + Total(took) && buffer.size == size - Total(took)
      invariant buffer.cap == old(buffer.cap) - Total(took) && bio.refusals == old(bio.refusals)
      invariant !Wraps(start, size, took) ==>
                  bio.taken + buffer.Content() == all && (buffer.size > 0 ==> buffer.offset == start + Total(took))
      decreases buffer.size
    {
      var data := Contents(buffer);
      ghost var before := bio.taken;
      ret := bio.Write(data);
      if ret <= 0 {
        assert bio.taken == before;
        break;
      }
      OneMoreTaken(start, size, took, ret);
      Rejoin(before, data, ret);
      buffer.Consume(ret);
      took := took + [ret];
    }
    if inWord {
      NoWrapBelow(start, size, took);
    }
    if buffer.size == 0 {
      buffer.Clear();
      ret := 1;
    }
  }

  /** buf->data() and buf->size() */
  method Contents(buffer: SslBuffer) returns (data: seq<byte>)
    requires buffer.Valid() && buffer.size > 0
    ensures data == buffer.Content()
  {
    data := buffer.buf[buffer.offset..buffer.offset + buffer.size];
  }

  lemma Rejoin(before: seq<byte>, data: seq<byte>, n: nat)
    requires n <= |data|
    ensures before + data[..n] + data[n..] == before + data
  {
  }

  /**
   * The offset does wrap: a full buffer, put where its first byte has offset seven, loses its place when
   * the transport takes all but six bytes. What it then holds lies before everything that was put in.
   */
  method OffsetWraps(data: seq<byte>) returns (buffer: SslBuffer)
    requires |data| == MAX_CAP
    ensures fresh(buffer) && buffer.Valid() && buffer.buf != null && buffer.buf.Length == MAX_CAP + ALIGN - 1
    ensures buffer.buf[ALIGN - 1..] == data && buffer.Content() == buffer.buf[..6]
    ensures Wraps(ALIGN - 1, MAX_CAP, [MAX_CAP - 6])
  {
    hide AfterConsume, Wraps, Total;
    buffer := new SslBuffer();
    var ok := buffer.EnsureCap(0, MAX_CAP, 1);
    OnlyOffset(buffer.offset);
    buffer.Append(data);
    ghost var memory := buffer.buf[..];
    assert memory[ALIGN - 1..] == buffer.Content() == data;
    buffer.Consume(MAX_CAP - 6);
    assert buffer.buf[..] == memory;
    WrapExample();
  }

  lemma OnlyOffset(offset: nat)
    requires Aligned(0, 1, offset)
    ensures offset == ALIGN - 1
  {
  }

  lemma WrapExample()
    ensures Wraps(ALIGN - 1, MAX_CAP, [MAX_CAP - 6])
  {
    OneMoreTaken(ALIGN - 1, MAX_CAP, [], MAX_CAP - 6);
    assert [] + [MAX_CAP - 6] == [MAX_CAP - 6];
  }
}
