/** Writing application data over a stream transport, resuming across short and failed writes. */
module WritePath {
  import opened Bytes
  import opened Parsing
  import opened WriteBuffer

  const APPLICATION_DATA: nat := 23   // SSL3_RT_APPLICATION_DATA
  const ALERT: nat := 21              // SSL3_RT_ALERT
  const MAX_PLAIN: nat := 16384       // SSL3_RT_MAX_PLAIN_LENGTH

  /** What was put into the write buffer: unflushed handshake bytes, or one sealed record. */
  datatype Chunk = FlightData(bytes: seq<byte>) | Sealed(typ: nat, plain: seq<byte>, cipher: seq<byte>)

  function WireBytes(chunks: seq<Chunk>): seq<byte> {
    if chunks == [] then []
    else
      WireBytes(chunks[..|chunks| - 1]) +
      match chunks[|chunks| - 1]
      case FlightData(bytes) => bytes
      case Sealed(_, _, cipher) => cipher
  }

  /** The application data in the sealed records. */
  function AppBytes(chunks: seq<Chunk>): seq<byte> {
    if chunks == [] then []
    else
      var last := chunks[|chunks| - 1];
      AppBytes(chunks[..|chunks| - 1]) + if last.Sealed? && last.typ == APPLICATION_DATA then last.plain else []
  }

  lemma ChunkAdded(chunks: seq<Chunk>, c: Chunk)
    ensures WireBytes(chunks + [c]) == WireBytes(chunks) + if c.FlightData? then c.bytes else c.cipher
    ensures AppBytes(chunks + [c]) == AppBytes(chunks) + if c.Sealed? && c.typ == APPLICATION_DATA then c.plain else []
  {
    assert (chunks + [c])[..|chunks|] == chunks;
  }

  /** If a record was sealed, it is this one. */
  predicate SealedOnly(before: seq<Chunk>, after: seq<Chunk>, typ: nat, data: seq<byte>) {
    |after| > |before| && after[|after| - 1].Sealed? ==>
      after[|after| - 1].typ == typ && after[|after| - 1].plain == data
  }

  lemma SealedNothing(chunks: seq<Chunk>, data: seq<byte>)
    ensures SealedOnly(chunks, chunks, APPLICATION_DATA, data) && Extends(chunks, chunks)
  {
  }

  /** Nothing sealed is taken back. */
  predicate Extends(before: seq<Chunk>, after: seq<Chunk>) {
    before <= after
  }

  lemma ExtendsFurther(a: seq<Chunk>, b: seq<Chunk>, c: seq<Chunk>)
    requires Extends(a, b) && Extends(b, c)
    ensures Extends(a, c)
  {
  }

  // ---- Early data ----

  const COUNTER: nat := 0x1_0000   // early_data_written is sixteen bits wide

  function Sum(sizes: seq<nat>): nat {
    if sizes == [] then 0 else Sum(sizes[..|sizes| - 1]) + sizes[|sizes| - 1]
  }

  /** How much early data the counter says may still be written after `total` bytes. */
  function EarlyRoom(ticketMax: nat, total: nat): int {
    ticketMax - total % COUNTER
  }

  /** Early records that were counted one after the other, each within the room there was. */
  predicate EarlyRun(ticketMax: nat, sizes: seq<nat>) {
    sizes == []
    || (EarlyRun(ticketMax, sizes[..|sizes| - 1])
        && 0 < sizes[|sizes| - 1] <= EarlyRoom(ticketMax, Sum(sizes[..|sizes| - 1])))
  }

  lemma RunGrows(ticketMax: nat, sizes: seq<nat>, n: nat)
    requires EarlyRun(ticketMax, sizes) && 0 < n <= EarlyRoom(ticketMax, Sum(sizes))
    ensures EarlyRun(ticketMax, sizes + [n]) && Sum(sizes + [n]) == Sum(sizes) + n
  {
    assert (sizes + [n])[..|sizes|] == sizes;
  }

  lemma {:induction false} RunWithin(ticketMax: nat, sizes: seq<nat>)
    requires ticketMax < COUNTER && EarlyRun(ticketMax, sizes)
    ensures Sum(sizes) <= ticketMax
    decreases |sizes|
  {
    if sizes != [] {
      RunWithin(ticketMax, sizes[..|sizes| - 1]);
    }
  }

  /** With a limit that the counter cannot hold there is always room for one byte more. */
  lemma {:induction false} OnesRun(ticketMax: nat, n: nat) returns (sizes: seq<nat>)
    requires ticketMax >= COUNTER
    ensures EarlyRun(ticketMax, sizes) && Sum(sizes) == n
  {
    if n == 0 {
      sizes := [];
    } else {
      sizes := OnesRun(ticketMax, n - 1);
      RunGrows(ticketMax, sizes, 1);
      sizes := sizes + [1];
    }
  }

  /** Every run of early records stays within the ticket's limit if and only if the counter can hold the limit. */
  lemma EarlyLimitHoldsIff(ticketMax: nat)
    ensures (forall sizes :: EarlyRun(ticketMax, sizes) ==> Sum(sizes) <= ticketMax) <==> ticketMax < COUNTER
  {
    if ticketMax < COUNTER {
      forall sizes | EarlyRun(ticketMax, sizes) ensures Sum(sizes) <= ticketMax {
        RunWithin(ticketMax, sizes);
      }
    } else {
      var sizes := OnesRun(ticketMax, ticketMax + 1);
    }
  }

  lemma SumOfRemainder(a: nat, b: nat)
    ensures (a % COUNTER + b) % COUNTER == (a + b) % COUNTER
  {
    var q, r := a / COUNTER, a % COUNTER;
    ModUnique(a + b, COUNTER, q + (r + b) / COUNTER, (r + b) % COUNTER);
  }

  class Writer {
    const buffer: SslBuffer
    const bio: Bio
    var wnum: nat
    var wpendTot: nat
    var wpendRet: nat
    var wpendBuf: int
    var wpendType: nat
    var wpendPending: bool
    var pendingFlight: Option<seq<byte>>
    var pendingFlightOffset: nat
    var maxSendFragment: nat
    var partialWrite: bool          // SSL_MODE_ENABLE_PARTIAL_WRITE
    var movingBuffer: bool          // SSL_MODE_ACCEPT_MOVING_WRITE_BUFFER
    var shutdown: bool
    var overhead: nat               // SSL_max_seal_overhead
    var alignPrefix: nat            // ssl_seal_align_prefix_len
    var earlyClient: bool           // a client still in early data
    var canEarlyWrite: bool
    const ticketMax: nat
    var earlyWritten: nat
    ghost var earlySizes: seq<nat>  // the early records counted so far
    ghost var chunks: seq<Chunk>
    ghost var wide: bool            // a buffer was asked for that sixteen-bit offsets may not serve
    ghost var wrapped: bool         // an offset did wrap while bytes were left
    ghost var reported: seq<byte>   // the application data the caller was told is written
    ghost var stem: seq<byte>       // application data sealed beyond that
    ghost var faults: nat           // how often sealing failed

    /** Buffer and transport together hold what was put into the buffer, in order, unless an offset wrapped. */
    ghost predicate InOrder()
      reads `wide, `wrapped, `chunks, buffer, buffer.buf, bio
    {
      buffer.Valid() && buffer.offset < WORD
      && (!wrapped ==> bio.taken + buffer.Content() == WireBytes(chunks))
      && (!wide ==> buffer.InWord() && !wrapped)
    }

    /** The pending record is the last one sealed. */
    ghost predicate PendingIsLast()
      reads `chunks, `wpendPending, `wpendType, `wpendTot, `wpendRet
    {
      wpendPending ==>
        chunks != []
        && var last := chunks[|chunks| - 1];
           last.Sealed? && last.typ == wpendType && 0 < |last.plain| == wpendTot == wpendRet
    }

    /** The sixteen-bit counter follows the early records. */
    ghost predicate EarlyCounted()
      reads `earlyWritten, `earlySizes
    {
      EarlyRun(ticketMax, earlySizes) && earlyWritten == Sum(earlySizes) % COUNTER <= ticketMax
    }

    ghost predicate Plumbing()
      reads `wide, `wrapped, `chunks, `pendingFlight, `pendingFlightOffset, `wpendPending, `wpendType, `wpendTot,
            `wpendRet
      reads `earlyWritten, `earlySizes
      reads buffer, buffer.buf, bio
    {
      InOrder() && PendingIsLast() && EarlyCounted()
      && (pendingFlight.Some? ==> pendingFlightOffset <= |pendingFlight.value|)
    }

    /** Application data of a record not yet wholly handed to the transport. */
    ghost function Held(): nat
      reads `wpendPending, `wpendType, `wpendTot
    {
      if wpendPending && wpendType == APPLICATION_DATA then wpendTot else 0
    }

    /**
     * The sealed application records hold exactly what was reported written, then what this write
     * has got past, then at most one pending record.
     */
    ghost predicate Accounted()
      reads `chunks, `reported, `stem, `wnum, `wpendPending, `wpendType, `wpendTot
    {
      AppBytes(chunks) == reported + stem && |stem| == wnum + Held()
    }

    constructor (buffer: SslBuffer, bio: Bio, overhead: nat, alignPrefix: nat, ticketMax: nat)
      requires buffer.Valid() && buffer.offset < WORD && buffer.InWord() && buffer.Content() == [] && bio.taken == []
      ensures Plumbing() && Accounted() && chunks == [] && this.buffer == buffer && this.bio == bio
    {
      this.buffer, this.bio, this.overhead, this.alignPrefix := buffer, bio, overhead, alignPrefix;
      this.ticketMax := ticketMax;
      wnum, wpendTot, wpendRet, wpendBuf, wpendType, wpendPending := 0, 0, 0, 0, 0, false;
      pendingFlight, pendingFlightOffset, maxSendFragment := None, 0, MAX_PLAIN;
      partialWrite, movingBuffer, shutdown, earlyClient, canEarlyWrite := false, false, false, false, false;
      earlyWritten, earlySizes, chunks, wide, wrapped, reported, stem, faults := 0, [], [], false, false, [], [], 0;
    }

    // ---- When a write can succeed ----

    /** A retry of the pending record: no shorter, of its type, and from the same place unless that may move. */
    ghost predicate Retries(typ: nat, address: int, len: nat)
      reads `wpendTot, `wpendType, `wpendBuf, `movingBuffer
    {
      wpendTot <= len && typ == wpendType && (movingBuffer || address == wpendBuf)
    }

    ghost function FlightLeft(): nat
      reads `pendingFlight, `pendingFlightOffset
    {
      if pendingFlight.Some? && pendingFlightOffset <= |pendingFlight.value|
      then |pendingFlight.value| - pendingFlightOffset else 0
    }

    /** Nothing but the transport and the cipher stands in the way of such a record. */
    ghost predicate CanSend(typ: nat, address: int, len: nat)
      reads `wpendPending, `wpendTot, `wpendType, `wpendBuf, `movingBuffer, `pendingFlight, `pendingFlightOffset
      reads `overhead, buffer`size
    {
      if wpendPending then Retries(typ, address, len)
      else buffer.size == 0 && 0 < len <= MAX_PLAIN && len + overhead + FlightLeft() <= MAX_CAP
    }

    /** ssl3_write_pending */
    method WritePending(typ: nat, address: int, len: nat) returns (ret: int)
      requires Plumbing() && wpendPending
      modifies this`wpendPending, this`wrapped, buffer, bio
      ensures Plumbing() && (ret > 0 <==> !wpendPending)
      ensures ret > 0 ==>
                ret == wpendRet && Retries(typ, address, len) && buffer.size == 0 && bio.refusals == old(bio.refusals)
      ensures Retries(typ, address, len) && ret <= 0 ==> bio.refusals == old(bio.refusals) + 1
      ensures !Retries(typ, address, len) ==> ret == -1 && bio.refusals == old(bio.refusals) && wrapped == old(wrapped)
      ensures buffer.buf == old(buffer.buf) || buffer.buf == null
    {
      hide WireBytes, SslBuffer.Content, SslBuffer.InWord, Wraps, Total, Writer.EarlyCounted;
      if wpendTot > len || (!movingBuffer && wpendBuf != address) || wpendType != typ {
        return -1;   // SSL_R_BAD_WRITE_RETRY
      }
      ghost var offset, size := buffer.offset, buffer.size;
      ghost var took;
      ret, took := Flush(buffer, bio);
      wrapped := wrapped || Wraps(offset, size, took);
      if ret <= 0 {
        return ret;
      }
      wpendPending := false;
      return wpendRet;
    }

    /** tls_seal_record: some bytes that fit, or a failure. */
    method Seal(typ: nat, plain: seq<byte>, room: nat) returns (ok: bool, cipher: seq<byte>)
      modifies `faults
      ensures ok ==> |cipher| <= room
      ensures faults == old(faults) + if ok then 0 else 1
    {
      cipher := *;
      ok := *;
      if |cipher| > room {
        ok := false;
      }
      if !ok {
        faults := faults + 1;
      }
    }

    /** What a chunk puts on the wire. */
    static function Wire(c: Chunk): seq<byte> {
      if c.FlightData? then c.bytes else c.cipher
    }

    /** A chunk enters the buffer behind what is there. */
    method AppendChunk(bytes: seq<byte>, ghost c: Chunk)
      requires InOrder() && |bytes| <= buffer.cap - buffer.size && Wire(c) == bytes
      modifies `chunks, buffer`size, buffer.buf
      ensures InOrder() && chunks == old(chunks) + [c] && buffer.size == old(buffer.size) + |bytes|
      ensures AppBytes(chunks) ==
              AppBytes(old(chunks)) + if c.Sealed? && c.typ == APPLICATION_DATA then c.plain else []
    {
      hide WireBytes, AppBytes, SslBuffer.Content, SslBuffer.InWord, SslBuffer.Valid;
      ghost var content := buffer.Content();
      buffer.Append(bytes);
      assert bio.taken + (content + bytes) == bio.taken + content + bytes;
      ChunkAdded(chunks, c);
      chunks := chunks + [c];
    }

    /** Moves the rest of the pending flight in front of the record that will follow. */
    method AddFlight()
      requires Plumbing() && !wpendPending && pendingFlight.Some?
      requires |pendingFlight.value| - pendingFlightOffset <= buffer.cap - buffer.size
      modifies this`pendingFlight, this`pendingFlightOffset, this`chunks, buffer`size, buffer.buf
      ensures Plumbing() && pendingFlight.None?
      ensures chunks == old(chunks) + [FlightData(old(pendingFlight.value[pendingFlightOffset..]))]
      ensures AppBytes(chunks) == AppBytes(old(chunks))
      ensures buffer.size == old(buffer.size) + |old(pendingFlight).value| - old(pendingFlightOffset)
    {
      hide AppBytes, Writer.InOrder, Writer.EarlyCounted;
      var bytes := pendingFlight.value[pendingFlightOffset..];
      assert AppBytes(chunks) + [] == AppBytes(chunks);
      AppendChunk(bytes, FlightData(bytes));
      pendingFlight, pendingFlightOffset := None, 0;
    }

    /** Room for what is pending and one record, in an empty buffer. */
    method MakeRoom(headerLen: nat, maxOut: nat) returns (ok: bool)
      requires InOrder()
      modifies `wide, buffer
      ensures InOrder() && buffer.size == old(buffer.size) && (ok ==> maxOut <= buffer.cap)
      ensures ok <==> maxOut <= MAX_CAP
      ensures buffer.buf == old(buffer.buf) || fresh(buffer.buf)
    {
      hide WireBytes, SslBuffer.Content;
      wide := wide || maxOut > SAFE_CAP;
      var room: nat :| true;   // wherever the allocator finds it
      ok := buffer.EnsureCap(headerLen, maxOut, room);
    }

    /** The part of do_ssl3_write that fills the buffer. */
    method SealInto(typ: nat, address: int, data: seq<byte>) returns (ok: bool)
      requires Plumbing() && !wpendPending && buffer.size == 0 && data != []
      modifies this`pendingFlight, this`pendingFlightOffset, this`chunks, this`wide, this`faults
      modifies this`wpendTot, this`wpendBuf, this`wpendType, this`wpendRet, this`wpendPending
      modifies buffer, buffer.buf
      ensures Plumbing() && ok == wpendPending && Extends(old(chunks), chunks)
      ensures ok ==>
                chunks[|chunks| - 1].Sealed? && chunks[|chunks| - 1].plain == data && chunks[|chunks| - 1].typ == typ
                     && wpendTot == |data| && wpendBuf == address && wpendType == typ
      ensures ok ==> pendingFlight.None? && |chunks| == |old(chunks)| + 1 + if old(pendingFlight).Some? then 1 else 0
      ensures ok && old(pendingFlight).Some? ==>
                chunks[|old(chunks)|] == FlightData(old(pendingFlight).value[old(pendingFlightOffset)..])
      ensures !ok ==> Extends(old(chunks), chunks) && (|chunks| > |old(chunks)| ==> chunks[|chunks| - 1].FlightData?)
      ensures ok <==> faults == old(faults) && |data| + overhead + old(FlightLeft()) <= MAX_CAP
      ensures old(faults) <= faults && FlightLeft() <= old(FlightLeft())
      ensures AppBytes(chunks) == AppBytes(old(chunks)) + if ok && typ == APPLICATION_DATA then data else []
      ensures buffer.buf == old(buffer.buf) || fresh(buffer.buf)
    {
      hide WireBytes, AppBytes, Writer.InOrder, Writer.EarlyCounted;
      ghost var app := AppBytes(chunks);
      assert app + [] == app;
      var flightLen := 0;
      if pendingFlight.Some? {
        flightLen := |pendingFlight.value| - pendingFlightOffset;
      }
      var maxOut := |data| + overhead + flightLen;
      ok := MakeRoom(flightLen + alignPrefix, maxOut);
      if !ok {
        return false;
      }
      if pendingFlight.Some? {
        AddFlight();
      }
      ok := AddRecord(typ, address, data);
    }

    /** Seals one record behind what is in the buffer, and remembers the arguments. */
    method AddRecord(typ: nat, address: int, data: seq<byte>) returns (ok: bool)
      requires Plumbing() && !wpendPending && data != [] && buffer.size <= buffer.cap
      modifies this`chunks, this`wpendTot, this`wpendBuf, this`wpendType, this`wpendRet, this`wpendPending, this`faults
      modifies buffer`size, buffer.buf
      ensures Plumbing() && ok == wpendPending && faults == old(faults) + if ok then 0 else 1
      ensures ok ==> |chunks| == |old(chunks)| + 1 && chunks[..|chunks| - 1] == old(chunks)
                     && chunks[|chunks| - 1].Sealed? && chunks[|chunks| - 1].plain == data
                     && chunks[|chunks| - 1].typ == typ
                     && wpendTot == |data| && wpendBuf == address && wpendType == typ
      ensures !ok ==> chunks == old(chunks)
      ensures AppBytes(chunks) == AppBytes(old(chunks)) + if ok && typ == APPLICATION_DATA then data else []
    {
      hide AppBytes, Writer.InOrder, Writer.EarlyCounted;
      assert AppBytes(chunks) + [] == AppBytes(chunks);
      var cipher: seq<byte>;
      ok, cipher := Seal(typ, data, buffer.cap - buffer.size);
      if !ok {
        return false;
      }
      AppendChunk(cipher, Sealed(typ, data, cipher));
      wpendTot, wpendBuf, wpendType, wpendRet, wpendPending := |data|, address, typ, |data|, true;
    }

    /** do_ssl3_write */
    method DoWrite(typ: nat, address: int, data: seq<byte>) returns (ret: int)
      requires Plumbing()
      modifies this`pendingFlight, this`pendingFlightOffset, this`chunks, this`wide, this`wrapped, this`faults
      modifies this`wpendTot, this`wpendBuf, this`wpendType, this`wpendRet, this`wpendPending
      modifies buffer, buffer.buf, bio
      ensures Plumbing() && Extends(old(chunks), chunks) && (ret > 0 ==> !wpendPending)
      ensures old(wpendPending) ==>
                chunks == old(chunks) && wpendTot == old(wpendTot) && wpendType == old(wpendType)
                && (ret > 0 <==> !wpendPending)
                && (ret > 0 ==> ret == wpendTot <= |data| && typ == wpendType)
      ensures !old(wpendPending) ==>
                (ret > 0 ==> ret == |data|)
                && (wpendPending ==> wpendTot == |data| && wpendType == typ)
                && AppBytes(chunks) == AppBytes(old(chunks))
                  + (if typ == APPLICATION_DATA && (ret > 0 || wpendPending) then data else [])
                && SealedOnly(old(chunks), chunks, typ, data)
      ensures ret > 0 ==> buffer.size == 0 && bio.refusals == old(bio.refusals) && faults == old(faults)
      ensures old(CanSend(typ, address, |data|)) && ret <= 0 ==>
                bio.refusals > old(bio.refusals) || faults > old(faults)
      ensures old(bio.refusals) <= bio.refusals && old(faults) <= faults && FlightLeft() <= old(FlightLeft())
      ensures buffer.buf == old(buffer.buf) || buffer.buf == null || fresh(buffer.buf)
    {
      hide WireBytes, AppBytes, SslBuffer.Content, SslBuffer.InWord, SslBuffer.Valid, Writer.EarlyCounted;
      if wpendPending {
        ret := WritePending(typ, address, |data|);
        return ret;
      }
      assert AppBytes(chunks) + [] == AppBytes(chunks);
      if |data| > MAX_PLAIN || buffer.size > 0 {
        return -1;
      }
      if |data| == 0 {
        return 0;
      }
      var ok := SealInto(typ, address, data);
      if !ok {
        return -1;
      }
      ret := WritePending(typ, address, |data|);
    }

    ghost function Limit(isEarly: bool): nat
      reads `maxSendFragment, `earlyWritten
    {
      if isEarly && earlyWritten <= ticketMax && maxSendFragment > ticketMax - earlyWritten
        then ticketMax - earlyWritten
      else maxSendFragment
    }

    /** How many of n more bytes go into the next record. */
    ghost function NextLength(n: nat, isEarly: bool): nat
      reads `maxSendFragment, `earlyWritten
    {
      if n > Limit(isEarly) then Limit(isEarly) else n
    }

    /** The most one record may carry, or none when early data is used up. */
    method MaxRecord(isEarly: bool) returns (max: nat)
      requires Plumbing()
      ensures max == Limit(isEarly)
      ensures max <= maxSendFragment && (isEarly ==> max <= ticketMax - earlyWritten)
      ensures earlyWritten <= ticketMax
      ensures max == 0 ==> maxSendFragment == 0 || (isEarly && maxSendFragment > ticketMax - earlyWritten)
    {
      max := maxSendFragment;
      if isEarly && max > ticketMax - earlyWritten {
        max := ticketMax - earlyWritten;
      }
    }

    /** The sealed application data is what was reported, then this much of the data being written. */
    ghost predicate Covers(data: seq<byte>, n: nat)
      reads `chunks, `reported
    {
      n <= |data| && AppBytes(chunks) == reported + data[..n]
    }

    /** One turn of the loop of ssl3_write_app_data: a record's worth of data from `tot` on. */
    method WriteRecord(address: int, data: seq<byte>, tot: nat, nw: nat, ghost conforms: bool) returns (ret: int)
      requires Plumbing() && tot + nw <= |data| && (conforms ==> Covers(data, tot + Held()))
      modifies this`pendingFlight, this`pendingFlightOffset, this`chunks, this`wide, this`wrapped, this`faults
      modifies this`wpendTot, this`wpendBuf, this`wpendType, this`wpendRet, this`wpendPending
      modifies buffer, buffer.buf, bio
      ensures Plumbing() && Extends(old(chunks), chunks)
      ensures ret > 0 ==> ret <= nw && Held() == 0 && !wpendPending && (conforms ==> Covers(data, tot + ret))
      ensures ret <= 0 ==> conforms ==> Covers(data, tot + Held())
      ensures !old(wpendPending) ==> SealedOnly(old(chunks), chunks, APPLICATION_DATA, data[tot..tot + nw])
      ensures ret > 0 ==> buffer.size == 0 && bio.refusals == old(bio.refusals) && faults == old(faults)
      ensures old(CanSend(APPLICATION_DATA, address + tot, nw)) && ret <= 0 ==>
                bio.refusals > old(bio.refusals) || faults > old(faults)
      ensures old(bio.refusals) <= bio.refusals && old(faults) <= faults && FlightLeft() <= old(FlightLeft())
      ensures buffer.buf == old(buffer.buf) || buffer.buf == null || fresh(buffer.buf)
    {
      hide WireBytes, AppBytes, SslBuffer.Content, SslBuffer.InWord, SslBuffer.Valid, Writer.EarlyCounted;
      ghost var app, part := AppBytes(chunks), data[tot..tot + nw];
      ret := DoWrite(APPLICATION_DATA, address + tot, data[tot..tot + nw]);
      assert data[..tot] + part == data[..tot + nw];
      assert reported + (data[..tot] + part) == reported + data[..tot] + part;
      assert app + [] == app;
    }

    /** The write gives up for now, `tot` bytes in. */
    method Suspend(tot: nat, ghost data: seq<byte>, ghost conforms: bool)
      requires conforms ==> Covers(data, tot + Held())
      modifies `wnum, `stem
      ensures wnum == tot && (conforms ==> Accounted() && stem <= data)
    {
      hide AppBytes;
      wnum := tot;
      if conforms {
        stem := data[..tot + Held()];
      }
    }

    /** The caller is told of the first n bytes. */
    ghost method TellWritten(data: seq<byte>, n: nat, conforms: bool)
      requires n <= |data| && wnum == 0 && Held() == 0 && (conforms ==> Covers(data, n))
      modifies `reported, `stem
      ensures reported == old(reported) + data[..n] && stem == [] && (conforms ==> Accounted())
    {
      hide AppBytes;
      reported := reported + data[..n];
      stem := [];
      assert reported + [] == reported;
    }

    /** A retry that conforms resumes where the write stopped. */
    lemma Resumes(data: seq<byte>)
      ensures Accounted() && stem <= data ==> Covers(data, wnum + Held())
    {
    }

    /** early_data_written grows by what was written, in sixteen bits. */
    method CountEarly(ret: nat)
      requires Plumbing() && 0 < ret <= ticketMax - earlyWritten
      modifies `earlyWritten, `earlySizes
      ensures Plumbing() && earlySizes == old(earlySizes) + [ret]
    {
      hide Writer.InOrder, Writer.PendingIsLast;
      RunGrows(ticketMax, earlySizes, ret);
      SumOfRemainder(Sum(earlySizes), ret);
      earlyWritten := (earlyWritten + ret) % COUNTER;
      earlySizes := earlySizes + [ret];
      if ticketMax < COUNTER {
        RunWithin(ticketMax, earlySizes);
      }
    }

    /** Nothing but the transport, the cipher and the early-data limit stands in the way of writing n more bytes. */
    ghost predicate CanWrite(address: int, n: nat, isEarly: bool)
      reads `wpendPending, `wpendTot, `wpendType, `wpendBuf, `movingBuffer, `pendingFlight, `pendingFlightOffset
      reads `overhead, `maxSendFragment, `earlyWritten, buffer`size
    {
      0 < n && 0 < maxSendFragment <= MAX_PLAIN && maxSendFragment + overhead + FlightLeft() <= MAX_CAP
      && if wpendPending then Retries(APPLICATION_DATA, address, NextLength(n, isEarly)) else buffer.size == 0
    }

    lemma Room(address: int, n: nat, isEarly: bool)
      ensures CanWrite(address, n, isEarly) ==>
                0 < n && 0 < maxSendFragment <= MAX_PLAIN && maxSendFragment + overhead + FlightLeft() <= MAX_CAP
    {
    }

    lemma CanSendNext(address: int, n: nat, isEarly: bool, max: nat)
      requires max == Limit(isEarly) <= maxSendFragment
      ensures CanWrite(address, n, isEarly) && 0 < max ==> CanSend(APPLICATION_DATA, address, NextLength(n, isEarly))
      ensures NextLength(n, isEarly) == if n > max then max else n
    {
    }

    lemma CanWriteOn(address: int, n: nat, isEarly: bool)
      requires 0 < n && !wpendPending && buffer.size == 0
      requires 0 < maxSendFragment <= MAX_PLAIN && maxSendFragment + overhead + FlightLeft() <= MAX_CAP
      ensures CanWrite(address, n, isEarly)
    {
    }

    /** After a record of `ret` bytes was written: it is counted, and the write may be over. */
    method Advance(data: seq<byte>, tot: nat, ret: nat, isEarly: bool, ghost conforms: bool) returns (finished: bool)
      requires Plumbing() && wnum == 0 && Held() == 0 && tot + ret <= |data| && (conforms ==> Covers(data, tot + ret))
      requires 0 < ret && (isEarly ==> ret <= ticketMax - earlyWritten)
      modifies `earlyWritten, `earlySizes, `reported, `stem
      ensures Plumbing() && (finished <==> tot + ret == |data| || partialWrite)
      ensures finished ==> reported == old(reported) + data[..tot + ret] && stem == [] && (conforms ==> Accounted())
      ensures !finished ==> reported == old(reported) && (conforms ==> Covers(data, tot + ret))
    {
      hide Writer.Plumbing, Writer.Accounted, AppBytes;
      if isEarly {
        CountEarly(ret);
      }
      if tot + ret == |data| || partialWrite {
        TellWritten(data, tot + ret, conforms);
        return true;
      }
      return false;
    }

    /** The body of the loop of ssl3_write_app_data. */
    method Turn(address: int, data: seq<byte>, tot: nat, isEarly: bool, ghost conforms: bool)
      returns (finished: bool, ret: int, needsHandshake: bool)
      requires Plumbing() && wnum == 0 && tot <= |data| && (conforms ==> Covers(data, tot + Held()))
      modifies this, buffer, buffer.buf, bio
      ensures Plumbing() && Extends(old(chunks), chunks) && partialWrite == old(partialWrite)
      ensures !finished ==>
                0 < ret < |data| - tot && wnum == 0 && Held() == 0 && (conforms ==> Covers(data, tot + ret))
                && reported == old(reported) && !partialWrite
      ensures finished && conforms ==> Accounted() && stem <= data && (ret > 0 ==> stem == [])
      ensures finished && ret > 0 ==>
                tot < ret <= |data| && reported == old(reported) + data[..ret] && !wpendPending && wnum == 0
                && (!partialWrite ==> ret == |data|)
      ensures finished && ret <= 0 ==> reported == old(reported)
      ensures needsHandshake ==> isEarly && old(Limit(isEarly)) == 0 && finished && ret <= 0
      ensures old(CanWrite(address + tot, |data| - tot, isEarly)) && finished && ret <= 0 && !needsHandshake ==>
                bio.refusals > old(bio.refusals) || faults > old(faults)
      ensures old(CanWrite(address + tot, |data| - tot, isEarly)) && !finished ==>
                CanWrite(address + tot + ret, |data| - tot - ret, isEarly)
      ensures old(bio.refusals) <= bio.refusals && old(faults) <= faults
      ensures var n := old(NextLength(|data| - tot, isEarly));
              n <= |data| - tot
              && (!old(wpendPending) ==> SealedOnly(old(chunks), chunks, APPLICATION_DATA, data[tot..tot + n]))
      ensures buffer.buf == old(buffer.buf) || buffer.buf == null || fresh(buffer.buf)
    {
      hide *;
      var n := |data| - tot;
      ghost var can := CanWrite(address + tot, n, isEarly);
      Room(address + tot, n, isEarly);
      var max := MaxRecord(isEarly);
      CanSendNext(address + tot, n, isEarly, max);
      SealedNothing(chunks, data[tot..tot + NextLength(n, isEarly)]);
      if isEarly && maxSendFragment > ticketMax - earlyWritten && max == 0 {
        Suspend(tot, data, conforms);
        canEarlyWrite := false;
        return true, -1, true;
      }
      var nw := if n > max then max else n;
      ret := WriteRecord(address, data, tot, nw, conforms);
      if ret <= 0 {
        Suspend(tot, data, conforms);
        return true, ret, false;
      }
      finished := Advance(data, tot, ret, isEarly, conforms);
      if finished {
        return true, tot + ret, false;
      }
      if can {
        CanWriteOn(address + tot + ret, n - ret, isEarly);
      }
      return false, ret, false;
    }

    /** The loop of ssl3_write_app_data, from `start` bytes on. */
    method WriteOn(address: int, data: seq<byte>, start: nat, isEarly: bool, ghost conforms: bool)
      returns (ret: int, needsHandshake: bool)
      requires Plumbing() && wnum == 0 && start <= |data| && (conforms ==> Covers(data, start + Held()))
      modifies this, buffer, buffer.buf, bio
      ensures Plumbing() && Extends(old(chunks), chunks) && partialWrite == old(partialWrite)
      ensures conforms ==> Accounted() && stem <= data && (ret > 0 ==> stem == [])
      ensures ret > 0 ==> ret <= |data| && reported == old(reported) + data[..ret] && !wpendPending && wnum == 0
      ensures ret > 0 && !partialWrite ==> ret == |data|
      ensures ret <= 0 ==> reported == old(reported)
      ensures needsHandshake ==> ret <= 0 && isEarly
      ensures old(CanWrite(address + start, |data| - start, isEarly)) ==>
                ret > 0 || needsHandshake || bio.refusals > old(bio.refusals) || faults > old(faults)
      ensures old(bio.refusals) <= bio.refusals && old(faults) <= faults
      ensures buffer.buf == old(buffer.buf) || buffer.buf == null || fresh(buffer.buf)
    {
      hide WireBytes, AppBytes, Writer.Plumbing, Writer.Covers, Writer.Accounted, Writer.CanWrite, Writer.Limit;
      assert Extends(chunks, chunks);
      hide Extends;
      ghost var can := CanWrite(address + start, |data| - start, isEarly);
      var tot, finished := start, false;
      ret, needsHandshake := -1, false;
      while !finished
        invariant Plumbing() && Extends(old(chunks), chunks) && partialWrite == old(partialWrite)
        invariant buffer.buf == old(buffer.buf) || buffer.buf == null || fresh(buffer.buf)
        invariant !finished ==>
                    wnum == 0 && tot <= |data| && (conforms ==> Covers(data, tot + Held())) && reported == old(reported)
                    && !needsHandshake && (can ==> CanWrite(address + tot, |data| - tot, isEarly))
        invariant finished ==>
                    (conforms ==> Accounted() && stem <= data && (ret > 0 ==> stem == []))
                    && (ret > 0 ==>
                          ret <= |data| && reported == old(reported) + data[..ret] && !wpendPending && wnum == 0)
                    && (ret > 0 && !partialWrite ==> ret == |data|)
                    && (ret <= 0 ==> reported == old(reported)) && (needsHandshake ==> ret <= 0 && isEarly)
        invariant finished && can ==>
                    ret > 0 || needsHandshake || bio.refusals > old(bio.refusals) || faults > old(faults)
        invariant old(bio.refusals) <= bio.refusals && old(faults) <= faults
        decreases !finished, |data| - tot
      {
        ghost var before := chunks;
        finished, ret, needsHandshake := Turn(address, data, tot, isEarly, conforms);
        ExtendsFurther(old(chunks), before, chunks);
        if !finished {
          tot := tot + ret;
        }
      }
    }

    /**
     * ssl3_write_app_data. `address` says where the caller's buffer is. A retry conforms when the
     * data still begins with what was sealed beyond what the caller knows to be written.
     */
    method WriteAppData(address: int, data: seq<byte>) returns (ret: int, needsHandshake: bool)
      requires Plumbing()
      modifies this, buffer, buffer.buf, bio
      ensures Plumbing() && Extends(old(chunks), chunks)
      ensures old(Accounted()) && old(stem) <= data ==> Accounted() && stem <= data && (ret > 0 ==> stem == [])
      ensures ret > 0 ==> ret <= |data| && reported == old(reported) + data[..ret] && !wpendPending && wnum == 0
      ensures ret > 0 && !partialWrite ==> ret == |data|
      ensures ret <= 0 ==> reported == old(reported)
      ensures needsHandshake ==> ret <= 0 && old(earlyClient && canEarlyWrite)
      ensures old(!shutdown && wnum < |data|
                  && CanWrite(address + wnum, |data| - wnum, earlyClient && canEarlyWrite)) ==>
                ret > 0 || needsHandshake || bio.refusals > old(bio.refusals) || faults > old(faults)
      ensures old(bio.refusals) <= bio.refusals && old(faults) <= faults
      ensures buffer.buf == old(buffer.buf) || buffer.buf == null || fresh(buffer.buf)
    {
      assert Extends(chunks, chunks);
      ghost var conforms := Accounted() && stem <= data;
      Resumes(data);
      hide WireBytes, AppBytes, Extends;
      hide Writer.Plumbing, Writer.Covers, Writer.Accounted, Writer.CanWrite, Writer.Limit;
      if shutdown {
        return -1, false;
      }
      var tot: nat := wnum;
      wnum := 0;
      if |data| < tot {
        NoLongerThanStem(data, tot, conforms);
        return -1, false;   // SSL_R_BAD_LENGTH
      }
      ret, needsHandshake := WriteOn(address, data, tot, earlyClient && canEarlyWrite, conforms);
    }

    /** A conforming retry is never too short. */
    lemma NoLongerThanStem(data: seq<byte>, tot: nat, conforms: bool)
      requires conforms ==> Covers(data, tot + Held())
      requires |data| < tot
      ensures !conforms
    {
    }

    /** ssl3_dispatch_alert, up to the callbacks */
    method DispatchAlert(level: byte, desc: byte, address: int) returns (ret: int)
      requires Plumbing()
      modifies this, buffer, buffer.buf, bio
      ensures Plumbing() && Extends(old(chunks), chunks) && reported == old(reported) && stem == old(stem)
      ensures old(Accounted()) ==> Accounted()
      ensures old(CanSend(ALERT, address, 2)) && ret <= 0 ==> bio.refusals > old(bio.refusals) || faults > old(faults)
      ensures buffer.buf == old(buffer.buf) || buffer.buf == null || fresh(buffer.buf)
    {
      ghost var app := AppBytes(chunks);
      assert app + [] == app;
      ret := DoWrite(ALERT, address, [level, desc]);
      if ret > 0 {
        ret := 1;
      }
    }
  }

  /** A Writer whose ticket allows more than the counter holds counts past the limit, a byte at a time. */
  method EarlyOverrun(w: Writer)
    requires w.Plumbing() && w.ticketMax >= COUNTER && w.maxSendFragment > 0
    modifies w
    ensures w.Plumbing() && Sum(w.earlySizes) > w.ticketMax
  {
    hide EarlyRun, Sum, WireBytes;
    var n := 0;
    while n <= w.ticketMax
      invariant w.Plumbing() && w.maxSendFragment > 0 && 0 <= n <= w.ticketMax + 1 && Sum(w.earlySizes) >= n
    {
      ghost var before := w.earlySizes;
      var max := w.MaxRecord(true);
      assert max >= 1;
      w.CountEarly(1);
      SumMore(before, 1);
      n := n + 1;
    }
  }

  lemma SumMore(sizes: seq<nat>, n: nat)
    ensures Sum(sizes + [n]) == Sum(sizes) + n
  {
    assert (sizes + [n])[..|sizes|] == sizes;
  }

  // ---- Any sequence of calls ----

  /** A write of the next `len` bytes, or an alert in between. */
  datatype Call = Write(address: int, len: nat) | Alert(level: byte, desc: byte, address: int)

  /**
   * A caller with a stream of bytes makes any calls in any order: each write offers the next bytes, and
   * after one that did not succeed no fewer than it did. Then the application data sealed, in all and in
   * order, are the first bytes of the stream, each once: those the caller was told are written, and
   * behind them only the stem of the unfinished write.
   */
  method WriteStream(w: Writer, stream: seq<byte>, calls: seq<Call>) returns (told: nat)
    requires w.Plumbing() && w.Accounted() && w.stem == []
    modifies w, w.buffer, w.buffer.buf, w.bio
    ensures w.Plumbing() && w.Accounted() && Extends(old(w.chunks), w.chunks)
    ensures told + |w.stem| <= |stream| && w.reported == old(w.reported) + stream[..told]
    ensures AppBytes(w.chunks) == AppBytes(old(w.chunks)) + stream[..told + |w.stem|]
  {
    hide AppBytes, WireBytes, Writer.Plumbing, Writer.Accounted;
    told := 0;
    Told(w);
    assert w.reported + [] == w.reported;
    var i, owed: nat := 0, 0;
    while i < |calls|
      invariant 0 <= i <= |calls| && w.Plumbing() && w.Accounted() && Extends(old(w.chunks), w.chunks)
      invariant w.buffer.buf == old(w.buffer.buf) || w.buffer.buf == null || fresh(w.buffer.buf)
      invariant told + owed <= |stream| && w.stem <= stream[told..told + owed]
      invariant w.reported == old(w.reported) + stream[..told]
    {
      match calls[i] {
        case Write(address, len) =>
          var n := if len < owed then owed else len;
          if n > |stream| - told {
            n := |stream| - told;
          }
          var data := stream[told..told + n];
          assert w.stem <= data;
          var ret, needsHandshake := w.WriteAppData(address, data);
          if ret > 0 {
            assert stream[..told] + data[..ret] == stream[..told + ret];
            told, owed := told + ret, 0;
          } else {
            owed := n;
          }
        case Alert(level, desc, address) =>
          var ret := w.DispatchAlert(level, desc, address);
      }
      i := i + 1;
    }
    Told(w);
    assert stream[..told] + w.stem == stream[..told + |w.stem|];
  }

  lemma Told(w: Writer)
    requires w.Accounted()
    ensures AppBytes(w.chunks) == w.reported + w.stem
  {
  }
}
