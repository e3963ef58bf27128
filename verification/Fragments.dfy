/** DTLS handshake fragments on the wire (RFC 6347, section 4.2.2). */
module Fragments {
  import opened Bytes
  import opened Parsing
  import opened Words
  import opened Reassembly

  /** One fragment: the whole message's type, length and number, and the part of the body it carries. */
  datatype Fragment = Fragment(typ: byte, msgLen: nat, seqNo: nat, off: nat, body: seq<byte>)

  /** The fields fit their places in the header. */
  predicate Encodable(f: Fragment) {
    f.msgLen < 0x100_0000 && f.seqNo < 0x1_0000 && f.off < 0x100_0000 && |f.body| < 0x100_0000
  }

  function Wire(f: Fragment): (s: seq<byte>)
    ensures |s| == HEADER_LENGTH + |f.body|
  {
    HeaderBytes(f.typ, f.msgLen, f.seqNo, f.off, |f.body|) + f.body
  }

  /** dtls1_parse_fragment */
  function ParseFragment(s: seq<byte>): (r: Parsed<Fragment>)
    ensures r.Ok? ==> Encodable(r.value) && |r.rest| < |s|
  {
    if |s| < HEADER_LENGTH then Fail
    else
      var len := BigEndian(s[9..12]);
      if |s| - HEADER_LENGTH < len then Fail
      else
        HeaderFieldsFit(s);
        Ok(Fragment(s[0], BigEndian(s[1..4]), BigEndian(s[4..6]), BigEndian(s[6..9]), s[12..12 + len]), s[12 + len..])
  }

  lemma HeaderWidths()
    ensures Pow2(8 * 3) == 0x100_0000 && Pow2(8 * 2) == 0x1_0000
  {
    EightBits();
    Pow2Add(8, 8);
    Pow2Add(16, 8);
  }

  lemma HeaderFieldsFit(s: seq<byte>)
    requires |s| >= HEADER_LENGTH
    ensures BigEndian(s[1..4]) < 0x100_0000 && BigEndian(s[4..6]) < 0x1_0000
    ensures BigEndian(s[6..9]) < 0x100_0000 && BigEndian(s[9..12]) < 0x100_0000
  {
    HeaderWidths();
    BigEndianBound(s[1..4]);
    BigEndianBound(s[4..6]);
    BigEndianBound(s[6..9]);
    BigEndianBound(s[9..12]);
  }

  /** Parsing inverts serialising, whatever follows. */
  lemma ParseWire(f: Fragment, rest: seq<byte>)
    requires Encodable(f)
    ensures ParseFragment(Wire(f) + rest) == Ok(f, rest)
  {
    hide BigEndian, ToBigEndian, Pow2;
    HeaderWidths();
    var s := Wire(f) + rest;
    assert s[1..4] == ToBigEndian(f.msgLen, 3);
    assert s[4..6] == ToBigEndian(f.seqNo, 2);
    assert s[6..9] == ToBigEndian(f.off, 3);
    assert s[9..12] == ToBigEndian(|f.body|, 3);
    BigEndianRoundTrip(f.msgLen, 3);
    BigEndianRoundTrip(f.seqNo, 2);
    BigEndianRoundTrip(f.off, 3);
    BigEndianRoundTrip(|f.body|, 3);
    assert s[12..12 + |f.body|] == f.body;
    assert s[12 + |f.body|..] == rest;
  }

  /** A record that holds several fragments. */
  function Packed(frags: seq<Fragment>): seq<byte> {
    if frags == [] then [] else Wire(frags[0]) + Packed(frags[1..])
  }

  // ---- Messages ----

  datatype Message = Message(typ: byte, body: seq<byte>)

  /** Messages whose lengths and numbers the header can hold, and whose numbers do not come round again. */
  predicate Sendable(msgs: seq<Message>) {
    |msgs| < 0x1_0000 && forall k :: 0 <= k < |msgs| ==> |msgs[k].body| < 0x100_0000
  }

  /** A fragment that the sender of these messages may have produced. */
  predicate Honest(f: Fragment, msgs: seq<Message>) {
    f.seqNo < |msgs|
    && var m := msgs[f.seqNo];
       f.typ == m.typ && f.msgLen == |m.body|
       && f.off + |f.body| <= |m.body| && f.body == m.body[f.off..f.off + |f.body|]
  }

  function RawMessage(msgs: seq<Message>, k: nat): seq<byte>
    requires k < |msgs|
  {
    Unfragmented(msgs[k].typ, k, msgs[k].body)
  }

  function RawMessages(msgs: seq<Message>, n: nat): (r: seq<seq<byte>>)
    requires n <= |msgs|
    ensures |r| == n && forall k :: 0 <= k < n ==> r[k] == RawMessage(msgs, k)
  {
    seq(n, k requires 0 <= k < n => RawMessage(msgs, k))
  }

  function Joined(parts: seq<seq<byte>>): seq<byte> {
    if parts == [] then [] else Joined(parts[..|parts| - 1]) + parts[|parts| - 1]
  }

  /** What hashing these messages, unfragmented and in order, feeds the transcript. */
  function HashedBytes(msgs: seq<Message>): seq<byte> {
    Joined(RawMessages(msgs, |msgs|))
  }

  lemma HashedBytesAdd(msgs: seq<Message>, m: Message)
    ensures HashedBytes(msgs + [m]) == HashedBytes(msgs) + Unfragmented(m.typ, |msgs|, m.body)
  {
    hide Unfragmented;
    var more := msgs + [m];
    var raws := RawMessages(more, |more|);
    assert raws[..|msgs|] == RawMessages(msgs, |msgs|);
    assert raws[|msgs|] == Unfragmented(m.typ, |msgs|, m.body);
  }

  lemma {:induction false} JoinedPrefix(parts: seq<seq<byte>>, n: nat)
    requires n <= |parts|
    ensures Joined(parts[..n]) <= Joined(parts)
    decreases |parts|
  {
    if n == |parts| {
      assert parts[..n] == parts;
    } else {
      var before := parts[..|parts| - 1];
      assert before[..n] == parts[..n];
      JoinedPrefix(before, n);
    }
  }

  /** The header holds sixteen bits of the message number. */
  lemma NumberInHeader(typ: byte, n: nat, body: seq<byte>)
    ensures Unfragmented(typ, n, body) == Unfragmented(typ, n % 0x1_0000, body)
  {
    TwoBytes(n);
    TwoBytes(n % 0x1_0000);
    LowTwoBytes(n);
  }

  lemma TwoBytes(n: nat)
    ensures ToBigEndian(n, 2) == [n / 256 % 256, n % 256]
  {
    assert ToBigEndian(n / 256, 1) == ToBigEndian(n / 256 / 256, 0) + [n / 256 % 256];
  }

  lemma LowTwoBytes(n: nat)
    ensures n % 0x1_0000 / 256 % 256 == n / 256 % 256 && n % 0x1_0000 % 256 == n % 256
  {
    var q, high, low := n / 256 / 256, n / 256 % 256, n % 256;
    assert n == 0x1_0000 * q + (256 * high + low);
    ModUnique(n, 0x1_0000, q, 256 * high + low);
    ModUnique(256 * high + low, 256, high, low);
    SmallMod(high, 256);
  }

  predicate AllHonest(frags: seq<Fragment>, msgs: seq<Message>) {
    forall i :: 0 <= i < |frags| ==> Honest(frags[i], msgs)
  }

  lemma HonestStays(frags: seq<Fragment>, msgs: seq<Message>, m: Message)
    requires AllHonest(frags, msgs)
    ensures AllHonest(frags, msgs + [m])
  {
    forall i | 0 <= i < |frags| ensures Honest(frags[i], msgs + [m]) {
      assert Honest(frags[i], msgs);
    }
  }
}
