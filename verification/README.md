# Proofs about the CourtVision networking stack

CourtVision talks to Firestore through C and C++ libraries vendored under `CourtVision/Pods`. This project
models their most intricate parts in Dafny and proves what they are for.

**Protocol buffers (nanopb).** `Encoding.dfy` and `Decoding.dfy` are the wire format as functions on byte
sequences, over descriptors (`Descriptor.dfy`) with required, optional, repeated, packed, fixed-count and oneof
fields, nested to any depth. `OutputStream`, `Encoder`, `InputStream`, `FieldIteration` and `Decoder` are the streams,
loops and iterators of the library, proved against those functions. `Contents.dfy` says what a struct means to a
reader; `Delivery`, `ValueDelivery` and `RoundTrip` prove that the reader gets it; `Merging` and `RequiredFields` prove
the laws of concatenation and of required fields; `FieldTwice` says what a record does to a field met before, and
`DefaultValues` what an empty message leaves. `Storage` proves that nothing decoded, from any bytes, exceeds its storage.
`WireFormat` is the wire format once more, in plain arithmetic and read record by record, and the encoding is proved to be
the only byte string it allows. `Varint`, `Words`, `Bits`, `Bytes` and `SeenWords` are the arithmetic below.

A well-formed descriptor has distinct nonzero tags below 2^29, sizes that the types admit, a zero default for fields
with implicit presence, and no fixed-count array inside a submessage with implicit presence. Strings are an edge the
theorem does not hide: the encoder sends a string that fills its buffer, the decoder wants one byte more for the
terminator (`CourtVision/Pods/nanopb/pb_decode.c:1437`), so such a message does not arrive, and the theorem says so in
both directions.

**DTLS handshake transport (BoringSSL).** `ReplayWindow` is the sliding window of RFC 6347, section 4.1.2.6.
`Reassembly`, `Fragments` and `Receiver` are the reassembly bitmask and the ring of seven messages, `InOrderDelivery`
its behaviour over all runs of a network that loses, repeats and reorders, `Flight` and `FlightSender` the sender, and
`HandshakeTransport` both ends together. A fragment exactly seven past the next message is an error and one farther
ahead is ignored, as coded. Numbers do not come round again: a sender sends at most 65535 messages. `PacketAssembly` is
sealing as a function of what the cipher answers. When sealing fails in the middle of a packet, the sender keeps the
advanced place although the packet is not written, and a later call goes on from there. So place and transport can part:
`SecondSealFails` is such a run, and `AgreesIffNothingDropped` says that they agree exactly when nothing was dropped in
the pass. A retransmission starts over.

**Handshakes (TLS 1.2 and below).** `HandshakeFlow` writes the flows of RFC 5246, section 7.3, as patterns.
`HandshakeConnection` is the transcript and the Finished messages, `HandshakeClient` and `HandshakeServer` the two
machines with every state, wait and retry, `HandshakeAgreement` the two together. In DTLS a ChangeCipherSpec that comes
early is remembered until the machine waits for it. Answers of cryptography, certificates,
parsers and callbacks are arbitrary; how often they say no is counted, and so is what the transport refuses, which lets the
contracts say that a handshake stops only for a cause. The verify data of a Finished is any function of the transcript
and the side that it is from.

**Application data.** `WriteBuffer` and `WritePath` are the write path over a stream that takes part of what it is given.
A retry conforms when its data begins with what was sealed beyond what the caller knows to be written. Two sixteen-bit
widths show. In a buffer of more than 65529 bytes an offset can wrap: `OffsetWraps` is such a run, `ConsumeKeepsRestIff`
says exactly when one step loses its place, and the order of bytes on the transport is proved as long as no offset wrapped
with bytes left. The early-data counter enforces a ticket's limit exactly when the limit is below 65536
(`EarlyLimitHoldsIff`); with a larger one every writer can get past it (`EarlyOverrun`).

**Reference counts and cipher choice.** `RefCount` is the lock-free count as interleaved atomic accesses, `CipherChoice`
the server's choice with equal-preference groups.

Verify with `dafny verify dfyconfig.toml`.

## Model

| member | source | states |
|---|---|---|
| RoundTrip.DecodeInvertsEncode | CourtVision/Pods/nanopb/pb_decode.c:901-1063 | For every well-formed descriptor and every struct over it: decoding the encoding succeeds, reads every byte and gives the same message if and only if every string leaves room for its terminator and every length fits 32 bits; otherwise decoding fails |
| RoundTrip.Deliver | CourtVision/Pods/nanopb/pb_decode.c:919-1046 | The same for a reader and a writer with different descriptors, in both directions of the condition, at every nesting depth |
| RoundTrip.UnknownFieldsAreSkipped | CourtVision/Pods/nanopb/pb_decode.c:933-962 | A reader that lacks some of the fields, at any depth, consumes the whole encoding and sees exactly the fields it knows |
| RoundTrip.SubListSees | CourtVision/Pods/nanopb/pb_decode.c:933-962 | What such a reader sees of a field it knows is what the writer sees of it |
| RoundTrip.FullStringDoesNotArrive | CourtVision/Pods/nanopb/pb_decode.c:1428-1461 | The concrete message for which the round trip fails: a string that fills its buffer is encoded but not decoded |
| RoundTrip.FitsItself | CourtVision/Pods/nanopb/pb_encode.c:494-516 | Every well-formed descriptor can read what it wrote, so the forward theorem includes the round trip |
| Merging.ConcatenationIsMerge | CourtVision/Pods/nanopb/pb_decode.c:919-997 | Without required and fixed-count fields, decoding a and then b over the same struct is decoding a + b, if a is read to its end |
| Merging.LoopConcatenates | CourtVision/Pods/nanopb/pb_decode.c:919-997 | The decoding loop on a + b goes on exactly where the loop on a stopped, with any fields |
| Merging.LoopAnywhere | CourtVision/Pods/nanopb/pb_common.c:78-95 | The result of decoding does not depend on where the cyclic iterator was left |
| RequiredFields.AcceptedIffRequiredPresent | CourtVision/Pods/nanopb/pb_decode.c:988-1046 | Among inputs whose records all decode, exactly those are accepted in which each of the first 64 required tags occurred and the last fixed-count array is complete |
| FieldTwice.SubmessageMerges | CourtVision/Pods/nanopb/pb_decode.c:1463-1485 | A required or optional submessage met twice is merged: two records do what one does that holds both payloads, whatever was stored before and whatever follows |
| FieldTwice.LastWins | CourtVision/Pods/nanopb/pb_decode.c:401-476 | A second record of a scalar, or of any member of a oneof, leaves what it would leave alone |
| FieldTwice.OneofStartsAnew | CourtVision/Pods/nanopb/pb_decode.c:462-472 | A submessage in a oneof starts from its defaults, whatever the union held |
| FieldTwice.EntryAppended | CourtVision/Pods/nanopb/pb_decode.c:448-460 | One more record of a counted array appends one entry if there is room, and fails if not |
| FieldTwice.EntryStartsAnew | CourtVision/Pods/nanopb/pb_decode.c:1463-1485 | A submessage that is an array entry starts from its defaults |
| FieldTwice.PackedAppends | CourtVision/Pods/nanopb/pb_decode.c:427-447 | A packed array may come in pieces: two records do what one does with the entries of both |
| FieldTwice.MergedPair | CourtVision/Pods/nanopb/pb_decode.c:1463-1485 | The bytes 0A 02 08 05 0A 02 10 07 decode to a submessage with x = 5 and y = 7 |
| DefaultValues.EmptyMessage | CourtVision/Pods/nanopb/pb_decode.c:812-897 | An empty message is refused exactly if a field is required; else every field holds its declared default, or zero or nothing, at every depth |
| Storage.DecodedFits | CourtVision/Pods/nanopb/pb_decode.c:1240-1508 | Whatever bytes are accepted, every number is within its C type and every string, byte array and array within its buffer, at every depth |
| Storage.UnsignedTakenIff | CourtVision/Pods/nanopb/pb_decode.c:1326-1348 | An unsigned number is taken exactly when its C type holds it |
| Storage.SignedTakenIff | CourtVision/Pods/nanopb/pb_decode.c:1289-1324 | A signed number is taken exactly when its C type holds it, or for less than eight bytes its low 32 bits |
| Storage.ZigzagTakenIff | CourtVision/Pods/nanopb/pb_decode.c:1350-1372 | A zigzag number is taken exactly when its C type holds it |
| WireFormat.EncodingIsTheWireFormat | CourtVision/Pods/nanopb/pb_encode.c:494-516 | For every struct that can be encoded: the encoding is the one byte string that splits into the records of its fields, with literal wire types 0, 1, 2 and 5 and payloads given by plain arithmetic |
| WireFormat.MessageWritten | CourtVision/Pods/nanopb/pb_encode.c:494-516 | What is encoded reads back as records: number tag / 8, type tag % 8, one record a value or one for a packed array, fields in order |
| WireFormat.MessageUnique | CourtVision/Pods/nanopb/pb_encode.c:494-516 | No two byte strings are the same struct on the wire |
| WireFormat.VarintWritten | CourtVision/Pods/nanopb/pb_encode.c:574-594 | Byte k of a varint is v / 128^k % 128, with the high bit on all but the last, and there is no byte too many |
| WireFormat.WordWritten | CourtVision/Pods/nanopb/pb_encode.c:607-633 | Byte k of a fixed word is v / 256^k % 256 |
| WireFormat.ZigzagWritten | CourtVision/Pods/nanopb/pb_encode.c:596-605 | Zigzag of n is 2n, or -2n - 1 if n is negative |
| WireFormat.Fixed32OnTheWire | CourtVision/Pods/nanopb/pb_encode.c:635-672 | Field 1 of type fixed32 with value 7 is 0D 07 00 00 00 |
| Varint.VarintRoundTrip | CourtVision/Pods/nanopb/pb_decode.c:250-271 | The 64-bit varint decoder inverts the encoder on every 64-bit value, whatever bytes follow |
| Varint.Varint32OfEncoded | CourtVision/Pods/nanopb/pb_decode.c:182-247 | On encoder output the 32-bit decoder accepts exactly the values that FitsWord describes, and returns the low word |
| Varint.Varint32Cases | CourtVision/Pods/nanopb/pb_decode.c:182-247 | The cases of that condition: words and sign-extended negatives are accepted with their low word, values from 2^32 to 2^63 are rejected |
| Varint.SkipEncVarint | CourtVision/Pods/nanopb/pb_decode.c:273-282 | Skipping passes exactly one encoded varint |
| Encoder.VarintFitsBuffer | CourtVision/Pods/nanopb/pb_encode.c:574-594 | Ten bytes hold the varint of any 64-bit value, so the local buffer never overflows |
| Words.ZigZagRoundTrip | CourtVision/Pods/nanopb/pb_encode.c:596-605 | Zigzag decoding inverts zigzag encoding on all 64-bit integers, including the most negative |
| Words.LittleEndianRoundTrip | CourtVision/Pods/nanopb/pb_encode.c:607-633 | A fixed-width word is read back from its little-endian bytes |
| OutputStream.OStream.Write | CourtVision/Pods/nanopb/pb_encode.c:101-119 | Appends exactly the bytes when they fit; otherwise fails; nothing past max_size or before the current place changes |
| OutputStream.OStream.BufWrite | CourtVision/Pods/nanopb/pb_encode.c:72-82 | Copies the bytes in place and nothing else |
| OutputStream.OStream.FromBuffer | CourtVision/Pods/nanopb/pb_encode.c:84-99 | A stream over a region of memory |
| Encoder.EncodeVarint | CourtVision/Pods/nanopb/pb_encode.c:574-594 | Emits exactly the varint of the value |
| Encoder.EncodeTag | CourtVision/Pods/nanopb/pb_encode.c:635-672 | Emits the varint of the field number and wire type; `WireFormat.EncodingIsTheWireFormat` says which numbers these are |
| Encoder.EncodeString | CourtVision/Pods/nanopb/pb_encode.c:674-680 | Emits the length and then the bytes |
| Encoder.EncodeText | CourtVision/Pods/nanopb/pb_encode.c:831-855 | Emits the string up to its terminator, or to the end of the buffer |
| Encoder.EncodeScalar | CourtVision/Pods/nanopb/pb_encode.c:734-829 | Emits what the specification gives for a number or byte field, or fails where the code does |
| Encoder.CheckDefault | CourtVision/Pods/nanopb/pb_encode.c:215-303 | Says exactly whether a field has its implicit default and is not sent, at any nesting |
| Encoder.CheckDefaultFields | CourtVision/Pods/nanopb/pb_encode.c:263-279 | A submessage is default exactly when all of its fields are |
| Encoder.EncodeSubmessage | CourtVision/Pods/nanopb/pb_encode.c:682-730 | Two passes: if sizing gives n then the same n bytes are emitted, or there is no room; the size never changes between the passes |
| Encoder.EncodeEntries | CourtVision/Pods/nanopb/pb_encode.c:156-212 | Every entry of an array, tagged or not, in order |
| Encoder.EncodePackedArray | CourtVision/Pods/nanopb/pb_encode.c:139-171 | A packed array: the size computed first is the size written |
| Encoder.EncodeArray | CourtVision/Pods/nanopb/pb_encode.c:126-213 | Packed or one tagged entry after the other; an empty array emits nothing |
| Encoder.EncodeField | CourtVision/Pods/nanopb/pb_encode.c:307-392 | Required, optional, repeated and oneof fields, with the presence rules of proto2 and proto3 |
| Encoder.Encode | CourtVision/Pods/nanopb/pb_encode.c:494-516 | The whole message, driven by the iterator, is the specified encoding |
| Encoder.GetEncodedSize | CourtVision/Pods/nanopb/pb_encode.c:533-543 | The size is the length of the encoding, and fails only if encoding does |
| Encoder.EncodeInto | CourtVision/Pods/nanopb/pb_encode.c:84-119 | With at least that much room exactly the encoding is stored; with less, encoding fails and nothing past the room changes |
| FieldIteration.FieldIter.Next | CourtVision/Pods/nanopb/pb_common.c:20-76 | Advances to the next field; the required-field index and the cell stay functions of the position, through wraps |
| FieldIteration.FieldIter.Find | CourtVision/Pods/nanopb/pb_common.c:78-95 | Finds the next field with the tag, cyclically, or none |
| Descriptor.SharedCell | CourtVision/Pods/nanopb/pb_common.c:44-50 | Two fields share a cell if and only if they belong to one oneof, that is, every field after the first up to the second continues the same oneof |
| Descriptor.DefaultsAt | CourtVision/Pods/nanopb/pb_decode.c:812-897 | Every field starts out with its default |
| InputStream.IStream.Read | CourtVision/Pods/nanopb/pb_decode.c:100-133 | Gives the next bytes, or fails without giving any |
| InputStream.DecodeVarint | CourtVision/Pods/nanopb/pb_decode.c:250-271 | Imperative form of the 64-bit decoder |
| InputStream.DecodeVarint32 | CourtVision/Pods/nanopb/pb_decode.c:182-247 | Imperative form of the 32-bit decoder, with its eight-bit position counter |
| InputStream.SkipFieldBytes | CourtVision/Pods/nanopb/pb_decode.c:316-326 | Skips a field of any wire type by exactly its length, or fails |
| InputStream.MakeSubstream | CourtVision/Pods/nanopb/pb_decode.c:367-380 | The substream holds exactly the bytes of the length-prefixed part, and the parent is past them |
| InputStream.CloseSubstream | CourtVision/Pods/nanopb/pb_decode.c:382-399 | What the substream did not read is skipped |
| Decoder.DecodeTag | CourtVision/Pods/nanopb/pb_decode.c:293-314 | Tag and wire type, end of message, or failure |
| Decoder.DecodeRaw | CourtVision/Pods/nanopb/pb_decode.c:1391-1508 | Bytes, strings and fixed-length bytes, with their bounds |
| Decoder.DecodeNumber | CourtVision/Pods/nanopb/pb_decode.c:1240-1389 | Varint, zigzag and fixed numbers with the range check on what was stored |
| Decoder.DecodeSubmessage | CourtVision/Pods/nanopb/pb_decode.c:1463-1485 | A submessage is decoded from its own bytes over what `DecValue` says: `FieldTwice.SubmessageMerges` and `EntryStartsAnew` say what that means |
| Decoder.DecodePacked | CourtVision/Pods/nanopb/pb_decode.c:427-447 | Entries of a packed array until the substream ends or the array is full |
| Decoder.DecodeStaticField | CourtVision/Pods/nanopb/pb_decode.c:401-480 | One field of any kind, as specified |
| Decoder.DecodeNoinit | CourtVision/Pods/nanopb/pb_decode.c:901-1046 | The decoding loop with the two-word bitset and the iterator is the specified decoder |
| Decoder.CheckRequired | CourtVision/Pods/nanopb/pb_decode.c:1006-1046 | The packed words say all present exactly when every one of the first 64 required fields was seen |
| SeenWords.FullIffAllSeen | CourtVision/Pods/nanopb/pb_decode.c:1024-1045 | The words are full exactly when all the bits below the count were noted |
| SeenWords.NoteAdds | CourtVision/Pods/nanopb/pb_decode.c:988-993 | Noting a field adds its bit and no other |
| Decoder.Decode | CourtVision/Pods/nanopb/pb_decode.c:1051-1063 | Defaults first, then the loop |
| ReplayWindow.Bitmap.ShouldDiscard | CourtVision/Pods/BoringSSL/ssl/dtls_record.cc:140-153 | Discards exactly the numbers already accepted and those 64 or more behind the largest |
| ReplayWindow.Bitmap.Record | CourtVision/Pods/BoringSSL/ssl/dtls_record.cc:155-175 | Keeps the 64-bit map the characteristic function of all accepted numbers |
| ReplayWindow.ToU64 | CourtVision/Pods/BoringSSL/ssl/dtls_record.cc:128-136 | Big-endian value of the sequence number |
| ReplayWindow.OpenRecord | CourtVision/Pods/BoringSSL/ssl/dtls_record.cc:225-259 | Epoch, window, authentication and length checks in the order of the code; only an opened record is recorded |
| ReplayWindow.ReceiveEpoch | CourtVision/Pods/BoringSSL/ssl/dtls_record.cc:225-259 | Over a whole epoch, what is taken is exactly what the set of all accepted numbers allows |
| ReplayWindow.NoReplay | CourtVision/Pods/BoringSSL/ssl/dtls_record.cc:140-175 | In no sequence of arrivals is one number accepted twice |
| Reassembly.BitRangeBits | CourtVision/Pods/BoringSSL/ssl/d1_both.cc:203-205 | The bits from start up to end, and no others |
| Reassembly.HmFragment.constructor | CourtVision/Pods/BoringSSL/ssl/d1_both.cc:152-199 | A message under reassembly has its unfragmented header in front and no bytes yet; an empty one is complete at once |
| Reassembly.HmFragment.Mark | CourtVision/Pods/BoringSSL/ssl/d1_both.cc:211-251 | After any marks a bit is set exactly for the bytes in some marked range, and the mask is released exactly when they are the whole message |
| Reassembly.HmFragment.MarkBits | CourtVision/Pods/BoringSSL/ssl/d1_both.cc:226-236 | The bytewise updates of the mask add exactly the range |
| Reassembly.HmFragment.IsComplete | CourtVision/Pods/BoringSSL/ssl/d1_both.cc:238-250 | The bytewise completeness check says whether every byte was marked |
| Reassembly.HmFragment.Store | CourtVision/Pods/BoringSSL/ssl/d1_both.cc:399-402 | Copies a part of the body in place and marks it |
| Fragments.ParseWire | CourtVision/Pods/BoringSSL/ssl/d1_both.cc:459-473 | Parsing a fragment inverts writing one, whatever follows |
| Receiver.HandshakeReceiver.GetIncoming | CourtVision/Pods/BoringSSL/ssl/d1_both.cc:265-295 | Inside the window: the message of that number, a new one, or none on a mismatch; the slot never holds another number |
| Receiver.HandshakeReceiver.TakeFragment | CourtVision/Pods/BoringSSL/ssl/d1_both.cc:361-402 | One fragment against bounds, epoch and window: seven past the counter is an error, farther is ignored |
| Receiver.HandshakeReceiver.OpenHandshake | CourtVision/Pods/BoringSSL/ssl/d1_both.cc:297-406 | All fragments of a record up to the first error; other record types as coded |
| Receiver.HandshakeReceiver.GetMessage | CourtVision/Pods/BoringSSL/ssl/d1_both.cc:408-424 | Reports the current message exactly when it is complete, with its rebuilt header |
| Receiver.HandshakeReceiver.NextMessage | CourtVision/Pods/BoringSSL/ssl/d1_both.cc:426-438 | Clears the slot and advances the sixteen-bit counter |
| Receiver.TakeKeepsRing | CourtVision/Pods/BoringSSL/ssl/d1_both.cc:265-295 | Whatever fragment comes, an occupied slot i holds a number in the window that is i modulo 7 |
| Receiver.OpenKeepsRing | CourtVision/Pods/BoringSSL/ssl/d1_both.cc:346-403 | Whatever a record holds, the ring invariant is kept |
| Receiver.NextKeepsRing | CourtVision/Pods/BoringSSL/ssl/d1_both.cc:426-438 | The invariant survives the release of a message; when the counter wraps the ring is empty |
| InOrderDelivery.Delivered | CourtVision/Pods/BoringSSL/ssl/d1_both.cc:297-438 | For all runs over honest fragments in any order, with loss and repetition: the released messages are the first ones of the sender, unfragmented, in order, once each; the next is reported if and only if what arrived in the window covers it |
| InOrderDelivery.RefusedIff | CourtVision/Pods/BoringSSL/ssl/d1_both.cc:361-390 | An honest record is refused exactly when it has a fragment seven past the counter, longer than allowed, or not the next message in the encrypted epoch |
| InOrderDelivery.TakeHonest | CourtVision/Pods/BoringSSL/ssl/d1_both.cc:361-402 | One honest fragment adds its bytes to its message and touches no other |
| Flight.CarriedOnce | CourtVision/Pods/BoringSSL/ssl/d1_both.cc:644-734 | In any pass each byte of each message before the place reached is carried by exactly one record, and no byte behind it |
| Flight.WalkAdvances | CourtVision/Pods/BoringSSL/ssl/d1_both.cc:782-827 | The pair of messages written and offset grows with every packet |
| Flight.EachIsSent | CourtVision/Pods/BoringSSL/ssl/d1_both.cc:644-734 | A message passed over was sent, even with an empty body |
| Flight.PartsAreHonest | CourtVision/Pods/BoringSSL/ssl/d1_both.cc:702-716 | Every fragment sent carries its message number, type and length, and the right bytes |
| Flight.LongerFlight | CourtVision/Pods/BoringSSL/ssl/d1_both.cc:555-594 | Adding a message to a flight does not disturb what was written |
| Flight.AgreesIffNothingDropped | CourtVision/Pods/BoringSSL/ssl/d1_both.cc:739-827 | For every pass, however often it was resumed: the records the transport took lead to the place of the sender if and only if no sealed record was dropped |
| Flight.FlightGrows | CourtVision/Pods/BoringSSL/ssl/d1_both.cc:555-594 | A flight that holds messages of the sender still does when the next message it builds, or a ChangeCipherSpec, is added |
| Flight.SentIsHonest | CourtVision/Pods/BoringSSL/ssl/d1_both.cc:644-734 | In every walk over such a flight all fragments are parts of messages of the sender |
| Flight.BuiltIsWellFormed | CourtVision/Pods/BoringSSL/ssl/d1_both.cc:525-538 | A built message parses as the single fragment it is |
| PacketAssembly.StepFollows | CourtVision/Pods/BoringSSL/ssl/d1_both.cc:644-734 | Whatever the cipher answers, a step seals exactly the next bytes, as many as fit, or moves nothing; no progress only for want of room |
| PacketAssembly.AssembleFollows | CourtVision/Pods/BoringSSL/ssl/d1_both.cc:739-780 | The records sealed by the loop lead exactly from the old place to the new one, also when sealing fails in the middle |
| PacketAssembly.PacketFollows | CourtVision/Pods/BoringSSL/ssl/d1_both.cc:739-780 | A packet fits and ends only for want of room; a maximum that is too small leaves the place alone; a seal failure leaves it behind the records that are lost |
| PacketAssembly.SecondSealFails | CourtVision/Pods/BoringSSL/ssl/d1_both.cc:739-827 | Two messages and a cipher that fails on the second: the sender ends past both, and the transport never gets the first |
| FlightSender.BuildMessage | CourtVision/Pods/BoringSSL/ssl/d1_both.cc:511-538 | A finished message is the unfragmented one, length copied forward in place; exactly bodies that 24 bits cannot count are refused |
| FlightSender.Sender.AddOutgoing | CourtVision/Pods/BoringSSL/ssl/d1_both.cc:555-594 | Appends to the flight, which stays open, or begins a new one after a completed one, up to seven; a message enters the transcript as it was built and takes the next number, a ChangeCipherSpec does neither |
| FlightSender.Sender.AddMessage | CourtVision/Pods/BoringSSL/ssl/d1_both.cc:511-598 | Building and adding a message: it is the last of the flight, which stays open; the transcript stays the concatenation of all messages built, and the flight holds all messages since it began |
| FlightSender.Sender.AddChangeCipherSpec | CourtVision/Pods/BoringSSL/ssl/d1_both.cc:600-602 | A ChangeCipherSpec joins the flight and is not hashed |
| FlightSender.Sender.SealNextMessage | CourtVision/Pods/BoringSSL/ssl/d1_both.cc:644-734 | Serialising, sealing and advancing in place is the specified step for every answer of the cipher |
| FlightSender.Sender.SealNextPacket | CourtVision/Pods/BoringSSL/ssl/d1_both.cc:739-780 | The loop is the specified packet in all three outcomes: the records, the place and the answers left, also after a seal failure or a maximum that is too small |
| FlightSender.Sender.SendPacket | CourtVision/Pods/BoringSSL/ssl/d1_both.cc:797-820 | A packet goes out and the place moves on; a failed write or a maximum that is too small leaves the place as it was; a seal failure drops the records already sealed |
| FlightSender.Sender.SendFlight | CourtVision/Pods/BoringSSL/ssl/d1_both.cc:782-827 | From any state, also after failures: terminates; stops short only if the transport refused, the MTU is too small for the next message or sealing failed; every packet fits the MTU; what was sealed is what the transport took and then what was lost; all that was sealed in the pass leads exactly to the current place |
| FlightSender.Sender.FlushFlight | CourtVision/Pods/BoringSSL/ssl/d1_both.cc:829-834 | Marks the flight complete and writes it; what is lost is only what a seal failure drops |
| FlightSender.Sender.Retransmit | CourtVision/Pods/BoringSSL/ssl/d1_both.cc:836-845 | A new pass from the start, in which nothing counts as lost that an earlier pass lost |
| FlightSender.Sender.PlaceIsTakenIff | CourtVision/Pods/BoringSSL/ssl/d1_both.cc:739-827 | In every reachable state of the sender: transport and place agree exactly when this pass dropped nothing |
| HandshakeTransport.PassCovers | CourtVision/Pods/BoringSSL/ssl/d1_both.cc:644-845 | A pass that wrote a message sent fragments that cover it |
| HandshakeTransport.AcceptedIsPossible | CourtVision/Pods/BoringSSL/ssl/d1_both.cc:297-438 | What arrives was handed to the transport, so it is a part of what the sender built |
| HandshakeTransport.SameBytesHashed | CourtVision/Pods/BoringSSL/ssl/d1_both.cc:297-845 | For every state of the sender and every run of a receiver that refuses nothing: the messages released, joined together, are a prefix of what the sender hashed |
| HandshakeTransport.BothEndsAgree | CourtVision/Pods/BoringSSL/ssl/d1_both.cc:297-845 | When the sender is past a message, dropped none of its records and the rest arrived in the window, the receiver reports exactly the bytes that the sender built and hashed |
| HandshakeTransport.FlightIsOnWire | CourtVision/Pods/BoringSSL/ssl/d1_both.cc:644-845 | When a pass is through and dropped nothing, every message of the flight is wholly on the wire |
| HandshakeTransport.NextFlight | CourtVision/Pods/BoringSSL/ssl/d1_both.cc:555-845 | After a completed flight, any up to seven additions are all accepted, and after any flushes and retransmissions, once a pass is through and lost nothing, all of them are on the wire |
| RefCount.Refines | CourtVision/Pods/BoringSSL/crypto/refcount_c11.c:37-65 | For every interleaving and spurious failure: operations take effect one at a time, once each, between call and return, with the effect and outcome they have under the lock |
| RefCount.HistoryGrows | CourtVision/Pods/BoringSSL/crypto/refcount_c11.c:37-65 | What has taken effect or returned stays so, so the order of effects respects real time |
| RefCount.CompletesAlone | CourtVision/Pods/BoringSSL/crypto/refcount_c11.c:37-65 | An undisturbed operation completes in at most four steps, from wherever it was left, with the effect and outcome it has under the lock |
| RefCount.SaturationIsPermanent | CourtVision/Pods/BoringSSL/crypto/refcount_c11.c:37-65 | A count at the maximum stays there |
| RefCount.CountIsConserved | CourtVision/Pods/BoringSSL/crypto/refcount_c11.c:37-65 | Unless saturated the count is the initial one plus increments minus decrements that took effect |
| RefCount.CountWhenQuiet | CourtVision/Pods/BoringSSL/crypto/refcount_c11.c:37-65 | With no call under way the same holds of the calls that returned |
| RefCount.ZeroMeansLast | CourtVision/Pods/BoringSSL/crypto/refcount_c11.c:49-65 | A decrement says zero exactly when it takes the count from one to zero |
| RefCount.FreedOnce | CourtVision/Pods/BoringSSL/crypto/refcount_c11.c:49-65 | Between two decrements that say zero there is an increment |
| RefCount.LockedCount.Increment | CourtVision/Pods/BoringSSL/crypto/refcount_lock.c:29-35 | The locked increment |
| RefCount.LockedCount.DecrementAndTestZero | CourtVision/Pods/BoringSSL/crypto/refcount_lock.c:37-51 | The locked decrement; abort at zero |
| CipherChoice.Scan | CourtVision/Pods/BoringSSL/ssl/handshake_server.cc:391-424 | The loop finds the eligible cipher of least index in the allow list within the first group that has one; none exactly when none is eligible or that group is never ended |
| CipherChoice.ChooseCipher | CourtVision/Pods/BoringSSL/ssl/handshake_server.cc:357-424 | The same after choosing whose preferences count; with a terminated list nothing is returned only if nothing is eligible |
| CipherChoice.TerminatedIsNotLeftOpen | CourtVision/Pods/BoringSSL/ssl/internal.h:1860-1889 | A list whose last flag is zero never loses a match |
| CipherChoice.BestIsUnique | CourtVision/Pods/BoringSSL/ssl/handshake_server.cc:357-424 | The specification determines the choice |
| CipherChoice.ChosenIsUsable | CourtVision/Pods/BoringSSL/ssl/handshake_server.cc:391-424 | The chosen cipher is in both lists, admits the version and shares a bit with each mask; a usable one before it in the priority list is in its group, and none in its group comes before it in the other list |
| CipherChoice.NoneIsUsable | CourtVision/Pods/BoringSSL/ssl/handshake_server.cc:391-424 | Nothing is eligible exactly when no cipher in both lists is usable |
| WriteBuffer.SslBuffer.EnsureCap | CourtVision/Pods/BoringSSL/ssl/ssl_buffer.cc:47-81 | Room is provided up to the sixteen-bit limit, the contents are kept, and what follows the header lies on an aligned address |
| WriteBuffer.SslBuffer.Append | CourtVision/Pods/BoringSSL/ssl/ssl_buffer.cc:83-88 | The contents grow at the end |
| WriteBuffer.SslBuffer.Consume | CourtVision/Pods/BoringSSL/ssl/ssl_buffer.cc:90-97 | The sixteen-bit offset advances; the contents are what AfterConsume says, and shrink from the front if the offset does not wrap or nothing is left |
| WriteBuffer.ConsumeKeepsRestIff | CourtVision/Pods/BoringSSL/ssl/ssl_buffer.cc:90-97 | The right bytes remain, for all contents, if and only if the offset stays within sixteen bits or nothing remains |
| WriteBuffer.SslBuffer.DiscardConsumed | CourtVision/Pods/BoringSSL/ssl/ssl_buffer.cc:99-103 | Memory is released only when nothing is left |
| WriteBuffer.Flush | CourtVision/Pods/BoringSSL/ssl/ssl_buffer.cc:239-252 | Empties the buffer unless the transport refuses; transport and buffer together hold the same bytes in the same order, whatever the transport takes, as long as no offset wraps on the way; none can in a buffer that ends within sixteen bits |
| WriteBuffer.OffsetWraps | CourtVision/Pods/BoringSSL/ssl/ssl_buffer.cc:47-97 | A reachable buffer whose offset wraps: after EnsureCap of 65535 and a write that leaves six bytes it holds bytes that were never put in |
| WritePath.Writer.WriteAppData | CourtVision/Pods/BoringSSL/ssl/s3_pkt.cc:129-200 | Over any calls with conforming retries the sealed application records hold exactly the bytes reported written, then those this write has got past, then at most one pending record; a write that is not shut down, has room and matches what is pending succeeds, in full unless partial writes are allowed, if the transport does not refuse, sealing does not fail and early data is not used up |
| WritePath.Writer.WriteRecord | CourtVision/Pods/BoringSSL/ssl/s3_pkt.cc:164-199 | One turn seals the next bytes once, or completes the pending record |
| WritePath.Writer.DoWrite | CourtVision/Pods/BoringSSL/ssl/s3_pkt.cc:221-289 | A pending record is only flushed; otherwise a record is sealed at most once; if the retry matches, or the buffer is empty and has room, only the transport or the cipher can keep it from succeeding |
| WritePath.Writer.SealInto | CourtVision/Pods/BoringSSL/ssl/s3_pkt.cc:228-285 | Pending handshake bytes go first, then the record; both enter the buffer in order |
| WritePath.Writer.WritePending | CourtVision/Pods/BoringSSL/ssl/s3_pkt.cc:202-218 | A retry that matches succeeds unless the transport refuses, and then the buffer is empty; one that does not match is refused and changes nothing |
| WritePath.Writer.DispatchAlert | CourtVision/Pods/BoringSSL/ssl/s3_pkt.cc:405-411 | Alerts in between do not disturb the account of application data |
| WritePath.WriteStream | CourtVision/Pods/BoringSSL/ssl/s3_pkt.cc:129-289 | Over any sequence of writes, retries that offer no less, and alerts in between: the application data sealed are the first bytes of the stream, each once and in order, those reported written and then the stem of the unfinished write |
| WritePath.Writer.CountEarly | CourtVision/Pods/BoringSSL/ssl/s3_pkt.cc:189-191 | The sixteen-bit counter stays the sum of the early records, modulo 65536, and within the limit |
| WritePath.RunWithin | CourtVision/Pods/BoringSSL/ssl/s3_pkt.cc:164-191 | With a limit below 65536 no run of early records exceeds it |
| WritePath.EarlyLimitHoldsIff | CourtVision/Pods/BoringSSL/ssl/s3_pkt.cc:164-191 | Every run of early records stays within the ticket limit if and only if the limit is below 65536 |
| WritePath.EarlyOverrun | CourtVision/Pods/BoringSSL/ssl/s3_pkt.cc:164-191 | Every writer with a larger limit, counting by its own MaxRecord and CountEarly, gets past it |
| HandshakeFlow.FinishedOnceInOrder | CourtVision/Pods/BoringSSL/ssl/handshake_client.cc:1457-1671 | A log that matches the flow has one Finished from each side, in the order that resumption fixes |
| HandshakeConnection.Connection.GetFinished | CourtVision/Pods/BoringSSL/ssl/handshake.cc:380-429 | Goes on only if the body of the Finished is the verify data of exactly the messages before it, and does so if nothing fails; then the Finished is hashed once and released |
| HandshakeConnection.Connection.SendFinished | CourtVision/Pods/BoringSSL/ssl/handshake.cc:431-476 | The own Finished holds the verify data of exactly the messages before it |
| HandshakeConnection.Connection.HashMessage | CourtVision/Pods/BoringSSL/ssl/handshake.cc:215-222 | A message is hashed once; a version 2 ClientHello was hashed on arrival |
| HandshakeConnection.Connection.NextMessage | CourtVision/Pods/BoringSSL/ssl/d1_both.cc:426-438 | Only a hashed message may be released if the transcript is to stay exact |
| HandshakeConnection.Connection.AddMessage | CourtVision/Pods/BoringSSL/ssl/d1_both.cc:573-594 | A message enters the transcript when it is queued |
| HandshakeConnection.Connection.AddBody | CourtVision/Pods/BoringSSL/ssl/d1_both.cc:511-598 | The same for a message whose body is given |
| HandshakeConnection.Connection.OpenHandshake | CourtVision/Pods/BoringSSL/ssl/handshake.cc:509-545 | Succeeds exactly on a record that can be taken: it adds the messages it completes to the queue; a version 2 ClientHello only comes first and is hashed on arrival; in DTLS a ChangeCipherSpec is remembered |
| HandshakeConnection.Connection.OpenChangeCipherSpec | CourtVision/Pods/BoringSSL/ssl/d1_both.cc:475-491 | Exactly a ChangeCipherSpec resolves that wait: the next record or, in DTLS, one remembered, which then needs no record and is forgotten |
| HandshakeClient.Client.DoStartConnect | CourtVision/Pods/BoringSSL/ssl/handshake_client.cc:385-452 | ClientHello is the first message; names the next state and exactly what is added to the log, which stays what the flow has; a wait changes neither; the rank falls if not blocked; an error or a wait has a cause |
| HandshakeClient.Client.DoEnterEarlyData | CourtVision/Pods/BoringSSL/ssl/handshake_client.cc:454-489 | Early data does not change the flow of TLS 1.2; names the next state and exactly what is added to the log, which stays what the flow has; a wait changes neither; the rank falls if not blocked; an error or a wait has a cause |
| HandshakeClient.Client.DoReadHelloVerifyRequest | CourtVision/Pods/BoringSSL/ssl/handshake_client.cc:491-533 | The first ClientHello and HelloVerifyRequest leave the transcript; a new ClientHello begins it; names the next state and exactly what is added to the log, which stays what the flow has; a wait changes neither; the rank falls if not blocked; an error or a wait has a cause |
| HandshakeClient.Client.DoReadServerHello | CourtVision/Pods/BoringSSL/ssl/handshake_client.cc:535-759 | Resumption is decided once; the ServerHello is hashed once; names the next state and exactly what is added to the log, which stays what the flow has; a wait changes neither; the rank falls if not blocked; an error or a wait has a cause |
| HandshakeClient.Client.DoReadServerCertificate | CourtVision/Pods/BoringSSL/ssl/handshake_client.cc:771-819 | Certificate exactly with certificate ciphers; names the next state and exactly what is added to the log, which stays what the flow has; a wait changes neither; the rank falls if not blocked; an error or a wait has a cause |
| HandshakeClient.Client.DoReadCertificateStatus | CourtVision/Pods/BoringSSL/ssl/handshake_client.cc:821-869 | CertificateStatus is optional, and another message is left for the next state; names the next state and exactly what is added to the log, which stays what the flow has; a wait changes neither; the rank falls if not blocked; an error or a wait has a cause |
| HandshakeClient.Client.DoVerifyServerCertificate | CourtVision/Pods/BoringSSL/ssl/handshake_client.cc:871-889 | May be retried without effect; names the next state and exactly what is added to the log, which stays what the flow has; a wait changes neither; the rank falls if not blocked; an error or a wait has a cause |
| HandshakeClient.Client.DoReadServerKeyExchange | CourtVision/Pods/BoringSSL/ssl/handshake_client.cc:891-1071 | Optional unless the cipher requires it; names the next state and exactly what is added to the log, which stays what the flow has; a wait changes neither; the rank falls if not blocked; an error or a wait has a cause |
| HandshakeClient.Client.DoReadCertificateRequest | CourtVision/Pods/BoringSSL/ssl/handshake_client.cc:1073-1143 | Optional; names the next state and exactly what is added to the log, which stays what the flow has; a wait changes neither; the rank falls if not blocked; an error or a wait has a cause |
| HandshakeClient.Client.DoReadServerHelloDone | CourtVision/Pods/BoringSSL/ssl/handshake_client.cc:1145-1167 | Mandatory; names the next state and exactly what is added to the log, which stays what the flow has; a wait changes neither; the rank falls if not blocked; an error or a wait has a cause |
| HandshakeClient.Client.DoSendClientCertificate | CourtVision/Pods/BoringSSL/ssl/handshake_client.cc:1169-1215 | On request only; retried without hashing twice; names the next state and exactly what is added to the log, which stays what the flow has; a wait changes neither; the rank falls if not blocked; an error or a wait has a cause |
| HandshakeClient.Client.DoSendClientKeyExchange | CourtVision/Pods/BoringSSL/ssl/handshake_client.cc:1220-1371 | Mandatory; names the next state and exactly what is added to the log, which stays what the flow has; a wait changes neither; the rank falls if not blocked; an error or a wait has a cause |
| HandshakeClient.Client.DoSendClientCertificateVerify | CourtVision/Pods/BoringSSL/ssl/handshake_client.cc:1373-1455 | Only with a certificate; a pending signature hashes nothing; names the next state and exactly what is added to the log, which stays what the flow has; a wait changes neither; the rank falls if not blocked; an error or a wait has a cause |
| HandshakeClient.Client.DoSendClientFinished | CourtVision/Pods/BoringSSL/ssl/handshake_client.cc:1457-1512 | ChangeCipherSpec, the optional messages and Finished, once; names the next state and exactly what is added to the log, which stays what the flow has; a wait changes neither; the rank falls if not blocked; an error or a wait has a cause |
| HandshakeClient.Client.DoFinishFlight | CourtVision/Pods/BoringSSL/ssl/handshake_client.cc:1538-1564 | Next state by resumption; names the next state and exactly what is added to the log, which stays what the flow has; a wait changes neither; the rank falls if not blocked; an error or a wait has a cause |
| HandshakeClient.Client.DoReadSessionTicket | CourtVision/Pods/BoringSSL/ssl/handshake_client.cc:1566-1647 | Ticket only if expected, then ChangeCipherSpec; names the next state and exactly what is added to the log, which stays what the flow has; a wait changes neither; the rank falls if not blocked; an error or a wait has a cause |
| HandshakeClient.Client.DoProcessChangeCipherSpec | CourtVision/Pods/BoringSSL/ssl/handshake_client.cc:1649-1656 | Only after the ChangeCipherSpec came; names the next state and exactly what is added to the log, which stays what the flow has; a wait changes neither; the rank falls if not blocked; an error or a wait has a cause |
| HandshakeClient.Client.DoReadServerFinished | CourtVision/Pods/BoringSSL/ssl/handshake_client.cc:1658-1671 | Checked once; next state by resumption; names the next state and exactly what is added to the log, which stays what the flow has; a wait changes neither; the rank falls if not blocked; an error or a wait has a cause |
| HandshakeClient.Client.DoFinishClientHandshake | CourtVision/Pods/BoringSSL/ssl/handshake_client.cc:1674-1705 | Only after both Finished messages; names the next state and exactly what is added to the log, which stays what the flow has; a wait changes neither; the rank falls if not blocked; an error or a wait has a cause |
| HandshakeClient.Client.RunStates | CourtVision/Pods/BoringSSL/ssl/handshake_client.cc:1707-1789 | Every unblocked stretch ends, by a rank that depends on resumption, and no error or wait is without a cause |
| HandshakeClient.Client.Resolve | CourtVision/Pods/BoringSSL/ssl/handshake.cc:505-560 | A wait for the peer stays blocked exactly when nothing came or what came cannot be taken, and a flush when the transport refuses |
| HandshakeClient.Client.RunHandshake | CourtVision/Pods/BoringSSL/ssl/handshake.cc:491-622 | The driver keeps the machine on course over all waits and retries; success outside early return is the done state; an error is final and has a cause: a failed check, a message out of place or a failing library; and it stops short of the end only for such a cause, for its caller, or for the transport |
| HandshakeClient.Client.WhenDone | CourtVision/Pods/BoringSSL/ssl/handshake_client.cc:1457-1705 | Done outside TLS 1.3: one Finished from each side, own first unless resumed, each holding the verify data of exactly the messages before it, and the transcript is the log |
| HandshakeServer.Server.DoStartAccept | CourtVision/Pods/BoringSSL/ssl/handshake_server.cc:426-430 | Nothing is sent; names the next state and exactly what is added to the log, which stays what the flow has; a wait changes neither; the rank falls if not blocked; an error or a wait has a cause |
| HandshakeServer.Server.DoReadClientHello | CourtVision/Pods/BoringSSL/ssl/handshake_server.cc:432-510 | Waits and retries leave the ClientHello unhashed; names the next state and exactly what is added to the log, which stays what the flow has; a wait changes neither; the rank falls if not blocked; an error or a wait has a cause |
| HandshakeServer.Server.DoSelectCertificate | CourtVision/Pods/BoringSSL/ssl/handshake_server.cc:512-560 | Retries leave the ClientHello unhashed; names the next state and exactly what is added to the log, which stays what the flow has; a wait changes neither; the rank falls if not blocked; an error or a wait has a cause |
| HandshakeServer.Server.DoSelectParameters | CourtVision/Pods/BoringSSL/ssl/handshake_server.cc:572-684 | Resumption is decided once; the ClientHello is hashed once; names the next state and exactly what is added to the log, which stays what the flow has; a wait changes neither; the rank falls if not blocked; an error or a wait has a cause |
| HandshakeServer.Server.DoSendServerHello | CourtVision/Pods/BoringSSL/ssl/handshake_server.cc:686-752 | ServerHello, then the branch by resumption; names the next state and exactly what is added to the log, which stays what the flow has; a wait changes neither; the rank falls if not blocked; an error or a wait has a cause |
| HandshakeServer.Server.DoSendServerCertificate | CourtVision/Pods/BoringSSL/ssl/handshake_server.cc:754-840 | Certificate and CertificateStatus where wanted; names the next state and exactly what is added to the log, which stays what the flow has; a wait changes neither; the rank falls if not blocked; an error or a wait has a cause |
| HandshakeServer.Server.DoSendServerKeyExchange | CourtVision/Pods/BoringSSL/ssl/handshake_server.cc:842-912 | A pending signature hashes nothing; names the next state and exactly what is added to the log, which stays what the flow has; a wait changes neither; the rank falls if not blocked; an error or a wait has a cause |
| HandshakeServer.Server.DoSendServerHelloDone | CourtVision/Pods/BoringSSL/ssl/handshake_server.cc:914-947 | CertificateRequest if wanted, then ServerHelloDone; names the next state and exactly what is added to the log, which stays what the flow has; a wait changes neither; the rank falls if not blocked; an error or a wait has a cause |
| HandshakeServer.Server.DoReadClientCertificate | CourtVision/Pods/BoringSSL/ssl/handshake_server.cc:949-1040 | Only if requested; left out by SSL 3.0 clients; names the next state and exactly what is added to the log, which stays what the flow has; a wait changes neither; the rank falls if not blocked; an error or a wait has a cause |
| HandshakeServer.Server.DoVerifyClientCertificate | CourtVision/Pods/BoringSSL/ssl/handshake_server.cc:1042-1056 | May be retried without effect; names the next state and exactly what is added to the log, which stays what the flow has; a wait changes neither; the rank falls if not blocked; an error or a wait has a cause |
| HandshakeServer.Server.DoReadClientKeyExchange | CourtVision/Pods/BoringSSL/ssl/handshake_server.cc:1058-1267 | A pending private key operation hashes nothing; names the next state and exactly what is added to the log, which stays what the flow has; a wait changes neither; the rank falls if not blocked; an error or a wait has a cause |
| HandshakeServer.Server.DoReadClientCertificateVerify | CourtVision/Pods/BoringSSL/ssl/handshake_server.cc:1269-1363 | Exactly with a client certificate; names the next state and exactly what is added to the log, which stays what the flow has; a wait changes neither; the rank falls if not blocked; an error or a wait has a cause |
| HandshakeServer.Server.DoReadChangeCipherSpec | CourtVision/Pods/BoringSSL/ssl/handshake_server.cc:1365-1368 | Waits for ChangeCipherSpec; names the next state and exactly what is added to the log, which stays what the flow has; a wait changes neither; the rank falls if not blocked; an error or a wait has a cause |
| HandshakeServer.Server.DoProcessChangeCipherSpec | CourtVision/Pods/BoringSSL/ssl/handshake_server.cc:1370-1377 | Only after it came; names the next state and exactly what is added to the log, which stays what the flow has; a wait changes neither; the rank falls if not blocked; an error or a wait has a cause |
| HandshakeServer.Server.DoReadNextProto | CourtVision/Pods/BoringSSL/ssl/handshake_server.cc:1379-1413 | Optional; names the next state and exactly what is added to the log, which stays what the flow has; a wait changes neither; the rank falls if not blocked; an error or a wait has a cause |
| HandshakeServer.Server.DoReadChannelId | CourtVision/Pods/BoringSSL/ssl/handshake_server.cc:1415-1437 | Optional; names the next state and exactly what is added to the log, which stays what the flow has; a wait changes neither; the rank falls if not blocked; an error or a wait has a cause |
| HandshakeServer.Server.DoReadClientFinished | CourtVision/Pods/BoringSSL/ssl/handshake_server.cc:1439-1461 | Checked once; next state by resumption; names the next state and exactly what is added to the log, which stays what the flow has; a wait changes neither; the rank falls if not blocked; an error or a wait has a cause |
| HandshakeServer.Server.DoSendServerFinished | CourtVision/Pods/BoringSSL/ssl/handshake_server.cc:1463-1509 | Ticket if due, ChangeCipherSpec and Finished, once; next state by resumption; names the next state and exactly what is added to the log, which stays what the flow has; a wait changes neither; the rank falls if not blocked; an error or a wait has a cause |
| HandshakeServer.Server.DoFinishServerHandshake | CourtVision/Pods/BoringSSL/ssl/handshake_server.cc:1511-1537 | Only after both Finished messages; names the next state and exactly what is added to the log, which stays what the flow has; a wait changes neither; the rank falls if not blocked; an error or a wait has a cause |
| HandshakeServer.Server.RunStates | CourtVision/Pods/BoringSSL/ssl/handshake_server.cc:1539-1621 | Every unblocked stretch ends, by a rank that depends on resumption, and no error or wait is without a cause |
| HandshakeServer.Server.Resolve | CourtVision/Pods/BoringSSL/ssl/handshake.cc:505-560 | A wait for the peer stays blocked exactly when nothing came or what came cannot be taken, and a flush when the transport refuses |
| HandshakeServer.Server.RunHandshake | CourtVision/Pods/BoringSSL/ssl/handshake.cc:491-622 | The driver keeps the machine on course over all waits and retries; success outside early return is the done state; an error is final and has a cause: a failed check, a message out of place or a failing library; and it stops short of the end only for such a cause, for its caller, or for the transport |
| HandshakeServer.Server.WhenDone | CourtVision/Pods/BoringSSL/ssl/handshake_server.cc:1439-1537 | Done outside TLS 1.3: one Finished from each side, peer first unless resumed, each holding the verify data of exactly the messages before it, and the transcript is the log |
| HandshakeAgreement.SameMessagesSameFinished | CourtVision/Pods/BoringSSL/ssl/handshake.cc:380-476 | A client and a server that are done and saw the same messages agree on resumption, on what each Finished covers and on the transcript |
| HandshakeAgreement.SameFinishedSameMessages | CourtVision/Pods/BoringSSL/ssl/handshake.cc:380-476 | Without knowing what either saw: if each took the Finished of the other, under the same keys, and verify data tells transcripts apart, each Finished was computed and checked over the same bytes |

## Left out

- The Swift application: views, Firestore queries and user defaults.
- nanopb callbacks, custom streams, extensions, pointer fields and `PB_WITHOUT_64BIT`; error strings and struct offsets. A struct is a sequence of cells.
- nanopb destination memory: the struct is passed and returned as a value; the array storage behind it, and what a failed decode leaves in it, are not modelled.
- nanopb values that C leaves undefined: an unset union member and the entries of a fixed-count array that were never stored have a fixed value here.
- nanopb sizes: `size_t` is unbounded, and encodings are shorter than 2^63 bytes.
- DTLS timers, MTU queries, alerts and message callbacks; the MTU is a field that may change between calls.
- RefCount.Refines: says nothing of termination, because under contention a compare-and-swap may fail for ever.
- Memory order of the reference count: atomic accesses are sequentially consistent, as the default C11 operations are.
- Cryptography: sealing adds any number of bytes within the bounds the cipher declares, or fails; verify data is an arbitrary function of the transcript and the side, the same throughout a handshake.
- Record layer of TLS: opening records, the 1/n-1 record split and the contents of sealed records.
- TLS 1.3: its machines are arbitrary steps here, and nothing is claimed of runs that enter them; likewise handoff, renegotiation policy and session caches.
- HandshakeClient.Client.DoSendClientCertificate: the SSL 3.0 warning alert is not in the log, because alerts are not handshake messages.
- HandshakeClient.Client.DoEnterEarlyData: the ChangeCipherSpec of TLS 1.3 early data is not in the log, because a server that answers with TLS 1.2 is refused.
- WritePath.Writer.WriteAppData: datagram transports, where the buffer is dropped after a failed write, are not modelled.
- Cipher choice: the masks of supported key exchanges and the parsing of the client's list are parameters.
