/**
 * The weir v1 wire frame: a 16-byte header with its own CRC, the payload, and the
 * payload's CRC. Encoding is mechanical; decoding is the strict one-buffer-one-frame
 * decoder, with its checks in the order the protocol fixes.
 */
module Frame {
  import opened Bytes
  import opened Crc32
  import opened Wrappers

  const MAGIC: seq<Byte> := [0x57, 0x45, 0x49, 0x52]
  const WIRE_VERSION: Byte := 1
  const HEADER_LEN: nat := 16
  const MAX_PAYLOAD_HARD_CAP: nat := 16 * 1024 * 1024

  // Message types.
  const PUSH: Byte := 0x01
  const ACK: Byte := 0x02
  const NACK: Byte := 0x03
  const HEALTH_CHECK: Byte := 0x04
  const HEALTH_CHECK_RESPONSE: Byte := 0x05
  const PUSH_TRACKED: Byte := 0x06
  const ACK_TRACKED: Byte := 0x07
  const PUSH_BATCH: Byte := 0x08
  const ACK_BATCH: Byte := 0x09

  // Durability tiers; 0x02 is retired but still decodes.
  const DURABLE: Byte := 0x01
  const BATCHED: Byte := 0x02
  const BUFFERED: Byte := 0x03

  datatype Frame = Frame(version: Byte, messageType: Byte, durability: Byte, flags: Byte, payload: seq<Byte>)

  datatype FrameError =
    | TruncatedFrame
    | BadMagic
    | VersionMismatch
    | HeaderCrcMismatch
    | UnknownMessageType
    | UnknownDurability
    | ReservedFlagsSet
    | PayloadTooLarge
    | TrailingBytes
    | PayloadCrcMismatch

  predicate KnownType(mt: Byte) {
    PUSH <= mt <= ACK_BATCH
  }

  predicate KnownDurability(d: Byte) {
    DURABLE <= d <= BUFFERED
  }

  /** What a conforming sender may put on the wire. */
  predicate Valid(f: Frame) {
    && f.version == WIRE_VERSION
    && KnownType(f.messageType)
    && KnownDurability(f.durability)
    && f.flags == 0
    && |f.payload| <= MAX_PAYLOAD_HARD_CAP
  }

  /** The twelve header bytes the header CRC covers. */
  function Head(f: Frame): (s: seq<Byte>)
    ensures |s| == 12
  {
    MAGIC + [f.version, f.messageType, f.durability, f.flags] + Le(|f.payload|, 4)
  }

  function Header(f: Frame): (s: seq<Byte>)
    ensures |s| == HEADER_LEN
  {
    Head(f) + WordBytes(Crc(Head(f)))
  }

  /** The bytes of one frame. */
  function Encoded(f: Frame): (s: seq<Byte>)
    ensures |s| == HEADER_LEN + |f.payload| + 4
  {
    Header(f) + f.payload + WordBytes(Crc(f.payload))
  }

  /** `copy(buf[at:], data)`. */
  method Put(buf: array<Byte>, at: nat, data: seq<Byte>)
    requires at + |data| <= buf.Length
    modifies buf
    ensures buf[..] == old(buf[..at]) + data + old(buf[at + |data|..])
  {
    for i := 0 to |data|
      invariant buf[..] == old(buf[..at]) + data[..i] + old(buf[at + i..])
    {
      buf[at + i] := data[i];
    }
  }

  /** The encoder: fills one buffer field by field, in place. */
  method EncodeFrame(f: Frame) returns (buf: array<Byte>)
    ensures fresh(buf) && buf[..] == Encoded(f)
  {
    hide Crc, Le, WordBytes;
    var n := |f.payload|;
    buf := new Byte[HEADER_LEN + n + 4](_ => 0);
    Put(buf, 0, MAGIC);
    Put(buf, 4, [f.version, f.messageType, f.durability, f.flags]);
    Put(buf, 8, Le(n, 4));
    assert buf[..12] == Head(f);
    Put(buf, 12, WordBytes(Crc(buf[..12])));
    assert buf[..16] == Header(f);
    Put(buf, 16, f.payload);
    assert buf[..16 + n] == Header(f) + f.payload;
    Put(buf, 16 + n, WordBytes(Crc(f.payload)));
    assert buf[..] == Header(f) + f.payload + WordBytes(Crc(f.payload));
  }

  /** The header checks, in protocol order. Yields the declared payload length. */
  function CheckHeader(h: seq<Byte>): Result<nat, FrameError>
    requires |h| == HEADER_LEN
  {
    if h[0..4] != MAGIC then Err(BadMagic)
    else if h[4] != WIRE_VERSION then Err(VersionMismatch)
    else if !Sealed(h[0..12], h[12..16]) then Err(HeaderCrcMismatch)
    else if !KnownType(h[5]) then Err(UnknownMessageType)
    else if !KnownDurability(h[6]) then Err(UnknownDurability)
    else if h[7] != 0 then Err(ReservedFlagsSet)
    else Ok(FromLe(h[8..12]))
  }

  /** Decodes a buffer that must be exactly one frame. */
  function DecodeFrame(buf: seq<Byte>): Result<Frame, FrameError> {
    if |buf| < HEADER_LEN then Err(TruncatedFrame)
    else match CheckHeader(buf[..16])
      case Err(e) => Err(e)
      case Ok(n) =>
        if n > MAX_PAYLOAD_HARD_CAP then Err(PayloadTooLarge)
        else if |buf| < HEADER_LEN + n + 4 then Err(TruncatedFrame)
        else if |buf| > HEADER_LEN + n + 4 then Err(TrailingBytes)
        else if !Sealed(buf[16..16 + n], buf[16 + n..]) then Err(PayloadCrcMismatch)
        else Ok(Frame(buf[4], buf[5], buf[6], buf[7], buf[16..16 + n]))
  }

  lemma LengthField(n: nat)
    requires n <= MAX_PAYLOAD_HARD_CAP
    ensures FromLe(Le(n, 4)) == n
  {
    assert Span(4) == 0x1_0000_0000;
    FromLeInverse(n, 4);
  }

  lemma HeadFields(f: Frame)
    ensures Head(f)[0..4] == MAGIC && Head(f)[4] == f.version && Head(f)[5] == f.messageType
    ensures Head(f)[6] == f.durability && Head(f)[7] == f.flags && Head(f)[8..12] == Le(|f.payload|, 4)
  {
  }

  lemma HeaderFields(f: Frame)
    ensures Header(f)[0..12] == Head(f) && Header(f)[12..16] == WordBytes(Crc(Head(f)))
    ensures Header(f)[0..4] == MAGIC && Header(f)[4] == f.version && Header(f)[5] == f.messageType
    ensures Header(f)[6] == f.durability && Header(f)[7] == f.flags && Header(f)[8..12] == Le(|f.payload|, 4)
  {
    HeadFields(f);
    assert Header(f)[0..4] == Head(f)[0..4] && Header(f)[8..12] == Head(f)[8..12];
  }

  lemma EncodedParts(f: Frame)
    ensures Encoded(f)[..16] == Header(f)
    ensures Encoded(f)[16..16 + |f.payload|] == f.payload
    ensures Encoded(f)[16 + |f.payload|..] == WordBytes(Crc(f.payload))
  {
  }

  /** The header a valid frame is sent with passes every check and declares the true length. */
  lemma HeaderAccepted(f: Frame)
    requires Valid(f)
    ensures CheckHeader(Header(f)) == Ok(|f.payload|)
  {
    HeaderFields(f);
    SealExact(Head(f), WordBytes(Crc(Head(f))));
    LengthField(|f.payload|);
  }

  /** Decoding undoes encoding on every valid frame. */
  lemma DecodeInverts(f: Frame)
    requires Valid(f)
    ensures DecodeFrame(Encoded(f)) == Ok(f)
  {
    hide Sealed, Crc, Le, WordBytes;
    EncodedParts(f);
    HeaderAccepted(f);
    HeaderFields(f);
    SealExact(f.payload, WordBytes(Crc(f.payload)));
  }

  /** The sixteen bytes that pass are determined by the fields read from them. */
  lemma HeaderReencodes(h: seq<Byte>, f: Frame)
    requires |h| == HEADER_LEN && CheckHeader(h) == Ok(|f.payload|)
    requires f.version == h[4] && f.messageType == h[5] && f.durability == h[6] && f.flags == h[7]
    ensures h == Header(f)
  {
    hide Sealed, Crc, FromLe, WordBytes;
    LeInverse(h[8..12]);
    SealExact(h[0..12], h[12..16]);
    assert h[0..12] == h[0..4] + [h[4], h[5], h[6], h[7]] + h[8..12];
    assert h == h[0..12] + h[12..16];
  }

  lemma AcceptedHeader(buf: seq<Byte>, f: Frame)
    requires DecodeFrame(buf) == Ok(f)
    ensures Valid(f) && |buf| == 20 + |f.payload| && CheckHeader(buf[..16]) == Ok(|f.payload|)
    ensures f == Frame(buf[4], buf[5], buf[6], buf[7], buf[16..16 + |f.payload|])
    ensures Sealed(f.payload, buf[16 + |f.payload|..])
  {
    hide Sealed, Crc, FromLe;
  }

  /** Every accepted buffer is the encoding of the valid frame it decodes to. */
  lemma AcceptedReencodes(buf: seq<Byte>, f: Frame)
    requires DecodeFrame(buf) == Ok(f)
    ensures Valid(f) && buf == Encoded(f)
  {
    hide Sealed, Crc, Le, WordBytes;
    var n := |f.payload|;
    AcceptedHeader(buf, f);
    HeaderReencodes(buf[..16], f);
    SealExact(f.payload, buf[16 + n..]);
    assert buf == buf[..16] + buf[16..16 + n] + buf[16 + n..];
  }

  /** The decoder accepts exactly the encodings of valid frames, and returns that frame. */
  lemma DecodeFrameExact(buf: seq<Byte>, f: Frame)
    ensures DecodeFrame(buf) == Ok(f) <==> Valid(f) && buf == Encoded(f)
  {
    if Valid(f) && buf == Encoded(f) {
      DecodeInverts(f);
    }
    if DecodeFrame(buf) == Ok(f) {
      AcceptedReencodes(buf, f);
    }
  }

  /** No frame is a prefix of another: a byte stream splits into frames in one way only. */
  lemma FramesPrefixFree(f: Frame, rest: seq<Byte>, f': Frame, rest': seq<Byte>)
    requires Valid(f) && Valid(f')
    requires Encoded(f) + rest == Encoded(f') + rest'
    ensures f == f' && rest == rest'
  {
    hide Sealed, Crc, Le, WordBytes;
    var buf := Encoded(f) + rest;
    EncodedParts(f);
    EncodedParts(f');
    assert buf[..16] == Header(f) == Header(f');
    HeaderAccepted(f);
    HeaderAccepted(f');
    assert buf[..|Encoded(f)|] == Encoded(f) && buf[..|Encoded(f')|] == Encoded(f');
    assert rest == buf[|Encoded(f)|..] == rest';
    DecodeInverts(f);
    DecodeInverts(f');
  }

  lemma AlteredHeaderRejected(f: Frame, i: nat, b: Byte)
    requires Valid(f) && i < HEADER_LEN && b != Header(f)[i]
    ensures CheckHeader(Header(f)[i := b]).Err?
  {
    hide Sealed, Crc, Le, FromLe, WordBytes;
    var h := Header(f);
    var h' := h[i := b];
    HeaderFields(f);
    SealExact(h[0..12], h[12..16]);
    if i < 4 {
      assert h'[0..4][i] != MAGIC[i];
    } else if i < 12 {
      assert h'[0..12] == h[0..12][i := b] && h'[12..16] == h[12..16];
      SealBrokenByData(h[0..12], h[12..16], i, b);
    } else {
      assert h'[0..12] == h[0..12] && h'[12..16] == h[12..16][i - 12 := b];
      SealBrokenByTag(h[0..12], h[12..16], i - 12, b);
    }
  }

  /** Whatever single byte of a frame is altered, and however, the result is refused. */
  lemma AlteredByteRejected(f: Frame, i: nat, b: Byte)
    requires Valid(f) && i < |Encoded(f)| && b != Encoded(f)[i]
    ensures DecodeFrame(Encoded(f)[i := b]).Err?
  {
    hide Sealed, Crc, Le, WordBytes;
    var buf, n := Encoded(f), |f.payload|;
    var bad := buf[i := b];
    EncodedParts(f);
    if i < 16 {
      assert bad[..16] == Header(f)[i := b];
      AlteredHeaderRejected(f, i, b);
    } else {
      assert bad[..16] == Header(f);
      HeaderAccepted(f);
      SealExact(buf[16..16 + n], buf[16 + n..]);
      if i < 16 + n {
        assert bad[16..16 + n] == buf[16..16 + n][i - 16 := b] && bad[16 + n..] == buf[16 + n..];
        SealBrokenByData(buf[16..16 + n], buf[16 + n..], i - 16, b);
      } else {
        assert bad[16..16 + n] == buf[16..16 + n] && bad[16 + n..] == buf[16 + n..][i - 16 - n := b];
        SealBrokenByTag(buf[16..16 + n], buf[16 + n..], i - 16 - n, b);
      }
    }
  }
}
