/**
 * The formats written out: which bytes stand where, and which error each malformed input
 * draws, with every number given as the protocol documents give it.
 */
module Layout {
  import opened Bytes
  import opened Wrappers
  import opened Crc32
  import Utf8
  import Frame
  import Coordinate
  import Batch
  import AckBatch
  import Sidecar
  import Chain

  // ---- Little-endian fields

  lemma LePair(n: nat)
    ensures Le(n, 2) == [n % 256, n / 256 % 256]
  {
    assert Le(n / 256, 1) == [n / 256 % 256] + Le(n / 256 / 256, 0);
  }

  lemma LeWord(n: nat)
    ensures Le(n, 4) == [n % 256, n / 256 % 256, n / 65536 % 256, n / 16777216 % 256]
  {
    LePair(n / 65536);
    assert Le(n / 256, 3) == [n / 256 % 256] + Le(n / 256 / 256, 2);
    assert n / 256 / 256 == n / 65536 && n / 65536 / 256 == n / 16777216;
  }

  lemma LeLong(n: nat)
    ensures Le(n, 8) == Le(n, 4) + Le(n / 0x1_0000_0000, 4)
  {
    var a, b, c, d := n / 256, n / 256 / 256, n / 256 / 256 / 256, n / 256 / 256 / 256 / 256;
    assert Le(n, 8) == [n % 256] + Le(a, 7) && Le(a, 7) == [a % 256] + Le(b, 6);
    assert Le(b, 6) == [b % 256] + Le(c, 5) && Le(c, 5) == [c % 256] + Le(d, 4);
    assert Le(n, 4) == [n % 256] + Le(a, 3) && Le(a, 3) == [a % 256] + Le(b, 2);
    LePair(b);
    assert d == n / 0x1_0000_0000;
  }

  // ---- Frames

  lemma FrameLayout(f: Frame.Frame)
    ensures var b := Frame.Encoded(f); var n := |f.payload|;
            && |b| == 20 + n && b[0..4] == [0x57, 0x45, 0x49, 0x52]
            && b[4] == f.version && b[5] == f.messageType && b[6] == f.durability && b[7] == f.flags
            && b[8..12] == Le(n, 4) && b[12..16] == WordBytes(Crc(b[0..12]))
            && b[16..16 + n] == f.payload && b[16 + n..] == WordBytes(Crc(f.payload))
  {
    hide Crc, WordBytes, Le, Frame.Header, Frame.Head;
    Frame.EncodedParts(f);
    Frame.HeaderFields(f);
    var b, h := Frame.Encoded(f), Frame.Header(f);
    assert forall i :: 0 <= i < 16 ==> b[i] == h[i];
    assert b[0..4] == h[0..4] && b[8..12] == h[8..12] && b[0..12] == h[0..12] && b[12..16] == h[12..16];
  }

  /** The error names the first check that fails, in the order the protocol fixes. */
  lemma FrameErrors(buf: seq<Byte>)
    ensures var long := |buf| >= 16;
            var magic := long && buf[0..4] == [0x57, 0x45, 0x49, 0x52];
            var version := magic && buf[4] == 1;
            var checked := version && Sealed(buf[0..12], buf[12..16]);
            var known := checked && 1 <= buf[5] <= 9;
            var tier := known && 1 <= buf[6] <= 3;
            var plain := tier && buf[7] == 0;
            var n := if long then FromLe(buf[8..12]) else 0;
            var small := plain && n <= 16777216;
            var whole := small && |buf| == 20 + n;
            var r := Frame.DecodeFrame(buf);
            && (r == Err(Frame.TruncatedFrame) <==> !long || (small && |buf| < 20 + n))
            && (r == Err(Frame.BadMagic) <==> long && !magic)
            && (r == Err(Frame.VersionMismatch) <==> magic && !version)
            && (r == Err(Frame.HeaderCrcMismatch) <==> version && !checked)
            && (r == Err(Frame.UnknownMessageType) <==> checked && !known)
            && (r == Err(Frame.UnknownDurability) <==> known && !tier)
            && (r == Err(Frame.ReservedFlagsSet) <==> tier && !plain)
            && (r == Err(Frame.PayloadTooLarge) <==> plain && !small)
            && (r == Err(Frame.TrailingBytes) <==> small && |buf| > 20 + n)
            && (r == Err(Frame.PayloadCrcMismatch) <==> whole && !Sealed(buf[16..16 + n], buf[16 + n..]))
            && (r.Ok? <==> whole && Sealed(buf[16..16 + n], buf[16 + n..]))
  {
    hide Sealed, FromLe;
    if |buf| >= 16 {
      var h := buf[..16];
      assert h[0..4] == buf[0..4] && h[0..12] == buf[0..12] && h[12..16] == buf[12..16] && h[8..12] == buf[8..12];
    }
  }

  // ---- Coordinates

  lemma CoordinateLayout(c: Coordinate.Coordinate)
    requires |c.recordId| == 32
    ensures var b := Coordinate.Encode(c);
            && |b| == 43 + |c.segment| && b[0] == 1 && b[1..9] == Le(c.index, 8) && b[9..41] == c.recordId
            && b[41..43] == Le(|c.segment|, 2) && b[43..] == c.segment
  {
    hide Le;
    Coordinate.EncodeFields(c);
    hide Coordinate.Encode;
  }

  /** Rust's errors; Go's and C's are the same but for a short tail, which they call truncation. */
  lemma CoordinateErrors(buf: seq<Byte>)
    ensures var long := |buf| >= 43;
            var version := long && buf[0] == 1;
            var n := if long then FromLe(buf[41..43]) else 0;
            var small := version && n <= 255;
            var whole := small && |buf| == 43 + n;
            var r, g := Coordinate.DecodeRust(buf), Coordinate.DecodeGo(buf);
            && (r == Err(Coordinate.Truncated) <==> !long)
            && (r == Err(Coordinate.UnsupportedVersion) <==> long && !version)
            && (r == Err(Coordinate.SegmentTooLong) <==> version && !small)
            && (r == Err(Coordinate.LengthMismatch) <==> small && !whole)
            && (r == Err(Coordinate.SegmentNotUtf8) <==> whole && !Utf8.WellFormed(buf[43..]))
            && g == if small && |buf| < 43 + n then Err(Coordinate.Truncated) else r
  {
    hide FromLe, Utf8.WellFormed;
    if |buf| >= 43 && |buf| == 43 + FromLe(buf[41..43]) {
      assert buf[43..] == buf[43..43 + FromLe(buf[41..43])];
    }
  }

  // ---- Batches and their acknowledgements

  lemma BatchLayout(rs: Batch.Records)
    ensures var b := Batch.Body(rs); |b| >= 3 && b[0] == 1 && b[1..3] == Le(|rs|, 2) && b[3..] == Batch.Flat(rs)
  {
    hide Le, Batch.Flat;
  }

  /** What is refused before the first record is looked at; the rest is `WalkStops`. */
  lemma BatchErrors(body: seq<Byte>, maxRecords: nat, maxRecordLen: nat)
    ensures var r := Batch.Decode(body, maxRecords, maxRecordLen);
            var long := |body| >= 3;
            var version := long && body[0] == 1;
            var n := if long then FromLe(body[1..3]) else 0;
            && (!long ==> r == Err(Batch.Truncated(|body|, 3)))
            && (long && !version ==> r == Err(Batch.UnsupportedVersion(body[0])))
            && (version && n == 0 ==> r == Err(Batch.EmptyBatch))
            && (version && n > 0 && n > Min(maxRecords, 2048) ==> r == Err(Batch.TooManyRecords(n, Min(maxRecords, 2048))))
            && (version && 0 < n <= Min(maxRecords, 2048) ==>
                  r == Batch.Walk(body[3..], 0, n, Min(maxRecordLen, 16777216)))
  {
    hide FromLe, Batch.Walk;
  }

  lemma AckLayout(a: seq<bool>)
    ensures var b := AckBatch.AckPayload(a);
            && |b| == 3 + (|a| + 7) / 8 && b[0] == 1 && b[1..3] == Le(|a|, 2) && b[3..] == AckBatch.Bitmap(a)
  {
    AckBatch.PayloadParts(a);
    hide Le, AckBatch.Bitmap, AckBatch.AckPayload;
  }

  lemma AckErrors(payload: seq<Byte>, expected: nat)
    ensures var r := AckBatch.DecodeAckBatch(payload, expected);
            var long := |payload| >= 3;
            var version := long && payload[0] == 1;
            var n := if long then FromLe(payload[1..3]) else 0;
            var want := 3 + (n + 7) / 8;
            var asked := version && n != 0 && n == expected;
            var spare := asked && |payload| == want && n % 8 != 0 && AckBatch.Shr(payload[|payload| - 1], n % 8) != 0;
            && (!long ==> r == Err(Batch.Truncated(|payload|, 3)))
            && (long && !version ==> r == Err(Batch.UnsupportedVersion(payload[0])))
            && (version && n == 0 ==> r == Err(Batch.EmptyBatch))
            && (version && n != 0 && n != expected ==> r == Err(Batch.LengthMismatch(n, expected)))
            && (asked && |payload| != want ==> r == Err(Batch.LengthMismatch(want, |payload|)))
            && (spare ==> r == Err(Batch.PaddingNotZero(payload[|payload| - 1])))
            && (r.Ok? <==> asked && |payload| == want && !spare)
  {
    hide FromLe, AckBatch.Shr, AckBatch.Bit;
  }

  // ---- Sidecars and what the chain hashes

  lemma SidecarLayout(s: Sidecar.Sidecar)
    ensures var b := Sidecar.Encode(s); var n := |s.segmentName|;
            && |b| == 93 + n && b[0..4] == [0x57, 0x41, 0x54, 0x54] && b[4] == s.formatVersion
            && b[5..7] == Le(s.shardId, 2) && b[7..39] == s.prevHead && b[39..71] == s.head
            && b[71..79] == Le(s.recordCount, 8) && b[87..89] == Le(n, 2) && b[89..89 + n] == s.segmentName
            && b[79..87] == Le(if s.sealedAt < 0 then s.sealedAt + 0x1_0000_0000_0000_0000 else s.sealedAt, 8)
            && b[89 + n..] == WordBytes(Crc(b[..89 + n]))
  {
    hide Crc, WordBytes, Le;
    Sidecar.EncodeFields(s);
    Sidecar.EncodeLayout(s);
    hide Sidecar.Encode, Sidecar.Fixed;
  }

  /** Everything but the last four bytes, which are its CRC. */
  predicate SidecarChecked(bytes: seq<Byte>) {
    |bytes| >= 93 && Sealed(bytes[..|bytes| - 4], bytes[|bytes| - 4..])
  }

  predicate SidecarNamed(bytes: seq<Byte>) {
    |bytes| >= 93 && Utf8.WellFormed(bytes[89..|bytes| - 4])
  }

  lemma SidecarErrors(bytes: seq<Byte>)
    ensures var r := Sidecar.Decode(bytes);
            var long := |bytes| >= 93;
            var magic := long && bytes[0..4] == [0x57, 0x41, 0x54, 0x54];
            var version := magic && bytes[4] == 1;
            var whole := version && |bytes| == 93 + FromLe(bytes[87..89]);
            var checked := whole && SidecarChecked(bytes);
            && (r == Err(Sidecar.TruncatedSidecar) <==>
                  !long || (version && !whole) || (checked && !SidecarNamed(bytes)))
            && (r == Err(Sidecar.BadMagic) <==> long && !magic)
            && (magic && !version ==> r == Err(Sidecar.UnsupportedSidecarVersion(bytes[4])))
            && (r == Err(Sidecar.SidecarCrcMismatch) <==> whole && !checked)
            && (r.Ok? <==> checked && SidecarNamed(bytes))
  {
    hide FromLe, Sealed, Utf8.WellFormed, Sidecar.Fields;
  }

  /** What the chain starts from: domain separator, predecessor, header and the length-prefixed name. */
  lemma OriginLayout(s: Chain.Segment)
    ensures var o := Chain.OriginInput(s); var t := s.header.createdAt;
            && |o| == 65 + |s.name|
            && o[..14] == [0x77, 0x65, 0x69, 0x72, 0x2D, 0x61, 0x74, 0x74, 0x65, 0x73, 0x74, 0x2D, 0x76, 0x31]
            && o[14..46] == s.prev && o[46] == s.header.formatVersion && o[47..49] == Le(s.header.shardId, 2)
            && o[49..57] == Le(if t < 0 then t + 0x1_0000_0000_0000_0000 else t, 8)
            && o[57..65] == Le(|s.name|, 8) && o[65..] == s.name
  {
    hide Le;
  }

  /** A record's id and the step that adds it: the predecessor's 32 bytes come first, then the id's. */
  lemma StepLayout(name: seq<Byte>, index: nat, payload: seq<Byte>, prev: Sidecar.Digest, id: Sidecar.Digest)
    ensures var r := Chain.RecordInput(name, index, payload); var n := |name|;
            && |r| == 24 + n + |payload| && r[..8] == Le(n, 8) && r[8..8 + n] == name
            && r[8 + n..16 + n] == Le(index, 8) && r[16 + n..24 + n] == Le(|payload|, 8) && r[24 + n..] == payload
    ensures var t := Chain.StepInput(prev, id); |t| == 64 && t[..32] == prev && t[32..] == id
  {
    hide Le;
  }

  /** The head of no records is the origin's digest; each record, numbered from one, is hashed onto the head before it. */
  lemma HeadLayout(hash: Chain.Hash, s: Chain.Segment, payload: seq<Byte>)
    ensures s.records == [] ==> Chain.Head(hash, s) == hash(Chain.OriginInput(s))
    ensures Chain.Head(hash, s.(records := s.records + [payload])) ==
            hash(Chain.StepInput(Chain.Head(hash, s), hash(Chain.RecordInput(s.name, |s.records| + 1, payload))))
  {
    hide Chain.OriginInput, Chain.RecordInput, Chain.StepInput;
    var t := s.(records := s.records + [payload]);
    assert t.records[..|s.records|] == s.records;
    assert Chain.Init(t) == s;
  }

  /** A history starts from the all-zero head and each segment moves it to its own. */
  lemma TipLayout(hash: Chain.Hash, h: seq<Chain.Segment>, s: Chain.Segment)
    ensures forall i :: 0 <= i < 32 ==> Chain.Tip(hash, [])[i] == 0
    ensures Chain.Tip(hash, h + [s]) == Chain.Head(hash, s)
  {
    hide Chain.Head;
  }
}
