/** The `.attest` sidecar written next to a sealed segment, and its strict decoder. */
module Sidecar {
  import opened Bytes
  import opened Crc32
  import opened Wrappers
  import Utf8

  const ATTEST_MAGIC: seq<Byte> := [0x57, 0x41, 0x54, 0x54]
  const ATTEST_FORMAT_VERSION: Byte := 1
  const FIXED_LEN: nat := 4 + 1 + 2 + 32 + 32 + 8 + 8 + 2

  type Digest = d: seq<Byte> | |d| == 32 witness seq(32, _ => 0)

  const TWO_63: int := 0x8000_0000_0000_0000

  type I64 = x: int | -TWO_63 <= x < TWO_63

  /** Two's complement: the u64 with the same eight bytes. */
  function Unsigned(x: I64): (n: nat)
    ensures n < TWO_64
  {
    if x < 0 then x + TWO_64 else x
  }

  function Signed(n: nat): I64
    requires n < TWO_64
  {
    if n < TWO_63 then n else n - TWO_64
  }

  lemma SpanEight()
    ensures Span(8) == TWO_64 && Span(2) == 65536
  {
  }

  datatype Sidecar = Sidecar(
    formatVersion: Byte, shardId: nat, segmentName: seq<Byte>,
    prevHead: Digest, head: Digest, recordCount: nat, sealedAt: I64)

  datatype AttestError =
    | Io
    | BadMagic
    | UnsupportedSidecarVersion(version: Byte)
    | TruncatedSidecar
    | SidecarCrcMismatch

  /** What the field types alone guarantee: u16, String, u64. */
  predicate FieldsFit(s: Sidecar) {
    s.shardId < 65536 && s.recordCount < TWO_64 && Utf8.WellFormed(s.segmentName)
  }

  function Fixed(s: Sidecar): (b: seq<Byte>)
    ensures |b| == FIXED_LEN
  {
    ATTEST_MAGIC + [s.formatVersion] + Le(s.shardId, 2) + s.prevHead + s.head
    + Le(s.recordCount, 8) + Le(Unsigned(s.sealedAt), 8) + Le(|s.segmentName|, 2)
  }

  function Encode(s: Sidecar): (b: seq<Byte>)
    ensures |b| == FIXED_LEN + |s.segmentName| + 4
  {
    var body := Fixed(s) + s.segmentName;
    body + WordBytes(Crc(body))
  }

  function Fields(bytes: seq<Byte>, n: nat): Sidecar
    requires |bytes| == FIXED_LEN + n + 4
  {
    LeInverse(bytes[79..87]);
    SpanEight();
    Sidecar(bytes[4], FromLe(bytes[5..7]), bytes[89..89 + n], bytes[7..39], bytes[39..71],
            FromLe(bytes[71..79]), Signed(FromLe(bytes[79..87])))
  }

  /** Magic, version, length, CRC, and only then the name. */
  function Decode(bytes: seq<Byte>): Result<Sidecar, AttestError> {
    if |bytes| < FIXED_LEN + 4 then Err(TruncatedSidecar)
    else if bytes[0..4] != ATTEST_MAGIC then Err(BadMagic)
    else if bytes[4] != ATTEST_FORMAT_VERSION then Err(UnsupportedSidecarVersion(bytes[4]))
    else
      var n := FromLe(bytes[87..89]);
      var want := FIXED_LEN + n + 4;
      if |bytes| != want then Err(TruncatedSidecar)
      else if !Sealed(bytes[..want - 4], bytes[want - 4..]) then Err(SidecarCrcMismatch)
      else if !Utf8.WellFormed(bytes[89..89 + n]) then Err(TruncatedSidecar)
      else Ok(Fields(bytes, n))
  }

  lemma FixedLayout(s: Sidecar)
    ensures var b := Fixed(s);
            && b[0..4] == ATTEST_MAGIC && b[4] == s.formatVersion && b[5..7] == Le(s.shardId, 2)
            && b[7..39] == s.prevHead && b[39..71] == s.head && b[71..79] == Le(s.recordCount, 8)
            && b[79..87] == Le(Unsigned(s.sealedAt), 8) && b[87..89] == Le(|s.segmentName|, 2)
  {
    hide Le;
  }

  lemma EncodeLayout(s: Sidecar)
    ensures var b := Encode(s); var n := |s.segmentName|;
            && b[..89] == Fixed(s) && b[89..89 + n] == s.segmentName
            && b[..89 + n] == Fixed(s) + s.segmentName && b[89 + n..] == WordBytes(Crc(Fixed(s) + s.segmentName))
  {
    hide Crc, WordBytes, Fixed;
  }

  /** A slice of the fixed part is the same slice of the whole. */
  lemma EncodeFields(s: Sidecar)
    ensures var b := Encode(s);
            && b[0..4] == ATTEST_MAGIC && b[4] == s.formatVersion && b[5..7] == Le(s.shardId, 2)
            && b[7..39] == s.prevHead && b[39..71] == s.head && b[71..79] == Le(s.recordCount, 8)
            && b[79..87] == Le(Unsigned(s.sealedAt), 8) && b[87..89] == Le(|s.segmentName|, 2)
  {
    hide Crc, WordBytes, Fixed, Le;
    FixedLayout(s);
    EncodeLayout(s);
    var b, f := Encode(s), Fixed(s);
    assert forall i :: 0 <= i < 89 ==> b[i] == f[i];
    assert b[0..4] == f[0..4] && b[5..7] == f[5..7] && b[7..39] == f[7..39] && b[39..71] == f[39..71];
    assert b[71..79] == f[71..79] && b[79..87] == f[79..87] && b[87..89] == f[87..89];
  }

  lemma ShortName(n: nat)
    ensures FromLe(Le(n, 2)) == n % 65536
  {
    SpanEight();
    FromLeInverse(n % 65536, 2);
    assert (n % 65536) % 256 == n % 256 && (n % 65536) / 256 % 256 == n / 256 % 256;
    assert Le(n, 2) == [n % 256] + [n / 256 % 256];
    assert Le(n % 65536, 2) == [(n % 65536) % 256] + [(n % 65536) / 256 % 256];
  }

  lemma FieldsInvert(s: Sidecar)
    requires FieldsFit(s)
    ensures Fields(Encode(s), |s.segmentName|) == s
  {
    hide Crc, WordBytes, Fixed, Le, FromLe, Encode, Utf8.WellFormed;
    EncodeFields(s);
    EncodeLayout(s);
    SpanEight();
    FromLeInverse(s.shardId, 2);
    FromLeInverse(s.recordCount, 8);
    FromLeInverse(Unsigned(s.sealedAt), 8);
  }

  /**
   * A sidecar survives the round trip exactly when its version is the known one and its name
   * fits the u16 length field; a longer name is written with a truncated length and then refused.
   */
  lemma RoundTripExact(s: Sidecar)
    requires FieldsFit(s)
    ensures Decode(Encode(s)) == Ok(s) <==> s.formatVersion == ATTEST_FORMAT_VERSION && |s.segmentName| <= 65535
    ensures s.formatVersion == ATTEST_FORMAT_VERSION && |s.segmentName| > 65535 ==> Decode(Encode(s)) == Err(TruncatedSidecar)
  {
    hide Crc, WordBytes, Fixed, Le, FromLe, Encode, Utf8.WellFormed, Sealed, Fields;
    var n := |s.segmentName|;
    EncodeFields(s);
    EncodeLayout(s);
    ShortName(n);
    SealExact(Encode(s)[..89 + n], Encode(s)[89 + n..]);
    FieldsInvert(s);
  }

  lemma AcceptedReencodes(bytes: seq<Byte>, s: Sidecar)
    requires Decode(bytes) == Ok(s)
    ensures FieldsFit(s) && s.formatVersion == ATTEST_FORMAT_VERSION && |s.segmentName| <= 65535
    ensures bytes == Encode(s)
  {
    hide Crc, WordBytes, Le, FromLe, Utf8.WellFormed, Sealed;
    var n := |s.segmentName|;
    SpanEight();
    LeInverse(bytes[5..7]);
    LeInverse(bytes[71..79]);
    LeInverse(bytes[79..87]);
    LeInverse(bytes[87..89]);
    SealExact(bytes[..89 + n], bytes[89 + n..]);
    assert bytes[..89] == bytes[0..4] + [bytes[4]] + bytes[5..7] + bytes[7..39] + bytes[39..71]
                          + bytes[71..79] + bytes[79..87] + bytes[87..89];
    assert bytes[..89 + n] == bytes[..89] + bytes[89..89 + n];
    assert bytes == bytes[..89 + n] + bytes[89 + n..];
  }

  /** The decoder accepts exactly the encodings of version-1 sidecars whose name fits, and returns that sidecar. */
  lemma DecodeExact(bytes: seq<Byte>, s: Sidecar)
    ensures Decode(bytes) == Ok(s) <==>
            FieldsFit(s) && s.formatVersion == ATTEST_FORMAT_VERSION && |s.segmentName| <= 65535 && bytes == Encode(s)
  {
    hide Decode, Encode, FieldsFit;
    if FieldsFit(s) && s.formatVersion == ATTEST_FORMAT_VERSION && |s.segmentName| <= 65535 && bytes == Encode(s) {
      RoundTripExact(s);
    }
    if Decode(bytes) == Ok(s) {
      AcceptedReencodes(bytes, s);
    }
  }

  /** Altering any one byte of an encoded sidecar makes it refused. */
  lemma AlteredByteRejected(s: Sidecar, i: nat, b: Byte)
    requires FieldsFit(s) && |s.segmentName| <= 65535 && i < |Encode(s)| && b != Encode(s)[i]
    ensures Decode(Encode(s)[i := b]).Err?
  {
    hide Crc, WordBytes, Fixed, Le, FromLe, Encode, Utf8.WellFormed, Sealed, Fields;
    var n, enc := |s.segmentName|, Encode(s);
    var bad := enc[i := b];
    EncodeLayout(s);
    EncodeFields(s);
    SealExact(enc[..89 + n], enc[89 + n..]);
    if i < 4 {
      assert bad[0..4][i] != ATTEST_MAGIC[i];
    } else if |bad| == FIXED_LEN + FromLe(bad[87..89]) + 4 {
      if i < 89 + n {
        assert bad[..89 + n] == enc[..89 + n][i := b] && bad[89 + n..] == enc[89 + n..];
        SealBrokenByData(enc[..89 + n], enc[89 + n..], i, b);
      } else {
        assert bad[..89 + n] == enc[..89 + n] && bad[89 + n..] == enc[89 + n..][i - 89 - n := b];
        SealBrokenByTag(enc[..89 + n], enc[89 + n..], i - 89 - n, b);
      }
    }
  }

  /** A sidecar whose name is one byte too long: its encoding is refused. */
  lemma LongNameRefused() returns (s: Sidecar)
    ensures FieldsFit(s) && s.formatVersion == ATTEST_FORMAT_VERSION && |s.segmentName| == 65536
    ensures Decode(Encode(s)) == Err(TruncatedSidecar)
  {
    var zeros: Digest := seq(32, _ => 0);
    s := Sidecar(ATTEST_FORMAT_VERSION, 0, seq(65536, _ => 0x61), zeros, zeros, 0, 0);
    hide Utf8.WellFormed, Encode, Decode;
    Utf8.AsciiWellFormed(s.segmentName);
    RoundTripExact(s);
  }
}
