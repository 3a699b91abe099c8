/**
 * The record coordinate an AckTracked carries: where a record landed and its id.
 * Three decoders exist (Rust, C, Go). They differ in one error tag and in nothing else.
 */
module Coordinate {
  import opened Bytes
  import opened Wrappers
  import Utf8

  const COORDINATE_VERSION: Byte := 1
  const FIXED_LEN: nat := 1 + 8 + 32 + 2
  const MAX_SEGMENT_NAME_LEN: nat := 255

  datatype Coordinate = Coordinate(segment: seq<Byte>, index: nat, recordId: seq<Byte>)

  datatype CoordinateError = Truncated | UnsupportedVersion | SegmentTooLong | LengthMismatch | SegmentNotUtf8

  /** What the types and the constructor guarantee: a UTF-8 name of bounded length, a u64, a digest. */
  predicate Valid(c: Coordinate) {
    && Utf8.WellFormed(c.segment) && |c.segment| <= MAX_SEGMENT_NAME_LEN
    && c.index < Span(8) && |c.recordId| == 32
  }

  /** The fallible constructor: an over-long name is refused, never shortened. */
  function New(segment: seq<Byte>, index: nat, recordId: seq<Byte>): (r: Result<Coordinate, CoordinateError>)
    requires Utf8.WellFormed(segment) && index < Span(8) && |recordId| == 32
    ensures r.Ok? ==> Valid(r.value) && r.value.segment == segment && r.value.index == index && r.value.recordId == recordId
    ensures r.Err? <==> |segment| > MAX_SEGMENT_NAME_LEN
  {
    if |segment| > MAX_SEGMENT_NAME_LEN then Err(SegmentTooLong) else Ok(Coordinate(segment, index, recordId))
  }

  function Prefix(c: Coordinate): (s: seq<Byte>)
    requires |c.recordId| == 32
    ensures |s| == FIXED_LEN
  {
    [COORDINATE_VERSION] + Le(c.index, 8) + c.recordId + Le(|c.segment|, 2)
  }

  function Encode(c: Coordinate): seq<Byte>
    requires |c.recordId| == 32
  {
    Prefix(c) + c.segment
  }

  /** The Rust decoder. */
  function DecodeRust(buf: seq<Byte>): Result<Coordinate, CoordinateError> {
    if |buf| < FIXED_LEN then Err(Truncated)
    else if buf[0] != COORDINATE_VERSION then Err(UnsupportedVersion)
    else
      var n := FromLe(buf[41..43]);
      if n > MAX_SEGMENT_NAME_LEN then Err(SegmentTooLong)
      else if |buf| != FIXED_LEN + n then Err(LengthMismatch)
      else if !Utf8.WellFormed(buf[43..]) then Err(SegmentNotUtf8)
      else Ok(Coordinate(buf[43..], FromLe(buf[1..9]), buf[9..41]))
  }

  /** The Go decoder: as above, but a short tail is reported as truncation. */
  function DecodeGo(buf: seq<Byte>): Result<Coordinate, CoordinateError> {
    if |buf| < FIXED_LEN then Err(Truncated)
    else if buf[0] != COORDINATE_VERSION then Err(UnsupportedVersion)
    else
      var n := FromLe(buf[41..43]);
      if n > MAX_SEGMENT_NAME_LEN then Err(SegmentTooLong)
      else if |buf| < FIXED_LEN + n then Err(Truncated)
      else if |buf| != FIXED_LEN + n then Err(LengthMismatch)
      else if !Utf8.WellFormed(buf[43..43 + n]) then Err(SegmentNotUtf8)
      else Ok(Coordinate(buf[43..43 + n], FromLe(buf[1..9]), buf[9..41]))
  }

  lemma FromLeSnoc(s: seq<Byte>, i: nat)
    requires i < |s|
    ensures FromLe(s[i..]) == s[i] + 256 * FromLe(s[i + 1..])
  {
    assert s[i..][1..] == s[i + 1..];
  }

  /** The C decoder: assembles the index high byte first and runs its own UTF-8 loop. */
  method DecodeC(buf: seq<Byte>) returns (r: Result<Coordinate, CoordinateError>)
    ensures r == DecodeGo(buf)
  {
    hide Utf8.WellFormed;
    if |buf| < FIXED_LEN { return Err(Truncated); }
    if buf[0] != COORDINATE_VERSION { return Err(UnsupportedVersion); }
    var index: nat := 0;
    ghost var field := buf[1..9];
    for i := 8 downto 0
      invariant index == FromLe(field[i..])
    {
      FromLeSnoc(field, i);
      index := index * 256 + buf[1 + i] as int;
    }
    assert field[0..] == field;
    FromLeSnoc(buf[41..43], 0);
    FromLeSnoc(buf[41..43], 1);
    assert buf[41..43][0..] == buf[41..43];
    var segLen: nat := buf[41] as int + 256 * buf[42] as int;
    if segLen > MAX_SEGMENT_NAME_LEN { return Err(SegmentTooLong); }
    var want := FIXED_LEN + segLen;
    if |buf| < want { return Err(Truncated); }
    if |buf| != want { return Err(LengthMismatch); }
    var seg := buf[FIXED_LEN..FIXED_LEN + segLen];
    var valid := Utf8.Utf8Valid(seg);
    if !valid { return Err(SegmentNotUtf8); }
    return Ok(Coordinate(seg, index, buf[9..41]));
  }

  lemma PrefixFields(c: Coordinate)
    requires |c.recordId| == 32
    ensures Prefix(c)[0] == COORDINATE_VERSION && Prefix(c)[1..9] == Le(c.index, 8)
    ensures Prefix(c)[9..41] == c.recordId && Prefix(c)[41..43] == Le(|c.segment|, 2)
  {
  }

  lemma EncodeFields(c: Coordinate)
    requires |c.recordId| == 32
    ensures |Encode(c)| == FIXED_LEN + |c.segment|
    ensures Encode(c)[0] == COORDINATE_VERSION && Encode(c)[1..9] == Le(c.index, 8)
    ensures Encode(c)[9..41] == c.recordId && Encode(c)[41..43] == Le(|c.segment|, 2)
    ensures Encode(c)[43..] == c.segment
  {
    hide Prefix, Le;
    PrefixFields(c);
    assert Encode(c)[..43] == Prefix(c);
    assert Encode(c)[1..9] == Prefix(c)[1..9] && Encode(c)[9..41] == Prefix(c)[9..41];
    assert Encode(c)[41..43] == Prefix(c)[41..43];
  }

  lemma DecodeInverts(c: Coordinate)
    requires Valid(c)
    ensures DecodeRust(Encode(c)) == Ok(c)
  {
    hide Encode, Le, Utf8.WellFormed;
    EncodeFields(c);
    assert Span(2) == 65536;
    FromLeInverse(c.index, 8);
    FromLeInverse(|c.segment|, 2);
  }

  lemma AcceptedReencodes(buf: seq<Byte>, c: Coordinate)
    requires DecodeRust(buf) == Ok(c)
    ensures Valid(c) && buf == Encode(c)
  {
    hide Utf8.WellFormed, FromLe;
    LeInverse(buf[1..9]);
    LeInverse(buf[41..43]);
    assert buf == [buf[0]] + buf[1..9] + buf[9..41] + buf[41..43] + buf[43..];
  }

  /** A buffer decodes to a coordinate exactly when it is that valid coordinate's encoding. */
  lemma CoordinateExact(buf: seq<Byte>, c: Coordinate)
    ensures DecodeRust(buf) == Ok(c) <==> Valid(c) && buf == Encode(c)
  {
    hide Encode, DecodeRust;
    if Valid(c) && buf == Encode(c) {
      DecodeInverts(c);
    }
    if DecodeRust(buf) == Ok(c) {
      AcceptedReencodes(buf, c);
    }
  }

  /**
   * The decoders give the same result on every buffer except a version-1 one that stops
   * short of its declared segment, where both refuse under different names.
   */
  lemma DecodersAgree(buf: seq<Byte>)
    ensures DecodeRust(buf) == DecodeGo(buf) <==>
            !(|buf| >= FIXED_LEN && buf[0] == COORDINATE_VERSION
              && FromLe(buf[41..43]) <= MAX_SEGMENT_NAME_LEN && |buf| < FIXED_LEN + FromLe(buf[41..43]))
    ensures DecodeRust(buf).Ok? <==> DecodeGo(buf).Ok?
    ensures DecodeRust(buf) != DecodeGo(buf) ==> DecodeRust(buf) == Err(LengthMismatch) && DecodeGo(buf) == Err(Truncated)
  {
    hide Utf8.WellFormed, FromLe;
    if |buf| >= FIXED_LEN && |buf| == FIXED_LEN + FromLe(buf[41..43]) {
      assert buf[43..] == buf[43..43 + FromLe(buf[41..43])];
    }
  }

  /** A buffer on which the error tags differ: one byte of name declared, none present. */
  lemma TagsDiffer()
    ensures var buf := [COORDINATE_VERSION] + seq(40, _ => 0) + [1, 0];
      DecodeRust(buf) == Err(LengthMismatch) && DecodeGo(buf) == Err(Truncated)
  {
    var buf: seq<Byte> := [COORDINATE_VERSION] + seq(40, _ => 0) + [1, 0];
    assert buf[41..43] == [1, 0];
    assert FromLe([1, 0]) == 1;
  }
}
