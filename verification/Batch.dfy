/**
 * The PushBatch body: a version, a u16 count, then length-prefixed records. Encoders do
 * not enforce the caps, decoders do. The Rust, C and Go decoders are three loops over a
 * cursor, each proved against one specification, `Decode`.
 */
module Batch {
  import opened Bytes
  import opened Wrappers
  import Frame

  const BATCH_VERSION: Byte := 1
  const HEADER_LEN: nat := 3
  const MAX_BATCH_RECORDS_HARD_CAP: nat := 2048

  datatype BatchError =
    | Truncated(len: nat, need: nat)
    | UnsupportedVersion(version: Byte)
    | EmptyBatch
    | TooManyRecords(count: nat, cap: nat)
    | EmptyRecord(index: nat)
    | RecordTooLarge(index: nat, len: nat, cap: nat)
    | TruncatedRecord(index: nat)
    | LengthMismatch(declared: nat, actual: nat)
    | PaddingNotZero(byte: Byte)

  /** The tag alone, which is all the C and Go clients report. */
  datatype Tag =
    | TagTruncated | TagBadVersion | TagEmpty | TagTooMany | TagEmptyRecord
    | TagRecordTooLarge | TagTruncRecord | TagLengthMismatch | TagPaddingNotZero | TagBufTooSmall

  function TagOf(e: BatchError): Tag {
    match e
    case Truncated(_, _) => TagTruncated
    case UnsupportedVersion(_) => TagBadVersion
    case EmptyBatch => TagEmpty
    case TooManyRecords(_, _) => TagTooMany
    case EmptyRecord(_) => TagEmptyRecord
    case RecordTooLarge(_, _, _) => TagRecordTooLarge
    case TruncatedRecord(_) => TagTruncRecord
    case LengthMismatch(_, _) => TagLengthMismatch
    case PaddingNotZero(_) => TagPaddingNotZero
  }

  type Records = seq<seq<Byte>>

  // ---- Encoding

  function Flat(rs: Records): seq<Byte> {
    if rs == [] then [] else Le(|rs[0]|, 4) + rs[0] + Flat(rs[1..])
  }

  function Body(rs: Records): seq<Byte> {
    [BATCH_VERSION] + Le(|rs|, 2) + Flat(rs)
  }

  lemma {:induction false} FlatSnoc(rs: Records, r: seq<Byte>)
    ensures Flat(rs + [r]) == Flat(rs) + Le(|r|, 4) + r
  {
    hide Le;
    if rs == [] {
      assert (rs + [r])[1..] == [];
    } else {
      FlatSnoc(rs[1..], r);
      assert (rs + [r])[1..] == rs[1..] + [r];
    }
  }

  method EncodeBatchBody(records: Records) returns (out: seq<Byte>)
    ensures out == Body(records)
  {
    hide Le, Flat;
    out := [BATCH_VERSION];
    out := out + Le(|records|, 2);
    assert records[..0] == [];
    FlatEmpty();
    for i := 0 to |records|
      invariant out == [BATCH_VERSION] + Le(|records|, 2) + Flat(records[..i])
    {
      FlatSnoc(records[..i], records[i]);
      assert records[..i + 1] == records[..i] + [records[i]];
      out := out + Le(|records[i]|, 4);
      out := out + records[i];
    }
    assert records[..|records|] == records;
  }

  lemma FlatEmpty()
    ensures Flat([]) == []
  {
  }

  // ---- The specification of decoding

  /** What the record walk makes of the bytes that are left, `found` records in. */
  function Walk(rest: seq<Byte>, found: nat, declared: nat, cap: nat): Result<Records, BatchError>
    decreases |rest|
  {
    if rest == [] then
      if found == declared then Ok([]) else Err(LengthMismatch(declared, found))
    else if |rest| < 4 then Err(TruncatedRecord(found))
    else
      var n := FromLe(rest[..4]);
      if n == 0 then Err(EmptyRecord(found))
      else if n > cap then Err(RecordTooLarge(found, n, cap))
      else if 4 + n > |rest| then Err(TruncatedRecord(found))
      else if found == declared then Err(LengthMismatch(declared, declared + 1))
      else Prepend([rest[4..4 + n]], Walk(rest[4 + n..], found + 1, declared, cap))
  }

  function Prepend(rs: Records, r: Result<Records, BatchError>): Result<Records, BatchError> {
    match r
    case Ok(more) => Ok(rs + more)
    case Err(e) => Err(e)
  }

  function Decode(body: seq<Byte>, maxRecords: nat, maxRecordLen: nat): Result<Records, BatchError> {
    if |body| < HEADER_LEN then Err(Truncated(|body|, HEADER_LEN))
    else if body[0] != BATCH_VERSION then Err(UnsupportedVersion(body[0]))
    else
      var declared := FromLe(body[1..3]);
      var cap := Min(maxRecords, MAX_BATCH_RECORDS_HARD_CAP);
      if declared == 0 then Err(EmptyBatch)
      else if declared > cap then Err(TooManyRecords(declared, cap))
      else Walk(body[3..], 0, declared, Min(maxRecordLen, Frame.MAX_PAYLOAD_HARD_CAP))
  }

  lemma PrependAssoc(a: Records, b: Records, r: Result<Records, BatchError>)
    ensures Prepend(a, Prepend(b, r)) == Prepend(a + b, r)
  {
    if r.Ok? {
      assert a + (b + r.value) == (a + b) + r.value;
    }
  }

  /** One turn of any of the three loops: the record at the cursor moves from the walk to the output. */
  lemma WalkStep(body: seq<Byte>, cursor: nat, out: Records, declared: nat, cap: nat, n: nat)
    requires 3 <= cursor && cursor + 4 + n <= |body|
    requires n == FromLe(body[cursor..cursor + 4]) && 0 < n <= cap && |out| != declared
    ensures Prepend(out, Walk(body[cursor..], |out|, declared, cap))
            == Prepend(out + [body[cursor + 4..cursor + 4 + n]],
                       Walk(body[cursor + 4 + n..], |out| + 1, declared, cap))
  {
    hide FromLe;
    var rest := body[cursor..];
    assert rest[..4] == body[cursor..cursor + 4];
    assert rest[4..4 + n] == body[cursor + 4..cursor + 4 + n] && rest[4 + n..] == body[cursor + 4 + n..];
    PrependAssoc(out, [rest[4..4 + n]], Walk(rest[4 + n..], |out| + 1, declared, cap));
  }

  /** Where and how the walk stops, in terms of the whole body and a cursor. */
  lemma WalkStops(body: seq<Byte>, cursor: nat, found: nat, declared: nat, cap: nat)
    requires cursor <= |body|
    ensures var w := Walk(body[cursor..], found, declared, cap);
      && (cursor == |body| ==> w == if found != declared then Err(LengthMismatch(declared, found)) else Ok([]))
      && (cursor < |body| < cursor + 4 ==> w == Err(TruncatedRecord(found)))
      && (cursor + 4 <= |body| ==>
            var n := FromLe(body[cursor..cursor + 4]);
            && (n == 0 ==> w == Err(EmptyRecord(found)))
            && (n > 0 && n > cap ==> w == Err(RecordTooLarge(found, n, cap)))
            && (0 < n <= cap && cursor + 4 + n > |body| ==> w == Err(TruncatedRecord(found)))
            && (0 < n <= cap && cursor + 4 + n <= |body| && found == declared ==>
                  w == Err(LengthMismatch(declared, declared + 1))))
  {
    hide FromLe;
    if cursor + 4 <= |body| {
      assert body[cursor..][..4] == body[cursor..cursor + 4];
    }
  }

  // ---- The three decoders

  method DecodeBatchBodyRust(body: seq<Byte>, maxRecords: nat, maxRecordLen: nat)
    returns (r: Result<Records, BatchError>)
    ensures r == Decode(body, maxRecords, maxRecordLen)
  {
    hide FromLe;
    if |body| < HEADER_LEN { return Err(Truncated(|body|, HEADER_LEN)); }
    var version := body[0];
    if version != BATCH_VERSION { return Err(UnsupportedVersion(version)); }
    var declared := FromLe(body[1..3]);
    if declared == 0 { return Err(EmptyBatch); }
    var cap := Min(maxRecords, MAX_BATCH_RECORDS_HARD_CAP);
    if declared > cap { return Err(TooManyRecords(declared, cap)); }
    var out: Records := [];
    var cursor := HEADER_LEN;
    var recordCap := Min(maxRecordLen, Frame.MAX_PAYLOAD_HARD_CAP);
    assert Decode(body, maxRecords, maxRecordLen) == Walk(body[3..], 0, declared, recordCap);
    PrependNothing(Walk(body[3..], 0, declared, recordCap));
    hide Decode, Walk;
    while cursor < |body|
      invariant 3 <= cursor <= |body|
      invariant Decode(body, maxRecords, maxRecordLen) == Prepend(out, Walk(body[cursor..], |out|, declared, recordCap))
    {
      var index := |out|;
      WalkStops(body, cursor, |out|, declared, recordCap);
      if cursor + 4 > |body| { return Err(TruncatedRecord(index)); }
      var len := FromLe(body[cursor..cursor + 4]);
      ghost var start := cursor;
      cursor := cursor + 4;
      if len == 0 { return Err(EmptyRecord(index)); }
      if len > recordCap { return Err(RecordTooLarge(index, len, recordCap)); }
      if cursor + len > |body| { return Err(TruncatedRecord(index)); }
      if index == declared { return Err(LengthMismatch(declared, declared + 1)); }
      WalkStep(body, start, out, declared, recordCap, len);
      out := out + [body[cursor..cursor + len]];
      cursor := cursor + len;
    }
    WalkStops(body, cursor, |out|, declared, recordCap);
    if |out| != declared { return Err(LengthMismatch(declared, |out|)); }
    assert out + [] == out;
    return Ok(out);
  }

  method DecodeBatchBodyGo(body: seq<Byte>, maxRecords: nat, maxRecordLen: nat) returns (r: Result<Records, Tag>)
    ensures r == Tagged(Decode(body, maxRecords, maxRecordLen))
  {
    hide FromLe;
    if |body| < HEADER_LEN { return Err(TagTruncated); }
    if body[0] != BATCH_VERSION { return Err(TagBadVersion); }
    var declared := FromLe(body[1..3]);
    if declared == 0 { return Err(TagEmpty); }
    var cap := maxRecords;
    if MAX_BATCH_RECORDS_HARD_CAP < cap { cap := MAX_BATCH_RECORDS_HARD_CAP; }
    if declared > cap { return Err(TagTooMany); }
    var recordCap := maxRecordLen;
    if Frame.MAX_PAYLOAD_HARD_CAP < recordCap { recordCap := Frame.MAX_PAYLOAD_HARD_CAP; }
    var out: Records := [];
    var cursor := HEADER_LEN;
    assert Decode(body, maxRecords, maxRecordLen) == Walk(body[3..], 0, declared, recordCap);
    PrependNothing(Walk(body[3..], 0, declared, recordCap));
    hide Decode, Walk;
    while cursor < |body|
      invariant 3 <= cursor <= |body|
      invariant Decode(body, maxRecords, maxRecordLen) == Prepend(out, Walk(body[cursor..], |out|, declared, recordCap))
    {
      WalkStops(body, cursor, |out|, declared, recordCap);
      if cursor + 4 > |body| { return Err(TagTruncRecord); }
      var n := FromLe(body[cursor..cursor + 4]);
      ghost var start := cursor;
      cursor := cursor + 4;
      if n == 0 { return Err(TagEmptyRecord); }
      if n > recordCap { return Err(TagRecordTooLarge); }
      if cursor + n > |body| { return Err(TagTruncRecord); }
      if |out| == declared { return Err(TagLengthMismatch); }
      WalkStep(body, start, out, declared, recordCap, n);
      out := out + [body[cursor..cursor + n]];
      cursor := cursor + n;
    }
    WalkStops(body, cursor, |out|, declared, recordCap);
    if |out| != declared || cursor != |body| { return Err(TagLengthMismatch); }
    assert out + [] == out;
    return Ok(out);
  }

  function Tagged(r: Result<Records, BatchError>): Result<Records, Tag> {
    match r
    case Ok(rs) => Ok(rs)
    case Err(e) => Err(TagOf(e))
  }

  /** A record as the C client returns it: a window onto the caller's buffer. */
  datatype View = View(start: nat, len: nat)

  /** The windows show exactly these records. */
  ghost predicate Shows(body: seq<Byte>, vs: seq<View>, rs: Records) {
    && |vs| == |rs|
    && forall i :: 0 <= i < |vs| ==>
         vs[i].start + vs[i].len <= |body| && body[vs[i].start..vs[i].start + vs[i].len] == rs[i]
  }

  /** The declared count, once the checks before it have passed. */
  function Declared(body: seq<Byte>): nat
    requires |body| >= HEADER_LEN
  {
    FromLe(body[1..3])
  }

  /** The one case in which C stops where the others go on: a count its caller's array cannot hold. */
  predicate ArrayTooSmall(body: seq<Byte>, maxRecords: nat, room: nat) {
    && |body| >= HEADER_LEN && body[0] == BATCH_VERSION
    && room < Declared(body) <= Min(maxRecords, MAX_BATCH_RECORDS_HARD_CAP)
  }

  lemma ShowsOneMore(body: seq<Byte>, views: seq<View>, rs: Records, at: nat, n: nat)
    requires Shows(body, views, rs) && at + n <= |body|
    ensures Shows(body, views + [View(at, n)], rs + [body[at..at + n]])
  {
  }

  /** The C decoder's record loop. */
  method FillViews(body: seq<Byte>, declared: nat, recordCap: nat, out: array<View>)
    returns (code: Option<Tag>, found: nat)
    requires |body| >= HEADER_LEN && declared <= out.Length
    modifies out
    ensures match Walk(body[3..], 0, declared, recordCap)
            case Err(e) => code == Some(TagOf(e))
            case Ok(rs) => code == None && found <= out.Length && Shows(body, out[..found], rs)
  {
    hide FromLe, Prepend;
    ghost var rs: Records := [];
    ghost var spec := Walk(body[3..], 0, declared, recordCap);
    var cursor := HEADER_LEN;
    found := 0;
    assert Shows(body, out[..found], rs);
    PrependNothing(spec);
    hide Shows, Walk;
    while cursor < |body|
      invariant 3 <= cursor <= |body| && found <= declared && Shows(body, out[..found], rs)
      invariant spec == Prepend(rs, Walk(body[cursor..], found, declared, recordCap))
    {
      WalkStops(body, cursor, found, declared, recordCap);
      PrependPasses(rs, Walk(body[cursor..], found, declared, recordCap));
      if cursor + 4 > |body| { return Some(TagTruncRecord), 0; }
      var n := FromLe(body[cursor..cursor + 4]);
      ghost var start := cursor;
      cursor := cursor + 4;
      if n == 0 { return Some(TagEmptyRecord), 0; }
      if n > recordCap { return Some(TagRecordTooLarge), 0; }
      if cursor + n > |body| { return Some(TagTruncRecord), 0; }
      if found == declared { return Some(TagLengthMismatch), 0; }
      WalkStep(body, start, rs, declared, recordCap, n);
      ShowsOneMore(body, out[..found], rs, cursor, n);
      ghost var shown := out[..found];
      out[found] := View(cursor, n);
      assert out[..found + 1] == shown + [View(cursor, n)];
      rs := rs + [body[cursor..cursor + n]];
      found := found + 1;
      cursor := cursor + n;
    }
    WalkStops(body, cursor, found, declared, recordCap);
    PrependPasses(rs, Walk(body[cursor..], found, declared, recordCap));
    if found != declared || cursor != |body| { return Some(TagLengthMismatch), 0; }
    return None, found;
  }

  lemma PrependPasses(rs: Records, r: Result<Records, BatchError>)
    ensures r.Err? ==> Prepend(rs, r) == r
    ensures r == Ok([]) ==> Prepend(rs, r) == Ok(rs)
  {
    assert rs + [] == rs;
  }

  /**
   * The C decoder fills the caller's array with windows. Unless that array is too small it gives
   * the same verdict and the same records as the others; with room for the cap it never is.
   */
  method DecodeBatchBodyC(body: seq<Byte>, maxRecords: nat, maxRecordLen: nat, out: array<View>)
    returns (code: Option<Tag>, count: nat)
    modifies out
    ensures code == Some(TagBufTooSmall) <==> ArrayTooSmall(body, maxRecords, out.Length)
    ensures out.Length >= Min(maxRecords, MAX_BATCH_RECORDS_HARD_CAP) ==> !ArrayTooSmall(body, maxRecords, out.Length)
    ensures !ArrayTooSmall(body, maxRecords, out.Length) ==>
              match Decode(body, maxRecords, maxRecordLen)
              case Err(e) => code == Some(TagOf(e))
              case Ok(rs) => code == None && count <= out.Length && Shows(body, out[..count], rs)
  {
    hide FromLe, Walk;
    count := 0;
    if |body| < HEADER_LEN { return Some(TagTruncated), count; }
    if body[0] != BATCH_VERSION { return Some(TagBadVersion), count; }
    var declared := Declared(body);
    if declared == 0 { return Some(TagEmpty), count; }
    var cap := Min(maxRecords, MAX_BATCH_RECORDS_HARD_CAP);
    if declared > cap { return Some(TagTooMany), count; }
    if declared > out.Length { return Some(TagBufTooSmall), count; }
    var recordCap := Min(maxRecordLen, Frame.MAX_PAYLOAD_HARD_CAP);
    code, count := FillViews(body, declared, recordCap, out);
  }

  lemma PrependNothing(r: Result<Records, BatchError>)
    ensures Prepend([], r) == r
  {
    if r.Ok? {
      assert [] + r.value == r.value;
    }
  }

  // ---- What decoding accepts

  ghost predicate WithinCaps(rs: Records, maxRecords: nat, maxRecordLen: nat) {
    && 1 <= |rs| <= Min(maxRecords, MAX_BATCH_RECORDS_HARD_CAP)
    && forall i :: 0 <= i < |rs| ==> 1 <= |rs[i]| <= Min(maxRecordLen, Frame.MAX_PAYLOAD_HARD_CAP)
  }

  lemma ThreeParts(a: seq<Byte>, b: seq<Byte>, c: seq<Byte>)
    ensures (a + b + c)[..|a|] == a && (a + b + c)[|a|..|a| + |b|] == b && (a + b + c)[|a| + |b|..] == c
  {
  }

  lemma LengthPrefix(r: seq<Byte>, rest: seq<Byte>)
    requires |r| <= Frame.MAX_PAYLOAD_HARD_CAP
    ensures var s := Le(|r|, 4) + r + rest;
            FromLe(s[..4]) == |r| && s[4..4 + |r|] == r && s[4 + |r|..] == rest
  {
    hide Le, FromLe;
    ThreeParts(Le(|r|, 4), r, rest);
    assert Span(4) == 0x1_0000_0000;
    FromLeInverse(|r|, 4);
  }

  lemma FlatCons(r: seq<Byte>, more: Records)
    ensures Flat([r] + more) == Le(|r|, 4) + r + Flat(more)
  {
    hide Le;
    assert ([r] + more)[1..] == more;
  }

  lemma WalkPast(rest: seq<Byte>, found: nat, declared: nat, cap: nat)
    requires |rest| >= 4 && 1 <= FromLe(rest[..4]) <= cap && 4 + FromLe(rest[..4]) <= |rest| && found != declared
    ensures var n := FromLe(rest[..4]);
      Walk(rest, found, declared, cap) == Prepend([rest[4..4 + n]], Walk(rest[4 + n..], found + 1, declared, cap))
  {
    hide FromLe;
  }

  lemma {:induction false} WalkInverts(rs: Records, found: nat, declared: nat, cap: nat)
    requires found + |rs| == declared && cap <= Frame.MAX_PAYLOAD_HARD_CAP
    requires forall i :: 0 <= i < |rs| ==> 1 <= |rs[i]| <= cap
    ensures Walk(Flat(rs), found, declared, cap) == Ok(rs)
    decreases |rs|
  {
    hide Le, FromLe, Walk, Flat;
    if rs == [] {
      FlatEmpty();
      WalkNothing(found, declared, cap);
    } else {
      var r, more := rs[0], rs[1..];
      assert rs == [r] + more;
      FlatCons(r, more);
      LengthPrefix(r, Flat(more));
      WalkPast(Flat(rs), found, declared, cap);
      WalkInverts(more, found + 1, declared, cap);
    }
  }

  lemma WalkNothing(found: nat, declared: nat, cap: nat)
    ensures Walk([], found, declared, cap) == if found == declared then Ok([]) else Err(LengthMismatch(declared, found))
  {
  }

  /** What an accepted walk found first. */
  lemma WalkFirst(rest: seq<Byte>, found: nat, declared: nat, cap: nat, rs: Records)
    requires rest != [] && Walk(rest, found, declared, cap) == Ok(rs)
    ensures |rest| >= 4 && found != declared
    ensures var n := FromLe(rest[..4]);
      && 1 <= n <= cap && 4 + n <= |rest|
      && Walk(rest[4 + n..], found + 1, declared, cap).Ok?
      && rs == [rest[4..4 + n]] + Walk(rest[4 + n..], found + 1, declared, cap).value
  {
    hide FromLe;
  }

  lemma {:induction false} WalkReencodes(rest: seq<Byte>, found: nat, declared: nat, cap: nat, rs: Records)
    requires found <= declared && Walk(rest, found, declared, cap) == Ok(rs)
    ensures rest == Flat(rs) && found + |rs| == declared
    ensures forall i :: 0 <= i < |rs| ==> 1 <= |rs[i]| <= cap
    decreases |rest|
  {
    hide Le, FromLe, Walk, Flat;
    if rest == [] {
      WalkNothing(found, declared, cap);
      FlatEmpty();
    } else {
      WalkFirst(rest, found, declared, cap, rs);
      var n := FromLe(rest[..4]);
      var more := Walk(rest[4 + n..], found + 1, declared, cap).value;
      WalkReencodes(rest[4 + n..], found + 1, declared, cap, more);
      FlatCons(rest[4..4 + n], more);
      LeInverse(rest[..4]);
      assert rest == rest[..4] + rest[4..4 + n] + rest[4 + n..];
    }
  }

  lemma BodyParts(rs: Records)
    ensures |Body(rs)| >= 3 && Body(rs)[0] == BATCH_VERSION && Body(rs)[1..3] == Le(|rs|, 2) && Body(rs)[3..] == Flat(rs)
  {
  }

  /** A body decodes to `rs` exactly when it is the encoding of `rs` and `rs` is within the caps. */
  lemma DecodeExact(body: seq<Byte>, maxRecords: nat, maxRecordLen: nat, rs: Records)
    ensures Decode(body, maxRecords, maxRecordLen) == Ok(rs)
            <==> body == Body(rs) && WithinCaps(rs, maxRecords, maxRecordLen)
  {
    hide Le, FromLe, Flat, Walk;
    var cap := Min(maxRecordLen, Frame.MAX_PAYLOAD_HARD_CAP);
    if body == Body(rs) && WithinCaps(rs, maxRecords, maxRecordLen) {
      BodyParts(rs);
      assert Span(2) == 65536;
      FromLeInverse(|rs|, 2);
      WalkInverts(rs, 0, |rs|, cap);
    }
    if Decode(body, maxRecords, maxRecordLen) == Ok(rs) {
      WalkReencodes(body[3..], 0, FromLe(body[1..3]), cap, rs);
      LeInverse(body[1..3]);
      assert body == [body[0]] + body[1..3] + body[3..];
    }
  }
}
