/** Chaining a sealed segment into a sidecar, and verifying a segment against one. */
module Attest {
  import opened Bytes
  import opened Wrappers
  import opened Sidecar
  import opened Chain
  import Utf8

  /**
   * A sealed segment as its reader yields it: it may fail to open, and any record may turn out
   * unreadable. `sound` is what the segment's own structural check says of it.
   */
  datatype File = File(
    opens: bool, sound: bool, header: SegmentHeader, name: seq<Byte>, records: seq<Option<seq<Byte>>>, sealedAt: I64)

  datatype Verdict =
    | Verified
    | Diverged(atRecord: Option<nat>, expected: Digest, actual: Digest)
    | MissingSidecar

  predicate Readable(f: File) {
    f.opens && forall i :: 0 <= i < |f.records| ==> f.records[i].Some?
  }

  function Payloads(f: File): (ps: seq<seq<Byte>>)
    requires Readable(f)
    ensures |ps| == |f.records|
  {
    seq(|f.records|, i requires 0 <= i < |f.records| => f.records[i].value)
  }

  /** What the head computed from this file commits to. */
  function Committed(f: File, prev: Digest): Segment
    requires Readable(f)
  {
    Segment(prev, f.header, f.name, Payloads(f))
  }

  predicate WellTypedFile(f: File) {
    f.header.shardId < 65536 && |f.records| < TWO_64 && |f.name| < TWO_64 && Utf8.WellFormed(f.name)
  }

  /** The reading loop both passes share: the head and count over all records, or the first read error. */
  method Walk(hash: Hash, f: File, prev: Digest) returns (r: Result<(Digest, nat), AttestError>)
    ensures r == if Readable(f) then Ok((Head(hash, Committed(f, prev)), |f.records|)) else Err(Io)
  {
    hide OriginInput, RecordInput, StepInput;
    if !f.opens { return Err(Io); }
    var head := ChainOrigin(hash, Segment(prev, f.header, f.name, []));
    var count := 0;
    OriginIgnoresRecords(Segment(prev, f.header, f.name, []), hash);
    ghost var done: seq<seq<Byte>> := [];
    for i := 0 to |f.records|
      invariant count == i == |done|
      invariant forall j :: 0 <= j < i ==> f.records[j] == Some(done[j])
      invariant head == Head(hash, Segment(prev, f.header, f.name, done))
    {
      match f.records[i] {
        case None => return Err(Io);
        case Some(payload) =>
          var id := RecordId(hash, f.name, i + 1, payload);
          HeadSnoc(hash, Segment(prev, f.header, f.name, done), payload);
          head := ChainStep(hash, head, id);
          done := done + [payload];
          count := count + 1;
      }
    }
    assert Payloads(f) == done;
    return Ok((head, count));
  }

  lemma OriginIgnoresRecords(s: Segment, hash: Hash)
    requires s.records == []
    ensures Head(hash, s) == ChainOrigin(hash, s)
  {
  }

  lemma HeadSnoc(hash: Hash, s: Segment, p: seq<Byte>)
    ensures Head(hash, s.(records := s.records + [p]))
            == ChainStep(hash, Head(hash, s), RecordId(hash, s.name, |s.records| + 1, p))
  {
    hide OriginInput, RecordInput, StepInput;
    var t := s.(records := s.records + [p]);
    assert t.records[..|t.records| - 1] == s.records;
    assert Init(t) == s;
  }

  function SidecarFor(hash: Hash, f: File, prev: Digest): Sidecar
    requires Readable(f)
  {
    Sidecar(ATTEST_FORMAT_VERSION, f.header.shardId, f.name, prev,
            Head(hash, Committed(f, prev)), |f.records|, f.sealedAt)
  }

  /** Computes the sidecar of a segment, once it has passed its own structural check. */
  method ChainSegment(hash: Hash, f: File, prev: Digest) returns (r: Result<Sidecar, AttestError>)
    ensures r == if f.sound && Readable(f) then Ok(SidecarFor(hash, f, prev)) else Err(Io)
    ensures r.Ok? ==>
              && r.value.formatVersion == 1 && r.value.shardId == f.header.shardId && r.value.segmentName == f.name
              && r.value.prevHead == prev && r.value.recordCount == |f.records| && r.value.sealedAt == f.sealedAt
              && r.value.head == Head(hash, Segment(prev, f.header, f.name, Payloads(f)))
  {
    hide Head;
    if !f.sound { return Err(Io); }
    var walked := Walk(hash, f, prev);
    match walked {
      case Err(e) => return Err(e);
      case Ok((head, count)) =>
        return Ok(Sidecar(ATTEST_FORMAT_VERSION, f.header.shardId, f.name, prev, head, count, f.sealedAt));
    }
  }

  /** The first record the sidecar claims and the segment does not have. */
  method FirstDivergence(f: File, sidecar: Sidecar) returns (r: Result<Option<nat>, AttestError>)
    ensures r == if !Readable(f) then Err(Io)
                 else if |f.records| < sidecar.recordCount then Ok(Some(|f.records| + 1)) else Ok(None)
  {
    if !f.opens { return Err(Io); }
    var seen := 0;
    for i := 0 to |f.records|
      invariant seen == i && forall j :: 0 <= j < i ==> f.records[j].Some?
    {
      if f.records[i].None? { return Err(Io); }
      seen := seen + 1;
    }
    return Ok(if seen < sidecar.recordCount then Some(seen + 1) else None);
  }

  /** Where a divergence can be placed, given the file as the second pass reads it. */
  function Place(sidecar: Sidecar, again: File): Option<nat> {
    if |again.records| < sidecar.recordCount then Some(|again.records| + 1) else None
  }

  /** `f` is the segment as the first pass reads it, `again` as the second pass does. */
  function Verify(hash: Hash, sidecarFile: Option<seq<Byte>>, f: File, again: File): Result<Verdict, AttestError> {
    match sidecarFile
    case None => Ok(MissingSidecar)
    case Some(bytes) =>
      match Decode(bytes)
      case Err(e) => Err(e)
      case Ok(sidecar) =>
        if !Readable(f) then Err(Io)
        else if Matches(hash, sidecar, f) then Ok(Verified)
        else if !Readable(again) then Err(Io)
        else Ok(Diverged(Place(sidecar, again), sidecar.head, Head(hash, Committed(f, sidecar.prevHead))))
  }

  predicate Matches(hash: Hash, sidecar: Sidecar, f: File)
    requires Readable(f)
  {
    Head(hash, Committed(f, sidecar.prevHead)) == sidecar.head && |f.records| == sidecar.recordCount
  }

  /** Recomputes the chain and, when it does not match, walks the segment again to place a truncation. */
  method VerifySegment(hash: Hash, sidecarFile: Option<seq<Byte>>, f: File, again: File)
    returns (r: Result<Verdict, AttestError>)
    ensures r == Verify(hash, sidecarFile, f, again)
  {
    hide Head, Decode;
    if sidecarFile.None? { return Ok(MissingSidecar); }
    var decoded := Decode(sidecarFile.value);
    if decoded.Err? { return Err(decoded.error); }
    var sidecar := decoded.value;
    var walked := Walk(hash, f, sidecar.prevHead);
    if walked.Err? { return Err(walked.error); }
    var (head, count) := walked.value;
    if head == sidecar.head && count == sidecar.recordCount { return Ok(Verified); }
    var at := FirstDivergence(again, sidecar);
    if at.Err? { return Err(at.error); }
    return Ok(Diverged(at.value, sidecar.head, head));
  }

  // ---- What the verdicts mean

  lemma SidecarWellTyped(hash: Hash, f: File, prev: Digest)
    requires Readable(f) && WellTypedFile(f)
    ensures FieldsFit(SidecarFor(hash, f, prev))
  {
  }

  /**
   * An untouched segment verifies against its own sidecar file exactly when its name fits the
   * sidecar's u16 length; a longer one is refused as truncated rather than passed.
   */
  lemma UntouchedVerifies(hash: Hash, f: File, prev: Digest)
    requires Readable(f) && WellTypedFile(f)
    ensures Verify(hash, Some(Encode(SidecarFor(hash, f, prev))), f, f)
            == if |f.name| <= 65535 then Ok(Verified) else Err(TruncatedSidecar)
  {
    hide Head, Decode, Encode;
    SidecarWellTyped(hash, f, prev);
    RoundTripExact(SidecarFor(hash, f, prev));
  }

  /**
   * If a segment verifies against the sidecar of another, then header, name and every record are
   * what they were when the sidecar was made, or the two files yield a SHA-256 collision.
   */
  lemma VerifiedMeansUntouched(hash: Hash, original: File, prev: Digest, found: File, again: File)
    requires Readable(original) && WellTypedFile(original) && WellTypedFile(found)
    requires Verify(hash, Some(Encode(SidecarFor(hash, original, prev))), found, again) == Ok(Verified)
    ensures Readable(found)
    ensures var s, t := Committed(original, prev), Committed(found, prev);
            s == t || IsCollision(hash, CollisionOf(hash, s, t).0, CollisionOf(hash, s, t).1)
  {
    hide Head, Decode, Encode, CollisionOf, IsCollision;
    var sidecar := SidecarFor(hash, original, prev);
    SidecarWellTyped(hash, original, prev);
    RoundTripExact(sidecar);
    assert Decode(Encode(sidecar)) == Ok(sidecar);
    SameHead(hash, Committed(original, prev), Committed(found, prev));
  }

  /** The head recomputed from a file, chained onto the sidecar's own predecessor. */
  function Recomputed(hash: Hash, sidecar: Sidecar, f: File): Digest
    requires Readable(f)
  {
    Head(hash, Segment(sidecar.prevHead, f.header, f.name, Payloads(f)))
  }

  /**
   * Every verdict and when it is given. A missing sidecar is its own verdict and never a pass; a pass
   * means head and count are as claimed; a divergence reports the claimed head first and the recomputed one second.
   */
  lemma VerdictExactly(hash: Hash, sidecarFile: Option<seq<Byte>>, f: File, again: File)
    ensures Verify(hash, sidecarFile, f, again) == Ok(MissingSidecar) <==> sidecarFile == None
    ensures Verify(hash, sidecarFile, f, again) == Ok(Verified) <==>
            && sidecarFile.Some? && Decode(sidecarFile.value).Ok? && Readable(f)
            && |f.records| == Decode(sidecarFile.value).value.recordCount
            && Recomputed(hash, Decode(sidecarFile.value).value, f) == Decode(sidecarFile.value).value.head
    ensures forall k, e, a :: Verify(hash, sidecarFile, f, again) == Ok(Diverged(k, e, a)) <==>
            && sidecarFile.Some? && Decode(sidecarFile.value).Ok? && Readable(f) && Readable(again)
            && var s := Decode(sidecarFile.value).value;
               && e == s.head && a == Recomputed(hash, s, f) && (a != e || |f.records| != s.recordCount)
               && k == if |again.records| < s.recordCount then Some(|again.records| + 1) else None
  {
    hide Head, Decode;
  }

  /** A file that cannot be read through is an error, never a verdict. */
  lemma ErrorsExactly(hash: Hash, bytes: seq<Byte>, f: File, again: File, e: AttestError)
    ensures Verify(hash, Some(bytes), f, again) == Err(e) <==>
            || Decode(bytes) == Err(e)
            || (&& e == Io && Decode(bytes).Ok?
                && (!Readable(f)
                    || (Verify(hash, Some(bytes), f, again) != Ok(Verified) && !Readable(again))))
  {
    hide Head, Decode;
  }

  /**
   * A divergence is placed at record k exactly when the chain does not match, the second pass finds
   * k - 1 records and the sidecar claims more: a truncation has an exact answer and a changed record none.
   */
  lemma PlacedExactly(hash: Hash, bytes: seq<Byte>, f: File, again: File, k: nat)
    ensures (exists e, a :: Verify(hash, Some(bytes), f, again) == Ok(Diverged(Some(k), e, a)))
            <==> && Decode(bytes).Ok? && Readable(f) && Readable(again) && !Matches(hash, Decode(bytes).value, f)
                 && |again.records| == k - 1 && k - 1 < Decode(bytes).value.recordCount
  {
    hide Head, Decode, Matches;
    if && Decode(bytes).Ok? && Readable(f) && Readable(again) && !Matches(hash, Decode(bytes).value, f)
       && |again.records| == k - 1 && k - 1 < Decode(bytes).value.recordCount {
      var s := Decode(bytes).value;
      assert Verify(hash, Some(bytes), f, again) == Ok(Diverged(Some(k), s.head, Head(hash, Committed(f, s.prevHead))));
    }
  }

  /** With nothing changed between the passes, a missing tail alone is enough to diverge, at its first record. */
  lemma TruncationPlaced(hash: Hash, bytes: seq<Byte>, f: File, k: nat)
    ensures (exists e, a :: Verify(hash, Some(bytes), f, f) == Ok(Diverged(Some(k), e, a)))
            <==> Decode(bytes).Ok? && Readable(f) && |f.records| == k - 1 && k - 1 < Decode(bytes).value.recordCount
  {
    hide Head, Decode;
    PlacedExactly(hash, bytes, f, f, k);
  }
}
