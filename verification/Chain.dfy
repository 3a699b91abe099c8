/**
 * The tamper-evident chain over a sealed segment. SHA-256 is a parameter, any function to
 * 32 bytes: tamper evidence is proved by computing, from two different segments that chain
 * to one head, two different byte strings with one digest.
 */
module Chain {
  import opened Bytes
  import opened Sidecar

  type Hash = seq<Byte> -> Digest

  /** "weir-attest-v1" */
  const DOMAIN_SEP: seq<Byte> := [0x77, 0x65, 0x69, 0x72, 0x2D, 0x61, 0x74, 0x74, 0x65, 0x73, 0x74, 0x2D, 0x76, 0x31]

  datatype SegmentHeader = SegmentHeader(formatVersion: Byte, shardId: nat, createdAt: I64)

  /** Everything a chain head commits to. */
  datatype Segment = Segment(prev: Digest, header: SegmentHeader, name: seq<Byte>, records: seq<seq<Byte>>)

  /** What the field types guarantee: a u16 shard and a name whose length a u64 can hold. */
  predicate WellTyped(s: Segment) {
    s.header.shardId < 65536 && |s.name| < TWO_64
  }

  // ---- Framing: what is hashed

  function OriginInput(s: Segment): seq<Byte> {
    DOMAIN_SEP + s.prev + [s.header.formatVersion] + Le(s.header.shardId, 2)
    + Le(Unsigned(s.header.createdAt), 8) + Le(|s.name|, 8) + s.name
  }

  /** RecordId: name and payload length-prefixed around the 1-based index. */
  function RecordInput(name: seq<Byte>, index: nat, payload: seq<Byte>): seq<Byte> {
    Le(|name|, 8) + name + Le(index, 8) + Le(|payload|, 8) + payload
  }

  function StepInput(prev: Digest, id: Digest): (s: seq<Byte>)
    ensures |s| == 64
  {
    prev + id
  }

  function ChainOrigin(hash: Hash, s: Segment): Digest {
    hash(OriginInput(s))
  }

  function RecordId(hash: Hash, name: seq<Byte>, index: nat, payload: seq<Byte>): Digest {
    hash(RecordInput(name, index, payload))
  }

  function ChainStep(hash: Hash, prev: Digest, id: Digest): Digest {
    hash(StepInput(prev, id))
  }

  /** The head after every record of the segment. */
  function Head(hash: Hash, s: Segment): Digest
    decreases |s.records|
  {
    if s.records == [] then ChainOrigin(hash, s)
    else ChainStep(hash, Head(hash, Init(s)), LastId(hash, s))
  }

  /** The segment without its last record. */
  function Init(s: Segment): Segment
    requires s.records != []
  {
    s.(records := s.records[..|s.records| - 1])
  }

  function LastInput(s: Segment): seq<Byte>
    requires s.records != []
  {
    RecordInput(s.name, |s.records|, s.records[|s.records| - 1])
  }

  function LastId(hash: Hash, s: Segment): Digest
    requires s.records != []
  {
    hash(LastInput(s))
  }

  /** The bytes hashed last on the way to the head. */
  function FinalInput(hash: Hash, s: Segment): seq<Byte> {
    if s.records == [] then OriginInput(s) else StepInput(Head(hash, Init(s)), LastId(hash, s))
  }

  // ---- The framing is unambiguous

  lemma ConcatInjective(a: seq<Byte>, b: seq<Byte>, a': seq<Byte>, b': seq<Byte>)
    requires |a| == |a'| && a + b == a' + b'
    ensures a == a' && b == b'
  {
    assert a == (a + b)[..|a|] == (a' + b')[..|a'|] == a';
    assert b == (a + b)[|a|..] == (a' + b')[|a'|..] == b';
  }

  lemma OriginLength(s: Segment)
    ensures |OriginInput(s)| == 65 + |s.name|
  {
  }

  /** Equal origin inputs come from equal predecessors, headers and names. */
  lemma OriginInjective(s: Segment, t: Segment)
    requires WellTyped(s) && WellTyped(t) && OriginInput(s) == OriginInput(t)
    ensures s.prev == t.prev && s.header == t.header && s.name == t.name
  {
    hide Le;
    var o, o' := OriginInput(s), OriginInput(t);
    OriginFields(s);
    OriginFields(t);
    SpanEight();
    LeInjective(s.header.shardId, t.header.shardId, 2);
    LeInjective(Unsigned(s.header.createdAt), Unsigned(t.header.createdAt), 8);
  }

  lemma OriginFields(s: Segment)
    ensures var o := OriginInput(s);
            && |o| >= 65 && o[14..46] == s.prev && o[46] == s.header.formatVersion
            && o[47..49] == Le(s.header.shardId, 2) && o[49..57] == Le(Unsigned(s.header.createdAt), 8)
            && o[65..] == s.name
  {
    hide Le;
  }

  /** Equal record inputs come from equal names, indices and payloads: field boundaries cannot be confused. */
  lemma RecordInputInjective(name: seq<Byte>, i: nat, p: seq<Byte>, name': seq<Byte>, i': nat, p': seq<Byte>)
    requires |name| < TWO_64 && |name'| < TWO_64 && RecordInput(name, i, p) == RecordInput(name', i', p')
    ensures name == name' && p == p' && (i < TWO_64 && i' < TWO_64 ==> i == i')
  {
    hide Le;
    var r, r' := RecordInput(name, i, p), RecordInput(name', i', p');
    assert r[..8] == Le(|name|, 8) && r'[..8] == Le(|name'|, 8);
    SpanEight();
    LeInjective(|name|, |name'|, 8);
    assert r[8..8 + |name|] == name && r'[8..8 + |name|] == name';
    assert r[24 + |name|..] == p && r'[24 + |name|..] == p';
    assert r[8 + |name|..16 + |name|] == Le(i, 8) && r'[8 + |name|..16 + |name|] == Le(i', 8);
    if i < TWO_64 && i' < TWO_64 {
      LeInjective(i, i', 8);
    }
  }

  /** An origin is at least 65 bytes and a step exactly 64, so no origin is ever a step. */
  lemma OriginIsNoStep(s: Segment, prev: Digest, id: Digest)
    ensures OriginInput(s) != StepInput(prev, id)
  {
    OriginLength(s);
  }

  // ---- Tamper evidence

  ghost predicate IsCollision(hash: Hash, x: seq<Byte>, y: seq<Byte>) {
    x != y && hash(x) == hash(y)
  }

  /** The pair of byte strings to hold against two segments that share a head. */
  function CollisionOf(hash: Hash, s: Segment, t: Segment): (seq<Byte>, seq<Byte>)
    decreases |s.records|
  {
    if s.records == [] || t.records == [] || FinalInput(hash, s) != FinalInput(hash, t) then
      (FinalInput(hash, s), FinalInput(hash, t))
    else if LastInput(s) != LastInput(t) then (LastInput(s), LastInput(t))
    else CollisionOf(hash, Init(s), Init(t))
  }

  lemma HeadIsFinal(hash: Hash, s: Segment)
    ensures Head(hash, s) == hash(FinalInput(hash, s))
  {
  }

  lemma StepInjective(prev: Digest, id: Digest, prev': Digest, id': Digest)
    requires StepInput(prev, id) == StepInput(prev', id')
    ensures prev == prev' && id == id'
  {
    ConcatInjective(prev, id, prev', id');
  }

  lemma SegmentsFromParts(s: Segment, t: Segment)
    requires s.records != [] && t.records != [] && Init(s) == Init(t)
    requires s.records[|s.records| - 1] == t.records[|t.records| - 1]
    ensures s == t
  {
    assert s.records == Init(s).records + [s.records[|s.records| - 1]];
    assert t.records == Init(t).records + [t.records[|t.records| - 1]];
    assert s == Init(s).(records := s.records) && t == Init(t).(records := t.records);
  }

  /**
   * Two segments with one head are the same segment, in predecessor, header, name, record count
   * and every payload, or `CollisionOf` computes a SHA-256 collision from them.
   */
  lemma {:induction false} SameHead(hash: Hash, s: Segment, t: Segment)
    requires WellTyped(s) && WellTyped(t) && Head(hash, s) == Head(hash, t)
    ensures s == t || IsCollision(hash, CollisionOf(hash, s, t).0, CollisionOf(hash, s, t).1)
    decreases |s.records|
  {
    hide Head, OriginInput, RecordInput, StepInput;
    HeadIsFinal(hash, s);
    HeadIsFinal(hash, t);
    if FinalInput(hash, s) == FinalInput(hash, t) {
      if s.records == [] && t.records == [] {
        OriginInjective(s, t);
      } else if s.records == [] {
        OriginIsNoStep(s, Head(hash, Init(t)), LastId(hash, t));
      } else if t.records == [] {
        OriginIsNoStep(t, Head(hash, Init(s)), LastId(hash, s));
      } else {
        StepInjective(Head(hash, Init(s)), LastId(hash, s), Head(hash, Init(t)), LastId(hash, t));
        if LastInput(s) == LastInput(t) {
          RecordInputInjective(s.name, |s.records|, s.records[|s.records| - 1],
                               t.name, |t.records|, t.records[|t.records| - 1]);
          SameHead(hash, Init(s), Init(t));
          if Init(s) == Init(t) {
            SegmentsFromParts(s, t);
          }
        }
      }
    }
  }

  // ---- A shard's whole history: each segment chained onto the head of the one before it

  const ORIGIN: Digest :=
    [0, 0, 0, 0, 0, 0, 0, 0, 0, 0, 0, 0, 0, 0, 0, 0, 0, 0, 0, 0, 0, 0, 0, 0, 0, 0, 0, 0, 0, 0, 0, 0]

  ghost predicate Link(hash: Hash, h: seq<Segment>, i: nat)
    requires i < |h|
  {
    WellTyped(h[i]) && h[i].prev == Tip(hash, h[..i])
  }

  ghost predicate Linked(hash: Hash, h: seq<Segment>) {
    forall i :: 0 <= i < |h| ==> Link(hash, h, i)
  }

  function Tip(hash: Hash, h: seq<Segment>): Digest {
    if h == [] then ORIGIN else Head(hash, h[|h| - 1])
  }

  /** What two different histories with one tip amount to. */
  datatype Evidence = Collision(x: seq<Byte>, y: seq<Byte>) | OriginPreimage(x: seq<Byte>)

  ghost predicate Holds(hash: Hash, e: Evidence) {
    match e
    case Collision(x, y) => IsCollision(hash, x, y)
    case OriginPreimage(x) => hash(x) == ORIGIN
  }

  function EvidenceOf(hash: Hash, h: seq<Segment>, h': seq<Segment>): Evidence
    requires h != [] || h' != []
    decreases |h|
  {
    if h == [] then OriginPreimage(FinalInput(hash, h'[|h'| - 1]))
    else if h' == [] then OriginPreimage(FinalInput(hash, h[|h| - 1]))
    else
      var s, t := h[|h| - 1], h'[|h'| - 1];
      if s == t && (|h| > 1 || |h'| > 1) then EvidenceOf(hash, h[..|h| - 1], h'[..|h'| - 1])
      else Collision(CollisionOf(hash, s, t).0, CollisionOf(hash, s, t).1)
  }

  lemma LinkedInit(hash: Hash, h: seq<Segment>)
    requires Linked(hash, h) && h != []
    ensures Linked(hash, h[..|h| - 1]) && Tip(hash, h[..|h| - 1]) == h[|h| - 1].prev
  {
    hide Head, WellTyped, Tip;
    var n := |h| - 1;
    assert Link(hash, h, n);
    forall i | 0 <= i < n
      ensures Link(hash, h[..n], i)
    {
      assert Link(hash, h, i);
      assert h[..n][..i] == h[..i];
    }
  }

  /**
   * One externally recorded tip pins the whole history: no segment can be edited, dropped, added
   * or reordered anywhere in it without a collision, or a preimage of the all-zero origin head.
   */
  lemma {:induction false} SameTip(hash: Hash, h: seq<Segment>, h': seq<Segment>)
    requires Linked(hash, h) && Linked(hash, h') && Tip(hash, h) == Tip(hash, h')
    ensures h == h' || Holds(hash, EvidenceOf(hash, h, h'))
    decreases |h|
  {
    hide Head, CollisionOf, IsCollision, WellTyped, FinalInput;
    if h == [] && h' == [] {
    } else if h == [] {
      HeadIsFinal(hash, h'[|h'| - 1]);
    } else if h' == [] {
      HeadIsFinal(hash, h[|h| - 1]);
    } else {
      var u, s, u', t := h[..|h| - 1], h[|h| - 1], h'[..|h'| - 1], h'[|h'| - 1];
      assert h == u + [s] && h' == u' + [t];
      assert Link(hash, h, |u|) && Link(hash, h', |u'|);
      SameHead(hash, s, t);
      if s == t {
        LinkedInit(hash, h);
        LinkedInit(hash, h');
        SameTip(hash, u, u');
      }
    }
  }
}
