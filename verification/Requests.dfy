/**
 * What the client puts on the wire and what it makes of the reply, stated with the bytes the
 * protocol documents: a peer that decodes a request gets the caller's own tier and payload.
 */
module Requests {
  import opened Bytes
  import opened Wrappers
  import opened Frame
  import opened Protocol
  import opened ClientRuns
  import Coordinate
  import Batch
  import AckBatch
  import Crc32
  import Layout

  /** A peer decoding `bytes` finds request `r`: its type, its tier and its records. */
  ghost predicate Carries(bytes: seq<Byte>, r: Request) {
    var d := DecodeFrame(bytes);
    && d.Ok? && d.value.version == 1 && d.value.flags == 0
    && match r
       case Push(p, t) => d.value.messageType == 0x01 && d.value.durability == t && d.value.payload == p
       case PushTracked(p, t) => d.value.messageType == 0x06 && d.value.durability == t && d.value.payload == p
       case PushBatch(rs, t) =>
         && d.value.messageType == 0x08 && d.value.durability == t
         && Batch.Decode(d.value.payload, 2048, 16777216) == Ok(rs)
       case HealthCheck => d.value.messageType == 0x04 && d.value.durability == 0x01 && d.value.payload == []
  }

  /** The three tiers the client's type can name. */
  predicate Tiered(r: Request) {
    r.HealthCheck? || 1 <= r.tier <= 3
  }

  /** The one request the local checks let through that no frame can hold. */
  predicate Oversize(r: Request) {
    r.PushBatch? && |Batch.Body(r.records)| > 16777216
  }

  // ---- The local checks

  /** The first record that is empty or too large, if any, decides. */
  lemma {:induction false} FirstBadRecord(rs: seq<seq<Byte>>) returns (i: nat)
    ensures i <= |rs| && forall j :: 0 <= j < i ==> 1 <= |rs[j]| <= 16777216
    ensures i == |rs| ==> RecordsGuard(rs) == None
    ensures i < |rs| ==> (|rs[i]| == 0 && RecordsGuard(rs) == Some(EmptyPayload))
                         || (|rs[i]| > 16777216 && RecordsGuard(rs) == Some(TooLarge(|rs[i]|, 16777216)))
  {
    if rs == [] || RecordGuard(rs[0]).Some? {
      i := 0;
    } else {
      i := FirstBadRecord(rs[1..]);
      i := i + 1;
      forall j | 0 <= j < i
        ensures 1 <= |rs[j]| <= 16777216
      {
        if j > 0 {
          assert rs[j] == rs[1..][j - 1];
        }
      }
    }
  }

  /** What is sent is exactly what the documented limits allow. */
  lemma GuardExactly(r: Request)
    ensures LocalGuard(r) == None <==>
            match r
            case Push(p, _) => 1 <= |p| <= 16777216
            case PushTracked(p, _) => 1 <= |p| <= 16777216
            case PushBatch(rs, _) => 1 <= |rs| <= 2048 && forall i :: 0 <= i < |rs| ==> 1 <= |rs[i]| <= 16777216
            case HealthCheck => true
    ensures (r.Push? || r.PushTracked?) && r.payload == [] ==> LocalGuard(r) == Some(EmptyPayload)
    ensures (r.Push? || r.PushTracked?) && |r.payload| > 16777216 ==>
              LocalGuard(r) == Some(TooLarge(|r.payload|, 16777216))
    ensures r.PushBatch? && r.records == [] ==> LocalGuard(r) == Some(EmptyPayload)
    ensures r.PushBatch? && |r.records| > 2048 ==> LocalGuard(r) == Some(TooLarge(|r.records|, 2048))
  {
    hide RecordsGuard;
    if r.PushBatch? {
      var i := FirstBadRecord(r.records);
    }
  }

  /** A default-tier call is the plain call at the tier in force. */
  lemma DefaultIsPlain(c: Conn, p: seq<Byte>, f: Faults)
    ensures Call(c, PushDefault(p), f) ==
            if c.tier.None? then (c, Failed(NoDefaultDurability)) else Call(c, Plain(Push(p, c.tier.value)), f)
    ensures Call(c, PushTrackedDefault(p), f) ==
            if c.tier.None? then (c, Failed(NoDefaultDurability)) else Call(c, Plain(PushTracked(p, c.tier.value)), f)
  {
    hide Ask;
  }

  // ---- What goes out

  lemma EnvelopeDecodes(messageType: Byte, tier: Byte, payload: seq<Byte>)
    requires 1 <= messageType <= 9 && 1 <= tier <= 3 && |payload| <= 16777216
    ensures DecodeFrame(Envelope(messageType, tier, payload)) == Ok(Frame(1, messageType, tier, 0, payload))
  {
    hide Envelope, DecodeFrame, Encoded;
    EnvelopeIsFrame(messageType, tier, payload);
    DecodeInverts(Frame(1, messageType, tier, 0, payload));
  }

  lemma BodyDecodes(rs: seq<seq<Byte>>)
    requires 1 <= |rs| <= 2048 && forall i :: 0 <= i < |rs| ==> 1 <= |rs[i]| <= 16777216
    ensures Batch.Decode(Batch.Body(rs), 2048, 16777216) == Ok(rs)
  {
    hide Batch.Body, Batch.Decode;
    Batch.DecodeExact(Batch.Body(rs), 2048, 16777216, rs);
  }

  /** Every request that is sent, the oversize batch apart, decodes to what the caller asked for. */
  lemma RequestDecodes(r: Request)
    requires Tiered(r) && LocalGuard(r) == None && !Oversize(r)
    ensures Carries(RequestBytes(r), r)
  {
    hide Envelope, DecodeFrame, Batch.Body, Batch.Decode, RecordsGuard, LocalGuard;
    GuardExactly(r);
    match r {
      case Push(p, t) => EnvelopeDecodes(0x01, t, p);
      case PushTracked(p, t) => EnvelopeDecodes(0x06, t, p);
      case PushBatch(rs, t) =>
        EnvelopeDecodes(0x08, t, Batch.Body(rs));
        BodyDecodes(rs);
      case HealthCheck => EnvelopeDecodes(0x04, 0x01, []);
    }
  }

  /** An oversize batch goes out under its true length where four bytes hold it, and all ones where they do not. */
  lemma OversizeLength(r: Request)
    requires Oversize(r)
    ensures var b := RequestBytes(r); var n := |Batch.Body(r.records)|;
            && |b| == 20 + n && b[5] == 0x08 && b[6] == r.tier
            && b[8..12] == if n <= 0xFFFF_FFFF then Le(n, 4) else [0xFF, 0xFF, 0xFF, 0xFF]
  {
    hide Crc32.Crc, WordBytes, Batch.Body, Le;
    Layout.LeWord(0xFFFF_FFFF);
  }

  // ---- Whole runs

  /** The requests a run puts on the wire, in order. */
  function Sent(c: Conn, steps: seq<Step>): seq<Request>
    decreases |steps|
  {
    if steps == [] then []
    else
      var n := |steps| - 1;
      Sent(c, steps[..n]) +
        if steps[n].SetDefault? then []
        else match SentBy(Run(c, steps[..n]), steps[n].call)
          case None => []
          case Some(r) => [r]
  }

  lemma {:induction false} WrittenIsSent(c0: Conn, steps: seq<Step>)
    requires Fresh(c0)
    ensures var w, rs := Run(c0, steps).written, Sent(c0, steps);
            |w| == |rs| && forall i :: 0 <= i < |rs| ==> w[i] == RequestBytes(rs[i]) && LocalGuard(rs[i]) == None
    decreases |steps|
  {
    hide Call, RequestBytes, LocalGuard, ReadReply, Interpret;
    if steps != [] {
      var n := |steps| - 1;
      WrittenIsSent(c0, steps[..n]);
      var c := Run(c0, steps[..n]);
      if steps[n].Step? {
        if SentBy(c, steps[n].call).None? {
          SilentCall(c, steps[n].call, steps[n].faults);
        } else {
          SendingCall(c, steps[n].call, steps[n].faults);
        }
      }
    }
  }

  /** Over every run: the i-th frame written decodes to the i-th request sent, nothing swapped, dropped or altered. */
  lemma FramesCarryRequests(c0: Conn, steps: seq<Step>, i: nat)
    requires Fresh(c0) && i < |Sent(c0, steps)| && Tiered(Sent(c0, steps)[i]) && !Oversize(Sent(c0, steps)[i])
    ensures i < |Run(c0, steps).written| && Carries(Run(c0, steps).written[i], Sent(c0, steps)[i])
  {
    hide Run, Sent, RequestBytes, Carries, LocalGuard, Oversize, Tiered;
    WrittenIsSent(c0, steps);
    RequestDecodes(Sent(c0, steps)[i]);
  }

  // ---- A failed write

  /**
   * A health check whose write fails reads nothing. Any other request then takes the one reply already
   * buffered: a whole Nack is surfaced, anything else is an I/O error; the client is dead either way.
   */
  lemma FailedWriteExactly(c: Conn, r: Request, budget: nat)
    requires Usable(c) && LocalGuard(r) == None
    ensures var (c', o) := Ask(c, r, Faults(false, budget)); var reply := ReadReply(c.unread, budget);
            && !Usable(c') && c'.written == c.written + [RequestBytes(r)]
            && (r.HealthCheck? ==> o == Failed(Io) && c'.unread == c.unread)
            && (!r.HealthCheck? ==>
                  o ==
                    if reply.Got? && reply.frame.messageType == 0x03 then Failed(NackError(reply.frame.payload)) else Failed(Io))
  {
    hide RequestBytes, ReadReply, LocalGuard, NackError;
  }

  // ---- What the reply means

  /** A call succeeds on its own reply type only, with exactly what that reply encodes. */
  lemma SuccessExactly(r: Request, f: Frame)
    ensures Interpret(r, f).0 == Acked <==> r.Push? && f.messageType == 0x02
    ensures Interpret(r, f).0 == Healthy <==> r.HealthCheck? && f.messageType == 0x05
    ensures forall at :: Interpret(r, f).0 == Tracked(at) <==>
              r.PushTracked? && f.messageType == 0x07 && Coordinate.Valid(at) && f.payload == Coordinate.Encode(at)
    ensures forall a :: Interpret(r, f).0 == Accepted(a) <==>
              && r.PushBatch? && f.messageType == 0x09 && f.payload == AckBatch.AckPayload(a)
              && |a| == |r.records| && 1 <= |a| <= 65535
    ensures !Interpret(r, f).0.Failed? ==> Interpret(r, f).1 == Keep
  {
    hide Coordinate.DecodeRust, Coordinate.Encode, AckBatch.DecodeAckBatch, AckBatch.AckPayload, NackError;
    forall at
      ensures Coordinate.DecodeRust(f.payload) == Ok(at) <==> Coordinate.Valid(at) && f.payload == Coordinate.Encode(at)
    {
      Coordinate.CoordinateExact(f.payload, at);
    }
    if r.PushBatch? {
      forall a
        ensures AckBatch.DecodeAckBatch(f.payload, |r.records|) == Ok(a) <==>
                f.payload == AckBatch.AckPayload(a) && |a| == |r.records| && 1 <= |a| <= 65535
      {
        AckBatch.AckExact(f.payload, |r.records|, a);
      }
    }
  }

  /** A Nack surfaces as its reason byte says; only InternalError leaves the connection open. */
  lemma NackExactly(r: Request, f: Frame)
    requires f.messageType == 0x03 && !r.PushBatch?
    ensures Interpret(r, f) ==
            if f.payload == [] then (Failed(ProtocolViolation), Poison)
            else var b := f.payload[0];
              if b == 0x02 && |f.payload| > 1 then (Failed(WireVersionMismatch(f.payload[1])), Close)
              else if b == 0x06 then (Failed(Nack(0x06)), Keep)
              else if b in {0x01, 0x02, 0x03, 0x04, 0x05, 0x07, 0x08, 0x09, 0x0B} then (Failed(Nack(b)), Close)
              else (Failed(UnknownNack(b)), Close)
  {
  }

  /** What a reply's meaning does to the client: nothing, the desync flag, or the closed flag, and never the stream. */
  lemma FlagsExactly(c: Conn, r: Request, f: Faults)
    requires Usable(c) && LocalGuard(r) == None && f.writeOk
    ensures var (c', o) := Ask(c, r, f); var reply := ReadReply(c.unread, f.budget);
            && c'.tier == c.tier && c'.unread == AfterRead(c.unread, f.budget)
            && c'.written == c.written + [RequestBytes(r)]
            && (reply.Lost? ==> o == Failed(reply.error) && c'.poisoned && !c'.closedAfterNack)
            && (reply.Got? ==>
                  && o == Interpret(r, reply.frame).0
                  && (c'.poisoned <==> Interpret(r, reply.frame).1 == Poison)
                  && (c'.closedAfterNack <==> Interpret(r, reply.frame).1 == Close))
  {
    hide RequestBytes, ReadReply, AfterRead, LocalGuard, Interpret;
  }

  /** Any other reply is a desync, and so is any Nack to a batch. */
  lemma DesyncExactly(r: Request, f: Frame)
    requires Interpret(r, f).0.Failed? && (f.messageType != 0x03 || r.PushBatch?)
    ensures Interpret(r, f) == (Failed(ProtocolViolation), Poison)
  {
    hide Coordinate.DecodeRust, AckBatch.DecodeAckBatch, NackError;
  }

  // ---- The reply caps

  /** The caps are tight: the longest coordinate, the longest acknowledgement and the longest Nack fit and nothing longer does. */
  lemma CapsFit(c: Coordinate.Coordinate, a: seq<bool>)
    requires Coordinate.Valid(c) && |a| <= 2048
    ensures |Coordinate.Encode(c)| <= ResponseCap(0x07) && (|c.segment| == 255 ==> |Coordinate.Encode(c)| == ResponseCap(0x07))
    ensures |AckBatch.AckPayload(a)| <= ResponseCap(0x09) && (|a| == 2048 ==> |AckBatch.AckPayload(a)| == ResponseCap(0x09))
    ensures ResponseCap(0x02) == ResponseCap(0x03) == ResponseCap(0x05) == 2
  {
    Coordinate.EncodeFields(c);
    AckBatch.PayloadParts(a);
    hide Coordinate.Encode, AckBatch.AckPayload;
  }
}
