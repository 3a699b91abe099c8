/** The blocking client itself, method by method, proved to do what `Protocol.Call` says. */
module Client {
  import opened Bytes
  import opened Wrappers
  import opened Crc32
  import opened Frame
  import opened Protocol
  import Batch
  import AckBatch
  import Coordinate

  /** A blocking byte stream under the faults of the current call. */
  class Stream {
    var unread: seq<Byte>
    var written: seq<seq<Byte>>
    var writeOk: bool
    var budget: nat

    method WriteAll(frame: seq<Byte>) returns (ok: bool)
      modifies `written
      ensures ok == writeOk && written == old(written) + [frame]
    {
      written := written + [frame];
      ok := writeOk;
    }

    method ReadExact(n: nat) returns (r: Option<seq<Byte>>)
      modifies `unread, `budget
      ensures var k := Min(n, Min(old(|unread|), old(budget)));
              && unread == old(unread)[k..] && budget == old(budget) - k
              && r == if k == n then Some(old(unread)[..n]) else None
    {
      var k := Min(n, Min(|unread|, budget));
      r := if k == n then Some(unread[..n]) else None;
      unread, budget := unread[k..], budget - k;
    }
  }

  class WeirClient {
    const stream: Stream
    var tier: Option<Byte>
    var poisoned: bool
    var closedAfterNack: bool

    ghost function View(): Conn
      reads this, stream
    {
      Conn(poisoned, closedAfterNack, tier, stream.unread, stream.written)
    }

    ghost function Weather(): Faults
      reads stream
    {
      Faults(stream.writeOk, stream.budget)
    }

    constructor (s: Stream, defaultTier: Option<Byte>)
      ensures View() == Conn(false, false, defaultTier, s.unread, s.written) && stream == s
    {
      stream, tier, poisoned, closedAfterNack := s, defaultTier, false, false;
    }

    method SetDefaultDurability(d: Byte)
      modifies `tier
      ensures View() == old(View()).(tier := Some(d))
    {
      tier := Some(d);
    }

    method IsPoisoned() returns (dead: bool)
      ensures dead <==> !Usable(View())
    {
      dead := poisoned || closedAfterNack;
    }

    method ReadResponseInner() returns (r: Result<Frame, ClientError>)
      modifies stream`unread, stream`budget
      ensures stream.unread == AfterRead(old(stream.unread), old(stream.budget))
      ensures match ReadReply(old(stream.unread), old(stream.budget))
              case Got(f, _) => r == Ok(f)
              case Lost(e) => r == Err(e)
    {
      hide CheckHeader, Sealed, ResponseCap, ReadReply, AfterRead;
      ghost var all, budget := stream.unread, stream.budget;
      ReadStops(all, budget);
      var header := stream.ReadExact(16);
      if header.None? { return Err(Io); }
      var h := header.value;
      var checked := CheckHeader(h);
      if checked.Err? { return Err(ProtocolViolation); }
      var payloadLen := checked.value;
      if payloadLen > ResponseCap(h[5]) { return Err(ProtocolViolation); }
      var payload: seq<Byte> := [];
      if payloadLen > 0 {
        var read := stream.ReadExact(payloadLen);
        if read.None? {
          assert stream.unread == all[Min(|all|, budget)..];
          return Err(Io);
        }
        payload := read.value;
      }
      assert payload == all[16..16 + payloadLen];
      assert stream.unread == all[16 + payloadLen..];
      var tag := stream.ReadExact(4);
      if tag.None? {
        assert stream.unread == all[Min(|all|, budget)..];
        return Err(Io);
      }
      assert tag.value == all[16 + payloadLen..20 + payloadLen];
      assert stream.unread == all[20 + payloadLen..];
      if !Sealed(payload, tag.value) { return Err(ProtocolViolation); }
      return Ok(Frame(h[4], h[5], h[6], h[7], payload));
    }

    method ReadResponse() returns (r: Result<Frame, ClientError>)
      modifies `poisoned, stream`unread, stream`budget
      ensures stream.unread == AfterRead(old(stream.unread), old(stream.budget))
      ensures match ReadReply(old(stream.unread), old(stream.budget))
              case Got(f, _) => r == Ok(f) && poisoned == old(poisoned)
              case Lost(e) => r == Err(e) && poisoned
    {
      hide ReadReply, AfterRead;
      r := ReadResponseInner();
      if r.Err? { poisoned := true; }
    }

    /** Writes one frame and reads its reply; on a failed write, a Nack already received beats a broken pipe. */
    method SendFrame(frame: seq<Byte>) returns (r: Result<Frame, ClientError>)
      requires !poisoned && !closedAfterNack
      modifies `poisoned, `closedAfterNack, stream`unread, stream`budget, stream`written
      ensures stream.written == old(stream.written) + [frame]
      ensures stream.unread == AfterRead(old(stream.unread), old(stream.budget))
      ensures var reply := ReadReply(old(stream.unread), old(stream.budget));
              if stream.writeOk then
                match reply
                case Got(f, _) => r == Ok(f) && !poisoned && !closedAfterNack
                case Lost(e) => r == Err(e) && poisoned && !closedAfterNack
              else if reply.Got? && reply.frame.messageType == NACK then
                r == Err(NackError(reply.frame.payload)) && !poisoned && closedAfterNack
              else r == Err(Io) && poisoned && !closedAfterNack
    {
      hide ReadReply, AfterRead;
      var ok := stream.WriteAll(frame);
      if !ok {
        var resp := ReadResponse();
        if resp.Ok? && resp.value.messageType == NACK {
          closedAfterNack := true;
          return Err(NackError(resp.value.payload));
        }
        poisoned := true;
        return Err(Io);
      }
      r := ReadResponse();
    }

    /** Decodes a Nack and records its effect on the connection. */
    method Surface(payload: seq<Byte>) returns (e: ClientError)
      requires !poisoned && !closedAfterNack
      modifies `poisoned, `closedAfterNack
      ensures Failed(e) == SurfaceNack(payload).0 && View() == Apply(old(View()), SurfaceNack(payload).1)
    {
      e := NackError(payload);
      if e == ProtocolViolation {
        poisoned := true;
      } else if e != Nack(INTERNAL_ERROR) {
        closedAfterNack := true;
      }
    }

    /** The send half `push` and `push_tracked` share: usability, the two guards, the exchange. */
    method SendRecord(messageType: Byte, payload: seq<Byte>, d: Byte) returns (r: Result<Frame, ClientError>)
      modifies `poisoned, `closedAfterNack, stream`unread, stream`budget, stream`written
      ensures !Usable(old(View())) ==> View() == old(View()) && r == Err(ProtocolViolation)
      ensures Usable(old(View())) && RecordGuard(payload).Some? ==> View() == old(View()) && r == Err(RecordGuard(payload).value)
      ensures Usable(old(View())) && RecordGuard(payload).None? ==>
                && stream.written == old(stream.written) + [Envelope(messageType, d, payload)]
                && stream.unread == AfterRead(old(stream.unread), old(stream.budget))
                && var reply := ReadReply(old(stream.unread), old(stream.budget));
                   if stream.writeOk then
                     match reply
                     case Got(f, _) => r == Ok(f) && !poisoned && !closedAfterNack
                     case Lost(e) => r == Err(e) && poisoned && !closedAfterNack
                   else if reply.Got? && reply.frame.messageType == NACK then
                     r == Err(NackError(reply.frame.payload)) && !poisoned && closedAfterNack
                   else r == Err(Io) && poisoned && !closedAfterNack
    {
      hide ReadReply, AfterRead, Envelope;
      if poisoned || closedAfterNack { return Err(ProtocolViolation); }
      if payload == [] { return Err(EmptyPayload); }
      if |payload| > MAX_PAYLOAD_HARD_CAP { return Err(TooLarge(|payload|, MAX_PAYLOAD_HARD_CAP)); }
      r := SendFrame(Envelope(messageType, d, payload));
    }

    method Push(payload: seq<Byte>, d: Byte) returns (o: Outcome)
      modifies `poisoned, `closedAfterNack, stream`unread, stream`budget, stream`written
      ensures (View(), o) == Call(old(View()), Plain(Request.Push(payload, d)), old(Weather()))
    {
      hide ReadReply, AfterRead, Envelope, SurfaceNack;
      var resp := SendRecord(PUSH, payload, d);
      if resp.Err? { return Failed(resp.error); }
      var mt := resp.value.messageType;
      if mt == ACK { return Acked; }
      if mt == NACK {
        var e := Surface(resp.value.payload);
        return Failed(e);
      }
      poisoned := true;
      return Failed(ProtocolViolation);
    }

    method PushTracked(payload: seq<Byte>, d: Byte) returns (o: Outcome)
      modifies `poisoned, `closedAfterNack, stream`unread, stream`budget, stream`written
      ensures (View(), o) == Call(old(View()), Plain(Request.PushTracked(payload, d)), old(Weather()))
    {
      hide ReadReply, AfterRead, Envelope, SurfaceNack, Coordinate.DecodeRust;
      var resp := SendRecord(PUSH_TRACKED, payload, d);
      if resp.Err? { return Failed(resp.error); }
      var mt := resp.value.messageType;
      if mt == ACK_TRACKED {
        var decoded := Coordinate.DecodeRust(resp.value.payload);
        if decoded.Err? {
          poisoned := true;
          return Failed(ProtocolViolation);
        }
        return Tracked(decoded.value);
      }
      if mt == NACK {
        var e := Surface(resp.value.payload);
        return Failed(e);
      }
      poisoned := true;
      return Failed(ProtocolViolation);
    }

    /** The per-record guard loop of a batch. */
    static method FirstRefused(records: seq<seq<Byte>>) returns (e: Option<ClientError>)
      ensures e == RecordsGuard(records)
    {
      for i := 0 to |records|
        invariant RecordsGuard(records) == RecordsGuard(records[i..])
      {
        assert records[i..][1..] == records[i + 1..];
        var s := records[i];
        if s == [] { return Some(EmptyPayload); }
        if |s| > MAX_PAYLOAD_HARD_CAP { return Some(TooLarge(|s|, MAX_PAYLOAD_HARD_CAP)); }
      }
      return None;
    }

    method PushBatch(records: seq<seq<Byte>>, d: Byte) returns (o: Outcome)
      modifies `poisoned, `closedAfterNack, stream`unread, stream`budget, stream`written
      ensures (View(), o) == Call(old(View()), Plain(Request.PushBatch(records, d)), old(Weather()))
    {
      hide ReadReply, AfterRead, Envelope, SurfaceNack, RecordsGuard, AckBatch.DecodeAckBatch, Batch.Body;
      if poisoned || closedAfterNack { return Failed(ProtocolViolation); }
      if records == [] { return Failed(EmptyPayload); }
      if |records| > Batch.MAX_BATCH_RECORDS_HARD_CAP {
        return Failed(TooLarge(|records|, Batch.MAX_BATCH_RECORDS_HARD_CAP));
      }
      var refused := FirstRefused(records);
      if refused.Some? { return Failed(refused.value); }
      var body := Batch.EncodeBatchBody(records);
      var resp := SendFrame(Envelope(PUSH_BATCH, d, body));
      if resp.Err? { return Failed(resp.error); }
      if resp.value.messageType == ACK_BATCH {
        var decoded := AckBatch.DecodeAckBatch(resp.value.payload, |records|);
        if decoded.Err? {
          poisoned := true;
          return Failed(ProtocolViolation);
        }
        return Accepted(decoded.value);
      }
      poisoned := true;
      return Failed(ProtocolViolation);
    }

    /** Unlike the pushes, a health check whose write fails does not look for a buffered Nack. */
    method HealthCheck() returns (o: Outcome)
      modifies `poisoned, `closedAfterNack, stream`unread, stream`budget, stream`written
      ensures (View(), o) == Call(old(View()), Plain(Request.HealthCheck), old(Weather()))
    {
      hide ReadReply, AfterRead, Envelope, SurfaceNack;
      if poisoned || closedAfterNack { return Failed(ProtocolViolation); }
      var ok := stream.WriteAll(Envelope(HEALTH_CHECK, DURABLE, []));
      if !ok {
        poisoned := true;
        return Failed(Io);
      }
      var resp := ReadResponse();
      if resp.Err? { return Failed(resp.error); }
      var mt := resp.value.messageType;
      if mt == HEALTH_CHECK_RESPONSE { return Healthy; }
      if mt == NACK {
        var e := Surface(resp.value.payload);
        return Failed(e);
      }
      poisoned := true;
      return Failed(ProtocolViolation);
    }

    method PushDefault(payload: seq<Byte>) returns (o: Outcome)
      modifies `poisoned, `closedAfterNack, stream`unread, stream`budget, stream`written
      ensures (View(), o) == Call(old(View()), Invocation.PushDefault(payload), old(Weather()))
    {
      hide Ask;
      if tier.None? { return Failed(NoDefaultDurability); }
      o := Push(payload, tier.value);
    }

    method PushTrackedDefault(payload: seq<Byte>) returns (o: Outcome)
      modifies `poisoned, `closedAfterNack, stream`unread, stream`budget, stream`written
      ensures (View(), o) == Call(old(View()), Invocation.PushTrackedDefault(payload), old(Weather()))
    {
      hide Ask;
      if tier.None? { return Failed(NoDefaultDurability); }
      o := PushTracked(payload, tier.value);
    }
  }
}
