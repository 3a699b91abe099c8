/**
 * How the load generator turns a client call into ledger rows, and what a row therefore says
 * about what passed between client and daemon.
 */
module Producer {
  import opened Bytes
  import opened Wrappers
  import Text
  import opened Frame
  import opened Protocol
  import AckBatch
  import ClientRuns
  import LedgerLine

  function ReasonName(b: Byte): string {
    match b
    case 0x01 => "BadMagic"
    case 0x02 => "VersionMismatch"
    case 0x03 => "BadHeaderCrc"
    case 0x04 => "PayloadTooLarge"
    case 0x05 => "BadPayloadCrc"
    case 0x06 => "InternalError"
    case 0x07 => "EmptyPayload"
    case 0x08 => "UnknownMessage"
    case 0x09 => "ReservedFlagsSet"
    case _ => "BadBatchFraming"
  }

  function HexDigit(n: nat): char
    requires n < 16
  {
    "0123456789abcdef"[n]
  }

  /** A refusal the daemon or the client states outright is a Nack row; anything indeterminate is Unknown. */
  function Classify(e: ClientError): LedgerLine.Outcome {
    match e
    case Nack(reason) =>
      if reason == INTERNAL_ERROR then LedgerLine.Unknown else LedgerLine.Nacked(ReasonName(reason))
    case WireVersionMismatch(v) => LedgerLine.Nacked("VersionMismatch(" + Text.Decimal(v) + ")")
    case UnknownNack(b) => LedgerLine.Nacked("UnknownNack(0x" + [HexDigit(b / 16), HexDigit(b % 16)] + ")")
    case TooLarge(_, _) => LedgerLine.Nacked("LocalPayloadTooLarge")
    case EmptyPayload => LedgerLine.Nacked("LocalEmptyPayload")
    case NoDefaultDurability => LedgerLine.Nacked("NoDefaultDurability")
    case Io => LedgerLine.Unknown
    case ProtocolViolation => LedgerLine.Unknown
  }

  function PushRow(o: Outcome): LedgerLine.Outcome {
    match o
    case Failed(e) => Classify(e)
    case _ => LedgerLine.Acked
  }

  /** One row for each record of the batch, from the one reply. */
  function BatchRows(o: Outcome, n: nat): seq<LedgerLine.Outcome> {
    match o
    case Failed(e) => seq(n, _ => Classify(e))
    case Accepted(bits) => seq(n, i => if 0 <= i < |bits| && bits[i] then LedgerLine.Acked else LedgerLine.Unknown)
    case _ => seq(n, _ => LedgerLine.Unknown)
  }

  /** The connection is dropped exactly when the error is not recoverable. */
  predicate KeepsClient(o: Outcome) {
    o.Failed? ==> IsRecoverable(o.error)
  }

  /** A Nack whose reason is given and is not the transient one. */
  predicate Refusal(f: Frame) {
    f.messageType == NACK && f.payload != [] && f.payload[0] != INTERNAL_ERROR
  }

  lemma RefusalExactly(payload: seq<Byte>)
    ensures Classify(NackError(payload)).Nacked? <==> payload != [] && payload[0] != INTERNAL_ERROR
    ensures Classify(NackError(payload)) != LedgerLine.Acked
  {
    hide Text.Decimal, ReasonName;
  }

  /** The text of a refusal, reason by reason; the transient reason is no refusal. */
  lemma RefusalText(b: Byte)
    requires KnownReason(b)
    ensures Classify(Nack(b)) ==
            if b == 0x06 then LedgerLine.Unknown
            else LedgerLine.Nacked(map[
              0x01 := "BadMagic", 0x02 := "VersionMismatch", 0x03 := "BadHeaderCrc", 0x04 := "PayloadTooLarge",
              0x05 := "BadPayloadCrc", 0x06 := "InternalError", 0x07 := "EmptyPayload", 0x08 := "UnknownMessage",
              0x09 := "ReservedFlagsSet", 0x0B := "BadBatchFraming"][b])
  {
  }

  /** The texts of the other refusals; an unassigned reason is given as two hexadecimal digits. */
  lemma OtherRefusals(v: Byte, b: Byte, len: nat, limit: nat)
    ensures Classify(WireVersionMismatch(v)) == LedgerLine.Nacked("VersionMismatch(" + Text.Decimal(v) + ")")
    ensures Classify(TooLarge(len, limit)) == LedgerLine.Nacked("LocalPayloadTooLarge")
    ensures Classify(EmptyPayload) == LedgerLine.Nacked("LocalEmptyPayload")
    ensures Classify(NoDefaultDurability) == LedgerLine.Nacked("NoDefaultDurability")
    ensures exists h, l :: HexValue(h) == Some(b / 16) && HexValue(l) == Some(b % 16)
              && Classify(UnknownNack(b)) == LedgerLine.Nacked("UnknownNack(0x" + [h, l] + ")")
  {
    hide Text.Decimal;
    HexInverts(b / 16);
    HexInverts(b % 16);
  }

  /** The number a hexadecimal digit stands for. */
  function HexValue(c: char): Option<nat> {
    if '0' <= c <= '9' then Some(c as int - '0' as int)
    else if 'a' <= c <= 'f' then Some(c as int - 'a' as int + 10)
    else None
  }

  lemma HexInverts(n: nat)
    requires n < 16
    ensures HexValue(HexDigit(n)) == Some(n)
  {
  }

  lemma GuardsAreNacks(r: Request)
    requires LocalGuard(r).Some?
    ensures Classify(LocalGuard(r).value).Nacked?
  {
    if r.PushBatch? {
      RecordsGuardIsNack(r.records);
    }
  }

  lemma {:induction false} RecordsGuardIsNack(records: seq<seq<Byte>>)
    ensures RecordsGuard(records).Some? ==> Classify(RecordsGuard(records).value).Nacked?
  {
    if records != [] {
      RecordsGuardIsNack(records[1..]);
    }
  }

  lemma LostIsUnknown(unread: seq<Byte>, budget: nat)
    ensures ReadReply(unread, budget).Lost? ==> Classify(ReadReply(unread, budget).error) == LedgerLine.Unknown
  {
    hide CheckHeader;
  }

  /**
   * A row for a single push. ACK: the record went out whole and a sealed Ack came back. NACK: nothing
   * was written, or a sealed refusal came back. The oracle holds the daemon to nothing else.
   */
  lemma PushRowJustified(c: Conn, payload: seq<Byte>, tier: Byte, f: Faults)
    requires Usable(c)
    ensures var (c', o) := Ask(c, Push(payload, tier), f);
            var sent, reply := RecordGuard(payload).None?, ReadReply(c.unread, f.budget);
      && (PushRow(o) == LedgerLine.Acked <==> sent && f.writeOk && reply.Got? && reply.frame.messageType == ACK)
      && (PushRow(o).Nacked? <==> !sent || (reply.Got? && Refusal(reply.frame)))
      && (!sent ==> c' == c)
  {
    hide RequestBytes, ReadReply, Classify, NackError;
    var reply := ReadReply(c.unread, f.budget);
    LostIsUnknown(c.unread, f.budget);
    if RecordGuard(payload).Some? {
      GuardsAreNacks(Push(payload, tier));
    }
    if reply.Got? {
      RefusalExactly(reply.frame.payload);
    }
    Indeterminate();
  }

  lemma Indeterminate()
    ensures Classify(Io) == LedgerLine.Unknown && Classify(ProtocolViolation) == LedgerLine.Unknown
  {
  }

  /**
   * The rows of a batch. ACK for record i: the batch went out whole and bit i of a well-formed reply
   * is set. NACK: nothing was written, or the write failed and a refusal was waiting. A refusal after
   * a complete write is recorded as Unknown, like a clear bit.
   */
  lemma BatchRowsJustified(c: Conn, records: seq<seq<Byte>>, tier: Byte, f: Faults, i: nat)
    requires Usable(c) && i < |records|
    ensures var r := PushBatch(records, tier);
            var (c', o) := Ask(c, r, f);
            var sent, reply := LocalGuard(r).None?, ReadReply(c.unread, f.budget);
            var row := BatchRows(o, |records|)[i];
      && (row == LedgerLine.Acked <==>
            && sent && f.writeOk && reply.Got? && reply.frame.messageType == ACK_BATCH
            && AckBatch.DecodeAckBatch(reply.frame.payload, |records|).Ok?
            && i < |AckBatch.DecodeAckBatch(reply.frame.payload, |records|).value|
            && AckBatch.DecodeAckBatch(reply.frame.payload, |records|).value[i])
      && (row.Nacked? <==> !sent || (!f.writeOk && reply.Got? && Refusal(reply.frame)))
      && (!sent ==> c' == c)
  {
    hide RequestBytes, ReadReply, Classify, NackError, LocalGuard, AckBatch.DecodeAckBatch;
    var r, reply := PushBatch(records, tier), ReadReply(c.unread, f.budget);
    LostIsUnknown(c.unread, f.budget);
    if LocalGuard(r).Some? {
      GuardsAreNacks(r);
    }
    if reply.Got? {
      RefusalExactly(reply.frame.payload);
    }
    Indeterminate();
  }

  /**
   * The generator keeps a connection it can no longer use on exactly one path, whatever it sent; the
   * next request on it, of either kind, sends nothing, is recorded as Unknown throughout, and drops
   * the connection.
   */
  lemma StaleConnection(c: Conn, r: Request, f: Faults, next: Request, g: Faults)
    requires Usable(c) && Ask(c, r, f).1.Failed?
    ensures var (c', o) := Ask(c, r, f);
      && (KeepsClient(o) && !Usable(c') <==> ClientRuns.BufferedTransientNack(c, Plain(r), f))
      && (!Usable(c') ==>
            var (d, o') := Ask(c', next, g);
            && d == c' && !KeepsClient(o') && PushRow(o') == LedgerLine.Unknown
            && forall n: nat, i :: 0 <= i < n ==> BatchRows(o', n)[i] == LedgerLine.Unknown)
  {
    var v := Plain(r);
    assert Call(c, v, f) == Ask(c, r, f) && !ClientRuns.UncheckedDefault(c, v);
    hide Call, Ask, ClientRuns.BufferedTransientNack, ClientRuns.UncheckedDefault, Classify;
    ClientRuns.RecoverableExactly(c, v, f);
    ClientRuns.TransientIsRecoverable(c, v, f);
    var c' := Ask(c, r, f).0;
    if !Usable(c') {
      UnusableAsk(c', next, g);
    }
  }

  lemma UnusableAsk(c: Conn, r: Request, f: Faults)
    requires !Usable(c)
    ensures Ask(c, r, f) == (c, Failed(ProtocolViolation)) && !KeepsClient(Failed(ProtocolViolation))
    ensures PushRow(Failed(ProtocolViolation)) == LedgerLine.Unknown
    ensures forall n: nat, i :: 0 <= i < n ==> BatchRows(Failed(ProtocolViolation), n)[i] == LedgerLine.Unknown
  {
  }

  // ---- A producer thread's whole run, over as many connections as it takes

  /** One request, the faults it meets, and what the peer would send on a connection opened for it. */
  datatype Attempt = Attempt(request: Request, faults: Faults, stream: seq<Byte>)

  function Opened(stream: seq<Byte>): Conn {
    Conn(false, false, None, stream, [])
  }

  function StepsOf(attempts: seq<Attempt>): seq<ClientRuns.Step> {
    seq(|attempts|, i requires 0 <= i < |attempts| => ClientRuns.Step.Step(Plain(attempts[i].request), attempts[i].faults))
  }

  /** The attempt that opened the connection attempt `k` runs on: `k` itself after a dropped one. */
  function Opener(attempts: seq<Attempt>, k: nat): (b: nat)
    requires k < |attempts|
    ensures b <= k
    decreases k, 0
  {
    if k == 0 then 0
    else if KeepsClient(OutcomeOf(attempts, k - 1)) then Opener(attempts, k - 1)
    else k
  }

  /** What attempt `k` came to, on its connection and after the attempts before it there. */
  function OutcomeOf(attempts: seq<Attempt>, k: nat): Outcome
    requires k < |attempts|
    decreases k, 1
  {
    var b := Opener(attempts, k);
    ClientRuns.OutcomeAt(Opened(attempts[b].stream), StepsOf(attempts[b..k + 1]), k - b)
  }

  /** Attempt `k`'s place among the requests sent on its connection. */
  function PlaceOf(attempts: seq<Attempt>, k: nat): nat
    requires k < |attempts|
  {
    var b := Opener(attempts, k);
    |ClientRuns.Run(Opened(attempts[b].stream), StepsOf(attempts[b..k])).written|
  }

  /** The replies read on attempt `k`'s connection up to and including that attempt. */
  function RepliesOf(attempts: seq<Attempt>, k: nat): seq<Frame>
    requires k < |attempts|
  {
    var b := Opener(attempts, k);
    ClientRuns.Replies(Opened(attempts[b].stream), StepsOf(attempts[b..k + 1]))
  }

  function RowsFor(r: Request, o: Outcome): seq<LedgerLine.Outcome> {
    if r.PushBatch? then BatchRows(o, |r.records|) else [PushRow(o)]
  }

  /** The ledger outcomes attempt `k` gives rise to. */
  function RowsOf(attempts: seq<Attempt>, k: nat): seq<LedgerLine.Outcome>
    requires k < |attempts|
  {
    RowsFor(attempts[k].request, OutcomeOf(attempts, k))
  }

  /** A reply that says record `q` of this request is durable. */
  predicate Confirms(r: Request, f: Frame, q: nat) {
    match r
    case Push(_, _) => f.messageType == ACK
    case PushBatch(records, _) =>
      && f.messageType == ACK_BATCH
      && AckBatch.DecodeAckBatch(f.payload, |records|).Ok?
      && q < |AckBatch.DecodeAckBatch(f.payload, |records|).value|
      && AckBatch.DecodeAckBatch(f.payload, |records|).value[q]
    case _ => false
  }

  lemma ConfirmedExactly(r: Request, f: Frame, q: nat)
    requires r.Push? || r.PushBatch?
    requires r.PushBatch? ==> q < |r.records|
    ensures r.Push? ==> (PushRow(Interpret(r, f).0) == LedgerLine.Acked <==> Confirms(r, f, q))
    ensures r.PushBatch? ==> (BatchRows(Interpret(r, f).0, |r.records|)[q] == LedgerLine.Acked <==> Confirms(r, f, q))
  {
    hide Classify, AckBatch.DecodeAckBatch, NackError;
    RefusalExactly(f.payload);
    Indeterminate();
  }

  lemma FailureIsNoAck(e: ClientError)
    ensures Classify(e) != LedgerLine.Acked
  {
    hide ReasonName;
  }

  lemma SentIsRequest(c: Conn, r: Request)
    ensures ClientRuns.SentBy(c, Plain(r)).Some? ==> ClientRuns.SentBy(c, Plain(r)).value == r
  {
  }

  lemma AckIsSuccess(r: Request, o: Outcome, q: nat)
    requires q < |RowsFor(r, o)| && RowsFor(r, o)[q] == LedgerLine.Acked
    ensures !o.Failed?
  {
    if o.Failed? {
      FailureIsNoAck(o.error);
    }
  }

  lemma RowsConfirmed(r: Request, f: Frame, q: nat)
    requires r.Push? || r.PushBatch?
    requires q < |RowsFor(r, Interpret(r, f).0)| && RowsFor(r, Interpret(r, f).0)[q] == LedgerLine.Acked
    ensures Confirms(r, f, q)
  {
    hide Interpret, Confirms, Classify;
    ConfirmedExactly(r, f, q);
  }

  /** On one connection: an ACK row was decided by the reply in its request's place. */
  lemma ConnectionAcked(c0: Conn, steps: seq<ClientRuns.Step>, m: nat, r: Request, q: nat, gs: seq<Frame>, tail: seq<Byte>)
    requires ClientRuns.Fresh(c0) && m < |steps| && steps[m].Step? && steps[m].call == Plain(r) && (r.Push? || r.PushBatch?)
    requires var o := ClientRuns.OutcomeAt(c0, steps, m); q < |RowsFor(r, o)| && RowsFor(r, o)[q] == LedgerLine.Acked
    requires c0.unread == ClientRuns.Stream(gs) + tail && forall j :: 0 <= j < |gs| ==> Valid(gs[j])
    ensures var n, rs := |ClientRuns.Run(c0, steps[..m]).written|, ClientRuns.Replies(c0, steps);
      && n < |rs| && ValidReply(rs[n]) && Confirms(r, rs[n], q)
      && (n < |gs| ==> Confirms(r, gs[n], q))
  {
    hide RowsFor, Valid, ValidReply, Interpret, Confirms, ClientRuns.Run, ClientRuns.Replies, ClientRuns.Stream,
      ClientRuns.OutcomeAt, ClientRuns.SentBy;
    AckIsSuccess(r, ClientRuns.OutcomeAt(c0, steps, m), q);
    ClientRuns.OwnReplyDecides(c0, steps, m, gs, tail);
    SentIsRequest(ClientRuns.Run(c0, steps[..m]), r);
    var n := |ClientRuns.Run(c0, steps[..m]).written|;
    RowsConfirmed(r, ClientRuns.Replies(c0, steps)[n], q);
    if n < |gs| {
      RowsConfirmed(r, gs[n], q);
    }
  }

  /**
   * Over a whole run with reconnects: an ACK row was decided by the reply that stands, among all the
   * peer sent on that very connection, where its request stands among the requests sent there.
   */
  lemma AckedByOwnReply(attempts: seq<Attempt>, k: nat, q: nat, gs: seq<Frame>, tail: seq<Byte>)
    requires k < |attempts| && (attempts[k].request.Push? || attempts[k].request.PushBatch?)
    requires q < |RowsOf(attempts, k)| && RowsOf(attempts, k)[q] == LedgerLine.Acked
    requires attempts[Opener(attempts, k)].stream == ClientRuns.Stream(gs) + tail
    requires forall j :: 0 <= j < |gs| ==> Valid(gs[j])
    ensures var n := PlaceOf(attempts, k);
      && n < |RepliesOf(attempts, k)| && ValidReply(RepliesOf(attempts, k)[n])
      && Confirms(attempts[k].request, RepliesOf(attempts, k)[n], q)
      && (n < |gs| ==> Confirms(attempts[k].request, gs[n], q))
  {
    hide RowsFor, Valid, ValidReply, Confirms, ClientRuns.Run, ClientRuns.Replies, ClientRuns.Stream, Opener,
      ClientRuns.OutcomeAt;
    var b := Opener(attempts, k);
    var c0, steps := Opened(attempts[b].stream), StepsOf(attempts[b..k + 1]);
    assert steps[..k - b] == StepsOf(attempts[b..k]);
    ConnectionAcked(c0, steps, k - b, attempts[k].request, q, gs, tail);
  }
}
