/**
 * What the blocking client must do, as a function of its two flags, the bytes the peer has
 * yet to be read, and the faults of one call. The peer's bytes are arbitrary; the transport
 * may fail any write and cut any read short.
 */
module Protocol {
  import opened Bytes
  import opened Wrappers
  import opened Crc32
  import opened Frame
  import Coordinate
  import Batch
  import AckBatch

  const INTERNAL_ERROR: Byte := 0x06
  const VERSION_MISMATCH: Byte := 0x02

  datatype ClientError =
    | Io
    | Nack(reason: Byte)
    | WireVersionMismatch(daemonVersion: Byte)
    | UnknownNack(byte: Byte)
    | TooLarge(len: nat, limit: nat)
    | ProtocolViolation
    | NoDefaultDurability
    | EmptyPayload

  /** Documented as: true exactly when the connection is still usable. */
  predicate IsRecoverable(e: ClientError) {
    match e
    case TooLarge(_, _) => true
    case NoDefaultDurability => true
    case EmptyPayload => true
    case Nack(reason) => reason == INTERNAL_ERROR
    case _ => false
  }

  predicate KnownReason(b: Byte) {
    1 <= b <= 9 || b == 11
  }

  function NackError(payload: seq<Byte>): ClientError {
    if payload == [] then ProtocolViolation
    else if !KnownReason(payload[0]) then UnknownNack(payload[0])
    else if payload[0] == VERSION_MISMATCH && |payload| > 1 then WireVersionMismatch(payload[1])
    else Nack(payload[0])
  }

  datatype Request =
    | Push(payload: seq<Byte>, tier: Byte)
    | PushTracked(payload: seq<Byte>, tier: Byte)
    | PushBatch(records: seq<seq<Byte>>, tier: Byte)
    | HealthCheck

  /** A method call on the client; the default-tier ones still have to find a tier. */
  datatype Invocation = Plain(request: Request) | PushDefault(payload: seq<Byte>) | PushTrackedDefault(payload: seq<Byte>)

  datatype Outcome =
    | Acked
    | Tracked(coordinate: Coordinate.Coordinate)
    | Accepted(accepted: seq<bool>)
    | Healthy
    | Failed(error: ClientError)

  /** The faults of one call: whether its write completes, and how many reply bytes arrive before reads fail. */
  datatype Faults = Faults(writeOk: bool, budget: nat)

  /** The client and its connection. `unread` is everything the peer will ever have sent that is not yet read. */
  datatype Conn = Conn(poisoned: bool, closedAfterNack: bool, tier: Option<Byte>, unread: seq<Byte>, written: seq<seq<Byte>>)

  predicate Usable(c: Conn) {
    !c.poisoned && !c.closedAfterNack
  }

  // ---- Requests

  /** `payload_len` saturates instead of wrapping past u32. */
  function Saturated(n: nat): nat {
    if n < 0x1_0000_0000 then n else 0xFFFF_FFFF
  }

  function Envelope(messageType: Byte, tier: Byte, payload: seq<Byte>): seq<Byte> {
    var head := MAGIC + [WIRE_VERSION, messageType, tier, 0] + Le(Saturated(|payload|), 4);
    head + WordBytes(Crc(head)) + payload + WordBytes(Crc(payload))
  }

  /** A default-tier call is the plain call at the default tier, or refused without one. */
  function Resolved(tier: Option<Byte>, v: Invocation): Result<Request, ClientError> {
    match v
    case Plain(r) => Ok(r)
    case PushDefault(p) => if tier.None? then Err(NoDefaultDurability) else Ok(Push(p, tier.value))
    case PushTrackedDefault(p) => if tier.None? then Err(NoDefaultDurability) else Ok(PushTracked(p, tier.value))
  }

  function RecordGuard(payload: seq<Byte>): Option<ClientError> {
    if payload == [] then Some(EmptyPayload)
    else if |payload| > MAX_PAYLOAD_HARD_CAP then Some(TooLarge(|payload|, MAX_PAYLOAD_HARD_CAP))
    else None
  }

  /** The first record that fails its guard decides. */
  function RecordsGuard(records: seq<seq<Byte>>): Option<ClientError> {
    if records == [] then None
    else if RecordGuard(records[0]).Some? then RecordGuard(records[0])
    else RecordsGuard(records[1..])
  }

  /** Refusals made before any byte is sent. */
  function LocalGuard(r: Request): Option<ClientError> {
    match r
    case Push(p, _) => RecordGuard(p)
    case PushTracked(p, _) => RecordGuard(p)
    case PushBatch(records, _) =>
      if records == [] then Some(EmptyPayload)
      else if |records| > Batch.MAX_BATCH_RECORDS_HARD_CAP then
        Some(TooLarge(|records|, Batch.MAX_BATCH_RECORDS_HARD_CAP))
      else RecordsGuard(records)
    case HealthCheck => None
  }

  function RequestBytes(r: Request): seq<Byte> {
    match r
    case Push(p, d) => Envelope(PUSH, d, p)
    case PushTracked(p, d) => Envelope(PUSH_TRACKED, d, p)
    case PushBatch(records, d) => Envelope(PUSH_BATCH, d, Batch.Body(records))
    case HealthCheck => Envelope(HEALTH_CHECK, DURABLE, [])
  }

  // ---- Replies

  function ResponseCap(messageType: Byte): nat {
    if messageType == ACK_TRACKED then 298 else if messageType == ACK_BATCH then 259 else 2
  }

  datatype Reply = Got(frame: Frame, len: nat) | Lost(error: ClientError)

  /** Header, cap, payload, CRC: one reply read off the front of the stream within the budget. */
  function ReadReply(unread: seq<Byte>, budget: nat): Reply {
    if |unread| < 16 || budget < 16 then Lost(Io)
    else match CheckHeader(unread[..16])
      case Err(_) => Lost(ProtocolViolation)
      case Ok(n) =>
        if n > ResponseCap(unread[5]) then Lost(ProtocolViolation)
        else if |unread| < 20 + n || budget < 20 + n then Lost(Io)
        else if !Sealed(unread[16..16 + n], unread[16 + n..20 + n]) then Lost(ProtocolViolation)
        else Got(Frame(unread[4], unread[5], unread[6], unread[7], unread[16..16 + n]), 20 + n)
  }

  /** How many bytes the attempt takes off the stream, whether or not it yields a reply. */
  function Consumed(unread: seq<Byte>, budget: nat): (n: nat)
    ensures n <= |unread|
  {
    var arrived := Min(|unread|, budget);
    if arrived < 16 then arrived
    else match CheckHeader(unread[..16])
      case Err(_) => 16
      case Ok(n) => if n > ResponseCap(unread[5]) then 16 else Min(arrived, 20 + n)
  }

  function AfterRead(unread: seq<Byte>, budget: nat): seq<Byte> {
    unread[Consumed(unread, budget)..]
  }

  /** Where a read stops and what it leaves, case by case. */
  lemma ReadStops(all: seq<Byte>, budget: nat)
    ensures var arrived := Min(|all|, budget);
      if arrived < 16 then ReadReply(all, budget) == Lost(Io) && AfterRead(all, budget) == all[arrived..]
      else match CheckHeader(all[..16])
        case Err(_) => ReadReply(all, budget) == Lost(ProtocolViolation) && AfterRead(all, budget) == all[16..]
        case Ok(n) =>
          if n > ResponseCap(all[5]) then
            ReadReply(all, budget) == Lost(ProtocolViolation) && AfterRead(all, budget) == all[16..]
          else if arrived < 20 + n then ReadReply(all, budget) == Lost(Io) && AfterRead(all, budget) == all[arrived..]
          else
            && AfterRead(all, budget) == all[20 + n..]
            && ReadReply(all, budget) ==
               if !Sealed(all[16..16 + n], all[16 + n..20 + n]) then Lost(ProtocolViolation)
               else Got(Frame(all[4], all[5], all[6], all[7], all[16..16 + n]), 20 + n)
  {
    hide CheckHeader, Sealed, ResponseCap;
  }

  datatype Effect = Keep | Poison | Close

  /** A Nack: an empty one is a desync, a transient one keeps the connection, any other closes it. */
  function SurfaceNack(payload: seq<Byte>): (Outcome, Effect) {
    var e := NackError(payload);
    if e == ProtocolViolation then (Failed(e), Poison)
    else if e == Nack(INTERNAL_ERROR) then (Failed(e), Keep)
    else (Failed(e), Close)
  }

  /** What a reply means to the request it answers. */
  function Interpret(r: Request, f: Frame): (Outcome, Effect) {
    match r
    case Push(_, _) =>
      if f.messageType == ACK then (Acked, Keep)
      else if f.messageType == NACK then SurfaceNack(f.payload)
      else (Failed(ProtocolViolation), Poison)
    case PushTracked(_, _) =>
      if f.messageType == ACK_TRACKED then
        match Coordinate.DecodeRust(f.payload)
        case Ok(at) => (Tracked(at), Keep)
        case Err(_) => (Failed(ProtocolViolation), Poison)
      else if f.messageType == NACK then SurfaceNack(f.payload)
      else (Failed(ProtocolViolation), Poison)
    case PushBatch(records, _) =>
      if f.messageType == ACK_BATCH then
        match AckBatch.DecodeAckBatch(f.payload, |records|)
        case Ok(a) => (Accepted(a), Keep)
        case Err(_) => (Failed(ProtocolViolation), Poison)
      else (Failed(ProtocolViolation), Poison)
    case HealthCheck =>
      if f.messageType == HEALTH_CHECK_RESPONSE then (Healthy, Keep)
      else if f.messageType == NACK then SurfaceNack(f.payload)
      else (Failed(ProtocolViolation), Poison)
  }

  function Apply(c: Conn, e: Effect): Conn {
    match e
    case Keep => c
    case Poison => c.(poisoned := true)
    case Close => c.(closedAfterNack := true)
  }

  // ---- One call

  /** The exchange with the peer, once every local check has passed. */
  function Exchange(c: Conn, r: Request, f: Faults): (Conn, Outcome) {
    var sent := c.(written := c.written + [RequestBytes(r)]);
    if !f.writeOk then
      if r.HealthCheck? then (sent.(poisoned := true), Failed(Io))
      else
        var after := sent.(unread := AfterRead(c.unread, f.budget));
        match ReadReply(c.unread, f.budget)
        case Lost(_) => (after.(poisoned := true), Failed(Io))
        case Got(reply, _) =>
          if reply.messageType == NACK then (after.(closedAfterNack := true), Failed(NackError(reply.payload)))
          else (after.(poisoned := true), Failed(Io))
    else
      var after := sent.(unread := AfterRead(c.unread, f.budget));
      match ReadReply(c.unread, f.budget)
      case Lost(e) => (after.(poisoned := true), Failed(e))
      case Got(reply, _) => (Apply(after, Interpret(r, reply).1), Interpret(r, reply).0)
  }

  function Ask(c: Conn, r: Request, f: Faults): (Conn, Outcome) {
    if !Usable(c) then (c, Failed(ProtocolViolation))
    else match LocalGuard(r)
      case Some(e) => (c, Failed(e))
      case None => Exchange(c, r, f)
  }

  function Call(c: Conn, v: Invocation, f: Faults): (Conn, Outcome) {
    match Resolved(c.tier, v)
    case Err(e) => (c, Failed(e))
    case Ok(r) => Ask(c, r, f)
  }

  // ---- Reading a reply, exactly

  /** A frame the client would take as a reply. */
  predicate ValidReply(f: Frame) {
    Valid(f) && |f.payload| <= ResponseCap(f.messageType)
  }

  lemma ReplyGotIsPrefix(unread: seq<Byte>, budget: nat, f: Frame)
    requires ReadReply(unread, budget) == Got(f, |Encoded(f)|)
    ensures ValidReply(f) && |Encoded(f)| <= budget && Encoded(f) <= unread
  {
    hide Sealed, Crc, Le, FromLe, WordBytes, Word;
    var n := |f.payload|;
    HeaderReencodes(unread[..16], f);
    SealExact(f.payload, unread[16 + n..20 + n]);
    assert unread[..20 + n] == unread[..16] + unread[16..16 + n] + unread[16 + n..20 + n];
  }

  lemma PrefixIsReplyGot(unread: seq<Byte>, budget: nat, f: Frame)
    requires ValidReply(f) && |Encoded(f)| <= budget && Encoded(f) <= unread
    ensures ReadReply(unread, budget) == Got(f, |Encoded(f)|)
  {
    hide Sealed, Crc, Le, FromLe, WordBytes, Word, Header;
    var n, e := |f.payload|, Encoded(f);
    EncodedParts(f);
    HeaderFields(f);
    HeaderAccepted(f);
    assert unread[..16] == e[..16] && unread[16..16 + n] == e[16..16 + n] && unread[16 + n..20 + n] == e[16 + n..];
    assert unread[4] == e[..16][4] && unread[5] == e[..16][5] && unread[6] == e[..16][6] && unread[7] == e[..16][7];
    SealExact(f.payload, WordBytes(Crc(f.payload)));
  }

  /** The reader yields `f` exactly when the stream starts with the encoding of valid reply `f` and all of it arrives. */
  lemma ReadReplyExact(unread: seq<Byte>, budget: nat, f: Frame, n: nat)
    ensures ReadReply(unread, budget) == Got(f, n)
            <==> ValidReply(f) && n == |Encoded(f)| <= budget && Encoded(f) <= unread
  {
    hide CheckHeader, Sealed, Encoded, Valid;
    if ReadReply(unread, budget) == Got(f, n) {
      ReplyGotIsPrefix(unread, budget, f);
    }
    if ValidReply(f) && n == |Encoded(f)| <= budget && Encoded(f) <= unread {
      PrefixIsReplyGot(unread, budget, f);
    }
  }

  lemma GotIsConsumed(unread: seq<Byte>, budget: nat)
    ensures ReadReply(unread, budget).Got? ==> Consumed(unread, budget) == ReadReply(unread, budget).len
  {
    hide CheckHeader, Sealed;
  }

  // ---- What goes out

  lemma EnvelopeIsFrame(messageType: Byte, tier: Byte, payload: seq<Byte>)
    requires KnownType(messageType) && KnownDurability(tier) && |payload| <= MAX_PAYLOAD_HARD_CAP
    ensures Valid(Frame(WIRE_VERSION, messageType, tier, 0, payload))
    ensures Envelope(messageType, tier, payload) == Encoded(Frame(WIRE_VERSION, messageType, tier, 0, payload))
  {
    hide Crc, WordBytes, Le;
  }

  function TierOf(r: Request): Byte {
    if r.HealthCheck? then DURABLE else r.tier
  }

  lemma EnvelopeLength(messageType: Byte, tier: Byte, payload: seq<Byte>)
    ensures |Envelope(messageType, tier, payload)| == 20 + |payload|
  {
  }

  /**
   * Every request that passes the local guards goes out as a valid frame, except a batch of
   * in-cap records whose body as a whole is over the frame cap: the guards do not look at that.
   */
  lemma SentValidExactly(r: Request)
    requires KnownDurability(TierOf(r)) && LocalGuard(r).None?
    ensures (exists f :: Valid(f) && RequestBytes(r) == Encoded(f))
            <==> !(r.PushBatch? && |Batch.Body(r.records)| > MAX_PAYLOAD_HARD_CAP)
  {
    hide Crc, WordBytes, Le, Envelope, Encoded, RecordsGuard, Batch.Body;
    match r {
      case Push(p, d) => EnvelopeIsFrame(PUSH, d, p);
      case PushTracked(p, d) => EnvelopeIsFrame(PUSH_TRACKED, d, p);
      case HealthCheck => EnvelopeIsFrame(HEALTH_CHECK, DURABLE, []);
      case PushBatch(records, d) =>
        var body := Batch.Body(records);
        if |body| <= MAX_PAYLOAD_HARD_CAP {
          EnvelopeIsFrame(PUSH_BATCH, d, body);
        }
        EnvelopeLength(PUSH_BATCH, d, body);
    }
  }

  /** Two records of nine MiB pass every local guard and go out as no frame at all. */
  lemma OversizeBatchSent() returns (r: Request)
    ensures r.PushBatch? && KnownDurability(TierOf(r)) && LocalGuard(r).None?
    ensures !exists f :: Valid(f) && RequestBytes(r) == Encoded(f)
  {
    var p: seq<Byte> := seq(9 * 1024 * 1024, _ => 0);
    r := PushBatch([p, p], DURABLE);
    assert RecordsGuard([p, p]) == RecordsGuard([p]) == RecordsGuard([]) by {
      assert [p, p][1..] == [p] && [p][1..] == [];
    }
    TwoRecordBody(p);
    hide RequestBytes, Encoded, Batch.Body, Valid;
    SentValidExactly(r);
  }

  lemma TwoRecordBody(p: seq<Byte>)
    ensures |Batch.Body([p, p])| == 11 + 2 * |p|
  {
    hide Le;
    Batch.FlatEmpty();
    Batch.FlatCons(p, []);
    Batch.FlatCons(p, [p]);
    assert [p] + [] == [p] && [p] + [p] == [p, p];
    hide Batch.Flat;
  }
}
