/**
 * Whole runs of one client against a peer that may send anything and a transport that may
 * fail anywhere: no reply is ever taken for another request's, and a client that has lost
 * its place never touches the stream again.
 */
module ClientRuns {
  import opened Bytes
  import opened Wrappers
  import opened Frame
  import opened Protocol
  import AckBatch
  import Coordinate
  import Crc32

  /** A call under its faults, or a change of the default tier, which touches no stream. */
  datatype Step = Step(call: Invocation, faults: Faults) | SetDefault(tier: Byte)

  function After(c: Conn, s: Step): Conn {
    match s
    case Step(call, faults) => Call(c, call, faults).0
    case SetDefault(tier) => c.(tier := Some(tier))
  }

  /** The connection after every step of a run. */
  function Run(c: Conn, steps: seq<Step>): Conn
    decreases |steps|
  {
    if steps == [] then c else After(Run(c, steps[..|steps| - 1]), steps[|steps| - 1])
  }

  /** What step `k` returned to its caller. */
  function OutcomeAt(c: Conn, steps: seq<Step>, k: nat): Outcome
    requires k < |steps| && steps[k].Step?
  {
    Call(Run(c, steps[..k]), steps[k].call, steps[k].faults).1
  }

  /** The request a call puts on the wire, if it gets that far. */
  function SentBy(c: Conn, v: Invocation): Option<Request> {
    match Resolved(c.tier, v)
    case Err(_) => None
    case Ok(r) => if Usable(c) && LocalGuard(r).None? then Some(r) else None
  }

  /** The reply frame a call reads off the stream, if it reads one. */
  function TakenBy(c: Conn, v: Invocation, f: Faults): Option<Frame> {
    match SentBy(c, v)
    case None => None
    case Some(r) =>
      if !f.writeOk && r.HealthCheck? then None
      else match ReadReply(c.unread, f.budget)
        case Got(reply, _) => Some(reply)
        case Lost(_) => None
  }

  function TakenIn(c: Conn, s: Step): Option<Frame> {
    match s
    case Step(call, faults) => TakenBy(c, call, faults)
    case SetDefault(_) => None
  }

  /** Every reply a run has read, in order. */
  function Replies(c: Conn, steps: seq<Step>): seq<Frame>
    decreases |steps|
  {
    if steps == [] then []
    else
      var n := |steps| - 1;
      match TakenIn(Run(c, steps[..n]), steps[n])
      case None => Replies(c, steps[..n])
      case Some(f) => Replies(c, steps[..n]) + [f]
  }

  /** The bytes of a sequence of frames. */
  function Stream(fs: seq<Frame>): seq<Byte> {
    if fs == [] then [] else Encoded(fs[0]) + Stream(fs[1..])
  }

  ghost predicate AllReplies(fs: seq<Frame>) {
    forall i :: 0 <= i < |fs| ==> ValidReply(fs[i])
  }

  lemma {:induction false} StreamSnoc(fs: seq<Frame>, f: Frame)
    ensures Stream(fs + [f]) == Stream(fs) + Encoded(f)
  {
    hide Encoded;
    if fs == [] {
      assert (fs + [f])[1..] == [];
    } else {
      StreamSnoc(fs[1..], f);
      assert (fs + [f])[1..] == fs[1..] + [f];
    }
  }

  // ---- One step

  /** A call that sends nothing changes nothing. */
  lemma SilentCall(c: Conn, v: Invocation, f: Faults)
    requires SentBy(c, v).None?
    ensures Call(c, v, f).0 == c && Call(c, v, f).1.Failed?
  {
  }

  /** A call that sends leaves a usable client only on the far side of exactly one whole reply. */
  lemma SendingCall(c: Conn, v: Invocation, f: Faults)
    requires SentBy(c, v).Some?
    ensures var r, c', t := SentBy(c, v).value, Call(c, v, f).0, TakenBy(c, v, f);
            && c'.written == c.written + [RequestBytes(r)]
            && (t.Some? ==> ValidReply(t.value) && c.unread == Encoded(t.value) + c'.unread)
            && (Usable(c') || !Call(c, v, f).1.Failed? ==> f.writeOk && t.Some?)
            && (f.writeOk && t.Some? ==> Call(c, v, f).1 == Interpret(r, t.value).0)
  {
    hide RequestBytes, Encoded, Interpret, ReadReply, LocalGuard;
    if TakenBy(c, v, f).Some? {
      var reply, n := ReadReply(c.unread, f.budget).frame, ReadReply(c.unread, f.budget).len;
      ReadReplyExact(c.unread, f.budget, reply, n);
      GotIsConsumed(c.unread, f.budget);
      assert c.unread == c.unread[..n] + c.unread[n..];
    }
  }

  // ---- Whole runs

  /** Usable: on a frame boundary, one reply per request. Not usable: at most the last request went unanswered. */
  ghost predicate Aligned(c0: Conn, steps: seq<Step>) {
    var c, rs := Run(c0, steps), Replies(c0, steps);
    && AllReplies(rs)
    && |rs| <= |c.written|
    && Stream(rs) <= c0.unread
    && (Usable(c) ==> |c.written| == |rs| && c0.unread == Stream(rs) + c.unread)
  }

  ghost predicate Fresh(c: Conn) {
    Usable(c) && c.written == []
  }

  lemma {:induction false} RunAligned(c0: Conn, steps: seq<Step>)
    requires Fresh(c0)
    ensures Aligned(c0, steps)
    decreases |steps|
  {
    hide Encoded, Call, SentBy, TakenBy, ValidReply;
    if steps != [] {
      var n := |steps| - 1;
      RunAligned(c0, steps[..n]);
      AlignedStep(c0, steps, n);
    }
  }

  lemma AlignedStep(c0: Conn, steps: seq<Step>, n: nat)
    requires |steps| == n + 1 && Aligned(c0, steps[..n])
    ensures Aligned(c0, steps)
  {
    hide Encoded, Call, ValidReply, RequestBytes, Interpret, ReadReply, LocalGuard;
    if steps[n].SetDefault? {
      return;
    }
    var c, rs, v, f := Run(c0, steps[..n]), Replies(c0, steps[..n]), steps[n].call, steps[n].faults;
    if SentBy(c, v).None? {
      SilentCall(c, v, f);
    } else {
      SendingCall(c, v, f);
      var c' := Call(c, v, f).0;
      if TakenBy(c, v, f).Some? {
        var t := TakenBy(c, v, f).value;
        StreamSnoc(rs, t);
        assert c0.unread == Stream(rs) + (Encoded(t) + c'.unread) == Stream(rs + [t]) + c'.unread;
      }
    }
  }

  /** The i-th reply read is the i-th frame of any stream of frames the peer's bytes begin with. */
  lemma {:induction false} StreamsAgree(rs: seq<Frame>, x: seq<Byte>, gs: seq<Frame>, y: seq<Byte>, i: nat)
    requires forall j :: 0 <= j < |rs| ==> Valid(rs[j])
    requires forall j :: 0 <= j < |gs| ==> Valid(gs[j])
    requires Stream(rs) + x == Stream(gs) + y && i < |rs| && i < |gs|
    ensures rs[i] == gs[i]
    decreases i
  {
    hide Encoded, Valid;
    var r, g := rs[0], gs[0];
    assert Stream(rs) + x == Encoded(r) + (Stream(rs[1..]) + x);
    assert Stream(gs) + y == Encoded(g) + (Stream(gs[1..]) + y);
    FramesPrefixFree(r, Stream(rs[1..]) + x, g, Stream(gs[1..]) + y);
    if i > 0 {
      StreamsAgree(rs[1..], x, gs[1..], y, i - 1);
    }
  }

  lemma {:induction false} RepliesGrow(c0: Conn, steps: seq<Step>, k: nat)
    requires k <= |steps|
    ensures Replies(c0, steps[..k]) <= Replies(c0, steps)
    decreases |steps|
  {
    hide Run, TakenBy;
    if k < |steps| {
      var n := |steps| - 1;
      RepliesGrow(c0, steps[..n], k);
      assert steps[..n][..k] == steps[..k];
    } else {
      assert steps[..k] == steps;
    }
  }

  /**
   * No misattribution. Whenever a call succeeds, it was decided by the reply frame whose place in
   * the peer's stream is the place of its request among the requests sent; so if the peer answers
   * request i with frame gs[i], the caller of request i is told what gs[i] says and nothing else.
   */
  lemma OwnReplyDecides(c0: Conn, steps: seq<Step>, k: nat, gs: seq<Frame>, tail: seq<Byte>)
    requires Fresh(c0) && k < |steps| && steps[k].Step? && !OutcomeAt(c0, steps, k).Failed?
    requires c0.unread == Stream(gs) + tail && forall j :: 0 <= j < |gs| ==> Valid(gs[j])
    ensures var c := Run(c0, steps[..k]); var i := |c.written|;
            && SentBy(c, steps[k].call).Some?
            && i < |Replies(c0, steps)| && ValidReply(Replies(c0, steps)[i])
            && OutcomeAt(c0, steps, k) == Interpret(SentBy(c, steps[k].call).value, Replies(c0, steps)[i]).0
            && (i < |gs| ==> OutcomeAt(c0, steps, k) == Interpret(SentBy(c, steps[k].call).value, gs[i]).0)
  {
    hide Encoded, Call, RequestBytes, Interpret, ReadReply, LocalGuard, Valid;
    var c, v, f := Run(c0, steps[..k]), steps[k].call, steps[k].faults;
    if SentBy(c, v).None? {
      SilentCall(c, v, f);
    }
    SendingCall(c, v, f);
    RunAligned(c0, steps[..k]);
    var i, upTo := |c.written|, steps[..k + 1];
    assert upTo[..k] == steps[..k];
    RunAligned(c0, upTo);
    RepliesGrow(c0, steps, k + 1);
    var rs := Replies(c0, upTo);
    if i < |gs| {
      assert c0.unread == Stream(rs) + c0.unread[|Stream(rs)|..];
      StreamsAgree(rs, c0.unread[|Stream(rs)|..], gs, tail, i);
    }
  }

  /** Once unusable, a client stays so: no later call reads, writes or recovers; only its default tier can change. */
  lemma {:induction false} UnusableIsFinal(c0: Conn, steps: seq<Step>, k: nat)
    requires k <= |steps| && !Usable(Run(c0, steps[..k]))
    ensures Run(c0, steps) == Run(c0, steps[..k]).(tier := Run(c0, steps).tier)
    ensures forall j :: k <= j < |steps| && steps[j].Step? ==> OutcomeAt(c0, steps, j).Failed?
    decreases |steps|
  {
    hide Call, ReadReply, LocalGuard;
    if k < |steps| {
      var n := |steps| - 1;
      assert steps[..n][..k] == steps[..k];
      UnusableIsFinal(c0, steps[..n], k);
      if steps[n].Step? {
        SilentCall(Run(c0, steps[..n]), steps[n].call, steps[n].faults);
      }
      forall j | k <= j < |steps| && steps[j].Step?
        ensures OutcomeAt(c0, steps, j).Failed?
      {
        if j < n {
          assert steps[..n][j].Step? && OutcomeAt(c0, steps[..n], j).Failed?;
          assert steps[..n][..j] == steps[..j];
        }
      }
    } else {
      assert steps[..k] == steps;
    }
  }

  // ---- Errors and usability

  /** The write failed, but the peer's transient Nack had already been received. */
  predicate BufferedTransientNack(c: Conn, v: Invocation, f: Faults) {
    && SentBy(c, v).Some? && !SentBy(c, v).value.HealthCheck? && !f.writeOk
    && ReadReply(c.unread, f.budget).Got?
    && ReadReply(c.unread, f.budget).frame.messageType == NACK
    && NackError(ReadReply(c.unread, f.budget).frame.payload) == Nack(INTERNAL_ERROR)
  }

  /** A default-tier call without a default is refused as recoverable before usability is looked at. */
  predicate UncheckedDefault(c: Conn, v: Invocation) {
    Resolved(c.tier, v).Err? && !Usable(c)
  }

  lemma GuardErrorsRecoverable(r: Request)
    ensures LocalGuard(r).Some? ==> IsRecoverable(LocalGuard(r).value)
  {
    if r.PushBatch? {
      RecordsGuardRecoverable(r.records);
    }
  }

  lemma {:induction false} RecordsGuardRecoverable(rs: seq<seq<Byte>>)
    ensures RecordsGuard(rs).Some? ==> IsRecoverable(RecordsGuard(rs).value)
  {
    if rs != [] {
      RecordsGuardRecoverable(rs[1..]);
    }
  }

  /**
   * The documentation promises that after a failed call the client is usable exactly when the error
   * is recoverable. That holds except on two paths, and on both of them it fails.
   */
  lemma RecoverableExactly(c: Conn, v: Invocation, f: Faults)
    requires Call(c, v, f).1.Failed?
    ensures (Usable(Call(c, v, f).0) <==> IsRecoverable(Call(c, v, f).1.error))
            <==> !BufferedTransientNack(c, v, f) && !UncheckedDefault(c, v)
  {
    hide RequestBytes, ReadReply, LocalGuard, AckBatch.DecodeAckBatch, Coordinate.DecodeRust;
    if Resolved(c.tier, v).Ok? {
      GuardErrorsRecoverable(Resolved(c.tier, v).value);
    }
    ReadErrors(c.unread, f.budget);
  }

  /** A step that costs a usable client its connection. */
  predicate Fatal(c: Conn, s: Step) {
    && s.Step? && Call(c, s.call, s.faults).1.Failed?
    && (!IsRecoverable(Call(c, s.call, s.faults).1.error) || BufferedTransientNack(c, s.call, s.faults))
  }

  lemma FatalStep(c: Conn, s: Step)
    requires Usable(c)
    ensures Usable(After(c, s)) <==> !Fatal(c, s)
  {
    hide Call, BufferedTransientNack;
    if s.Step? {
      if Call(c, s.call, s.faults).1.Failed? {
        RecoverableExactly(c, s.call, s.faults);
        TransientIsRecoverable(c, s.call, s.faults);
      } else {
        SuccessKeeps(c, s.call, s.faults);
      }
    }
  }

  lemma SuccessKeeps(c: Conn, v: Invocation, f: Faults)
    requires Usable(c) && !Call(c, v, f).1.Failed?
    ensures Usable(Call(c, v, f).0)
  {
    hide RequestBytes, ReadReply, LocalGuard, AckBatch.DecodeAckBatch, Coordinate.DecodeRust;
  }

  lemma TransientIsRecoverable(c: Conn, v: Invocation, f: Faults)
    ensures BufferedTransientNack(c, v, f) ==>
            Call(c, v, f).1 == Failed(Nack(INTERNAL_ERROR)) && !Usable(Call(c, v, f).0)
  {
    hide RequestBytes, ReadReply, NackError;
  }

  /**
   * What `is_poisoned` tells a caller who has been using the client from its start: it is true exactly
   * when some call so far failed with an error that is not recoverable, or met a transient Nack
   * behind a failed write.
   */
  lemma {:induction false} PoisonedExactly(c0: Conn, steps: seq<Step>)
    requires Usable(c0)
    ensures !Usable(Run(c0, steps)) <==> exists k :: 0 <= k < |steps| && FatalAt(c0, steps, k)
    decreases |steps|
  {
    hide After, Fatal;
    if steps != [] {
      var n := |steps| - 1;
      PoisonedExactly(c0, steps[..n]);
      forall k | 0 <= k < n
        ensures FatalAt(c0, steps, k) <==> FatalAt(c0, steps[..n], k)
      {
        assert steps[..n][..k] == steps[..k];
      }
      if Usable(Run(c0, steps[..n])) {
        FatalStep(Run(c0, steps[..n]), steps[n]);
        assert FatalAt(c0, steps, n) <==> Fatal(Run(c0, steps[..n]), steps[n]);
      } else {
        UnusableIsFinal(c0, steps, n);
        var k :| 0 <= k < n && FatalAt(c0, steps[..n], k);
        assert FatalAt(c0, steps, k);
      }
    }
  }

  predicate FatalAt(c0: Conn, steps: seq<Step>, k: nat)
    requires k < |steps|
  {
    Fatal(Run(c0, steps[..k]), steps[k])
  }

  lemma ReadErrors(unread: seq<Byte>, budget: nat)
    ensures ReadReply(unread, budget).Lost? ==> !IsRecoverable(ReadReply(unread, budget).error)
  {
    hide CheckHeader, Crc32.Sealed;
  }

  const TRANSIENT_NACK: Frame := Frame(WIRE_VERSION, NACK, DURABLE, 0, [INTERNAL_ERROR])

  lemma TransientNackIsRead()
    ensures ReadReply(Encoded(TRANSIENT_NACK), |Encoded(TRANSIENT_NACK)|) == Got(TRANSIENT_NACK, |Encoded(TRANSIENT_NACK)|)
  {
    hide Encoded, ReadReply;
    ReadReplyExact(Encoded(TRANSIENT_NACK), |Encoded(TRANSIENT_NACK)|, TRANSIENT_NACK, |Encoded(TRANSIENT_NACK)|);
  }

  /** One input on which each exceptional path is taken, and recoverability misreports usability. */
  lemma ExceptionsHappen() returns (c: Conn, f: Faults, d: Conn)
    ensures BufferedTransientNack(c, Plain(Push([1], DURABLE)), f)
    ensures Call(c, Plain(Push([1], DURABLE)), f).1 == Failed(Nack(INTERNAL_ERROR))
    ensures !Usable(Call(c, Plain(Push([1], DURABLE)), f).0)
    ensures UncheckedDefault(d, PushDefault([1])) && Call(d, PushDefault([1]), f) == (d, Failed(NoDefaultDurability))
  {
    hide Encoded, ReadReply, RequestBytes, Interpret;
    c := Conn(false, false, None, Encoded(TRANSIENT_NACK), []);
    f := Faults(false, |Encoded(TRANSIENT_NACK)|);
    d := c.(poisoned := true);
    TransientNackIsRead();
  }
}
