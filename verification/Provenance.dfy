/**
 * Where ledger rows come from: the load generator's threads settle their batches with what their
 * clients returned, so an acknowledged row in the ledger goes back to one reply on one connection.
 */
module Provenance {
  import opened Bytes
  import opened Frame
  import LedgerLine
  import DeliveryLine
  import Protocol
  import Producer
  import ClientRuns
  import opened Disk
  import opened Loadgen
  import opened LoadgenRuns

  // ---- Every entry was settled by some step

  /** The first sequence number of the batch step `t` settles. */
  function BaseAt(cfg: Config, run: seq<Action>, t: nat): nat
    requires t < |run|
  {
    if !Legal(cfg, run[..t]) then 0
    else
      var g := After(cfg, run[..t]);
      if run[t].i < |g.threads| && g.threads[run[t].i].pc.Pushing? then g.threads[run[t].i].pc.base else 0
  }

  /** Entry `e` is record `q` of the batch step `t` settled. */
  predicate SettledBy(cfg: Config, run: seq<Action>, e: LedgerLine.Entry, t: nat, q: nat) {
    && t < |run| && run[t].Settle? && q < |run[t].outcomes|
    && e.outcome == run[t].outcomes[q] && e.seqNo == BaseAt(cfg, run, t) + q
  }

  ghost predicate HasSource(cfg: Config, run: seq<Action>, e: LedgerLine.Entry) {
    exists t: nat, q: nat :: SettledBy(cfg, run, e, t, q)
  }

  ghost predicate Settled(cfg: Config, run: seq<Action>, entries: seq<LedgerLine.Entry>) {
    forall k :: 0 <= k < |entries| ==> HasSource(cfg, run, entries[k])
  }

  ghost predicate AllSettled(cfg: Config, run: seq<Action>, g: Gen) {
    Settled(cfg, run, g.rows) && forall i :: 0 <= i < |g.threads| ==> Settled(cfg, run, g.threads[i].pending)
  }

  lemma SettledStays(cfg: Config, run: seq<Action>, entries: seq<LedgerLine.Entry>)
    requires run != [] && Settled(cfg, run[..|run| - 1], entries)
    ensures Settled(cfg, run, entries)
  {
    var n := |run| - 1;
    forall k | 0 <= k < |entries|
      ensures HasSource(cfg, run, entries[k])
    {
      assert HasSource(cfg, run[..n], entries[k]);
      var t: nat, q: nat :| SettledBy(cfg, run[..n], entries[k], t, q);
      assert run[..n][..t] == run[..t];
      assert SettledBy(cfg, run, entries[k], t, q);
    }
  }

  lemma SettledTogether(cfg: Config, run: seq<Action>, a: seq<LedgerLine.Entry>, b: seq<LedgerLine.Entry>)
    requires Settled(cfg, run, a) && Settled(cfg, run, b)
    ensures Settled(cfg, run, a + b)
  {
    hide HasSource;
    forall k | 0 <= k < |a + b|
      ensures HasSource(cfg, run, (a + b)[k])
    {
      assert (a + b)[k] == if k < |a| then a[k] else b[k - |a|];
    }
  }

  /** The entries a settling step makes. */
  lemma SettledNow(cfg: Config, run: seq<Action>)
    requires run != [] && Legal(cfg, run) && run[|run| - 1].Settle?
    ensures var n := |run| - 1; var a, g := run[n], After(cfg, run[..n]);
      Settled(cfg, run, Entries(cfg, g.threads[a.i].pc.base, a.outcomes, a.tMicros, a.rttMicros))
  {
    var n := |run| - 1;
    var a, g := run[n], After(cfg, run[..n]);
    var entries := Entries(cfg, g.threads[a.i].pc.base, a.outcomes, a.tMicros, a.rttMicros);
    hide Legal, After;
    forall k | 0 <= k < |entries|
      ensures HasSource(cfg, run, entries[k])
    {
      assert SettledBy(cfg, run, entries[k], n, k);
    }
  }

  /** What a step leaves in the rows and in the acting thread's buffer was there, or is what it settled. */
  lemma StepSources(cfg: Config, g: Gen, a: Action)
    requires Enabled(cfg, g, a)
    ensures var g', pending := Next(cfg, g, a), g.threads[a.i].pending;
      && (g'.rows == g.rows || g'.rows == g.rows + pending)
      && (g'.threads[a.i].pending == pending || g'.threads[a.i].pending == []
          || (a.Settle? && g'.threads[a.i].pending
                == pending + Entries(cfg, g.threads[a.i].pc.base, a.outcomes, a.tMicros, a.rttMicros)))
  {
    hide Serialised, Written, Entries;
    assert g.rows + [] == g.rows;
  }

  lemma {:induction false} SettledRun(cfg: Config, run: seq<Action>)
    requires Legal(cfg, run)
    ensures AllSettled(cfg, run, After(cfg, run))
    decreases |run|
  {
    if run != [] {
      SettledRun(cfg, run[..|run| - 1]);
      SettledStep(cfg, run);
    }
  }

  lemma SettledStep(cfg: Config, run: seq<Action>)
    requires run != [] && Legal(cfg, run) && AllSettled(cfg, run[..|run| - 1], After(cfg, run[..|run| - 1]))
    ensures AllSettled(cfg, run, After(cfg, run))
  {
    var n := |run| - 1;
    var a, g, g' := run[n], After(cfg, run[..n]), After(cfg, run);
    var pending := g.threads[a.i].pending;
    assert Enabled(cfg, g, a) && g' == Next(cfg, g, a);
    StepSources(cfg, g, a);
    OnlyOneMoves(cfg, g, a);
    if a.Settle? {
      SettledNow(cfg, run);
    }
    hide Legal, After, Settled, Next, Enabled, Acted, Entries;
    SettledStays(cfg, run, g.rows);
    SettledStays(cfg, run, pending);
    SettledTogether(cfg, run, g.rows, pending);
    if a.Settle? {
      SettledTogether(cfg, run, pending, Entries(cfg, g.threads[a.i].pc.base, a.outcomes, a.tMicros, a.rttMicros));
    }
    NothingSettled(cfg, run);
    forall i | 0 <= i < |g'.threads|
      ensures Settled(cfg, run, g'.threads[i].pending)
    {
      if i != a.i {
        assert g'.threads[i] == g.threads[i];
        SettledStays(cfg, run, g.threads[i].pending);
      }
    }
  }

  lemma NothingSettled(cfg: Config, run: seq<Action>)
    ensures Settled(cfg, run, [])
  {
  }

  // ---- Runs whose threads drive real clients

  function PayloadOf(runId: nat, s: nat, size: nat): seq<Byte> {
    DeliveryLine.ToBytes(DeliveryLine.EncodeRecord(DeliveryLine.Record(runId, s), size))
  }

  function TierByte(tier: char): Byte {
    if tier == 'U' then BUFFERED else DURABLE
  }

  /** What a thread sends for the batch that starts at `base`. */
  function RequestFor(cfg: Config, runId: nat, size: nat, base: nat): Protocol.Request {
    if cfg.batch == 1 then Protocol.Push(PayloadOf(runId, base, size), TierByte(cfg.tier))
    else Protocol.PushBatch(seq(cfg.batch, i requires 0 <= i => PayloadOf(runId, base + i, size)), TierByte(cfg.tier))
  }

  /** `plans[i]` is everything thread `i` attempted; step `t` records what one of those attempts came to. */
  predicate Records(cfg: Config, run: seq<Action>, plans: seq<seq<Producer.Attempt>>, runId: nat, size: nat, t: nat, k: nat)
    requires t < |run| && run[t].Settle?
  {
    && run[t].i < |plans| && k < |plans[run[t].i]|
    && plans[run[t].i][k].request == RequestFor(cfg, runId, size, BaseAt(cfg, run, t))
    && run[t].outcomes == Producer.RowsOf(plans[run[t].i], k)
  }

  ghost predicate Backed(cfg: Config, run: seq<Action>, plans: seq<seq<Producer.Attempt>>, runId: nat, size: nat) {
    forall t: nat :: t < |run| && run[t].Settle? ==> exists k: nat :: Records(cfg, run, plans, runId, size, t, k)
  }

  /** The request asks for the tier its run is configured for. */
  predicate AtTier(r: Protocol.Request, tier: char) {
    !r.HealthCheck? && r.tier == if tier == 'U' then 0x03 else 0x01
  }

  /** Record `q` of the request is this payload. */
  predicate Carries(r: Protocol.Request, q: nat, payload: seq<Byte>) {
    match r
    case Push(p, _) => q == 0 && p == payload
    case PushBatch(records, _) => q < |records| && records[q] == payload
    case _ => false
  }

  lemma RequestCarries(cfg: Config, runId: nat, size: nat, base: nat, o: Protocol.Outcome, q: nat)
    requires q < |Producer.RowsFor(RequestFor(cfg, runId, size, base), o)|
    ensures Carries(RequestFor(cfg, runId, size, base), q, PayloadOf(runId, base + q, size))
    ensures AtTier(RequestFor(cfg, runId, size, base), cfg.tier)
  {
    hide PayloadOf, Producer.Classify;
  }

  /** The peer confirmed record `q` of attempt `k`, in the reply to that very request. */
  predicate ConfirmedInPlace(attempts: seq<Producer.Attempt>, k: nat, q: nat)
    requires k < |attempts|
  {
    var n, rs := Producer.PlaceOf(attempts, k), Producer.RepliesOf(attempts, k);
    n < |rs| && Protocol.ValidReply(rs[n]) && Producer.Confirms(attempts[k].request, rs[n], q)
  }

  lemma AckedInPlace(attempts: seq<Producer.Attempt>, k: nat, q: nat)
    requires k < |attempts| && (attempts[k].request.Push? || attempts[k].request.PushBatch?)
    requires q < |Producer.RowsOf(attempts, k)| && Producer.RowsOf(attempts, k)[q] == LedgerLine.Acked
    ensures ConfirmedInPlace(attempts, k, q)
  {
    hide Producer.RowsOf, Producer.Confirms, Producer.PlaceOf, Producer.RepliesOf, Producer.Opener, Protocol.ValidReply;
    var stream := attempts[Producer.Opener(attempts, k)].stream;
    assert ClientRuns.Stream([]) == [] && [] + stream == stream;
    Producer.AckedByOwnReply(attempts, k, q, [], stream);
  }

  /**
   * An acknowledged row in the ledger was earned: some attempt of some thread carried that very record,
   * and the reply in that request's own place on its own connection confirmed it.
   */
  lemma AckRowEarned(
    cfg: Config, run: seq<Action>, plans: seq<seq<Producer.Attempt>>, runId: nat, size: nat, r: nat)
    returns (i: nat, k: nat, q: nat)
    requires Legal(cfg, run) && Backed(cfg, run, plans, runId, size)
    requires r < |After(cfg, run).rows| && After(cfg, run).rows[r].outcome.Acked?
    ensures i < |plans| && k < |plans[i]|
    ensures Carries(plans[i][k].request, q, PayloadOf(runId, After(cfg, run).rows[r].seqNo, size))
    ensures AtTier(plans[i][k].request, cfg.tier)
    ensures ConfirmedInPlace(plans[i], k, q)
  {
    hide *;
    var t: nat;
    t, q := SourceOf(cfg, run, r);
    k := AttemptOf(cfg, run, plans, runId, size, t);
    i := run[t].i;
    RecordsMeans(cfg, run, plans, runId, size, t, k, q);
  }

  lemma AttemptOf(cfg: Config, run: seq<Action>, plans: seq<seq<Producer.Attempt>>, runId: nat, size: nat, t: nat)
    returns (k: nat)
    requires Backed(cfg, run, plans, runId, size) && t < |run| && run[t].Settle?
    ensures Records(cfg, run, plans, runId, size, t, k)
  {
    hide Records;
    k :| Records(cfg, run, plans, runId, size, t, k);
  }

  lemma SourceOf(cfg: Config, run: seq<Action>, r: nat) returns (t: nat, q: nat)
    requires Legal(cfg, run) && r < |After(cfg, run).rows|
    ensures t < |run| && run[t].Settle? && q < |run[t].outcomes|
    ensures After(cfg, run).rows[r].outcome == run[t].outcomes[q] && After(cfg, run).rows[r].seqNo == BaseAt(cfg, run, t) + q
  {
    SettledRun(cfg, run);
    hide Legal, After;
    var row := After(cfg, run).rows[r];
    assert HasSource(cfg, run, row);
    t, q :| SettledBy(cfg, run, row, t, q);
  }

  lemma RecordsMeans(
    cfg: Config, run: seq<Action>, plans: seq<seq<Producer.Attempt>>, runId: nat, size: nat, t: nat, k: nat, q: nat)
    requires t < |run| && run[t].Settle? && Records(cfg, run, plans, runId, size, t, k)
    requires q < |run[t].outcomes| && run[t].outcomes[q] == LedgerLine.Acked
    ensures run[t].i < |plans| && k < |plans[run[t].i]|
    ensures Carries(plans[run[t].i][k].request, q, PayloadOf(runId, BaseAt(cfg, run, t) + q, size))
    ensures AtTier(plans[run[t].i][k].request, cfg.tier)
    ensures ConfirmedInPlace(plans[run[t].i], k, q)
  {
    hide BaseAt, PayloadOf, ConfirmedInPlace, Producer.RowsFor, Producer.OutcomeOf, TierByte;
    var attempts := plans[run[t].i];
    AckedInPlace(attempts, k, q);
    RequestCarries(cfg, runId, size, BaseAt(cfg, run, t), Producer.OutcomeOf(attempts, k), q);
  }
}
