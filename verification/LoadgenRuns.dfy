/**
 * What holds over every run of the load generator: no record is lost or doubled between the
 * counter and the ledger, and how many can be missing from the ledger at once.
 */
module LoadgenRuns {
  import opened LedgerLine
  import opened Loadgen
  import opened Disk

  // ---- Which records are where

  function One(b: bool): nat {
    if b then 1 else 0
  }

  /** How many of these entries are for record `s`. */
  function Count(entries: seq<Entry>, s: nat): nat {
    if entries == [] then 0
    else Count(entries[..|entries| - 1], s) + One(entries[|entries| - 1].seqNo == s)
  }

  /** A batch has been taken and not yet settled. */
  predicate InFlight(pc: Pc) {
    pc.Pushing? || (pc.Panicked? && pc.at.Pushing?)
  }

  function BaseOf(pc: Pc): nat
    requires InFlight(pc)
  {
    if pc.Pushing? then pc.base else pc.at.base
  }

  /** How often a thread holds record `s`: taken from the counter and not yet confirmed in the ledger. */
  function Held(cfg: Config, t: Thread, s: nat): nat {
    Count(t.pending, s) + One(InFlight(t.pc) && BaseOf(t.pc) <= s < BaseOf(t.pc) + cfg.batch)
  }

  function HeldAll(cfg: Config, ts: seq<Thread>, s: nat): nat {
    if ts == [] then 0 else HeldAll(cfg, ts[..|ts| - 1], s) + Held(cfg, ts[|ts| - 1], s)
  }

  /** How many records a thread holds. */
  function Out(cfg: Config, t: Thread): nat {
    |t.pending| + if InFlight(t.pc) then cfg.batch else 0
  }

  function OutAll(cfg: Config, ts: seq<Thread>): nat {
    if ts == [] then 0 else OutAll(cfg, ts[..|ts| - 1]) + Out(cfg, ts[|ts| - 1])
  }

  lemma {:induction false} CountAppend(a: seq<Entry>, b: seq<Entry>, s: nat)
    ensures Count(a + b, s) == Count(a, s) + Count(b, s)
    decreases |b|
  {
    if b == [] {
      assert a + b == a;
    } else {
      CountAppend(a, b[..|b| - 1], s);
      assert (a + b)[..|a + b| - 1] == a + b[..|b| - 1];
    }
  }

  lemma {:induction false} CountEntries(
    cfg: Config, base: nat, outcomes: seq<Outcome>, tMicros: nat, rttMicros: nat, s: nat)
    ensures Count(Entries(cfg, base, outcomes, tMicros, rttMicros), s) == One(base <= s < base + |outcomes|)
    decreases |outcomes|
  {
    if outcomes != [] {
      var n := |outcomes| - 1;
      CountEntries(cfg, base, outcomes[..n], tMicros, rttMicros, s);
      assert Entries(cfg, base, outcomes, tMicros, rttMicros)[..n] == Entries(cfg, base, outcomes[..n], tMicros, rttMicros);
    }
  }

  /** A step of one thread changes what is held by exactly what that thread's share changes. */
  lemma {:induction false} Swap(cfg: Config, ts: seq<Thread>, i: nat, t: Thread, s: nat)
    requires i < |ts|
    ensures HeldAll(cfg, ts[i := t], s) + Held(cfg, ts[i], s) == HeldAll(cfg, ts, s) + Held(cfg, t, s)
    ensures OutAll(cfg, ts[i := t]) + Out(cfg, ts[i]) == OutAll(cfg, ts) + Out(cfg, t)
    decreases |ts|
  {
    hide Held, Out;
    var n := |ts| - 1;
    if i == n {
      assert ts[i := t][..n] == ts[..n];
    } else {
      Swap(cfg, ts[..n], i, t, s);
      assert ts[i := t][..n] == ts[..n][i := t];
      assert ts[i := t][n] == ts[n];
    }
  }

  // ---- How much a thread can hold

  /** Where a buffer of `n` comes to rest when whole batches are added until the threshold is met. */
  function RestFrom(n: nat, batch: nat): (m: nat)
    requires batch > 0
    ensures m >= n && m >= FLUSH_THRESHOLD
    decreases if n < FLUSH_THRESHOLD then FLUSH_THRESHOLD - n else 0
  {
    if n >= FLUSH_THRESHOLD then n else RestFrom(n + batch, batch)
  }

  /** The most one thread can hold. */
  function Peak(batch: nat): nat
    requires batch > 0
  {
    RestFrom(0, batch)
  }

  predicate ThreadOk(cfg: Config, fatal: bool, t: Thread)
    requires cfg.batch > 0
  {
    && RestFrom(|t.pending|, cfg.batch) == Peak(cfg.batch)
    && (t.pc.Top? || InFlight(t.pc) ==> |t.pending| < FLUSH_THRESHOLD)
    && (t.pc.Done? && !fatal ==> t.pending == [])
  }

  ghost predicate Accounted(cfg: Config, g: Gen, s: nat) {
    Count(g.rows, s) + HeldAll(cfg, g.threads, s) == One(s < g.counter)
  }

  ghost predicate Inv(cfg: Config, g: Gen)
    requires cfg.batch > 0
  {
    && |g.threads| == cfg.threads
    && (forall s: nat :: Accounted(cfg, g, s))
    && |g.rows| + OutAll(cfg, g.threads) == g.counter
    && (forall i :: 0 <= i < |g.threads| ==> ThreadOk(cfg, g.sink.fatal, g.threads[i]))
    && (!g.sink.fatal && !AnyPanicked(g) ==> g.sink.file == cfg.prior + Serialised(g.rows))
  }

  lemma {:induction false} NobodyHolds(cfg: Config, n: nat, s: nat)
    ensures HeldAll(cfg, seq(n, _ => Thread(Top, [])), s) == 0 && OutAll(cfg, seq(n, _ => Thread(Top, []))) == 0
  {
    if n > 0 {
      var ts := seq(n, _ => Thread(Top, []));
      NobodyHolds(cfg, n - 1, s);
      assert ts[..n - 1] == seq(n - 1, _ => Thread(Top, []));
    }
  }

  lemma StartInv(cfg: Config)
    requires cfg.batch > 0
    ensures Inv(cfg, Start(cfg))
  {
    forall s: nat
      ensures Accounted(cfg, Start(cfg), s)
    {
      NobodyHolds(cfg, cfg.threads, s);
    }
    NobodyHolds(cfg, cfg.threads, 0);
    assert cfg.prior + Serialised([]) == cfg.prior;
  }

  /** What a step puts in the acting thread's place. */
  function Acted(cfg: Config, g: Gen, a: Action): Thread
    requires Enabled(cfg, g, a)
  {
    Next(cfg, g, a).threads[a.i]
  }

  lemma OnlyOneMoves(cfg: Config, g: Gen, a: Action)
    requires Enabled(cfg, g, a)
    ensures Next(cfg, g, a).threads == g.threads[a.i := Acted(cfg, g, a)]
  {
    hide Entries, Serialised, Written;
  }

  lemma FlushBalance(cfg: Config, g: Gen, i: nat, io: Io, after: Pc, failed: Pc, s: nat)
    requires i < |g.threads| && !InFlight(g.threads[i].pc) && !InFlight(after) && !InFlight(failed)
    ensures var g' := FlushThread(g, i, io, after, failed);
            Count(g'.rows, s) + Held(cfg, g'.threads[i], s) == Count(g.rows, s) + Held(cfg, g.threads[i], s)
  {
    hide Serialised, Written;
    assert g.rows + [] == g.rows;
    CountAppend(g.rows, g.threads[i].pending, s);
  }

  /** Rows gained, plus what the thread holds after, is what it held before plus what it took. */
  lemma LocalBalance(cfg: Config, g: Gen, a: Action, s: nat)
    requires Enabled(cfg, g, a)
    ensures var g' := Next(cfg, g, a);
            Count(g'.rows, s) + Held(cfg, Acted(cfg, g, a), s) - One(s < g'.counter)
            == Count(g.rows, s) + Held(cfg, g.threads[a.i], s) - One(s < g.counter)
  {
    var t := g.threads[a.i];
    match a
    case Settle(i, outcomes, tMicros, rttMicros) =>
      CountEntries(cfg, t.pc.base, outcomes, tMicros, rttMicros, s);
      CountAppend(t.pending, Entries(cfg, t.pc.base, outcomes, tMicros, rttMicros), s);
    case Flush(i, io) => FlushBalance(cfg, g, i, io, Top, Leaving, s);
    case LastFlush(i, io) => FlushBalance(cfg, g, i, io, Done, Done, s);
    case _ =>
    hide Serialised, Written, FlushThread, Count, Entries;
  }

  /** What a settled batch adds to its thread's buffer: record k under number base + k, with its own outcome. */
  lemma SettledRows(cfg: Config, g: Gen, i: nat, outcomes: seq<Outcome>, tMicros: nat, rttMicros: nat, k: nat)
    requires Enabled(cfg, g, Settle(i, outcomes, tMicros, rttMicros)) && k < cfg.batch
    ensures var was, now := g.threads[i], Next(cfg, g, Settle(i, outcomes, tMicros, rttMicros)).threads[i];
            && now.pc.Deciding? && |now.pending| == |was.pending| + cfg.batch && was.pending <= now.pending
            && var e := now.pending[|was.pending| + k];
               && e.seqNo == was.pc.base + k && e.tier == cfg.tier && e.outcome == outcomes[k]
               && e.tMicros == tMicros && e.rttMicros == rttMicros
  {
  }

  lemma LocalSize(cfg: Config, g: Gen, a: Action)
    requires Enabled(cfg, g, a)
    ensures var g' := Next(cfg, g, a);
            |g'.rows| + Out(cfg, Acted(cfg, g, a)) - g'.counter == |g.rows| + Out(cfg, g.threads[a.i]) - g.counter
  {
    hide Serialised, Written;
  }

  lemma LocalOk(cfg: Config, g: Gen, a: Action)
    requires Enabled(cfg, g, a) && cfg.batch > 0 && ThreadOk(cfg, g.sink.fatal, g.threads[a.i])
    ensures ThreadOk(cfg, Next(cfg, g, a).sink.fatal, Acted(cfg, g, a))
    ensures g.sink.fatal ==> Next(cfg, g, a).sink.fatal
  {
    hide Serialised, Written;
  }

  lemma Rejoin(a: string, b: string, c: string)
    ensures a + b + c == a + (b + c)
  {
  }

  lemma FlushFile(cfg: Config, g: Gen, i: nat, io: Io, after: Pc, failed: Pc)
    requires i < |g.threads| && g.sink.file == cfg.prior + Serialised(g.rows)
    ensures var g' := FlushThread(g, i, io, after, failed); !g'.sink.fatal ==> g'.sink.file == cfg.prior + Serialised(g'.rows)
  {
    var pending := g.threads[i].pending;
    SerialisedAppend(g.rows, pending);
    hide Serialised;
    assert g.rows + [] == g.rows;
    Rejoin(cfg.prior, Serialised(g.rows), Serialised(pending));
  }

  lemma FatalStays(g: Gen, i: nat, io: Io, after: Pc, failed: Pc)
    requires i < |g.threads| && g.sink.fatal
    ensures FlushThread(g, i, io, after, failed).sink.fatal
  {
  }

  /** While nothing has failed, the file is what it held before and exactly the confirmed rows. */
  lemma FileStep(cfg: Config, g: Gen, a: Action)
    requires Enabled(cfg, g, a)
    requires !g.sink.fatal && !AnyPanicked(g) ==> g.sink.file == cfg.prior + Serialised(g.rows)
    ensures var g' := Next(cfg, g, a); !g'.sink.fatal && !AnyPanicked(g') ==> g'.sink.file == cfg.prior + Serialised(g'.rows)
  {
    PanicIsFinal(cfg, g, a);
    hide Serialised, AnyPanicked, Entries, FlushThread, Written;
    match a
    case Flush(i, io) =>
      if g.sink.fatal {
        FatalStays(g, i, io, Top, Leaving);
      } else if !AnyPanicked(g) {
        FlushFile(cfg, g, i, io, Top, Leaving);
      }
    case LastFlush(i, io) =>
      if g.sink.fatal {
        FatalStays(g, i, io, Done, Done);
      } else if !AnyPanicked(g) {
        FlushFile(cfg, g, i, io, Done, Done);
      }
    case _ =>
  }

  lemma PanicIsFinal(cfg: Config, g: Gen, a: Action)
    requires Enabled(cfg, g, a)
    ensures AnyPanicked(g) || a.Panic? ==> AnyPanicked(Next(cfg, g, a))
  {
    OnlyOneMoves(cfg, g, a);
    var g' := Next(cfg, g, a);
    if AnyPanicked(g) {
      var i :| 0 <= i < |g.threads| && g.threads[i].pc.Panicked?;
      assert g'.threads[i] == g.threads[i];
    } else if a.Panic? {
      assert g'.threads[a.i].pc.Panicked?;
    }
    hide Serialised, Entries, Written;
  }

  lemma StepInv(cfg: Config, g: Gen, a: Action)
    requires cfg.batch > 0 && Inv(cfg, g) && Enabled(cfg, g, a)
    ensures Inv(cfg, Next(cfg, g, a))
  {
    var g' := Next(cfg, g, a);
    OnlyOneMoves(cfg, g, a);
    LocalSize(cfg, g, a);
    LocalOk(cfg, g, a);
    FileStep(cfg, g, a);
    Swap(cfg, g.threads, a.i, Acted(cfg, g, a), 0);
    hide Next, Acted, Held, HeldAll, Out, OutAll, ThreadOk, Count, AnyPanicked, Serialised, Enabled;
    forall s: nat
      ensures Accounted(cfg, g', s)
    {
      LocalBalance(cfg, g, a, s);
      Swap(cfg, g.threads, a.i, Acted(cfg, g, a), s);
      assert Accounted(cfg, g, s);
    }
    forall i | 0 <= i < |g'.threads|
      ensures ThreadOk(cfg, g'.sink.fatal, g'.threads[i])
    {
      if i != a.i {
        assert g'.threads[i] == g.threads[i];
        FatalIsWeaker(cfg, g.sink.fatal, g'.sink.fatal, g.threads[i]);
      }
    }
  }

  lemma FatalIsWeaker(cfg: Config, before: bool, after: bool, t: Thread)
    requires cfg.batch > 0 && ThreadOk(cfg, before, t) && (before ==> after)
    ensures ThreadOk(cfg, after, t)
  {
  }

  lemma {:induction false} RunInv(cfg: Config, run: seq<Action>)
    requires cfg.batch > 0 && Legal(cfg, run)
    ensures Inv(cfg, After(cfg, run))
    decreases |run|
  {
    if run == [] {
      StartInv(cfg);
    } else {
      RunInv(cfg, run[..|run| - 1]);
      StepInv(cfg, After(cfg, run[..|run| - 1]), run[|run| - 1]);
    }
  }
}
