/**
 * The load generator's exit status and the verifier's frontier: what each does and does not
 * guarantee about records not yet in the ledger.
 */
module LoadgenBounds {
  import opened LedgerLine
  import opened Loadgen
  import opened Disk
  import opened LoadgenRuns

  // ---- A clean exit

  lemma {:induction false} NothingHeld(cfg: Config, ts: seq<Thread>, s: nat)
    requires forall i :: 0 <= i < |ts| ==> ts[i].pc.Done? && ts[i].pending == []
    ensures HeldAll(cfg, ts, s) == 0 && OutAll(cfg, ts) == 0
    decreases |ts|
  {
    if ts != [] {
      NothingHeld(cfg, ts[..|ts| - 1], s);
    }
  }

  /**
   * Exit status 0 means the ledger is complete: every record taken from the counter has exactly one
   * row, and no row is anything else.
   */
  lemma CleanExit(cfg: Config, run: seq<Action>, s: nat)
    requires cfg.batch > 0 && Legal(cfg, run)
    requires Finished(After(cfg, run)) && ExitCode(After(cfg, run)) == 0
    ensures var g := After(cfg, run);
      && g.sink.file == cfg.prior + Serialised(g.rows)
      && |g.rows| == g.counter
      && Count(g.rows, s) == One(s < g.counter)
  {
    var g := After(cfg, run);
    RunInv(cfg, run);
    forall i | 0 <= i < |g.threads|
      ensures g.threads[i].pc.Done? && g.threads[i].pending == []
    {
      assert ThreadOk(cfg, false, g.threads[i]);
    }
    NothingHeld(cfg, g.threads, s);
    assert Accounted(cfg, g, s);
  }

  // ---- How many records can be missing

  /** The verifier's slack. */
  function FrontierSlack(threads: nat, batch: nat): int {
    threads * (FLUSH_THRESHOLD + batch - 1)
  }

  /** Every thread at its most. */
  function MostOut(cfg: Config): int
    requires cfg.batch > 0
  {
    cfg.threads * Peak(cfg.batch)
  }

  lemma ThreadBound(cfg: Config, fatal: bool, t: Thread)
    requires cfg.batch > 0 && ThreadOk(cfg, fatal, t)
    ensures Out(cfg, t) <= Peak(cfg.batch)
  {
  }

  lemma {:induction false} AllBound(cfg: Config, ts: seq<Thread>, most: nat)
    requires forall i :: 0 <= i < |ts| ==> Out(cfg, ts[i]) <= most
    ensures OutAll(cfg, ts) <= |ts| * most
    decreases |ts|
  {
    hide Out;
    if ts != [] {
      AllBound(cfg, ts[..|ts| - 1], most);
      assert |ts| * most == (|ts| - 1) * most + most;
    }
  }

  lemma {:induction false} RestBound(n: nat, batch: nat)
    requires batch > 0 && n < FLUSH_THRESHOLD
    ensures RestFrom(n, batch) <= FLUSH_THRESHOLD + batch - 1
    decreases FLUSH_THRESHOLD - n
  {
    if n + batch < FLUSH_THRESHOLD {
      RestBound(n + batch, batch);
    }
  }

  /** In every reachable state the records not confirmed in the ledger number at most the slack. */
  lemma UnledgeredBound(cfg: Config, run: seq<Action>)
    requires cfg.batch > 0 && Legal(cfg, run)
    ensures var g := After(cfg, run);
      g.counter - |g.rows| <= MostOut(cfg) <= FrontierSlack(cfg.threads, cfg.batch) == cfg.threads * (256 + cfg.batch - 1)
  {
    var g := After(cfg, run);
    RunInv(cfg, run);
    forall i | 0 <= i < |g.threads|
      ensures Out(cfg, g.threads[i]) <= Peak(cfg.batch)
    {
      ThreadBound(cfg, g.sink.fatal, g.threads[i]);
    }
    AllBound(cfg, g.threads, Peak(cfg.batch));
    RestBound(0, cfg.batch);
    TimesMonotone(cfg.threads, Peak(cfg.batch), FLUSH_THRESHOLD + cfg.batch - 1);
  }

  lemma TimesMonotone(n: nat, a: nat, b: nat)
    requires a <= b
    ensures n * a <= n * b
  {
  }

  // ---- The bound is met

  lemma Extend(cfg: Config, run: seq<Action>, a: Action)
    requires Legal(cfg, run) && Enabled(cfg, After(cfg, run), a)
    ensures Legal(cfg, run + [a]) && After(cfg, run + [a]) == Next(cfg, After(cfg, run), a)
  {
    assert (run + [a])[..|run + [a]| - 1] == run;
  }

  function Acks(n: nat): seq<Outcome> {
    seq(n, _ => Acked)
  }

  /** One batch taken, settled and carried in the buffer. */
  lemma Round(cfg: Config, run: seq<Action>, i: nat) returns (run': seq<Action>)
    requires Legal(cfg, run)
    requires var g := After(cfg, run);
      i < |g.threads| && g.threads[i].pc.Top? && |g.threads[i].pending| + cfg.batch < FLUSH_THRESHOLD
    ensures Legal(cfg, run')
    ensures var g, g' := After(cfg, run), After(cfg, run');
      && i < |g'.threads| == |g.threads|
      && (forall j :: 0 <= j < |g.threads| && j != i ==> g'.threads[j] == g.threads[j])
      && g'.threads[i].pc.Top? && |g'.threads[i].pending| == |g.threads[i].pending| + cfg.batch
  {
    var settle := Settle(i, Acks(cfg.batch), 0, 0);
    Extend(cfg, run, Take(i));
    Extend(cfg, run + [Take(i)], settle);
    Extend(cfg, run + [Take(i)] + [settle], Carry(i));
    run' := run + [Take(i)] + [settle] + [Carry(i)];
    hide Legal, After;
  }

  /** A thread left to buffer, with no timer flush, comes to hold its most. */
  lemma {:induction false} Fill(cfg: Config, run: seq<Action>, i: nat) returns (run': seq<Action>)
    requires cfg.batch > 0 && Legal(cfg, run)
    requires var g := After(cfg, run); i < |g.threads| && g.threads[i].pc.Top? && |g.threads[i].pending| < FLUSH_THRESHOLD
    ensures Legal(cfg, run')
    ensures var g, g' := After(cfg, run), After(cfg, run');
      && |g'.threads| == |g.threads|
      && (forall j :: 0 <= j < |g.threads| && j != i ==> g'.threads[j] == g.threads[j])
      && Out(cfg, g'.threads[i]) == RestFrom(|g.threads[i].pending|, cfg.batch)
    decreases FLUSH_THRESHOLD - |After(cfg, run).threads[i].pending|
  {
    hide Legal, After;
    if |After(cfg, run).threads[i].pending| + cfg.batch < FLUSH_THRESHOLD {
      run' := Round(cfg, run, i);
      run' := Fill(cfg, run', i);
    } else {
      Extend(cfg, run, Take(i));
      run' := run + [Take(i)];
    }
  }

  lemma {:induction false} FillAll(cfg: Config, k: nat) returns (run: seq<Action>)
    requires cfg.batch > 0 && k <= cfg.threads
    ensures Legal(cfg, run) && |After(cfg, run).threads| == cfg.threads
    ensures forall j :: 0 <= j < k ==> Out(cfg, After(cfg, run).threads[j]) == Peak(cfg.batch)
    ensures forall j :: k <= j < cfg.threads ==> After(cfg, run).threads[j] == Thread(Top, [])
    decreases k
  {
    run := [];
    if k > 0 {
      run := FillAll(cfg, k - 1);
      run := Fill(cfg, run, k - 1);
    }
  }

  lemma {:induction false} AllAtPeak(cfg: Config, ts: seq<Thread>, most: nat)
    requires forall i :: 0 <= i < |ts| ==> Out(cfg, ts[i]) == most
    ensures OutAll(cfg, ts) == |ts| * most
    decreases |ts|
  {
    hide Out;
    if ts != [] {
      AllAtPeak(cfg, ts[..|ts| - 1], most);
      assert |ts| * most == (|ts| - 1) * most + most;
    }
  }

  /** Some run has exactly that many records out at once. */
  lemma PeakReached(cfg: Config) returns (run: seq<Action>)
    requires cfg.batch > 0
    ensures Legal(cfg, run)
    ensures After(cfg, run).counter - |After(cfg, run).rows| == MostOut(cfg)
  {
    run := FillAll(cfg, cfg.threads);
    RunInv(cfg, run);
    AllAtPeak(cfg, After(cfg, run).threads, Peak(cfg.batch));
  }

  lemma ModStep(x: nat, b: nat)
    requires b > 0 && x >= b
    ensures x % b == (x - b) % b
  {
    var q, r := (x - b) / b, (x - b) % b;
    assert x == (q + 1) * b + r;
    QuotientUnique(x / b, x % b, q + 1, r, b);
  }

  lemma QuotientUnique(q: int, r: nat, q': int, r': nat, b: nat)
    requires r < b && r' < b && q * b + r == q' * b + r'
    ensures r == r'
  {
    Distribute(q, q', b);
    Distribute(q', q, b);
    if q > q' {
      AtLeast(q - q', b);
    } else if q < q' {
      AtLeast(q' - q, b);
    }
  }

  lemma Distribute(q: int, q': int, b: nat)
    ensures (q - q') * b == q * b - q' * b
  {
  }

  lemma AtLeast(k: nat, b: nat)
    requires k >= 1
    ensures k * b >= b
  {
  }

  lemma {:induction false} RestIsWorst(n: nat, batch: nat)
    requires batch > 0 && n < FLUSH_THRESHOLD
    ensures RestFrom(n, batch) == FLUSH_THRESHOLD + batch - 1 <==> (FLUSH_THRESHOLD - 1 - n) % batch == 0
    decreases FLUSH_THRESHOLD - n
  {
    var x := FLUSH_THRESHOLD - 1 - n;
    if n + batch < FLUSH_THRESHOLD {
      RestIsWorst(n + batch, batch);
      ModStep(x, batch);
    } else {
      QuotientUnique(x / batch, x % batch, 0, x, batch);
    }
  }

  ghost predicate SlackReached(cfg: Config) {
    exists run :: Legal(cfg, run)
      && After(cfg, run).counter - |After(cfg, run).rows| == FrontierSlack(cfg.threads, cfg.batch)
  }

  lemma SlackMet(cfg: Config)
    requires cfg.batch > 0 && (cfg.threads == 0 || Peak(cfg.batch) == FLUSH_THRESHOLD + cfg.batch - 1)
    ensures SlackReached(cfg)
  {
    hide Legal, After, Peak;
    var run := PeakReached(cfg);
  }

  lemma SlackMissed(cfg: Config)
    requires cfg.batch > 0 && cfg.threads > 0 && Peak(cfg.batch) < FLUSH_THRESHOLD + cfg.batch - 1
    ensures !SlackReached(cfg)
  {
    assert MostOut(cfg) < FrontierSlack(cfg.threads, cfg.batch) by {
      TimesStrict(cfg.threads, Peak(cfg.batch), FLUSH_THRESHOLD + cfg.batch - 1);
    }
    hide Legal, After, Peak, MostOut, FrontierSlack;
    forall run | Legal(cfg, run)
      ensures After(cfg, run).counter - |After(cfg, run).rows| < FrontierSlack(cfg.threads, cfg.batch)
    {
      UnledgeredBound(cfg, run);
    }
  }

  /** The slack is the exact worst case if and only if whole batches can fill a buffer to one below the threshold. */
  lemma SlackTight(cfg: Config)
    requires cfg.batch > 0
    ensures SlackReached(cfg) <==> cfg.threads == 0 || 255 % cfg.batch == 0
  {
    RestIsWorst(0, cfg.batch);
    RestBound(0, cfg.batch);
    hide SlackReached, RestFrom;
    if cfg.threads == 0 || Peak(cfg.batch) == FLUSH_THRESHOLD + cfg.batch - 1 {
      SlackMet(cfg);
    } else {
      SlackMissed(cfg);
    }
  }

  /** A configuration that misses it: with pairs of records a lone producer can hold 256 and never 257. */
  lemma SlackMissedHere()
    ensures var cfg := Config(1, 2, 'D', ""); Usable(cfg) && !SlackReached(cfg) && Peak(2) == 256 && FrontierSlack(1, 2) == 257
  {
    hide SlackReached, RestFrom;
    assert (FLUSH_THRESHOLD - 1) % 2 == 1;
    SlackTight(Config(1, 2, 'D', ""));
    PeakOfPairs(0);
  }

  lemma {:induction false} PeakOfPairs(n: nat)
    requires n <= 256 && n % 2 == 0
    ensures RestFrom(n, 2) == 256
    decreases 256 - n
  {
    if n < 256 {
      PeakOfPairs(n + 2);
    }
  }

  lemma TimesStrict(n: nat, a: nat, b: nat)
    requires n > 0 && a < b
    ensures n * a < n * b
  {
  }

  // ---- How far behind a missing record can be

  /** Record `s` is not yet in the ledger although the ledger has moved `slack` or more past it. */
  ghost predicate Stranded(cfg: Config, g: Gen, slack: nat, s: nat) {
    HeldAll(cfg, g.threads, s) > 0 && exists i :: 0 <= i < |g.rows| && g.rows[i].seqNo >= s + slack
  }

  /** Every record still missing from the ledger lies beyond the frontier. */
  ghost predicate FrontierCovers(cfg: Config, slack: nat) {
    forall run, s :: Legal(cfg, run) ==> !Stranded(cfg, After(cfg, run), slack, s)
  }

  ghost predicate Ordered(cfg: Config, g: Gen) {
    forall i, s :: 0 <= i < |g.rows| && HeldAll(cfg, g.threads, s) > 0 ==> g.rows[i].seqNo < s
  }

  lemma OneThread(cfg: Config, ts: seq<Thread>, s: nat)
    requires |ts| == 1
    ensures HeldAll(cfg, ts, s) == Held(cfg, ts[0], s)
  {
    assert HeldAll(cfg, ts[..0], s) == 0;
  }

  lemma {:induction false} CountsOwn(entries: seq<Entry>, i: nat)
    requires i < |entries|
    ensures Count(entries, entries[i].seqNo) > 0
    decreases |entries|
  {
    if i < |entries| - 1 {
      CountsOwn(entries[..|entries| - 1], i);
    }
  }

  lemma RowsBelowCounter(cfg: Config, g: Gen, i: nat)
    requires cfg.batch > 0 && Inv(cfg, g) && i < |g.rows|
    ensures g.rows[i].seqNo < g.counter
  {
    CountsOwn(g.rows, i);
    assert Accounted(cfg, g, g.rows[i].seqNo);
  }

  /** A flush either confirms nothing or leaves the thread holding nothing. */
  lemma FlushAllOrNothing(cfg: Config, g: Gen, a: Action, s: nat)
    requires Enabled(cfg, g, a)
    ensures var g' := Next(cfg, g, a);
      g'.rows == g.rows || (g'.counter == g.counter && Held(cfg, Acted(cfg, g, a), s) == 0)
  {
    hide Serialised, Written, Entries;
    assert g.rows + [] == g.rows;
  }

  lemma OrderedStep(cfg: Config, g: Gen, a: Action)
    requires cfg.threads == 1 && cfg.batch > 0 && Inv(cfg, g) && Ordered(cfg, g) && Enabled(cfg, g, a)
    ensures Ordered(cfg, Next(cfg, g, a))
  {
    var g' := Next(cfg, g, a);
    OnlyOneMoves(cfg, g, a);
    hide Next, Enabled, Held, Count, HeldAll;
    forall i, s | 0 <= i < |g'.rows| && HeldAll(cfg, g'.threads, s) > 0
      ensures g'.rows[i].seqNo < s
    {
      OneThread(cfg, g.threads, s);
      OneThread(cfg, g'.threads, s);
      FlushAllOrNothing(cfg, g, a, s);
      LocalBalance(cfg, g, a, s);
      RowsBelowCounter(cfg, g, i);
    }
  }

  lemma {:induction false} OrderedRun(cfg: Config, run: seq<Action>)
    requires cfg.threads == 1 && cfg.batch > 0 && Legal(cfg, run)
    ensures Ordered(cfg, After(cfg, run))
    decreases |run|
  {
    if run != [] {
      var prefix := run[..|run| - 1];
      OrderedRun(cfg, prefix);
      RunInv(cfg, prefix);
      OrderedStep(cfg, After(cfg, prefix), run[|run| - 1]);
    }
  }

  /** What an idle thread leaves once it has taken a batch, settled it and flushed. */
  function Confirmed(cfg: Config, g: Gen): Gen {
    var entries := Entries(cfg, g.counter, Acks(cfg.batch), 0, 0);
    g.(counter := g.counter + cfg.batch, rows := g.rows + entries,
       sink := g.sink.(file := g.sink.file + Serialised(entries)))
  }

  lemma ConfirmSteps(cfg: Config, g: Gen, i: nat)
    requires cfg.batch > 0 && i < |g.threads| && g.threads[i] == Thread(Top, [])
    ensures var settle, flush := Settle(i, Acks(cfg.batch), 0, 0), Action.Flush(i, Synced);
      var g1 := Next(cfg, g, Take(i));
      && Enabled(cfg, g1, settle)
      && Enabled(cfg, Next(cfg, g1, settle), flush)
      && Next(cfg, Next(cfg, g1, settle), flush) == Confirmed(cfg, g)
  {
    hide Serialised;
    var settle, flush := Settle(i, Acks(cfg.batch), 0, 0), Action.Flush(i, Synced);
    var entries := Entries(cfg, g.counter, Acks(cfg.batch), 0, 0);
    var g1 := Next(cfg, g, Take(i));
    assert [] + entries == entries;
    assert Next(cfg, g1, settle).threads == g.threads[i := Thread(Deciding, entries)];
    assert g.threads[i := Thread(Deciding, entries)][i := Thread(Top, [])] == g.threads;
  }

  /** An idle thread takes and confirms a batch. */
  lemma Confirm(cfg: Config, run: seq<Action>, i: nat) returns (run': seq<Action>)
    requires cfg.batch > 0 && Legal(cfg, run)
    requires var g := After(cfg, run); i < |g.threads| && g.threads[i] == Thread(Top, [])
    ensures Legal(cfg, run') && After(cfg, run') == Confirmed(cfg, After(cfg, run))
  {
    ConfirmSteps(cfg, After(cfg, run), i);
    var settle, flush := Settle(i, Acks(cfg.batch), 0, 0), Action.Flush(i, Synced);
    Extend(cfg, run, Take(i));
    hide Legal, After, Next, Confirmed;
    Extend(cfg, run + [Take(i)], settle);
    Extend(cfg, run + [Take(i)] + [settle], flush);
    run' := run + [Take(i)] + [settle] + [flush];
  }

  /** While thread 0 waits for its first reply, thread 1 moves the ledger on past `target`. */
  lemma {:induction false} Overtake(cfg: Config, target: nat) returns (run: seq<Action>)
    requires cfg.batch > 0 && cfg.threads >= 2
    ensures Legal(cfg, run)
    ensures var g := After(cfg, run);
      && |g.threads| == cfg.threads
      && g.threads[0] == Thread(Pushing(0), []) && (forall j :: 1 <= j < cfg.threads ==> g.threads[j] == Thread(Top, []))
      && !g.sink.fatal
      && target < g.counter <= target + (if target == 0 then cfg.batch else 2 * cfg.batch)
      && (target > 0 ==> g.rows != [] && g.rows[|g.rows| - 1].seqNo == g.counter - 1)
    decreases target
  {
    hide Serialised;
    if target == 0 {
      run := [Take(0)];
      Extend(cfg, [], Take(0));
      assert [] + [Take(0)] == run;
    } else {
      run := Overtake(cfg, if target > cfg.batch then target - cfg.batch else 0);
      run := Confirm(cfg, run, 1);
    }
  }

  lemma {:induction false} HoldsAtLeast(cfg: Config, ts: seq<Thread>, i: nat, s: nat)
    requires i < |ts|
    ensures HeldAll(cfg, ts, s) >= Held(cfg, ts[i], s)
    decreases |ts|
  {
    if i < |ts| - 1 {
      HoldsAtLeast(cfg, ts[..|ts| - 1], i, s);
    }
  }

  /** One slow reply strands a record, however wide the slack. */
  lemma Strand(cfg: Config, slack: nat) returns (run: seq<Action>)
    requires cfg.batch > 0 && cfg.threads >= 2
    ensures Legal(cfg, run)
    ensures var g := After(cfg, run);
      Unfailed(g) && g.counter <= slack + 1 + 2 * cfg.batch && |g.threads| == cfg.threads && g.threads[0].pc.Pushing?
      && Stranded(cfg, g, slack, 0)
  {
    run := Overtake(cfg, slack + 1);
    hide Legal, After, Held, HeldAll, Unfailed;
    var g := After(cfg, run);
    NoneFailed(g);
    WaitingHolds(cfg);
    HoldsAtLeast(cfg, g.threads, 0, 0);
    assert g.rows[|g.rows| - 1].seqNo >= 0 + slack;
  }

  lemma NoneFailed(g: Gen)
    requires !g.sink.fatal && |g.threads| > 0 && g.threads[0].pc.Pushing?
    requires forall j :: 1 <= j < |g.threads| ==> g.threads[j] == Thread(Top, [])
    ensures Unfailed(g)
  {
  }

  lemma WaitingHolds(cfg: Config)
    requires cfg.batch > 0
    ensures Held(cfg, Thread(Pushing(0), []), 0) > 0
  {
  }

  /** With one producer any slack covers every missing record; with two or more no slack does. */
  lemma FrontierCoversExactly(cfg: Config, slack: nat)
    requires cfg.batch > 0
    ensures FrontierCovers(cfg, slack) <==> cfg.threads <= 1
  {
    if cfg.threads >= 2 {
      var run := Strand(cfg, slack);
    } else {
      forall run, s | Legal(cfg, run)
        ensures !Stranded(cfg, After(cfg, run), slack, s)
      {
        RunInv(cfg, run);
        if cfg.threads == 1 {
          OrderedRun(cfg, run);
        } else {
          assert HeldAll(cfg, After(cfg, run).threads, s) == 0;
        }
      }
    }
  }
}
