/**
 * The load generator's producer threads: one shared counter, one shared append-only ledger,
 * and a buffer per thread. Any interleaving of the threads' steps is a run.
 */
module Loadgen {
  import Bytes
  import opened LedgerLine
  import opened Disk

  const FLUSH_THRESHOLD: nat := 256

  // ---- The ledger file

  /** One line for each entry. */
  function Serialised(entries: seq<Entry>): string {
    if entries == [] then []
    else Serialised(entries[..|entries| - 1]) + (ToLine(entries[|entries| - 1]) + "\n")
  }

  method Serialise(entries: seq<Entry>) returns (buf: string)
    ensures buf == Serialised(entries)
  {
    hide ToLine;
    buf := [];
    for i := 0 to |entries|
      invariant buf == Serialised(entries[..i])
    {
      assert entries[..i + 1][..i] == entries[..i];
      buf := buf + (ToLine(entries[i]) + "\n");
    }
    assert entries[..|entries|] == entries;
  }

  lemma {:induction false} SerialisedAppend(a: seq<Entry>, b: seq<Entry>)
    ensures Serialised(a + b) == Serialised(a) + Serialised(b)
    decreases |b|
  {
    hide ToLine;
    if b == [] {
      assert a + b == a;
    } else {
      var n := |b| - 1;
      var line := ToLine(b[n]) + "\n";
      SerialisedAppend(a, b[..n]);
      assert (a + b)[..|a + b| - 1] == a + b[..n];
      assert Serialised(a) + Serialised(b[..n]) + line == Serialised(a) + (Serialised(b[..n]) + line);
    }
  }

  datatype Sink = Sink(file: string, fatal: bool)

  /** Buffered entries leave the buffer only once they are durably on file. */
  function Flushed(sink: Sink, pending: seq<Entry>, io: Io): (Sink, seq<Entry>) {
    if pending == [] then (sink, pending)
    else
      var file := sink.file + Written(Serialised(pending), io);
      if io.Synced? then (Sink(file, sink.fatal), []) else (Sink(file, true), pending)
  }

  class Ledger {
    var file: string
    var fatal: bool

    constructor ()
      ensures file == "" && !fatal
    {
      file, fatal := "", false;
    }

    /** Appends and syncs; on failure sets `fatal` and keeps the buffer. */
    method Flush(pending: seq<Entry>, io: Io) returns (ok: bool, left: seq<Entry>)
      modifies this
      ensures (Sink(file, fatal), left) == Flushed(Sink(old(file), old(fatal)), pending, io)
      ensures ok <==> pending == [] || io.Synced?
    {
      if pending == [] {
        return true, pending;
      }
      var bytes := Serialise(pending);
      match io {
        case AppendFailed(_) =>
          file := file + Written(bytes, io);
          fatal := true;
          return false, pending;
        case SyncFailed =>
          file := file + bytes;
          fatal := true;
          return false, pending;
        case Synced =>
          file := file + bytes;
          return true, [];
      }
    }
  }

  // ---- The threads

  /** Where a producer thread is: at the loop header, awaiting a reply, at the flush test, past the loop, ended. */
  datatype Pc = Top | Pushing(base: nat) | Deciding | Leaving | Done | Panicked(at: Pc)

  datatype Thread = Thread(pc: Pc, pending: seq<Entry>)

  /** `rows` lists what flushes have confirmed, in file order; it is bookkeeping, not program state. */
  datatype Gen = Gen(counter: nat, sink: Sink, rows: seq<Entry>, threads: seq<Thread>)

  /** `prior` is what the ledger file already holds: it is opened for append. */
  datatype Config = Config(threads: nat, batch: nat, tier: char, prior: string)

  predicate Usable(cfg: Config) {
    1 <= cfg.batch <= 1024 && cfg.tier in {'D', 'S', 'U'}
  }

  function Start(cfg: Config): Gen {
    Gen(0, Sink(cfg.prior, false), [], seq(cfg.threads, _ => Thread(Top, [])))
  }

  datatype Action =
    | Take(i: nat)
    | Settle(i: nat, outcomes: seq<Outcome>, tMicros: nat, rttMicros: nat)
    | Carry(i: nat)
    | Flush(i: nat, io: Io)
    | Leave(i: nat)
    | LastFlush(i: nat, io: Io)
    | Panic(i: nat, written: nat)

  /**
   * The flags are read with relaxed ordering and the deadline by the clock, so a thread may take
   * another batch or leave at any visit to the loop header. A flush is due at the threshold or by
   * the timer, so it may happen at any buffer size but cannot be put off past the threshold.
   */
  predicate Enabled(cfg: Config, g: Gen, a: Action) {
    a.i < |g.threads| &&
    var t := g.threads[a.i];
    match a
    case Take(_) => t.pc.Top?
    case Settle(_, outcomes, tMicros, rttMicros) =>
      t.pc.Pushing? && |outcomes| == cfg.batch && tMicros < Bytes.TWO_64 && rttMicros < Bytes.TWO_64
    case Carry(_) => t.pc.Deciding? && |t.pending| < FLUSH_THRESHOLD
    case Flush(_, _) => t.pc.Deciding?
    case Leave(_) => t.pc.Top?
    case LastFlush(_, _) => t.pc.Leaving?
    case Panic(_, _) => !t.pc.Done? && !t.pc.Panicked?
  }

  /** One ledger row for each record of the batch. */
  function Entries(cfg: Config, base: nat, outcomes: seq<Outcome>, tMicros: nat, rttMicros: nat): seq<Entry> {
    seq(|outcomes|, k requires 0 <= k < |outcomes| => Entry(base + k, cfg.tier, outcomes[k], tMicros, rttMicros))
  }

  function Set(g: Gen, i: nat, t: Thread): Gen
    requires i < |g.threads|
  {
    g.(threads := g.threads[i := t])
  }

  function FlushThread(g: Gen, i: nat, io: Io, after: Pc, failed: Pc): Gen
    requires i < |g.threads|
  {
    var pending := g.threads[i].pending;
    var (sink, left) := Flushed(g.sink, pending, io);
    var confirmed := if left == [] then pending else [];
    Set(g.(sink := sink, rows := g.rows + confirmed), i, Thread(if left == [] then after else failed, left))
  }

  function Next(cfg: Config, g: Gen, a: Action): Gen
    requires Enabled(cfg, g, a)
  {
    var t := g.threads[a.i];
    match a
    case Take(i) => Set(g.(counter := g.counter + cfg.batch), i, t.(pc := Pushing(g.counter)))
    case Settle(i, outcomes, tMicros, rttMicros) =>
      Set(g, i, Thread(Deciding, t.pending + Entries(cfg, t.pc.base, outcomes, tMicros, rttMicros)))
    case Carry(i) => Set(g, i, t.(pc := Top))
    case Flush(i, io) => FlushThread(g, i, io, Top, Leaving)
    case Leave(i) => Set(g, i, t.(pc := Leaving))
    case LastFlush(i, io) => FlushThread(g, i, io, Done, Done)
    case Panic(i, k) =>
      // a panic inside a flush may leave part of the buffer on file
      Set(g.(sink := g.sink.(file := g.sink.file + Written(Serialised(t.pending), AppendFailed(k)))), i, t.(pc := Panicked(t.pc)))
  }

  // ---- Runs

  predicate Legal(cfg: Config, run: seq<Action>)
    decreases |run|, 0
  {
    run == [] || (Legal(cfg, run[..|run| - 1]) && Enabled(cfg, After(cfg, run[..|run| - 1]), run[|run| - 1]))
  }

  function After(cfg: Config, run: seq<Action>): Gen
    requires Legal(cfg, run)
    decreases |run|, 1
  {
    if run == [] then Start(cfg) else Next(cfg, After(cfg, run[..|run| - 1]), run[|run| - 1])
  }

  predicate Finished(g: Gen) {
    forall i :: 0 <= i < |g.threads| ==> g.threads[i].pc.Done? || g.threads[i].pc.Panicked?
  }

  predicate AnyPanicked(g: Gen) {
    exists i :: 0 <= i < |g.threads| && g.threads[i].pc.Panicked?
  }

  predicate Unfailed(g: Gen) {
    !g.sink.fatal && !AnyPanicked(g)
  }

  /** What `main` exits with once every thread is joined: 0 only if nothing failed. */
  function ExitCode(g: Gen): (code: int)
    ensures code == 0 <==> !g.sink.fatal && forall i :: 0 <= i < |g.threads| ==> !g.threads[i].pc.Panicked?
    ensures code == 0 || code == 1
  {
    if g.sink.fatal then 1 else if AnyPanicked(g) then 1 else 0
  }
}
