/**
 * The harness as a whole: producers write a ledger, a tailer reads it, the oracle judges the
 * deliveries against it.
 */
module EndToEnd {
  import opened Wrappers
  import opened Text
  import Bytes
  import opened LedgerLine
  import opened DeliveryLine
  import opened Tailer
  import opened Oracle
  import opened OracleLaws
  import opened OracleRuns
  import opened LedgerReading
  import opened Loadgen
  import opened Disk
  import opened LoadgenRuns
  import opened LoadgenBounds
  import Verdict

  lemma DeliveredExactly(bs: seq<Batch>, runId: int, s: nat)
    ensures s in IngestedAll(EMPTY, bs, runId).counts <==> Named(AllDelivered(bs), runId)[s] > 0
  {
    OneBatch(EMPTY, bs, runId);
    LedgerFrame(EMPTY, AllLedger(bs), map[], 0);
    Tally(LedgerLines(EMPTY, AllLedger(bs)), AllDelivered(bs), runId, s);
    hide LedgerLines, DeliveredLines, IngestedAll, Named;
  }

  // ---- The verdict after a clean exit

  /** No refused record was delivered and, unless that loss is allowed, every acknowledged one was. */
  ghost predicate Durable(rows: seq<Entry>, delivered: multiset<nat>, lossAllowed: bool) {
    forall i :: 0 <= i < |rows| ==>
      && (rows[i].outcome.Acked? && !lossAllowed ==> delivered[rows[i].seqNo] > 0)
      && (rows[i].outcome.Nacked? ==> delivered[rows[i].seqNo] == 0)
  }

  lemma {:induction false} CountedRow(entries: seq<Entry>, s: nat) returns (i: nat)
    requires Count(entries, s) > 0
    ensures i < |entries| && entries[i].seqNo == s
    decreases |entries|
  {
    i := |entries| - 1;
    if entries[i].seqNo != s {
      i := CountedRow(entries[..i], s);
    }
  }

  /** After a clean exit the oracle knows every record. */
  lemma LedgerComplete(cfg: Config, run: seq<Action>, bs: seq<Batch>, runId: int, s: nat)
    requires Ready(cfg) && Legal(cfg, run)
    requires var g := After(cfg, run); Finished(g) && ExitCode(g) == 0 && g.counter <= Bytes.TWO_64 && ReadsLedger(g, bs)
    ensures s in IngestedAll(EMPTY, bs, runId).ledger <==> s < After(cfg, run).counter
  {
    var g, st := After(cfg, run), IngestedAll(EMPTY, bs, runId);
    LedgerSoFar(cfg, run, bs, runId);
    CleanExit(cfg, run, s);
    RunInv(cfg, run);
    hide Legal, After, IngestedAll, Count, TagOf;
    if s < g.counter {
      var i := CountedRow(g.rows, s);
    }
    if s in st.ledger {
      var i :| 0 <= i < |g.rows| && g.rows[i].seqNo == s;
      RowsBelowCounter(cfg, g, i);
    }
  }

  lemma LedgerAllComplete(cfg: Config, run: seq<Action>, bs: seq<Batch>, runId: int)
    requires Ready(cfg) && Legal(cfg, run)
    requires var g := After(cfg, run); Finished(g) && ExitCode(g) == 0 && g.counter <= Bytes.TWO_64 && ReadsLedger(g, bs)
    ensures forall s: nat :: s in IngestedAll(EMPTY, bs, runId).ledger <==> s < After(cfg, run).counter
  {
    hide Legal, After, IngestedAll, ReadsLedger, Finished, ExitCode;
    forall s: nat
      ensures s in IngestedAll(EMPTY, bs, runId).ledger <==> s < After(cfg, run).counter
    {
      LedgerComplete(cfg, run, bs, runId, s);
    }
  }

  lemma DeliveredAll(bs: seq<Batch>, runId: int)
    ensures forall s: nat :: s in IngestedAll(EMPTY, bs, runId).counts <==> Named(AllDelivered(bs), runId)[s] > 0
  {
    hide IngestedAll, Named, AllDelivered;
    forall s: nat
      ensures s in IngestedAll(EMPTY, bs, runId).counts <==> Named(AllDelivered(bs), runId)[s] > 0
    {
      DeliveredExactly(bs, runId, s);
    }
  }

  lemma DurableExactly(
    ledger: map<nat, Tag>, counts: map<nat, nat>, rows: seq<Entry>, delivered: multiset<nat>, lossAllowed: bool)
    requires Knows(ledger, rows)
    requires forall s: nat :: s in counts <==> delivered[s] > 0
    ensures Durable(rows, delivered, lossAllowed) <==>
            && (forall s :: s in ledger && ledger[s] == NACK ==> s !in counts)
            && (lossAllowed || forall s :: s in ledger && ledger[s] == ACK ==> s in counts)
  {
    if Durable(rows, delivered, lossAllowed) {
      forall s | s in ledger
        ensures (ledger[s] == NACK ==> s !in counts) && (ledger[s] == ACK && !lossAllowed ==> s in counts)
      {
        var i :| 0 <= i < |rows| && rows[i].seqNo == s;
      }
    }
    if (forall s :: s in ledger && ledger[s] == NACK ==> s !in counts)
      && (lossAllowed || forall s :: s in ledger && ledger[s] == ACK ==> s in counts)
    {
      forall i | 0 <= i < |rows|
        ensures (rows[i].outcome.Acked? && !lossAllowed ==> delivered[rows[i].seqNo] > 0)
        ensures (rows[i].outcome.Nacked? ==> delivered[rows[i].seqNo] == 0)
      {
        assert rows[i].seqNo in ledger;
      }
    }
  }

  lemma ZeroSlackVerdict(
    st: State, rows: seq<Entry>, delivered: multiset<nat>, tier: Option<char>, fault: Option<string>)
    requires Knows(st.ledger, rows) && st.conflicts == []
    requires forall s: nat :: s in st.counts <==> delivered[s] > 0
    ensures Check(st, 0, tier, fault).ok <==> Durable(rows, delivered, tier == Some('U') && fault == Some("power_loss"))
  {
    hide CheckCounts, Knows, Durable;
    DurableExactly(st.ledger, st.counts, rows, delivered, tier == Some('U') && fault == Some("power_loss"));
    VerdictMeaning(st.ledger, st.counts, st.total, st.conflicts, 0, st.hwm, tier, fault);
  }

  /**
   * After exit status 0, whatever the interleaving was and however the logs were read: the oracle
   * knows every record, reports no conflict, and passes at zero slack exactly when the records
   * themselves bear it out.
   */
  lemma CleanRunVerdict(
    cfg: Config, run: seq<Action>, bs: seq<Batch>, runId: int, tier: Option<char>, fault: Option<string>)
    requires Ready(cfg) && Legal(cfg, run)
    requires var g := After(cfg, run); Finished(g) && ExitCode(g) == 0 && g.counter <= Bytes.TWO_64 && ReadsLedger(g, bs)
    ensures var g, st := After(cfg, run), IngestedAll(EMPTY, bs, runId);
      && (forall s: nat :: s in st.ledger <==> s < g.counter)
      && st.conflicts == []
      && (Check(st, 0, tier, fault).ok <==>
            Durable(g.rows, Named(AllDelivered(bs), runId), tier == Some('U') && fault == Some("power_loss")))
  {
    var g, st := After(cfg, run), IngestedAll(EMPTY, bs, runId);
    LedgerSoFar(cfg, run, bs, runId);
    hide Legal, After, IngestedAll, Knows, Named, AllDelivered, Check, ReadsLedger, Finished, ExitCode, Durable;
    LedgerAllComplete(cfg, run, bs, runId);
    DeliveredAll(bs, runId);
    ZeroSlackVerdict(st, g.rows, Named(AllDelivered(bs), runId), tier, fault);
  }

  /**
   * A harness run that ends in exit code 0 has a clean final pass, and a clean final pass over a
   * finished generator means durability held of every record the generator ever took.
   */
  lemma FinalCleanMeansDurable(
    cfg: Config, run: seq<Action>, bs: seq<Batch>, runId: int, harness: Verdict.Run, t: Verdict.Teardown)
    requires Ready(cfg) && Legal(cfg, run)
    requires var g := After(cfg, run); Finished(g) && g.counter <= Bytes.TWO_64 && ReadsLedger(g, bs)
    requires t.loadgen.Some? && t.loadgen.value.code == ExitCode(After(cfg, run))
    requires t.state == Some(IngestedAll(EMPTY, bs, runId))
    requires Verdict.FinalClean(harness, t)
    ensures var g := After(cfg, run);
      && (forall s: nat :: Count(g.rows, s) == if s < g.counter then 1 else 0)
      && Durable(g.rows, Named(AllDelivered(bs), runId), harness.tier == 'U' && harness.fault == Some("power_loss"))
  {
    var g := After(cfg, run);
    hide Legal, After, IngestedAll, Named, AllDelivered, Check, ReadsLedger, Finished, Durable, Count;
    CleanRunVerdict(cfg, run, bs, runId, Some(harness.tier), harness.fault);
    forall s: nat
      ensures Count(g.rows, s) == if s < g.counter then 1 else 0
    {
      CleanExit(cfg, run, s);
    }
  }

  // ---- The verdict while producers are still running

  lemma NotAmongRows(cfg: Config, g: Gen, s: nat)
    requires cfg.batch > 0 && Inv(cfg, g) && HeldAll(cfg, g.threads, s) > 0
    ensures forall i :: 0 <= i < |g.rows| ==> g.rows[i].seqNo != s
  {
    assert Accounted(cfg, g, s);
    forall i | 0 <= i < |g.rows|
      ensures g.rows[i].seqNo != s
    {
      CountsOwn(g.rows, i);
    }
  }

  lemma OrphanListed(st: State, rows: seq<Entry>, i: nat, slack: nat, s: nat, tier: Option<char>, fault: Option<string>)
    requires Knows(st.ledger, rows) && (forall x :: x in st.ledger ==> x <= st.hwm)
    requires i < |rows| && rows[i].seqNo >= s + slack
    requires s in st.counts && forall j :: 0 <= j < |rows| ==> rows[j].seqNo != s
    ensures s in Check(st, slack, tier, fault).orphanedDelivered
  {
    ListsMeaning(st.ledger, st.counts, st.total, st.conflicts, slack, st.hwm, tier, fault);
    hide CheckCounts;
    assert rows[i].seqNo <= st.hwm;
    assert s !in st.ledger;
  }

  /** A record still buffered, already delivered, and overtaken by the slack or more is reported as an orphan. */
  lemma StrandedIsOrphan(cfg: Config, run: seq<Action>, bs: seq<Batch>, runId: int, slack: nat, s: nat,
                         tier: Option<char>, fault: Option<string>)
    requires Ready(cfg) && Legal(cfg, run)
    requires var g := After(cfg, run); Unfailed(g) && g.counter <= Bytes.TWO_64 && ReadsLedger(g, bs)
    requires Stranded(cfg, After(cfg, run), slack, s) && Named(AllDelivered(bs), runId)[s] > 0
    ensures s in Check(IngestedAll(EMPTY, bs, runId), slack, tier, fault).orphanedDelivered
  {
    var g := After(cfg, run);
    LedgerSoFar(cfg, run, bs, runId);
    DeliveredExactly(bs, runId, s);
    RunHwm(bs, runId);
    RunInv(cfg, run);
    NotAmongRows(cfg, g, s);
    hide Legal, After, Named, ReadsLedger, Check, IngestedAll, Inv, Knows, AllDelivered;
    var i :| 0 <= i < |g.rows| && g.rows[i].seqNo >= s + slack;
    OrphanListed(IngestedAll(EMPTY, bs, runId), g.rows, i, slack, s, tier, fault);
  }

  lemma OneDelivery(r: Record, ledger: seq<string>, runId: int) returns (bs: seq<Batch>)
    requires r.runId == runId
    ensures AllLedger(bs) == ledger && Named(AllDelivered(bs), runId)[r.seqNo] > 0
  {
    var line := LogLine(r)[..|LogLine(r)| - 1];
    OracleReadsDelivery(r, runId);
    hide LogLine, ParseDeliveredLine;
    bs := [Batch(ledger, [line])];
    assert bs[..0] == [] && AllLedger(bs) == [] + ledger && AllDelivered(bs) == [] + [line];
    assert [] + ledger == ledger && [] + [line] == [line] && [line][..0] == [];
  }

  /**
   * With two or more producers the harness's own slack does not keep it from reporting an orphan
   * against a generator that has failed at nothing and is only waiting for a reply.
   */
  lemma SlackAllowsOrphan(cfg: Config, runId: nat, slack: nat, tier: Option<char>, fault: Option<string>)
    returns (run: seq<Action>, bs: seq<Batch>)
    requires Ready(cfg) && cfg.threads >= 2 && slack == FrontierSlack(cfg.threads, cfg.batch)
    requires slack + 1 + 2 * cfg.batch <= Bytes.TWO_64
    ensures Legal(cfg, run) && Unfailed(After(cfg, run)) && ReadsLedger(After(cfg, run), bs)
    ensures After(cfg, run).threads[0].pc.Pushing? && HeldAll(cfg, After(cfg, run).threads, 0) > 0
    ensures 0 in Check(IngestedAll(EMPTY, bs, runId), slack, tier, fault).orphanedDelivered
  {
    assert slack > 0 by { LoadgenBounds.AtLeast(cfg.threads, FLUSH_THRESHOLD + cfg.batch - 1); }
    run := Strand(cfg, slack);
    hide Legal, After, Check, IngestedAll, Named, FrontierSlack, HeldAll;
    bs := OneDelivery(Record(runId, 0), Lines(Complete(After(cfg, run).sink.file)), runId);
    StrandedIsOrphan(cfg, run, bs, runId, slack, 0, tier, fault);
  }

  // ---- From delivered payloads to the oracle's counts

  /** A delivery batch as the sink posts it: one payload a line. */
  function PostBody(rs: seq<Record>, size: nat): string {
    if rs == [] then [] else EncodeRecord(rs[0], size) + "\n" + PostBody(rs[1..], size)
  }

  function LogOf(rs: seq<Record>): string {
    if rs == [] then [] else LogLine(rs[0]) + LogOf(rs[1..])
  }

  function Times(rs: seq<Record>, runId: int, s: nat): nat {
    if rs == [] then 0 else Times(rs[1..], runId, s) + One(rs[0].runId == runId && rs[0].seqNo == s)
  }

  predicate AllU64(rs: seq<Record>) {
    forall i :: 0 <= i < |rs| ==> rs[i].runId < Bytes.TWO_64 && rs[i].seqNo < Bytes.TWO_64
  }

  /** The recorder appends one log line for each payload of the batch, in order. */
  lemma {:induction false} BodyLogged(rs: seq<Record>, size: nat)
    requires AllU64(rs)
    ensures LoggedAll(SplitAll(PostBody(rs, size), '\n')) == LogOf(rs)
    decreases |rs|
  {
    hide EncodeRecord, LogLine, SplitAll, Logged;
    if rs == [] {
      NothingLogged();
    } else {
      EncodedIsOneLine(rs[0], size);
      SplitAllCons(EncodeRecord(rs[0], size), '\n', PostBody(rs[1..], size));
      PayloadLogged(rs[0], size);
      BodyLogged(rs[1..], size);
      var rest := SplitAll(PostBody(rs[1..], size), '\n');
      assert ([EncodeRecord(rs[0], size)] + rest)[1..] == rest;
    }
  }

  lemma NothingLogged()
    ensures LoggedAll(SplitAll([], '\n')) == []
  {
    var one: seq<string> := [""];
    assert SplitAll([], '\n') == one && one[1..] == [];
  }

  lemma NamedSnoc(lines: seq<string>, line: string, runId: int)
    ensures Named(lines + [line], runId) == Named(lines, runId) + NamedBy(line, runId)
  {
    hide ParseDeliveredLine;
    assert (lines + [line])[..|lines|] == lines;
  }

  /** What one delivery line names. */
  function NamedBy(line: string, runId: int): multiset<nat> {
    match ParseDeliveredLine(line, runId)
    case None => multiset{}
    case Some(s) => multiset{s}
  }

  lemma {:induction false} NamedAppend(a: seq<string>, b: seq<string>, runId: int)
    ensures Named(a + b, runId) == Named(a, runId) + Named(b, runId)
    decreases |b|
  {
    if b == [] {
      assert a + b == a;
      assert Named(b, runId) == multiset{};
    } else {
      hide Named, NamedBy;
      var c, line := b[..|b| - 1], b[|b| - 1];
      assert b == c + [line] && a + b == (a + c) + [line];
      NamedAppend(a, c, runId);
      NamedSnoc(c, line, runId);
      NamedSnoc(a + c, line, runId);
    }
  }

  /** The oracle counts each logged delivery of its own run once, and no other. */
  lemma {:induction false} DeliveriesReadBack(rs: seq<Record>, runId: int, s: nat)
    ensures Named(Lines(LogOf(rs)), runId)[s] == Times(rs, runId, s)
    decreases |rs|
  {
    hide Lines, LogLine, ParseDeliveredLine, Named;
    if rs == [] {
      NoLines();
      NamedNone(runId);
    } else {
      LogLineIsLine(rs[0]);
      var line := LogLine(rs[0])[..|LogLine(rs[0])| - 1];
      LinesCons(line, LogOf(rs[1..]));
      OracleReadsDelivery(rs[0], runId);
      DeliveriesReadBack(rs[1..], runId, s);
      NamedAppend([line], Lines(LogOf(rs[1..])), runId);
      NamedNone(runId);
      NamedSnoc([], line, runId);
      assert [] + [line] == [line];
      assert LogOf(rs) == line + "\n" + LogOf(rs[1..]);
    }
  }

  lemma NamedNone(runId: int)
    ensures Named([], runId) == multiset{}
  {
  }

  lemma LogLineIsLine(r: Record)
    ensures var n := |LogLine(r)| - 1;
      n > 0 && '\n' !in LogLine(r)[..n] && LogLine(r)[..n] + "\n" == LogLine(r)
  {
    var run, sq := Decimal(r.runId), Decimal(r.seqNo);
    DigitsHaveNo(run, '\n');
    DigitsHaveNo(sq, '\n');
    hide Decimal;
    assert LogLine(r)[..|LogLine(r)| - 1] == run + " " + sq;
  }
}
