/**
 * Reading the ledger back: what the oracle knows of the generator's rows at any moment, a read
 * that lands in the middle of a flush included.
 */
module LedgerReading {
  import opened Wrappers
  import opened Text
  import Bytes
  import opened LedgerLine
  import opened Tailer
  import opened Oracle
  import opened OracleRuns
  import opened Loadgen
  import opened Disk
  import opened LoadgenRuns
  import opened LoadgenBounds

  // ---- Every entry can be written and read back

  predicate Stamped(cfg: Config, entries: seq<Entry>) {
    forall k :: 0 <= k < |entries| ==>
      entries[k].tier == cfg.tier && entries[k].tMicros < Bytes.TWO_64 && entries[k].rttMicros < Bytes.TWO_64
  }

  predicate AllStamped(cfg: Config, g: Gen) {
    Stamped(cfg, g.rows) && forall i :: 0 <= i < |g.threads| ==> Stamped(cfg, g.threads[i].pending)
  }

  lemma StampedStep(cfg: Config, g: Gen, a: Action)
    requires Enabled(cfg, g, a) && AllStamped(cfg, g)
    ensures AllStamped(cfg, Next(cfg, g, a))
  {
    OnlyOneMoves(cfg, g, a);
    hide Serialised, Written;
    var g' := Next(cfg, g, a);
    assert Stamped(cfg, g.threads[a.i].pending);
    assert Stamped(cfg, Acted(cfg, g, a).pending) && Stamped(cfg, g'.rows);
    hide Next, Acted, Enabled, Stamped;
    forall i | 0 <= i < |g'.threads|
      ensures Stamped(cfg, g'.threads[i].pending)
    {
      assert i != a.i ==> g'.threads[i] == g.threads[i];
    }
  }

  lemma {:induction false} StampedRun(cfg: Config, run: seq<Action>)
    requires Legal(cfg, run)
    ensures AllStamped(cfg, After(cfg, run))
    decreases |run|
  {
    hide AllStamped;
    if run == [] {
      StampedStart(cfg);
    } else {
      StampedRun(cfg, run[..|run| - 1]);
      StampedStep(cfg, After(cfg, run[..|run| - 1]), run[|run| - 1]);
    }
  }

  lemma StampedStart(cfg: Config)
    ensures AllStamped(cfg, Start(cfg))
  {
  }

  // ---- The oracle reads back the rows

  function LinesFor(entries: seq<Entry>): seq<string> {
    seq(|entries|, k requires 0 <= k < |entries| => ToLine(entries[k]))
  }

  function RowsFor(entries: seq<Entry>): seq<(nat, Tag)> {
    seq(|entries|, k requires 0 <= k < |entries| => (entries[k].seqNo, TagOf(entries[k].outcome)))
  }

  predicate AllWritable(entries: seq<Entry>) {
    forall k :: 0 <= k < |entries| ==> Writable(entries[k])
  }

  /** The lines of a serialised ledger are its entries' lines. */
  lemma {:induction false} SerialisedLines(entries: seq<Entry>)
    requires AllWritable(entries)
    ensures WholeLines(Serialised(entries)) && Lines(Serialised(entries)) == LinesFor(entries)
    decreases |entries|
  {
    hide Lines, ToLine;
    if entries == [] {
      NoLines();
    } else {
      var n := |entries| - 1;
      var line := ToLine(entries[n]);
      SerialisedLines(entries[..n]);
      LineIsOneLine(entries[n]);
      LinesCons(line, []);
      NoLines();
      assert line + "\n" + [] == line + "\n";
      LinesConcat(Serialised(entries[..n]), line + "\n");
      assert LinesFor(entries) == LinesFor(entries[..n]) + [line];
    }
  }

  lemma {:induction false} RowsReadBack(entries: seq<Entry>)
    requires AllWritable(entries)
    ensures Rows(LinesFor(entries)) == RowsFor(entries)
    decreases |entries|
  {
    hide ParseLedgerLine, ToLine, TagOf;
    if entries != [] {
      var n := |entries| - 1;
      RowsReadBack(entries[..n]);
      OracleReadsLine(entries[n]);
      assert LinesFor(entries)[..n] == LinesFor(entries[..n]);
      assert RowsFor(entries) == RowsFor(entries[..n]) + [RowsFor(entries)[n]];
    }
  }

  lemma CompleteWhole(s: string)
    requires WholeLines(s)
    ensures Complete(s) == s
  {
    assert s[..|s|] == s;
  }

  /** What the oracle has once it has read the ledger these entries make. */
  lemma LedgerReadBack(entries: seq<Entry>, bs: seq<Batch>, runId: int)
    requires AllWritable(entries)
    requires AllLedger(bs) == Lines(Serialised(entries))
    ensures var st, led := IngestedAll(EMPTY, bs, runId), Recorded(EMPTY, RowsFor(entries));
      st.ledger == led.ledger && st.conflicts == led.conflicts && st.hwm == led.hwm
  {
    SerialisedLines(entries);
    RowsReadBack(entries);
    OneBatch(EMPTY, bs, runId);
    LinesAreRows(EMPTY, AllLedger(bs));
    DeliveredFrame(LedgerLines(EMPTY, AllLedger(bs)), AllDelivered(bs), runId);
    hide Recorded, Rows, RowsFor, LinesFor, LedgerLines, DeliveredLines, IngestedAll, AllLedger, AllDelivered;
  }

  // ---- The rows are distinct

  lemma {:induction false} CountsTwo(entries: seq<Entry>, i: nat, j: nat)
    requires i < j < |entries| && entries[i].seqNo == entries[j].seqNo
    ensures Count(entries, entries[i].seqNo) >= 2
    decreases |entries|
  {
    var n := |entries| - 1;
    if j < n {
      CountsTwo(entries[..n], i, j);
    } else {
      CountsOwn(entries[..n], i);
    }
  }

  /** Entries whose sequence numbers are counted at most once are distinct. */
  lemma DistinctByCount(entries: seq<Entry>)
    requires forall s: nat :: Count(entries, s) <= 1
    ensures forall i, j :: 0 <= i < j < |entries| ==> entries[i].seqNo != entries[j].seqNo
  {
    hide Count;
    forall i, j | 0 <= i < j < |entries|
      ensures entries[i].seqNo != entries[j].seqNo
    {
      assert Count(entries, entries[i].seqNo) <= 1;
      if entries[i].seqNo == entries[j].seqNo {
        CountsTwo(entries, i, j);
      }
    }
  }

  // ---- The ledger at any moment before a failure

  /** A generator whose ledger starts out empty, as it does in a run's own directory. */
  predicate Ready(cfg: Config) {
    Usable(cfg) && cfg.prior == ""
  }

  /** These batches are some reading of the whole ledger as it stands. */
  predicate ReadsLedger(g: Gen, bs: seq<Batch>) {
    AllLedger(bs) == Lines(Complete(g.sink.file))
  }

  /** The oracle's records are these rows. */
  ghost predicate Knows(ledger: map<nat, Tag>, rows: seq<Entry>) {
    && (forall i :: 0 <= i < |rows| ==> rows[i].seqNo in ledger && ledger[rows[i].seqNo] == TagOf(rows[i].outcome))
    && (forall s :: s in ledger ==> exists i :: 0 <= i < |rows| && rows[i].seqNo == s)
  }

  lemma RecordedExactly(entries: seq<Entry>)
    requires forall i, j :: 0 <= i < j < |entries| ==> entries[i].seqNo != entries[j].seqNo
    ensures var st := Recorded(EMPTY, RowsFor(entries)); st.conflicts == [] && Knows(st.ledger, entries)
  {
    var rows := RowsFor(entries);
    var st := Recorded(EMPTY, rows);
    NoConflictExactly(rows);
    hide Recorded;
    forall i | 0 <= i < |entries|
      ensures entries[i].seqNo in st.ledger && st.ledger[entries[i].seqNo] == TagOf(entries[i].outcome)
    {
      FirstRowStands(rows, i);
    }
    forall s | s in st.ledger
      ensures exists i :: 0 <= i < |entries| && entries[i].seqNo == s
    {
      var i := Recalled(rows, s);
      assert entries[i].seqNo == s;
    }
  }

  /** The oracle that has read these entries, each once, knows exactly them and reports no conflict. */
  lemma EntriesKnown(cfg: Config, entries: seq<Entry>, bs: seq<Batch>, runId: int)
    requires Ready(cfg) && Stamped(cfg, entries)
    requires forall s: nat :: Count(entries, s) <= One(s < Bytes.TWO_64)
    requires AllLedger(bs) == Lines(Serialised(entries))
    ensures var st := IngestedAll(EMPTY, bs, runId); st.conflicts == [] && Knows(st.ledger, entries)
  {
    hide Recorded, IngestedAll, RowsFor, Knows, Count, Stamped, AllLedger, Lines, Serialised, AllWritable;
    CountedWritable(cfg, entries);
    DistinctByCount(entries);
    LedgerReadBack(entries, bs, runId);
    RecordedExactly(entries);
  }

  lemma CountedWritable(cfg: Config, entries: seq<Entry>)
    requires Ready(cfg) && Stamped(cfg, entries)
    requires forall s: nat :: Count(entries, s) <= One(s < Bytes.TWO_64)
    ensures AllWritable(entries)
  {
    forall k | 0 <= k < |entries|
      ensures Writable(entries[k])
    {
      CountsOwn(entries, k);
      assert Count(entries, entries[k].seqNo) <= One(entries[k].seqNo < Bytes.TWO_64);
    }
  }

  /** The rows and what one thread still buffers: no sequence number twice. */
  lemma RowsAndBuffer(cfg: Config, g: Gen, i: nat, m: nat, s: nat)
    requires cfg.batch > 0 && Inv(cfg, g) && i < |g.threads| && m <= |g.threads[i].pending| && g.counter <= Bytes.TWO_64
    ensures Count(g.rows + g.threads[i].pending[..m], s) <= One(s < Bytes.TWO_64)
  {
    var pending := g.threads[i].pending;
    assert Accounted(cfg, g, s);
    HoldsAtLeast(cfg, g.threads, i, s);
    assert pending == pending[..m] + pending[m..];
    CountAppend(pending[..m], pending[m..], s);
    CountAppend(g.rows, pending[..m], s);
    hide Count, HeldAll;
  }

  lemma RowsAlone(cfg: Config, g: Gen, s: nat)
    requires cfg.batch > 0 && Inv(cfg, g) && g.counter <= Bytes.TWO_64
    ensures Count(g.rows, s) <= One(s < Bytes.TWO_64)
  {
    assert Accounted(cfg, g, s);
  }

  /** Until something fails, the oracle that has read the ledger between flushes knows exactly the confirmed rows. */
  lemma LedgerSoFar(cfg: Config, run: seq<Action>, bs: seq<Batch>, runId: int)
    requires Ready(cfg) && Legal(cfg, run)
    requires var g := After(cfg, run); Unfailed(g) && g.counter <= Bytes.TWO_64 && ReadsLedger(g, bs)
    ensures var st := IngestedAll(EMPTY, bs, runId); st.conflicts == [] && Knows(st.ledger, After(cfg, run).rows)
  {
    var g := After(cfg, run);
    RunInv(cfg, run);
    StampedRun(cfg, run);
    hide Legal, After, Count, Knows, IngestedAll;
    FileIsRows(cfg, g);
    forall s: nat
      ensures Count(g.rows, s) <= One(s < Bytes.TWO_64)
    {
      RowsAlone(cfg, g, s);
    }
    CountedWritable(cfg, g.rows);
    SerialisedWhole(g.rows);
    hide Lines, Complete, Serialised;
    EntriesKnown(cfg, g.rows, bs, runId);
  }

  lemma FileIsRows(cfg: Config, g: Gen)
    requires Ready(cfg) && Inv(cfg, g) && Unfailed(g)
    ensures g.sink.file == Serialised(g.rows)
  {
    assert "" + Serialised(g.rows) == Serialised(g.rows);
  }

  lemma SerialisedWhole(entries: seq<Entry>)
    requires AllWritable(entries)
    ensures WholeLines(Serialised(entries)) && Complete(Serialised(entries)) == Serialised(entries)
  {
    SerialisedLines(entries);
    CompleteWhole(Serialised(entries));
  }

  // ---- The ledger while a flush is under way

  /** The lines of these entries that the first `k` bytes of their serialisation hold whole. */
  lemma {:induction false} WholeLinesIn(entries: seq<Entry>, k: nat) returns (m: nat)
    requires AllWritable(entries) && k <= |Serialised(entries)|
    ensures m <= |entries| && Complete(Serialised(entries)[..k]) == Serialised(entries[..m])
    ensures |Serialised(entries[..m])| <= k && (m < |entries| ==> k < |Serialised(entries[..m + 1])|)
    decreases |entries|
  {
    hide ToLine, Serialised, Complete, Writable;
    if entries == [] {
      m := 0;
      NothingSerialised();
      return;
    }
    var n := |entries| - 1;
    var early := Serialised(entries[..n]);
    SerialisedSnoc(entries);
    if k < |early| {
      m := WholeLinesIn(entries[..n], k);
      assert Serialised(entries)[..k] == early[..k];
      assert entries[..n][..m] == entries[..m];
      if m < n {
        assert entries[..n][..m + 1] == entries[..m + 1];
      }
    } else if k == |Serialised(entries)| {
      m := n + 1;
      SerialisedWhole(entries);
      assert entries[..m] == entries && Serialised(entries)[..k] == Serialised(entries);
    } else {
      m := n;
      LastTorn(entries, k);
      assert entries[..n + 1] == entries;
    }
  }

  lemma NothingSerialised()
    ensures Serialised([]) == [] && Complete([]) == []
  {
  }

  lemma SerialisedSnoc(entries: seq<Entry>)
    requires entries != []
    ensures var n := |entries| - 1;
      Serialised(entries) == Serialised(entries[..n]) + (ToLine(entries[n]) + "\n")
  {
  }

  /** A prefix that stops inside the last line holds the others whole. */
  lemma LastTorn(entries: seq<Entry>, k: nat)
    requires AllWritable(entries) && entries != []
    requires var n := |entries| - 1; |Serialised(entries[..n])| <= k < |Serialised(entries)|
    ensures Complete(Serialised(entries)[..k]) == Serialised(entries[..|entries| - 1])
  {
    hide ToLine, Serialised, Complete;
    var n := |entries| - 1;
    var early, line := Serialised(entries[..n]), ToLine(entries[n]);
    SerialisedSnoc(entries);
    SerialisedWhole(entries[..n]);
    LineIsOneLine(entries[n]);
    TornTail(early, line, k - |early|);
    assert (early + (line + "\n"))[..k] == early + line[..k - |early|];
  }

  lemma TornTail(whole: string, line: string, k: nat)
    requires WholeLines(whole) && '\n' !in line && k <= |line|
    ensures Complete(whole + line[..k]) == whole
  {
    var s := whole + line[..k];
    forall i | |whole| <= i < |s|
      ensures s[i] != '\n'
    {
      assert s[i] == line[i - |whole|];
    }
    assert |whole| > 0 ==> s[|whole| - 1] == '\n';
    CompleteLenUnique(s, |whole|);
  }

  lemma CompleteAfterWhole(a: string, b: string)
    requires WholeLines(a)
    ensures Complete(a + b) == a + Complete(b)
  {
    CompleteWhole(a);
    CompleteGrows(a, a + b);
    hide CompleteLen;
    assert (a + b)[|a|..] == b;
    assert CompleteLen(a) == |a| by { assert |a[..CompleteLen(a)]| == CompleteLen(a); }
  }

  /** Inside `flush`: past the loop's test or past the loop, with the mutex held. */
  predicate MayFlush(t: Thread) {
    t.pc.Deciding? || t.pc.Leaving?
  }

  /**
   * Until something fails, and wherever in an append or between append and sync the read lands: the oracle
   * knows exactly the confirmed rows and those buffered rows of the flushing thread whose lines had
   * reached the file whole, without conflict.
   */
  lemma LedgerMidFlush(cfg: Config, run: seq<Action>, i: nat, k: nat, bs: seq<Batch>, runId: int) returns (m: nat)
    requires Ready(cfg) && Legal(cfg, run)
    requires var g := After(cfg, run);
      && Unfailed(g) && g.counter <= Bytes.TWO_64
      && i < |g.threads| && MayFlush(g.threads[i]) && k <= |Serialised(g.threads[i].pending)|
      && AllLedger(bs) == Lines(Complete(g.sink.file + Serialised(g.threads[i].pending)[..k]))
    ensures var g, st := After(cfg, run), IngestedAll(EMPTY, bs, runId);
      var pending := g.threads[i].pending;
      && m <= |pending|
      && |Serialised(pending[..m])| <= k && (m < |pending| ==> k < |Serialised(pending[..m + 1])|)
      && st.conflicts == [] && Knows(st.ledger, g.rows + pending[..m])
  {
    hide Legal, After, Count, Knows, IngestedAll, Lines, Complete, Serialised, Inv, AllStamped, Stamped, AllWritable, AllLedger;
    var g := After(cfg, run);
    RunInv(cfg, run);
    StampedRun(cfg, run);
    BufferWritable(cfg, g, i);
    m := WholeLinesIn(g.threads[i].pending, k);
    FileMidFlush(cfg, g, i, k, m);
    RowsAndBufferKnown(cfg, g, i, m, bs, runId);
  }

  lemma RowsAndBufferKnown(cfg: Config, g: Gen, i: nat, m: nat, bs: seq<Batch>, runId: int)
    requires Ready(cfg) && Inv(cfg, g) && AllStamped(cfg, g) && g.counter <= Bytes.TWO_64
    requires i < |g.threads| && m <= |g.threads[i].pending|
    requires AllLedger(bs) == Lines(Serialised(g.rows + g.threads[i].pending[..m]))
    ensures var st := IngestedAll(EMPTY, bs, runId);
      st.conflicts == [] && Knows(st.ledger, g.rows + g.threads[i].pending[..m])
  {
    hide Count, Knows, IngestedAll, Lines, Serialised, AllLedger, Inv;
    var pending := g.threads[i].pending;
    assert Stamped(cfg, g.rows + pending[..m]) by { assert Stamped(cfg, pending); }
    hide AllStamped, Stamped;
    forall s: nat
      ensures Count(g.rows + pending[..m], s) <= One(s < Bytes.TWO_64)
    {
      RowsAndBuffer(cfg, g, i, m, s);
    }
    EntriesKnown(cfg, g.rows + pending[..m], bs, runId);
  }

  lemma BufferWritable(cfg: Config, g: Gen, i: nat)
    requires Ready(cfg) && Inv(cfg, g) && AllStamped(cfg, g) && i < |g.threads| && g.counter <= Bytes.TWO_64
    ensures AllWritable(g.rows) && AllWritable(g.threads[i].pending)
  {
    var pending := g.threads[i].pending;
    hide Count;
    forall s: nat
      ensures Count(g.rows, s) <= One(s < Bytes.TWO_64) && Count(pending, s) <= One(s < Bytes.TWO_64)
    {
      RowsAlone(cfg, g, s);
      RowsAndBuffer(cfg, g, i, |pending|, s);
      assert pending[..|pending|] == pending;
      CountAppend(g.rows, pending, s);
    }
    assert Stamped(cfg, pending) && Stamped(cfg, g.rows);
    hide Inv, AllStamped, Stamped;
    CountedWritable(cfg, g.rows);
    CountedWritable(cfg, pending);
  }

  lemma FileMidFlush(cfg: Config, g: Gen, i: nat, k: nat, m: nat)
    requires Ready(cfg) && Inv(cfg, g) && Unfailed(g) && i < |g.threads| && AllWritable(g.rows)
    requires var pending := g.threads[i].pending;
      && m <= |pending| && k <= |Serialised(pending)| && Complete(Serialised(pending)[..k]) == Serialised(pending[..m])
    ensures Complete(g.sink.file + Serialised(g.threads[i].pending)[..k])
         == Serialised(g.rows + g.threads[i].pending[..m])
  {
    FileIsRows(cfg, g);
    SerialisedWhole(g.rows);
    CompleteAfterWhole(Serialised(g.rows), Serialised(g.threads[i].pending)[..k]);
    SerialisedAppend(g.rows, g.threads[i].pending[..m]);
    hide Serialised, Complete, Inv;
  }
}
