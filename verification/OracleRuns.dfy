/**
 * The oracle over whole runs: what the accumulated state is, however the two logs were read.
 */
module OracleRuns {
  import opened Wrappers
  import opened LedgerLine
  import opened DeliveryLine
  import opened Oracle
  import opened OracleLaws

  // ---- Batches do not matter

  function AllLedger(bs: seq<Batch>): seq<string> {
    if bs == [] then [] else AllLedger(bs[..|bs| - 1]) + bs[|bs| - 1].ledger
  }

  function AllDelivered(bs: seq<Batch>): seq<string> {
    if bs == [] then [] else AllDelivered(bs[..|bs| - 1]) + bs[|bs| - 1].delivered
  }

  /** The sequence numbers a delivery log names, with multiplicity. */
  function Named(lines: seq<string>, runId: int): multiset<nat> {
    if lines == [] then multiset{}
    else
      var rest := Named(lines[..|lines| - 1], runId);
      match ParseDeliveredLine(lines[|lines| - 1], runId)
      case None => rest
      case Some(s) => rest + multiset{s}
  }

  lemma {:induction false} LedgerAppend(st: State, a: seq<string>, b: seq<string>)
    ensures LedgerLines(st, a + b) == LedgerLines(LedgerLines(st, a), b)
    decreases |b|
  {
    hide ParseLedgerLine, LedgerStep;
    if b == [] {
      assert a + b == a;
    } else {
      LedgerAppend(st, a, b[..|b| - 1]);
      assert (a + b)[..|a + b| - 1] == a + b[..|b| - 1];
    }
  }

  lemma {:induction false} DeliveredAppend(st: State, a: seq<string>, b: seq<string>, runId: int)
    ensures DeliveredLines(st, a + b, runId) == DeliveredLines(DeliveredLines(st, a, runId), b, runId)
    decreases |b|
  {
    hide ParseDeliveredLine, DeliverStep;
    if b == [] {
      assert a + b == a;
    } else {
      DeliveredAppend(st, a, b[..|b| - 1], runId);
      assert (a + b)[..|a + b| - 1] == a + b[..|b| - 1];
    }
  }

  /** Ledger rows neither read nor write the delivery side. */
  lemma {:induction false} LedgerFrame(st: State, lines: seq<string>, counts: map<nat, nat>, total: nat)
    ensures LedgerLines(st.(counts := counts, total := total), lines)
         == LedgerLines(st, lines).(counts := counts, total := total)
    ensures LedgerLines(st, lines).counts == st.counts && LedgerLines(st, lines).total == st.total
    decreases |lines|
  {
    hide ParseLedgerLine;
    if lines != [] {
      LedgerFrame(st, lines[..|lines| - 1], counts, total);
    }
  }

  /** Deliveries neither read nor write the ledger side. */
  lemma {:induction false} DeliveredFrame(st: State, lines: seq<string>, runId: int)
    ensures var st' := DeliveredLines(st, lines, runId);
            st' == st.(counts := st'.counts, total := st'.total)
    decreases |lines|
  {
    hide ParseDeliveredLine;
    if lines != [] {
      DeliveredFrame(st, lines[..|lines| - 1], runId);
    }
  }

  lemma {:induction false} DeliveredDepends(st: State, st': State, lines: seq<string>, runId: int)
    requires st.counts == st'.counts && st.total == st'.total
    ensures DeliveredLines(st, lines, runId).counts == DeliveredLines(st', lines, runId).counts
    ensures DeliveredLines(st, lines, runId).total == DeliveredLines(st', lines, runId).total
    decreases |lines|
  {
    hide ParseDeliveredLine;
    if lines != [] {
      DeliveredDepends(st, st', lines[..|lines| - 1], runId);
    }
  }

  lemma Commute(st: State, ledger: seq<string>, delivered: seq<string>, runId: int)
    ensures LedgerLines(DeliveredLines(st, delivered, runId), ledger)
         == DeliveredLines(LedgerLines(st, ledger), delivered, runId)
  {
    var d := DeliveredLines(st, delivered, runId);
    DeliveredFrame(st, delivered, runId);
    LedgerFrame(st, ledger, d.counts, d.total);
    LedgerFrame(st, ledger, st.counts, st.total);
    DeliveredFrame(LedgerLines(st, ledger), delivered, runId);
    DeliveredDepends(st, LedgerLines(st, ledger), delivered, runId);
    hide LedgerLines, DeliveredLines;
  }

  /** However a run is cut into batches, it comes to one batch of everything. */
  lemma {:induction false} OneBatch(st: State, bs: seq<Batch>, runId: int)
    ensures IngestedAll(st, bs, runId) == Ingested(st, Batch(AllLedger(bs), AllDelivered(bs)), runId)
    decreases |bs|
  {
    if bs != [] {
      var rest, last := bs[..|bs| - 1], bs[|bs| - 1];
      OneBatch(st, rest, runId);
      var mid := LedgerLines(st, AllLedger(rest));
      Commute(mid, last.ledger, AllDelivered(rest), runId);
      LedgerAppend(st, AllLedger(rest), last.ledger);
      DeliveredAppend(LedgerLines(mid, last.ledger), AllDelivered(rest), last.delivered, runId);
      hide LedgerLines, DeliveredLines;
    }
  }

  // ---- Delivery order does not matter

  /** The counts are exactly the multiplicities, added to what was there. */
  lemma {:induction false} Tally(st: State, lines: seq<string>, runId: int, s: nat)
    ensures Deliveries(DeliveredLines(st, lines, runId).counts, s) == Deliveries(st.counts, s) + Named(lines, runId)[s]
    ensures s in DeliveredLines(st, lines, runId).counts <==> s in st.counts || Named(lines, runId)[s] > 0
    ensures DeliveredLines(st, lines, runId).total == st.total + |Named(lines, runId)|
    decreases |lines|
  {
    hide ParseDeliveredLine;
    if lines != [] {
      Tally(st, lines[..|lines| - 1], runId, s);
    }
  }

  lemma SameDeliveries(st: State, a: seq<string>, b: seq<string>, runId: int)
    requires Named(a, runId) == Named(b, runId)
    ensures DeliveredLines(st, a, runId) == DeliveredLines(st, b, runId)
  {
    hide DeliveredLines, Named;
    DeliveredFrame(st, a, runId);
    DeliveredFrame(st, b, runId);
    var x, y := DeliveredLines(st, a, runId), DeliveredLines(st, b, runId);
    forall s: nat
      ensures Deliveries(x.counts, s) == Deliveries(y.counts, s) && (s in x.counts <==> s in y.counts)
    {
      Tally(st, a, runId, s);
      Tally(st, b, runId, s);
    }
    Tally(st, a, runId, 0);
    Tally(st, b, runId, 0);
    forall s | s in x.counts
      ensures s in y.counts && x.counts[s] == y.counts[s]
    {
      assert Deliveries(x.counts, s) == Deliveries(y.counts, s);
    }
    assert x.counts == y.counts;
  }

  /** The accumulated state depends on the ledger's lines and on the multiset of deliveries, and on nothing else. */
  lemma ReadingIrrelevant(cs: seq<Batch>, bs: seq<Batch>, runId: int)
    requires AllLedger(cs) == AllLedger(bs)
    requires Named(AllDelivered(cs), runId) == Named(AllDelivered(bs), runId)
    ensures IngestedAll(EMPTY, cs, runId) == IngestedAll(EMPTY, bs, runId)
  {
    OneBatch(EMPTY, cs, runId);
    OneBatch(EMPTY, bs, runId);
    SameDeliveries(LedgerLines(EMPTY, AllLedger(cs)), AllDelivered(cs), AllDelivered(bs), runId);
    hide LedgerLines, DeliveredLines, Named, AllLedger, AllDelivered, IngestedAll;
  }

  // ---- What the ledger comes to

  /** The rows a ledger's lines carry. */
  function Rows(lines: seq<string>): seq<(nat, Tag)> {
    if lines == [] then []
    else
      var rest := Rows(lines[..|lines| - 1]);
      match ParseLedgerLine(lines[|lines| - 1])
      case None => rest
      case Some(row) => rest + [row]
  }

  function Recorded(st: State, rows: seq<(nat, Tag)>): State {
    if rows == [] then st
    else LedgerStep(Recorded(st, rows[..|rows| - 1]), rows[|rows| - 1].0, rows[|rows| - 1].1)
  }

  lemma {:induction false} LinesAreRows(st: State, lines: seq<string>)
    ensures LedgerLines(st, lines) == Recorded(st, Rows(lines))
    decreases |lines|
  {
    hide ParseLedgerLine, LedgerStep;
    if lines != [] {
      LinesAreRows(st, lines[..|lines| - 1]);
      var row := ParseLedgerLine(lines[|lines| - 1]);
      if row.Some? {
        assert Rows(lines)[..|Rows(lines)| - 1] == Rows(lines[..|lines| - 1]);
      }
    }
  }

  /** Everything on record is some row's tag. */
  lemma {:induction false} Recalled(rows: seq<(nat, Tag)>, s: nat) returns (i: nat)
    requires s in Recorded(EMPTY, rows).ledger
    ensures i < |rows| && rows[i] == (s, Recorded(EMPTY, rows).ledger[s])
    decreases |rows|
  {
    var n := |rows| - 1;
    if s in Recorded(EMPTY, rows[..n]).ledger {
      i := Recalled(rows[..n], s);
    } else {
      i := n;
    }
  }

  /** The first row for a sequence number stands, whatever follows it. */
  lemma {:induction false} FirstRowStands(rows: seq<(nat, Tag)>, i: nat)
    requires i < |rows| && forall j :: 0 <= j < i ==> rows[j].0 != rows[i].0
    ensures rows[i].0 in Recorded(EMPTY, rows).ledger && Recorded(EMPTY, rows).ledger[rows[i].0] == rows[i].1
    decreases |rows|
  {
    var n := |rows| - 1;
    if i < n {
      FirstRowStands(rows[..n], i);
    } else if rows[n].0 in Recorded(EMPTY, rows[..n]).ledger {
      var j := Recalled(rows[..n], rows[n].0);
    }
  }

  /** No two rows give one sequence number different tags. */
  ghost predicate Consistent(rows: seq<(nat, Tag)>) {
    forall i, j :: 0 <= i < |rows| && 0 <= j < |rows| && rows[i].0 == rows[j].0 ==> rows[i].1 == rows[j].1
  }

  lemma {:induction false} Noted(rows: seq<(nat, Tag)>, i: nat)
    requires i < |rows|
    ensures rows[i].0 in Recorded(EMPTY, rows).ledger
    decreases |rows|
  {
    if i < |rows| - 1 {
      Noted(rows[..|rows| - 1], i);
    }
  }

  /** A conflict is reported exactly when some sequence number was given two tags. */
  lemma {:induction false} NoConflictExactly(rows: seq<(nat, Tag)>)
    ensures Recorded(EMPTY, rows).conflicts == [] <==> Consistent(rows)
    decreases |rows|
  {
    if rows != [] {
      var n := |rows| - 1;
      var prefix, s := rows[..n], rows[n].0;
      NoConflictExactly(prefix);
      assert forall i :: 0 <= i < n ==> prefix[i] == rows[i];
      var ledger := Recorded(EMPTY, prefix).ledger;
      if s in ledger {
        var k := Recalled(prefix, s);
        assert rows[k] == (s, ledger[s]);
      } else {
        forall j | 0 <= j < n
          ensures rows[j].0 != s
        {
          Noted(prefix, j);
        }
      }
    }
  }

  /** Row `j` contradicts the first row for its sequence number, row `i`. */
  predicate Contradicts(rows: seq<(nat, Tag)>, i: nat, j: nat) {
    && i < j < |rows| && rows[i].0 == rows[j].0 && rows[i].1 != rows[j].1
    && forall k :: 0 <= k < i ==> rows[k].0 != rows[i].0
  }

  /** The reported triples, in order: one for each row that contradicts the first of its number. */
  ghost function Disputes(rows: seq<(nat, Tag)>): seq<Conflict> {
    if rows == [] then []
    else
      var n := |rows| - 1;
      Disputes(rows[..n]) +
        if i: nat :| Contradicts(rows, i, n) then [Conflict(rows[n].0, rows[i].1, rows[n].1)] else []
  }

  lemma {:induction false} FirstOf(rows: seq<(nat, Tag)>, s: nat) returns (i: nat)
    requires s in Recorded(EMPTY, rows).ledger
    ensures i < |rows| && rows[i] == (s, Recorded(EMPTY, rows).ledger[s]) && forall k :: 0 <= k < i ==> rows[k].0 != s
    decreases |rows|
  {
    var n := |rows| - 1;
    if s in Recorded(EMPTY, rows[..n]).ledger {
      i := FirstOf(rows[..n], s);
    } else {
      i := n;
      forall k | 0 <= k < n
        ensures rows[k].0 != s
      {
        Noted(rows[..n], k);
      }
    }
  }

  /** The conflicts on record are exactly the disputes, each with the tag that stands and the one that came later. */
  lemma {:induction false} ConflictsExactly(rows: seq<(nat, Tag)>)
    ensures Recorded(EMPTY, rows).conflicts == Disputes(rows)
    decreases |rows|
  {
    if rows != [] {
      var n := |rows| - 1;
      ConflictsExactly(rows[..n]);
      var s, t := rows[n].0, rows[n].1;
      var ledger := Recorded(EMPTY, rows[..n]).ledger;
      if s in ledger {
        var i := FirstOf(rows[..n], s);
        FirstIsUnique(rows, n, i);
      } else {
        forall k: nat | k < n
          ensures !Contradicts(rows, k, n)
        {
          Noted(rows[..n], k);
        }
      }
    }
  }

  lemma FirstIsUnique(rows: seq<(nat, Tag)>, n: nat, i: nat)
    requires n == |rows| - 1 && i < n && rows[i].0 == rows[n].0 && forall k :: 0 <= k < i ==> rows[k].0 != rows[n].0
    ensures forall j: nat :: Contradicts(rows, j, n) ==> j == i
    ensures rows[i].1 != rows[n].1 <==> Contradicts(rows, i, n)
  {
  }

  // ---- The high-water mark

  lemma {:induction false} HwmInvariant(lines: seq<string>)
    ensures var st := LedgerLines(EMPTY, lines);
      (forall s :: s in st.ledger ==> s <= st.hwm) && (if st.ledger == map[] then st.hwm == 0 else st.hwm in st.ledger)
    decreases |lines|
  {
    hide ParseLedgerLine;
    if lines != [] {
      HwmInvariant(lines[..|lines| - 1]);
    }
  }

  lemma LargestIs(ledger: map<nat, Tag>, hwm: nat)
    requires forall s :: s in ledger ==> s <= hwm
    requires if ledger == map[] then hwm == 0 else hwm in ledger
    ensures LargestKey(ledger) == hwm
  {
    var keys := Sorted(ledger.Keys);
    SortedMeaning(ledger.Keys);
    hide Sorted;
    if keys != [] {
      assert keys[|keys| - 1] in keys;
      assert hwm in keys;
    } else {
      assert ledger.Keys == {};
    }
  }

  lemma RunHwm(bs: seq<Batch>, runId: int)
    ensures var st := IngestedAll(EMPTY, bs, runId);
      (forall s :: s in st.ledger ==> s <= st.hwm) && (if st.ledger == map[] then st.hwm == 0 else st.hwm in st.ledger)
  {
    OneBatch(EMPTY, bs, runId);
    HwmInvariant(AllLedger(bs));
    DeliveredFrame(LedgerLines(EMPTY, AllLedger(bs)), AllDelivered(bs), runId);
    hide LedgerLines, DeliveredLines, IngestedAll;
  }

  /** The mark kept as rows arrive is the largest ledgered sequence number, so checks with and without it agree. */
  lemma HwmIsLargest(bs: seq<Batch>, runId: int, slack: nat, tier: Option<char>, fault: Option<string>)
    ensures var st := IngestedAll(EMPTY, bs, runId);
      && st.hwm == LargestKey(st.ledger)
      && Check(st, slack, tier, fault)
         == CheckCounts(st.ledger, st.counts, st.total, st.conflicts, slack, None, tier, fault)
  {
    RunHwm(bs, runId);
    LargestIs(IngestedAll(EMPTY, bs, runId).ledger, IngestedAll(EMPTY, bs, runId).hwm);
    hide IngestedAll, LargestKey, Sorted, Within, Beyond, SumOver, Rate, Absent, Leaked, Unproven, Tagged;
  }

  // ---- The duplicate rate

  function Sum(counts: map<nat, nat>, ss: set<nat>): nat {
    SumOver(counts, Sorted(ss))
  }

  lemma {:induction false} SumWithout(counts: map<nat, nat>, ss: set<nat>, x: nat)
    requires x in ss
    ensures Sum(counts, ss) == Deliveries(counts, x) + Sum(counts, ss - {x})
    decreases |ss|
  {
    hide Deliveries;
    var m := Least(ss);
    if x != m {
      assert m in ss - {x} && Least(ss - {x}) == m;
      SumWithout(counts, ss - {m}, x);
      assert ss - {m} - {x} == ss - {x} - {m};
    }
  }

  lemma {:induction false} SumSplit(counts: map<nat, nat>, ss: set<nat>, part: set<nat>)
    requires part <= ss
    ensures Sum(counts, ss) == Sum(counts, part) + Sum(counts, ss - part)
    decreases |part|
  {
    hide Deliveries, SumOver, Sorted;
    if part == {} {
      assert ss - part == ss;
      assert Sum(counts, {}) == 0 by { SumNothing(counts); }
    } else {
      var x :| x in part;
      SumWithout(counts, ss, x);
      SumWithout(counts, part, x);
      SumSplit(counts, ss - {x}, part - {x});
      assert ss - {x} - (part - {x}) == ss - part;
      assert |part - {x}| < |part|;
    }
  }

  lemma SumNothing(counts: map<nat, nat>)
    ensures Sum(counts, {}) == 0
  {
  }

  /** Changing one count changes the sum over the others not at all. */
  lemma {:induction false} SumElsewhere(counts: map<nat, nat>, ss: set<nat>, x: nat, n: nat)
    requires x !in ss
    ensures Sum(counts[x := n], ss) == Sum(counts, ss)
    decreases |ss|
  {
    if ss != {} {
      SumElsewhere(counts, ss - {Least(ss)}, x, n);
    }
  }

  lemma SumBumped(counts: map<nat, nat>, s: nat)
    ensures var counts' := counts[s := Deliveries(counts, s) + 1];
            Sum(counts', counts'.Keys) == Sum(counts, counts.Keys) + 1
  {
    var counts' := counts[s := Deliveries(counts, s) + 1];
    var others := counts.Keys - {s};
    SumWithout(counts', counts'.Keys, s);
    assert counts'.Keys - {s} == others;
    SumElsewhere(counts, others, s, Deliveries(counts, s) + 1);
    if s in counts {
      SumWithout(counts, counts.Keys, s);
    } else {
      assert others == counts.Keys;
    }
    hide Sum;
  }

  /** Every delivery is counted once: the running total is the sum of the counts, and no count is zero. */
  lemma {:induction false} TotalIsSum(st: State, lines: seq<string>, runId: int)
    requires st.total == Sum(st.counts, st.counts.Keys) && forall s :: s in st.counts ==> st.counts[s] > 0
    ensures var st' := DeliveredLines(st, lines, runId);
            st'.total == Sum(st'.counts, st'.counts.Keys) && forall s :: s in st'.counts ==> st'.counts[s] > 0
    decreases |lines|
  {
    hide ParseDeliveredLine, Sum;
    if lines != [] {
      var before := DeliveredLines(st, lines[..|lines| - 1], runId);
      TotalIsSum(st, lines[..|lines| - 1], runId);
      match ParseDeliveredLine(lines[|lines| - 1], runId)
      case None =>
      case Some(s) => SumBumped(before.counts, s);
    }
  }

  lemma {:induction false} SumAtLeastSize(counts: map<nat, nat>, ss: set<nat>)
    requires forall s :: s in ss ==> s in counts && counts[s] > 0
    ensures Sum(counts, ss) >= |ss|
    decreases |ss|
  {
    if ss != {} {
      SumAtLeastSize(counts, ss - {Least(ss)});
    }
  }

  lemma CountsAddUp(bs: seq<Batch>, runId: int)
    ensures var st := IngestedAll(EMPTY, bs, runId);
            st.total == Sum(st.counts, st.counts.Keys) && forall s :: s in st.counts ==> st.counts[s] > 0
  {
    OneBatch(EMPTY, bs, runId);
    var ledgered := LedgerLines(EMPTY, AllLedger(bs));
    LedgerFrame(EMPTY, AllLedger(bs), map[], 0);
    SumNothing(map[]);
    hide Sum, LedgerLines, DeliveredLines, IngestedAll;
    assert ledgered.counts == map[] && ledgered.counts.Keys == {} && ledgered.total == 0;
    TotalIsSum(ledgered, AllDelivered(bs), runId);
  }

  lemma KnownAndUnproven(ledger: map<nat, Tag>, counts: map<nat, nat>)
    ensures Sum(counts, counts.Keys) == Sum(counts, counts.Keys * ledger.Keys) + Sum(counts, Unproven(ledger, counts))
  {
    hide Sum;
    var known := counts.Keys * ledger.Keys;
    SumSplit(counts, counts.Keys, known);
    SetsMeaning(ledger, counts);
    assert counts.Keys - known == Unproven(ledger, counts);
  }

  lemma RateMeaning(st: State, slack: nat, tier: Option<char>, fault: Option<string>, distinct: nat, known: nat)
    requires |st.counts| == distinct + |Unproven(st.ledger, st.counts)|
    requires st.total == known + Sum(st.counts, Unproven(st.ledger, st.counts))
    ensures Check(st, slack, tier, fault).duplicateRate == Rate(known, distinct)
  {
    hide Sorted, Within, Beyond, SumOver, Rate, Absent, Leaked, Unproven, Tagged;
  }

  lemma RateLaw(known: nat, distinct: nat)
    requires known >= distinct
    ensures if distinct == 0 then Rate(known, distinct) == 0.0
            else Rate(known, distinct) * distinct as real == known as real && Rate(known, distinct) >= 1.0
  {
    if distinct != 0 {
      var rate, d := Rate(known, distinct), distinct as real;
      assert rate * d == known as real;
      if rate < 1.0 {
        assert rate * d < d;
      }
    }
  }

  /** The duplicate rate is deliveries per ledgered record delivered; it is never below one. */
  lemma DuplicateRate(bs: seq<Batch>, runId: int, slack: nat, tier: Option<char>, fault: Option<string>)
    ensures var st := IngestedAll(EMPTY, bs, runId);
            var known := st.counts.Keys * st.ledger.Keys;
            var rate := Check(st, slack, tier, fault).duplicateRate;
            if |known| == 0 then rate == 0.0 else rate * |known| as real == Sum(st.counts, known) as real && rate >= 1.0
  {
    hide Sum, IngestedAll, Unproven, Rate, Check;
    var st := IngestedAll(EMPTY, bs, runId);
    var known := st.counts.Keys * st.ledger.Keys;
    CountsAddUp(bs, runId);
    SumAtLeastSize(st.counts, known);
    UnprovenInside(st.ledger, st.counts);
    KnownAndUnproven(st.ledger, st.counts);
    RateMeaning(st, slack, tier, fault, |known|, Sum(st.counts, known));
    RateLaw(Sum(st.counts, known), |known|);
  }

  // ---- Running totals only grow

  lemma {:induction false} LedgerKeeps(st: State, lines: seq<string>, s: nat)
    ensures s in st.ledger ==> s in LedgerLines(st, lines).ledger && LedgerLines(st, lines).ledger[s] == st.ledger[s]
    decreases |lines|
  {
    hide ParseLedgerLine;
    if lines != [] {
      LedgerKeeps(st, lines[..|lines| - 1], s);
    }
  }

  lemma SubsetSize(a: set<nat>, b: set<nat>)
    requires a <= b
    ensures |a| <= |b|
  {
    assert b == a + (b - a);
  }

  lemma TaggedGrows(a: map<nat, Tag>, b: map<nat, Tag>, t: Tag)
    requires forall s :: s in a ==> s in b && b[s] == a[s]
    ensures |Tagged(a, t)| <= |Tagged(b, t)|
  {
    SubsetSize(Tagged(a, t), Tagged(b, t));
  }

  lemma FiguresOf(st: State, slack: nat, tier: Option<char>, fault: Option<string>)
    ensures var r := Check(st, slack, tier, fault);
      && r.ackedCount == |Tagged(st.ledger, ACK)| && r.nackedCount == |Tagged(st.ledger, NACK)|
      && r.unknownCount == |Tagged(st.ledger, UNK)| && r.pushed == |st.ledger.Keys|
      && r.deliveredDistinct == |st.counts.Keys * st.ledger.Keys|
  {
    Conservation(st.ledger, st.counts, st.total, st.conflicts, slack, st.hwm, tier, fault);
    hide Sorted, Within, Beyond, SumOver, Rate, Absent, Leaked, Unproven, Tagged;
    assert |st.ledger| == |st.ledger.Keys|;
  }

  /** No later batch lowers a reported total, so per-episode differences are never negative. */
  lemma FiguresGrow(st: State, b: Batch, runId: int, slack: nat, tier: Option<char>, fault: Option<string>)
    ensures var r, r' := Check(st, slack, tier, fault), Check(Ingested(st, b, runId), slack, tier, fault);
      && r.ackedCount <= r'.ackedCount && r.nackedCount <= r'.nackedCount && r.unknownCount <= r'.unknownCount
      && r.pushed <= r'.pushed && r.deliveredDistinct <= r'.deliveredDistinct
  {
    var st' := Ingested(st, b, runId);
    var mid := LedgerLines(st, b.ledger);
    FiguresOf(st, slack, tier, fault);
    FiguresOf(st', slack, tier, fault);
    LedgerFrame(st, b.ledger, st.counts, st.total);
    DeliveredFrame(mid, b.delivered, runId);
    hide Check, LedgerLines, DeliveredLines, Named, Tagged;
    forall s | s in st.ledger
      ensures s in st'.ledger && st'.ledger[s] == st.ledger[s]
    {
      LedgerKeeps(st, b.ledger, s);
    }
    forall s | s in st.counts
      ensures s in st'.counts
    {
      Tally(mid, b.delivered, runId, s);
    }
    TaggedGrows(st.ledger, st'.ledger, ACK);
    TaggedGrows(st.ledger, st'.ledger, NACK);
    TaggedGrows(st.ledger, st'.ledger, UNK);
    SubsetSize(st.ledger.Keys, st'.ledger.Keys);
    SubsetSize(st.counts.Keys * st.ledger.Keys, st'.counts.Keys * st'.ledger.Keys);
  }
}
