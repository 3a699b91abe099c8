/**
 * The two accumulators: the obviously correct reference and the dense one that replaces it.
 * Both are proved against the same specification, so they agree on every run.
 */
module Accumulators {
  import opened Wrappers
  import opened Bytes
  import opened LedgerLine
  import opened DeliveryLine
  import opened Oracle
  import opened Cells

  // ---- The totals and unresolved sets the dense form keeps up to date

  datatype Summary = Summary(
    pushed: nat, acked: nat, nacked: nat, unknown: nat, distinct: nat,
    unresolved: set<nat>, leaked: set<nat>, noProvenance: set<nat>)

  ghost function Totals(
    ledger: set<nat>, acked: set<nat>, nacked: set<nat>, unknown: set<nat>, delivered: set<nat>): Summary
  {
    Summary(|ledger|, |acked|, |nacked|, |unknown|, |delivered|,
            acked - delivered, nacked * delivered, delivered - ledger)
  }

  /** What they must be: recomputed from the whole state. */
  ghost function Summarise(ledger: map<nat, Tag>, counts: map<nat, nat>): Summary {
    Totals(ledger.Keys, Tagged(ledger, ACK), Tagged(ledger, NACK), Tagged(ledger, UNK), counts.Keys)
  }

  function With(s: set<nat>, x: nat, add: bool): set<nat> {
    if add then s + {x} else s
  }

  function Without(s: set<nat>, x: nat, remove: bool): set<nat> {
    if remove then s - {x} else s
  }

  function Bit(b: bool): nat {
    if b then 1 else 0
  }

  /** How a first-seen ledger row changes them. */
  function AddRow(m: Summary, s: nat, t: Tag, delivered: bool): Summary {
    Summary(m.pushed + 1, m.acked + Bit(t == ACK), m.nacked + Bit(t == NACK), m.unknown + Bit(t == UNK), m.distinct,
            With(m.unresolved, s, t == ACK && !delivered), With(m.leaked, s, t == NACK && delivered),
            Without(m.noProvenance, s, delivered))
  }

  /** How a first delivery changes them, given the tag on record. */
  function AddDelivery(m: Summary, s: nat, tag: Option<Tag>): Summary {
    m.(distinct := m.distinct + 1, unresolved := Without(m.unresolved, s, tag == Some(ACK)),
       leaked := With(m.leaked, s, tag == Some(NACK)), noProvenance := With(m.noProvenance, s, tag == None))
  }

  lemma TaggedAdd(ledger: map<nat, Tag>, s: nat, t: Tag, u: Tag)
    requires s !in ledger
    ensures Tagged(ledger[s := t], u) == With(Tagged(ledger, u), s, t == u)
    ensures s !in Tagged(ledger, u)
  {
  }

  lemma WithMinus(a: set<nat>, b: set<nat>, s: nat, add: bool)
    ensures With(a, s, add) - b == With(a - b, s, add && s !in b)
  {
  }

  lemma WithTimes(a: set<nat>, b: set<nat>, s: nat, add: bool)
    ensures With(a, s, add) * b == With(a * b, s, add && s in b)
  {
  }

  lemma MinusWith(a: set<nat>, b: set<nat>, s: nat)
    ensures a - With(b, s, true) == Without(a - b, s, s in a)
  {
  }

  lemma SizeWith(a: set<nat>, s: nat, add: bool)
    requires s !in a
    ensures |With(a, s, add)| == |a| + Bit(add)
  {
  }

  lemma RowTotals(
    ledger: set<nat>, acked: set<nat>, nacked: set<nat>, unknown: set<nat>, delivered: set<nat>, s: nat, t: Tag)
    requires acked <= ledger && nacked <= ledger && unknown <= ledger && s !in ledger
    ensures Totals(With(ledger, s, true), With(acked, s, t == ACK), With(nacked, s, t == NACK),
                   With(unknown, s, t == UNK), delivered)
         == AddRow(Totals(ledger, acked, nacked, unknown, delivered), s, t, s in delivered)
  {
    WithMinus(acked, delivered, s, t == ACK);
    WithTimes(nacked, delivered, s, t == NACK);
    MinusWith(delivered, ledger, s);
    SizeWith(ledger, s, true);
    SizeWith(acked, s, t == ACK);
    SizeWith(nacked, s, t == NACK);
    SizeWith(unknown, s, t == UNK);
    hide With, Without;
    assert Bit(true) == 1;
  }

  /** The incremental update is the recomputation, for a row not seen before. */
  lemma RowSummary(ledger: map<nat, Tag>, counts: map<nat, nat>, s: nat, t: Tag)
    requires s !in ledger
    ensures Summarise(ledger[s := t], counts) == AddRow(Summarise(ledger, counts), s, t, s in counts)
  {
    TaggedAdd(ledger, s, t, ACK);
    TaggedAdd(ledger, s, t, NACK);
    TaggedAdd(ledger, s, t, UNK);
    assert ledger[s := t].Keys == With(ledger.Keys, s, true);
    RowTotals(ledger.Keys, Tagged(ledger, ACK), Tagged(ledger, NACK), Tagged(ledger, UNK), counts.Keys, s, t);
    hide Tagged, Totals, AddRow;
  }

  lemma DeliveryTotals(
    ledger: set<nat>, acked: set<nat>, nacked: set<nat>, unknown: set<nat>, delivered: set<nat>, s: nat, tag: Option<Tag>)
    requires s !in delivered
    requires s in ledger <==> tag.Some?
    requires s in acked <==> tag == Some(ACK)
    requires s in nacked <==> tag == Some(NACK)
    ensures Totals(ledger, acked, nacked, unknown, With(delivered, s, true))
         == AddDelivery(Totals(ledger, acked, nacked, unknown, delivered), s, tag)
  {
    MinusWith(acked, delivered, s);
    WithTimes(delivered, nacked, s, true);
    WithMinus(delivered, ledger, s, true);
    SizeWith(delivered, s, true);
    assert nacked * With(delivered, s, true) == With(delivered, s, true) * nacked;
    assert nacked * delivered == delivered * nacked;
    hide With, Without;
    assert Bit(true) == 1;
  }

  function TagIn(ledger: map<nat, Tag>, s: nat): Option<Tag> {
    if s in ledger then Some(ledger[s]) else None
  }

  /** The incremental update is the recomputation, for a delivery; a repeat changes nothing. */
  lemma DeliverySummary(ledger: map<nat, Tag>, counts: map<nat, nat>, s: nat, n: nat)
    ensures Summarise(ledger, counts[s := n]) ==
            if s in counts then Summarise(ledger, counts) else AddDelivery(Summarise(ledger, counts), s, TagIn(ledger, s))
  {
    assert counts[s := n].Keys == With(counts.Keys, s, true);
    if s in counts {
      assert counts[s := n].Keys == counts.Keys;
    } else {
      DeliveryTotals(ledger.Keys, Tagged(ledger, ACK), Tagged(ledger, NACK), Tagged(ledger, UNK),
                     counts.Keys, s, TagIn(ledger, s));
    }
    hide Totals, AddDelivery, Tagged;
  }

  /** What the tag bits of a cell say about the ledger. */
  lemma CellTag(st: Store, s: nat)
    requires s < |st.cells|
    ensures s in LedgerOf(st) <==> TagBits(st.cells[s]) != 0
    ensures s in LedgerOf(st) ==> LedgerOf(st)[s] == TagFor(TagBits(st.cells[s])) && Code(LedgerOf(st)[s]) == TagBits(st.cells[s])
  {
  }

  /** The verdict as it follows from the totals and unresolved sets alone. */
  function Report(
    m: Summary, knownTotal: int, conflicts: seq<Conflict>, hwm: nat,
    slack: nat, tier: Option<char>, fault: Option<string>): VerifyResult
  {
    var lossAllowed := BufferedPowerLoss(tier, fault);
    var missing := if lossAllowed then [] else Sorted(Within(m.unresolved, slack, hwm));
    var distinct := m.distinct - |m.noProvenance|;
    VerifyResult(
      missing == [] && m.leaked == {} && conflicts == [],
      missing, Sorted(m.leaked), m.unknown, m.acked, distinct, Rate(knownTotal, distinct),
      m.nacked, m.pushed, Sorted(Within(m.noProvenance, slack, hwm)), conflicts,
      |Beyond(m.unresolved, slack, hwm)|, |Beyond(m.noProvenance, slack, hwm)|,
      if lossAllowed then |Within(m.unresolved, slack, hwm)| else 0)
  }

  lemma UnprovenIsUnledgered(ledger: map<nat, Tag>, counts: map<nat, nat>)
    ensures Unproven(ledger, counts) == counts.Keys - ledger.Keys
  {
    forall s | s in ledger
      ensures s in Tagged(ledger, ACK) || s in Tagged(ledger, NACK) || s in Tagged(ledger, UNK)
    {
      var t := ledger[s];
      assert t == ACK || t == NACK || t == UNK;
    }
  }

  lemma SummaryFields(ledger: map<nat, Tag>, counts: map<nat, nat>)
    ensures Summarise(ledger, counts) ==
            Summary(|ledger|, |Tagged(ledger, ACK)|, |Tagged(ledger, NACK)|, |Tagged(ledger, UNK)|, |counts|,
                    Absent(ledger, counts), Leaked(ledger, counts), Unproven(ledger, counts))
  {
    UnprovenIsUnledgered(ledger, counts);
    hide Tagged, Unproven;
    assert |ledger| == |ledger.Keys| && |counts| == |counts.Keys|;
  }

  lemma SortedEmpty(s: set<nat>)
    ensures Sorted(s) == [] <==> s == {}
  {
  }

  lemma ReportIsCheck(st: State, slack: nat, tier: Option<char>, fault: Option<string>)
    ensures Report(Summarise(st.ledger, st.counts), st.total - SumOver(st.counts, Sorted(Unproven(st.ledger, st.counts))),
                   st.conflicts, st.hwm, slack, tier, fault)
         == Check(st, slack, tier, fault)
  {
    SummaryFields(st.ledger, st.counts);
    SortedEmpty(Leaked(st.ledger, st.counts));
    hide Summarise, Absent, Leaked, Unproven, Tagged, Sorted, SumOver, Beyond, Within, Rate;
  }

  // ---- The sequence numbers a batch names

  function LedgerNumbers(lines: seq<string>): seq<nat> {
    if lines == [] then []
    else
      var rest := LedgerNumbers(lines[..|lines| - 1]);
      match ParseLedgerLine(lines[|lines| - 1])
      case None => rest
      case Some((s, _)) => rest + [s]
  }

  function DeliveredNumbers(lines: seq<string>, runId: int): seq<nat> {
    if lines == [] then []
    else
      var rest := DeliveredNumbers(lines[..|lines| - 1], runId);
      match ParseDeliveredLine(lines[|lines| - 1], runId)
      case None => rest
      case Some(s) => rest + [s]
  }

  /** In the order `ingest` meets them. */
  function Numbers(b: Batch, runId: int): seq<nat> {
    LedgerNumbers(b.ledger) + DeliveredNumbers(b.delivered, runId)
  }

  function AllNumbers(bs: seq<Batch>, runId: int): seq<nat> {
    if bs == [] then [] else AllNumbers(bs[..|bs| - 1], runId) + Numbers(bs[|bs| - 1], runId)
  }

  lemma {:induction false} LedgerNumbersGrow(lines: seq<string>, n: nat)
    requires n <= |lines|
    ensures LedgerNumbers(lines[..n]) <= LedgerNumbers(lines)
    decreases |lines|
  {
    hide ParseLedgerLine;
    if n == |lines| {
      assert lines[..n] == lines;
    } else {
      LedgerNumbersGrow(lines[..|lines| - 1], n);
      assert lines[..|lines| - 1][..n] == lines[..n];
    }
  }

  lemma {:induction false} DeliveredNumbersGrow(lines: seq<string>, runId: int, n: nat)
    requires n <= |lines|
    ensures DeliveredNumbers(lines[..n], runId) <= DeliveredNumbers(lines, runId)
    decreases |lines|
  {
    hide ParseDeliveredLine;
    if n == |lines| {
      assert lines[..n] == lines;
    } else {
      DeliveredNumbersGrow(lines[..|lines| - 1], runId, n);
      assert lines[..|lines| - 1][..n] == lines[..n];
    }
  }

  /** An overrun among the first numbers is an overrun of all of them. */
  lemma OverrunsEarly(len: nat, early: seq<nat>, all: seq<nat>)
    requires early <= all && Overruns(len, early)
    ensures Overruns(len, all)
  {
    hide Overruns;
    OverrunsAppend(len, early, all[|early|..]);
    assert all == early + all[|early|..];
  }

  lemma NoNumbers(len: nat)
    ensures Capacity(len, []) == len && !Overruns(len, [])
  {
  }

  lemma OneMoreNumber(len: nat, ss: seq<nat>, s: nat)
    ensures Capacity(len, ss + [s]) == Room(Capacity(len, ss), s)
    ensures Overruns(len, ss + [s]) <==> Overruns(len, ss) || (s > MAX_SEQ && s >= Capacity(len, ss))
  {
    hide Overruns, Capacity, Room;
    CapacityAppend(len, ss, [s]);
    OverrunsAppend(len, ss, [s]);
    OneNumber(Capacity(len, ss), s);
  }

  // ---- The dense accumulator

  class DenseAccumulator {
    const runId: int
    const countMax: nat
    const countOverflow: nat
    var cells: seq<Byte>
    var overflow: map<nat, nat>
    var deliveredTotal: nat
    var hwm: nat
    var conflicts: seq<Conflict>
    var pushed: nat
    var acked: nat
    var nacked: nat
    var unknown: nat
    var distinct: nat
    var unresolved: set<nat>
    var leaked: set<nat>
    var noProvenance: set<nat>

    ghost function Memory(): Store
      reads this
    {
      Store(cells, overflow, countMax, countOverflow)
    }

    ghost function Kept(): Summary
      reads this
    {
      Summary(pushed, acked, nacked, unknown, distinct, unresolved, leaked, noProvenance)
    }

    /** The dict-based state these bytes stand for. */
    ghost function Abs(): State
      reads this
      requires Valid()
    {
      State(LedgerOf(Memory()), CountsOf(Memory()), deliveredTotal, conflicts, hwm)
    }

    ghost predicate Valid()
      reads this
    {
      Good(Memory()) && Kept() == Summarise(LedgerOf(Memory()), CountsOf(Memory()))
    }

    /** Any ceiling below a sentinel that fits six bits will do; the source uses 62 and 63. */
    constructor (runId: int, countMax: nat, countOverflow: nat)
      requires countMax < countOverflow <= 63
      ensures Valid() && Abs() == EMPTY && |cells| == 0
      ensures this.runId == runId && this.countMax == countMax && this.countOverflow == countOverflow
    {
      this.runId, this.countMax, this.countOverflow := runId, countMax, countOverflow;
      cells, overflow, deliveredTotal, hwm, conflicts := [], map[], 0, 0, [];
      pushed, acked, nacked, unknown, distinct := 0, 0, 0, 0, 0;
      unresolved, leaked, noProvenance := {}, {}, {};
    }

    /** Refuses a sequence number past both the array and the ceiling rather than allocating for it. */
    method Grow(s: nat) returns (ok: bool)
      requires Valid()
      modifies `cells
      ensures ok <==> s < old(|cells|) || s <= 0x100_0000_0000
      ensures Valid() && Abs() == old(Abs())
      ensures if ok then s < |cells| == Room(old(|cells|), s) else cells == old(cells)
    {
      hide Summarise, Good, LedgerOf, CountsOf;
      if s < |cells| { return true; }
      if s > MAX_SEQ { return false; }
      var newLen := Max(Max(s + 1, |cells| * 2), 1024);
      GrowKeeps(Memory(), newLen - |cells|);
      cells := cells + Zeros(newLen - |cells|);
      return true;
    }

    method Count(s: nat) returns (n: nat)
      requires Good(Memory())
      ensures n == CountAt(Memory(), s)
    {
      if s >= |cells| { return 0; }
      var packed := CountBits(cells[s]);
      n := if packed == countOverflow then overflow[s] else packed;
    }

    /** One ledger row; raises exactly when there is no room for its sequence number and none can be made. */
    method IngestLedger(s: nat, t: Tag) returns (ok: bool)
      requires Valid()
      modifies this
      ensures Valid()
      ensures ok <==> s < old(|cells|) || s <= 0x100_0000_0000
      ensures ok ==> Abs() == LedgerStep(old(Abs()), s, t) && |cells| == Room(old(|cells|), s)
    {
      hide Summarise, Good, LedgerOf, CountsOf, CountAt, TagBits, CountBits, AddRow, Room;
      hwm := Max(hwm, s);
      ok := Grow(s);
      if !ok { return; }
      var prior := TagBits(cells[s]);
      CellTag(Memory(), s);
      if prior != 0 {
        if prior != Code(t) {
          conflicts := conflicts + [Conflict(s, TagFor(prior), t)];
        } else {
          assert LedgerOf(Memory())[s := t] == LedgerOf(Memory());
        }
        return;
      }
      RowSummary(LedgerOf(Memory()), CountsOf(Memory()), s, t);
      MarkTag(Memory(), s, t);
      cells := cells[s := OrTag(cells[s], t)];
      var delivered := Count(s);
      CountIsCount(Memory(), s);
      NoteRow(s, t, delivered);
    }

    /** The tail of `_ingest_ledger`: a first row for `s`, delivered that often already. */
    method NoteRow(s: nat, t: Tag, delivered: nat)
      modifies `pushed, `acked, `nacked, `unknown, `unresolved, `leaked, `noProvenance
      ensures Kept() == AddRow(old(Kept()), s, t, delivered != 0)
    {
      pushed := pushed + 1;
      match t {
        case ACK =>
          acked := acked + 1;
          if delivered == 0 { unresolved := unresolved + {s}; }
        case NACK =>
          nacked := nacked + 1;
          if delivered != 0 { leaked := leaked + {s}; }
        case UNK =>
          unknown := unknown + 1;
      }
      if delivered != 0 { noProvenance := noProvenance - {s}; }
    }

    method BumpCount(s: nat)
      requires Good(Memory()) && s < |cells|
      modifies `cells, `overflow
      ensures Memory() == Bumped(old(Memory()), s)
    {
      var cell := cells[s];
      var packed := CountBits(cell);
      if packed == countOverflow {
        overflow := overflow[s := overflow[s] + 1];
        return;
      }
      if packed == countMax {
        overflow := overflow[s := countMax + 1];
        cells := cells[s := Packed(countOverflow, TagBits(cell))];
        return;
      }
      cells := cells[s := Packed(packed + 1, TagBits(cell))];
    }

    /** One delivery; raises exactly when there is no room for its sequence number and none can be made. */
    method IngestDelivered(s: nat) returns (ok: bool)
      requires Valid()
      modifies this
      ensures Valid()
      ensures ok <==> s < old(|cells|) || s <= 0x100_0000_0000
      ensures ok ==> Abs() == DeliverStep(old(Abs()), s) && |cells| == Room(old(|cells|), s)
    {
      hide Summarise, Good, LedgerOf, CountsOf, CountAt, TagBits, CountBits, Bumped, AddDelivery, Room;
      ok := Grow(s);
      if !ok { return; }
      var n := Count(s);
      CountIsCount(Memory(), s);
      DeliverySummary(LedgerOf(Memory()), CountsOf(Memory()), s, n + 1);
      BumpCounts(Memory(), s);
      BumpCount(s);
      deliveredTotal := deliveredTotal + 1;
      if n != 0 { return; }
      CellTag(Memory(), s);
      NoteDelivery(s, TagBits(cells[s]));
    }

    /** The tail of `_ingest_delivered`: a first delivery of `s`, under that tag. */
    method NoteDelivery(s: nat, tag: nat)
      requires tag < 4
      modifies `distinct, `unresolved, `leaked, `noProvenance
      ensures Kept() == AddDelivery(old(Kept()), s, if tag == 0 then None else Some(TagFor(tag)))
    {
      distinct := distinct + 1;
      if tag == Code(ACK) {
        unresolved := unresolved - {s};
      } else if tag == Code(NACK) {
        leaked := leaked + {s};
      } else if tag == 0 {
        noProvenance := noProvenance + {s};
      }
    }

    /** The ledger lines of one batch; raises exactly at the first number there is no room for. */
    method IngestLedgerLines(lines: seq<string>) returns (ok: bool)
      requires Valid()
      modifies this
      ensures Valid()
      ensures ok <==> !Overruns(old(|cells|), LedgerNumbers(lines))
      ensures ok ==> Abs() == LedgerLines(old(Abs()), lines) && |cells| == Capacity(old(|cells|), LedgerNumbers(lines))
    {
      hide Valid, Abs, Good, LedgerStep, ParseLedgerLine, Overruns, Capacity, Room;
      ghost var len := |cells|;
      NoNumbers(len);
      for i := 0 to |lines|
        invariant Valid() && Abs() == LedgerLines(old(Abs()), lines[..i])
        invariant !Overruns(len, LedgerNumbers(lines[..i])) && |cells| == Capacity(len, LedgerNumbers(lines[..i]))
      {
        assert lines[..i + 1][..i] == lines[..i];
        var parsed := ParseLedgerLine(lines[i]);
        if parsed.Some? {
          OneMoreNumber(len, LedgerNumbers(lines[..i]), parsed.value.0);
          ok := IngestLedger(parsed.value.0, parsed.value.1);
          if !ok {
            LedgerNumbersGrow(lines, i + 1);
            OverrunsEarly(len, LedgerNumbers(lines[..i + 1]), LedgerNumbers(lines));
            return;
          }
        }
      }
      assert lines[..|lines|] == lines;
      return true;
    }

    /** Likewise the delivery lines. */
    method IngestDeliveredLines(lines: seq<string>) returns (ok: bool)
      requires Valid()
      modifies this
      ensures Valid()
      ensures ok <==> !Overruns(old(|cells|), DeliveredNumbers(lines, runId))
      ensures ok ==> Abs() == DeliveredLines(old(Abs()), lines, runId)
                     && |cells| == Capacity(old(|cells|), DeliveredNumbers(lines, runId))
    {
      hide Valid, Abs, Good, DeliverStep, ParseDeliveredLine, Overruns, Capacity, Room;
      ghost var len := |cells|;
      NoNumbers(len);
      for i := 0 to |lines|
        invariant Valid() && Abs() == DeliveredLines(old(Abs()), lines[..i], runId)
        invariant !Overruns(len, DeliveredNumbers(lines[..i], runId))
        invariant |cells| == Capacity(len, DeliveredNumbers(lines[..i], runId))
      {
        assert lines[..i + 1][..i] == lines[..i];
        var parsed := ParseDeliveredLine(lines[i], runId);
        if parsed.Some? {
          OneMoreNumber(len, DeliveredNumbers(lines[..i], runId), parsed.value);
          ok := IngestDelivered(parsed.value);
          if !ok {
            DeliveredNumbersGrow(lines, runId, i + 1);
            OverrunsEarly(len, DeliveredNumbers(lines[..i + 1], runId), DeliveredNumbers(lines, runId));
            return;
          }
        }
      }
      assert lines[..|lines|] == lines;
      return true;
    }

    /** One batch; raises exactly when some number it names overruns the array and the ceiling. */
    method Ingest(batch: Batch) returns (ok: bool)
      requires Valid()
      modifies this
      ensures Valid()
      ensures ok <==> !Overruns(old(|cells|), Numbers(batch, runId))
      ensures ok ==> Abs() == Ingested(old(Abs()), batch, runId) && |cells| == Capacity(old(|cells|), Numbers(batch, runId))
    {
      hide Valid, Abs, Overruns, Capacity, LedgerNumbers, DeliveredNumbers;
      OverrunsAppend(|cells|, LedgerNumbers(batch.ledger), DeliveredNumbers(batch.delivered, runId));
      CapacityAppend(|cells|, LedgerNumbers(batch.ledger), DeliveredNumbers(batch.delivered, runId));
      ok := IngestLedgerLines(batch.ledger);
      if ok {
        ok := IngestDeliveredLines(batch.delivered);
      }
    }

    /** `sum(self._count(s) for s in self._no_provenance)` */
    method UnprovenTotal() returns (n: nat)
      requires Valid()
      ensures n == SumOver(CountsOf(Memory()), Sorted(noProvenance))
    {
      ghost var counts := CountsOf(Memory());
      hide Good, LedgerOf, CountsOf, CountAt, Tagged, Sorted, Totals;
      var ss := Sorted(noProvenance);
      n := 0;
      for i := 0 to |ss|
        invariant n + SumOver(counts, ss[i..]) == SumOver(counts, ss)
      {
        var c := Count(ss[i]);
        CountIsCount(Memory(), ss[i]);
        assert ss[i..][1..] == ss[i + 1..];
        n := n + c;
      }
    }

    /** The verdict from the running totals is the verdict from the whole state. */
    method Check(slack: nat, tier: Option<char>, fault: Option<string>) returns (r: VerifyResult)
      requires Valid()
      ensures r == Oracle.Check(Abs(), slack, tier, fault)
    {
      hide Sorted, Rate, SumOver, Beyond, Within, CheckCounts, Good, LedgerOf, CountsOf, Tagged, Totals, Summarise;
      hide Absent, Leaked, Unproven;
      var expectedLoss, missing := 0, [];
      if BufferedPowerLoss(tier, fault) {
        expectedLoss := |Within(unresolved, slack, hwm)|;
      } else {
        missing := Sorted(Within(unresolved, slack, hwm));
      }
      var unprovenTotal := UnprovenTotal();
      var knownTotal, knownDistinct := deliveredTotal - unprovenTotal, distinct - |noProvenance|;
      r := VerifyResult(
        missing == [] && leaked == {} && conflicts == [],
        missing, Sorted(leaked), unknown, acked, knownDistinct, Rate(knownTotal, knownDistinct),
        nacked, pushed, Sorted(Within(noProvenance, slack, hwm)), conflicts,
        |Beyond(unresolved, slack, hwm)|, |Beyond(noProvenance, slack, hwm)|, expectedLoss);
      assert r == Report(Kept(), knownTotal, conflicts, hwm, slack, tier, fault);
      SummaryFields(Abs().ledger, Abs().counts);
      ReportIsCheck(Abs(), slack, tier, fault);
    }
  }

  // ---- The reference accumulator

  class ReferenceAccumulator {
    const runId: int
    var ledger: map<nat, Tag>
    var deliveredCounts: map<nat, nat>
    var deliveredTotal: nat
    var conflicts: seq<Conflict>
    var hwm: nat

    ghost function Abs(): State
      reads this
    {
      State(ledger, deliveredCounts, deliveredTotal, conflicts, hwm)
    }

    constructor (runId: int)
      ensures Abs() == EMPTY && this.runId == runId
    {
      this.runId := runId;
      ledger, deliveredCounts, deliveredTotal, conflicts, hwm := map[], map[], 0, [], 0;
    }

    method Ingest(batch: Batch)
      modifies this
      ensures Abs() == Ingested(old(Abs()), batch, runId)
    {
      hide ParseLedgerLine, ParseDeliveredLine;
      for i := 0 to |batch.ledger|
        invariant Abs() == LedgerLines(old(Abs()), batch.ledger[..i])
      {
        assert batch.ledger[..i + 1][..i] == batch.ledger[..i];
        var parsed := ParseLedgerLine(batch.ledger[i]);
        if parsed.Some? {
          var (s, t) := parsed.value;
          hwm := Max(hwm, s);
          if s in ledger && ledger[s] != t {
            conflicts := conflicts + [Conflict(s, ledger[s], t)];
          } else {
            ledger := ledger[s := t];
          }
        }
      }
      assert batch.ledger[..|batch.ledger|] == batch.ledger;
      ghost var mid := Abs();
      for i := 0 to |batch.delivered|
        invariant Abs() == DeliveredLines(mid, batch.delivered[..i], runId)
      {
        assert batch.delivered[..i + 1][..i] == batch.delivered[..i];
        var parsed := ParseDeliveredLine(batch.delivered[i], runId);
        if parsed.Some? {
          deliveredCounts := deliveredCounts[parsed.value := Deliveries(deliveredCounts, parsed.value) + 1];
          deliveredTotal := deliveredTotal + 1;
        }
      }
      assert batch.delivered[..|batch.delivered|] == batch.delivered;
    }

    method Check(slack: nat, tier: Option<char>, fault: Option<string>) returns (r: VerifyResult)
      ensures r == Oracle.Check(Abs(), slack, tier, fault)
    {
      r := CheckCounts(ledger, deliveredCounts, deliveredTotal, conflicts, slack, Some(hwm), tier, fault);
    }
  }

  // ---- The differential

  /**
   * On every stream of batches, whatever the count ceiling, the two accumulators report the same verdict
   * in every field; the dense one raises exactly when some number overruns its array and the ceiling.
   */
  method Differential(
    runId: int, countMax: nat, countOverflow: nat, batches: seq<Batch>,
    slack: nat, tier: Option<char>, fault: Option<string>)
    returns (raised: bool, dense: VerifyResult, reference: VerifyResult)
    requires countMax < countOverflow <= 63
    ensures raised <==> Overruns(0, AllNumbers(batches, runId))
    ensures !raised ==> dense == reference == Check(IngestedAll(EMPTY, batches, runId), slack, tier, fault)
  {
    hide Ingested, Check, Overruns, Capacity, Numbers, DenseAccumulator.Valid, DenseAccumulator.Abs;
    var d := new DenseAccumulator(runId, countMax, countOverflow);
    var r := new ReferenceAccumulator(runId);
    raised := false;
    NoNumbers(0);
    for i := 0 to |batches|
      invariant fresh(d) && fresh(r) && d.runId == runId && r.runId == runId && d.Valid()
      invariant d.Abs() == r.Abs() == IngestedAll(EMPTY, batches[..i], runId)
      invariant !Overruns(0, AllNumbers(batches[..i], runId)) && |d.cells| == Capacity(0, AllNumbers(batches[..i], runId))
    {
      assert batches[..i + 1][..i] == batches[..i];
      CapacityAppend(0, AllNumbers(batches[..i], runId), Numbers(batches[i], runId));
      OverrunsAppend(0, AllNumbers(batches[..i], runId), Numbers(batches[i], runId));
      r.Ingest(batches[i]);
      var ok := d.Ingest(batches[i]);
      if !ok {
        AllNumbersGrow(batches, runId, i + 1);
        OverrunsEarly(0, AllNumbers(batches[..i + 1], runId), AllNumbers(batches, runId));
        dense := r.Check(slack, tier, fault);
        return true, dense, dense;
      }
    }
    assert batches[..|batches|] == batches;
    dense := d.Check(slack, tier, fault);
    reference := r.Check(slack, tier, fault);
  }

  lemma {:induction false} AllNumbersGrow(bs: seq<Batch>, runId: int, n: nat)
    requires n <= |bs|
    ensures AllNumbers(bs[..n], runId) <= AllNumbers(bs, runId)
    decreases |bs|
  {
    hide Numbers;
    if n == |bs| {
      assert bs[..n] == bs;
    } else {
      AllNumbersGrow(bs[..|bs| - 1], runId, n);
      assert bs[..|bs| - 1][..n] == bs[..n];
    }
  }
}
