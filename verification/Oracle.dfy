/**
 * The durability oracle's specification: what the accumulated ledger and delivery log amount
 * to, and the three invariants checked against them. This is the simple dict-based form.
 */
module Oracle {
  import opened Wrappers
  import Bytes
  import opened LedgerLine
  import opened DeliveryLine

  /** A sequence number the ledger reports under two tags: the first kept, the later recorded. */
  datatype Conflict = Conflict(seqNo: nat, first: Tag, later: Tag)

  datatype State = State(
    ledger: map<nat, Tag>, counts: map<nat, nat>, total: nat, conflicts: seq<Conflict>, hwm: nat)

  const EMPTY: State := State(map[], map[], 0, [], 0)

  // ---- Ingesting

  /** One ledger row: the first tag seen for a sequence number stands. */
  function LedgerStep(st: State, s: nat, t: Tag): State {
    var st' := st.(hwm := Bytes.Max(st.hwm, s));
    if s in st.ledger && st.ledger[s] != t then
      st'.(conflicts := st.conflicts + [Conflict(s, st.ledger[s], t)])
    else st'.(ledger := st.ledger[s := t])
  }

  /** One delivery. */
  function DeliverStep(st: State, s: nat): State {
    st.(counts := st.counts[s := Deliveries(st.counts, s) + 1], total := st.total + 1)
  }

  function LedgerLines(st: State, lines: seq<string>): State
    decreases |lines|
  {
    if lines == [] then st
    else
      var st' := LedgerLines(st, lines[..|lines| - 1]);
      match ParseLedgerLine(lines[|lines| - 1])
      case None => st'
      case Some((s, t)) => LedgerStep(st', s, t)
  }

  function DeliveredLines(st: State, lines: seq<string>, runId: int): State
    decreases |lines|
  {
    if lines == [] then st
    else
      var st' := DeliveredLines(st, lines[..|lines| - 1], runId);
      match ParseDeliveredLine(lines[|lines| - 1], runId)
      case None => st'
      case Some(s) => DeliverStep(st', s)
  }

  /** One `ingest` call: all of its ledger lines, then all of its delivery lines. */
  datatype Batch = Batch(ledger: seq<string>, delivered: seq<string>)

  function Ingested(st: State, b: Batch, runId: int): State {
    DeliveredLines(LedgerLines(st, b.ledger), b.delivered, runId)
  }

  function IngestedAll(st: State, bs: seq<Batch>, runId: int): State
    decreases |bs|
  {
    if bs == [] then st else Ingested(IngestedAll(st, bs[..|bs| - 1], runId), bs[|bs| - 1], runId)
  }

  // ---- Checking

  function Tagged(ledger: map<nat, Tag>, t: Tag): set<nat> {
    set s | s in ledger && ledger[s] == t
  }

  predicate IsLeast(m: nat, s: set<nat>) {
    m in s && forall x :: x in s ==> m <= x
  }

  lemma {:induction false} FindLeast(s: set<nat>) returns (m: nat)
    requires s != {}
    ensures IsLeast(m, s)
    decreases |s|
  {
    m :| m in s;
    var t := s - {m};
    if t != {} {
      var k := FindLeast(t);
      assert forall x :: x in s ==> x == m || x in t;
      if k < m {
        m := k;
      }
    } else {
      assert s == {m};
    }
  }

  lemma HasLeast(s: set<nat>)
    requires s != {}
    ensures exists m :: IsLeast(m, s)
  {
    var m := FindLeast(s);
  }

  function Least(s: set<nat>): (m: nat)
    requires s != {}
    ensures IsLeast(m, s)
  {
    HasLeast(s);
    var m :| IsLeast(m, s);
    m
  }

  /** `sorted(s)` */
  function Sorted(s: set<nat>): seq<nat>
    decreases |s|
  {
    if s == {} then [] else [Least(s)] + Sorted(s - {Least(s)})
  }

  lemma {:induction false} SortedMembers(s: set<nat>)
    ensures |Sorted(s)| == |s| && forall x :: x in Sorted(s) <==> x in s
    decreases |s|
  {
    if s != {} {
      var m := Least(s);
      SortedMembers(s - {m});
      assert Sorted(s) == [m] + Sorted(s - {m});
      assert |s - {m}| == |s| - 1;
    }
  }

  lemma {:induction false} SortedAscends(s: set<nat>)
    ensures forall i, j :: 0 <= i < j < |Sorted(s)| ==> Sorted(s)[i] < Sorted(s)[j]
    decreases |s|
  {
    if s != {} {
      var m := Least(s);
      var rest := Sorted(s - {m});
      SortedAscends(s - {m});
      SortedMembers(s - {m});
      assert Sorted(s) == [m] + rest;
      hide Sorted;
      LeastFirst(m, s, rest);
    }
  }

  lemma LeastFirst(m: nat, s: set<nat>, rest: seq<nat>)
    requires IsLeast(m, s) && forall x :: x in rest <==> x in s - {m}
    ensures forall i :: 0 <= i < |rest| ==> m < rest[i]
  {
    forall i | 0 <= i < |rest|
      ensures m < rest[i]
    {
      assert rest[i] in rest;
    }
  }

  /** The members of the set, each once, in ascending order. */
  lemma SortedMeaning(s: set<nat>)
    ensures |Sorted(s)| == |s| && forall x :: x in Sorted(s) <==> x in s
    ensures forall i, j :: 0 <= i < j < |Sorted(s)| ==> Sorted(s)[i] < Sorted(s)[j]
  {
    SortedMembers(s);
    SortedAscends(s);
  }

  function Deliveries(counts: map<nat, nat>, s: nat): nat {
    if s in counts then counts[s] else 0
  }

  function SumOver(counts: map<nat, nat>, ss: seq<nat>): nat {
    if ss == [] then 0 else Deliveries(counts, ss[0]) + SumOver(counts, ss[1..])
  }

  datatype VerifyResult = VerifyResult(
    ok: bool, i1Missing: seq<nat>, i2Leaked: seq<nat>, unknownCount: nat, ackedCount: nat,
    deliveredDistinct: int, duplicateRate: real, nackedCount: nat, pushed: nat,
    orphanedDelivered: seq<nat>, ledgerConflicts: seq<Conflict>, i1Exempt: nat,
    pendingProvenance: nat, expectedLoss: nat)

  function LargestKey(ledger: map<nat, Tag>): nat {
    var keys := Sorted(ledger.Keys);
    if keys == [] then 0 else keys[|keys| - 1]
  }

  /** Acknowledged and never delivered. */
  function Absent(ledger: map<nat, Tag>, counts: map<nat, nat>): set<nat> {
    Tagged(ledger, ACK) - counts.Keys
  }

  /** Refused and delivered anyway. */
  function Leaked(ledger: map<nat, Tag>, counts: map<nat, nat>): set<nat> {
    Tagged(ledger, NACK) * counts.Keys
  }

  /** Delivered with no ledger row. */
  function Unproven(ledger: map<nat, Tag>, counts: map<nat, nat>): set<nat> {
    counts.Keys - Tagged(ledger, ACK) - Tagged(ledger, NACK) - Tagged(ledger, UNK)
  }

  /** The members of `s` past the frontier, which are exempt; no slack, no exemption. */
  function Beyond(s: set<nat>, slack: nat, hwm: nat): set<nat> {
    if slack == 0 then {} else set x | x in s && x > hwm - slack
  }

  /** The members of `s` that are not. */
  function Within(s: set<nat>, slack: nat, hwm: nat): set<nat> {
    s - Beyond(s, slack, hwm)
  }

  function Rate(total: int, distinct: int): real {
    if distinct == 0 then 0.0 else total as real / distinct as real
  }

  /** The one combination under which losing an acknowledged record is within the contract. */
  predicate BufferedPowerLoss(tier: Option<char>, fault: Option<string>) {
    tier == Some('U') && fault == Some("power_loss")
  }

  /** The invariant core, over plain ledger and counts. */
  function CheckCounts(
    ledger: map<nat, Tag>, counts: map<nat, nat>, total: nat, conflicts: seq<Conflict>,
    slack: nat, ledgerHwm: Option<nat>, tier: Option<char>, fault: Option<string>): VerifyResult
  {
    var absent, leaked, unproven := Absent(ledger, counts), Leaked(ledger, counts), Unproven(ledger, counts);
    var hwm := if ledgerHwm.Some? then ledgerHwm.value else LargestKey(ledger);
    var lossAllowed := BufferedPowerLoss(tier, fault);
    var missing := if lossAllowed then [] else Sorted(Within(absent, slack, hwm));
    var distinct := |counts| - |unproven|;
    VerifyResult(
      missing == [] && Sorted(leaked) == [] && conflicts == [],
      missing, Sorted(leaked), |Tagged(ledger, UNK)|, |Tagged(ledger, ACK)|, distinct,
      Rate(total - SumOver(counts, Sorted(unproven)), distinct),
      |Tagged(ledger, NACK)|, |ledger|, Sorted(Within(unproven, slack, hwm)), conflicts,
      |Beyond(absent, slack, hwm)|, |Beyond(unproven, slack, hwm)|,
      if lossAllowed then |Within(absent, slack, hwm)| else 0)
  }

  function Check(st: State, slack: nat, tier: Option<char>, fault: Option<string>): VerifyResult {
    CheckCounts(st.ledger, st.counts, st.total, st.conflicts, slack, Some(st.hwm), tier, fault)
  }
}
