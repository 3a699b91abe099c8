/**
 * What the oracle's verdict means, and what it does not depend on.
 */
module OracleLaws {
  import opened Wrappers
  import opened LedgerLine
  import opened Oracle

  // ---- Meaning of the verdict

  /** A record this close to the high-water mark may still be in flight. */
  predicate Frontier(s: nat, slack: nat, hwm: nat) {
    slack != 0 && s > hwm - slack
  }

  lemma SortedIs(s: set<nat>)
    ensures Sorted(s) == [] <==> s == {}
    ensures forall x :: x in Sorted(s) <==> x in s
    ensures |Sorted(s)| == |s|
  {
    SortedMeaning(s);
  }

  lemma Partition(s: set<nat>, slack: nat, hwm: nat)
    ensures |Within(s, slack, hwm)| + |Beyond(s, slack, hwm)| == |s|
    ensures forall x :: x in Within(s, slack, hwm) <==> x in s && !Frontier(x, slack, hwm)
  {
    var inside, outside := Within(s, slack, hwm), Beyond(s, slack, hwm);
    assert inside + outside == s && inside !! outside;
  }

  lemma SetsMeaning(ledger: map<nat, Tag>, counts: map<nat, nat>)
    ensures forall s :: s in Absent(ledger, counts) <==> s in ledger && ledger[s] == ACK && s !in counts
    ensures forall s :: s in Leaked(ledger, counts) <==> s in ledger && ledger[s] == NACK && s in counts
    ensures forall s :: s in Unproven(ledger, counts) <==> s in counts && s !in ledger
  {
    forall s
      ensures s in Unproven(ledger, counts) <==> s in counts && s !in ledger
    {
      if s in ledger {
        var t := ledger[s];
        assert t == ACK || t == NACK || t == UNK;
      }
    }
  }

  /** Which records the verdict lists. */
  lemma ListsMeaning(
    ledger: map<nat, Tag>, counts: map<nat, nat>, total: nat, conflicts: seq<Conflict>,
    slack: nat, hwm: nat, tier: Option<char>, fault: Option<string>)
    ensures
      var r := CheckCounts(ledger, counts, total, conflicts, slack, Some(hwm), tier, fault);
      && (forall s :: s in r.i2Leaked <==> s in ledger && ledger[s] == NACK && s in counts)
      && (forall s :: s in r.i1Missing <==>
            !(tier == Some('U') && fault == Some("power_loss"))
            && s in ledger && ledger[s] == ACK && s !in counts && !Frontier(s, slack, hwm))
      && (forall s :: s in r.orphanedDelivered <==> s in counts && s !in ledger && !Frontier(s, slack, hwm))
  {
    SetsMeaning(ledger, counts);
    var absent, leaked, unproven := Absent(ledger, counts), Leaked(ledger, counts), Unproven(ledger, counts);
    Partition(absent, slack, hwm);
    Partition(unproven, slack, hwm);
    SortedIs(Within(absent, slack, hwm));
    SortedIs(Within(unproven, slack, hwm));
    SortedIs(leaked);
    hide Sorted, Within, Beyond, SumOver, Rate, Absent, Leaked, Unproven, Tagged, Frontier;
  }

  /** The records the frontier excuses. */
  lemma BeyondIs(s: set<nat>, slack: nat, hwm: nat)
    ensures Beyond(s, slack, hwm) == (set x | x in s && Frontier(x, slack, hwm))
    ensures Within(s, slack, hwm) == (set x | x in s && !Frontier(x, slack, hwm))
  {
  }

  lemma TaggedIs(ledger: map<nat, Tag>, t: Tag)
    ensures Tagged(ledger, t) == (set s | s in ledger && ledger[s] == t)
  {
  }

  /** What each count in the verdict counts. */
  lemma CountsMeaning(
    ledger: map<nat, Tag>, counts: map<nat, nat>, total: nat, conflicts: seq<Conflict>,
    slack: nat, hwm: nat, tier: Option<char>, fault: Option<string>)
    ensures
      var r := CheckCounts(ledger, counts, total, conflicts, slack, Some(hwm), tier, fault);
      && r.pushed == |ledger.Keys|
      && r.ackedCount == |set s | s in ledger && ledger[s] == ACK|
      && r.nackedCount == |set s | s in ledger && ledger[s] == NACK|
      && r.unknownCount == |set s | s in ledger && ledger[s] == UNK|
      && r.ledgerConflicts == conflicts
  {
    hide Sorted, Within, Beyond, SumOver, Rate, Absent, Leaked, Unproven, Tagged;
    TaggedIs(ledger, ACK);
    TaggedIs(ledger, NACK);
    TaggedIs(ledger, UNK);
    assert |ledger| == |ledger.Keys|;
  }

  lemma AbsentIs(ledger: map<nat, Tag>, counts: map<nat, nat>, slack: nat, hwm: nat)
    ensures Beyond(Absent(ledger, counts), slack, hwm)
         == (set s | s in ledger && ledger[s] == ACK && s !in counts && Frontier(s, slack, hwm))
    ensures Within(Absent(ledger, counts), slack, hwm)
         == (set s | s in ledger && ledger[s] == ACK && s !in counts && !Frontier(s, slack, hwm))
  {
    SetsMeaning(ledger, counts);
    BeyondIs(Absent(ledger, counts), slack, hwm);
    hide Absent, Beyond, Within, Frontier;
  }

  lemma UnprovenIs(ledger: map<nat, Tag>, counts: map<nat, nat>, slack: nat, hwm: nat)
    ensures Beyond(Unproven(ledger, counts), slack, hwm) == (set s | s in counts && s !in ledger && Frontier(s, slack, hwm))
  {
    SetsMeaning(ledger, counts);
    BeyondIs(Unproven(ledger, counts), slack, hwm);
    hide Unproven, Beyond, Within, Frontier;
  }

  /**
   * What is excused and under which heading, for every tier and fault: the frontier's share is exempt or
   * pending, and the rest of the absent records is an expected loss exactly when loss is allowed.
   */
  lemma ExemptionsMeaning(
    ledger: map<nat, Tag>, counts: map<nat, nat>, total: nat, conflicts: seq<Conflict>,
    slack: nat, hwm: nat, tier: Option<char>, fault: Option<string>)
    ensures
      var r := CheckCounts(ledger, counts, total, conflicts, slack, Some(hwm), tier, fault);
      && r.i1Exempt == |set s | s in ledger && ledger[s] == ACK && s !in counts && Frontier(s, slack, hwm)|
      && r.pendingProvenance == |set s | s in counts && s !in ledger && Frontier(s, slack, hwm)|
      && r.expectedLoss ==
         if tier == Some('U') && fault == Some("power_loss")
         then |set s | s in ledger && ledger[s] == ACK && s !in counts && !Frontier(s, slack, hwm)| else 0
  {
    AbsentIs(ledger, counts, slack, hwm);
    UnprovenIs(ledger, counts, slack, hwm);
    hide Sorted, Within, Beyond, SumOver, Rate, Absent, Leaked, Unproven, Tagged, Frontier;
  }

  lemma NoneListed(ss: seq<nat>)
    ensures ss == [] <==> forall s :: s !in ss
  {
    if ss != [] {
      assert ss[0] in ss;
    }
  }

  /** Exactly when the verdict passes. */
  lemma VerdictMeaning(
    ledger: map<nat, Tag>, counts: map<nat, nat>, total: nat, conflicts: seq<Conflict>,
    slack: nat, hwm: nat, tier: Option<char>, fault: Option<string>)
    ensures CheckCounts(ledger, counts, total, conflicts, slack, Some(hwm), tier, fault).ok <==>
            && conflicts == []
            && (forall s :: s in ledger && ledger[s] == NACK ==> s !in counts)
            && ((tier == Some('U') && fault == Some("power_loss")) ||
                forall s :: s in ledger && ledger[s] == ACK ==> s in counts || Frontier(s, slack, hwm))
  {
    ListsMeaning(ledger, counts, total, conflicts, slack, hwm, tier, fault);
    var r := CheckCounts(ledger, counts, total, conflicts, slack, Some(hwm), tier, fault);
    assert r.ok <==> r.i1Missing == [] && r.i2Leaked == [] && conflicts == [];
    hide CheckCounts, Frontier;
    NoneListed(r.i1Missing);
    NoneListed(r.i2Leaked);
  }

  // ---- Conservation

  lemma SplitSize(a: set<nat>, b: set<nat>)
    ensures |a| == |a * b| + |a - b|
  {
    assert a == a * b + (a - b);
  }

  lemma TagsPartition(ledger: map<nat, Tag>)
    ensures |ledger| == |Tagged(ledger, ACK)| + |Tagged(ledger, NACK)| + |Tagged(ledger, UNK)|
  {
    var a, n, u := Tagged(ledger, ACK), Tagged(ledger, NACK), Tagged(ledger, UNK);
    forall s | s in ledger
      ensures s in a + n + u
    {
      var t := ledger[s];
      assert t == ACK || t == NACK || t == UNK;
    }
    assert ledger.Keys == a + n + u;
    assert |a + n| == |a| + |n| && |a + n + u| == |a + n| + |u|;
    assert |ledger| == |ledger.Keys|;
  }

  lemma UnprovenInside(ledger: map<nat, Tag>, counts: map<nat, nat>)
    ensures Unproven(ledger, counts) <= counts.Keys
    ensures |counts| == |counts.Keys * ledger.Keys| + |Unproven(ledger, counts)|
  {
    SetsMeaning(ledger, counts);
    assert Unproven(ledger, counts) == counts.Keys - ledger.Keys;
    SplitSize(counts.Keys, ledger.Keys);
    assert |counts| == |counts.Keys|;
  }

  /** No record drops out of the account: each is counted under exactly one heading. */
  lemma Conservation(
    ledger: map<nat, Tag>, counts: map<nat, nat>, total: nat, conflicts: seq<Conflict>,
    slack: nat, hwm: nat, tier: Option<char>, fault: Option<string>)
    ensures
      var r := CheckCounts(ledger, counts, total, conflicts, slack, Some(hwm), tier, fault);
      && r.pushed == r.ackedCount + r.nackedCount + r.unknownCount
      && r.ackedCount == |Tagged(ledger, ACK) * counts.Keys| + |r.i1Missing| + r.i1Exempt + r.expectedLoss
      && r.deliveredDistinct == |counts.Keys * ledger.Keys|
      && |counts| == r.deliveredDistinct + |r.orphanedDelivered| + r.pendingProvenance
  {
    var absent, unproven := Absent(ledger, counts), Unproven(ledger, counts);
    TagsPartition(ledger);
    AckedSplit(ledger, counts);
    UnprovenInside(ledger, counts);
    hide Absent, Leaked, Unproven, Tagged;
    Partition(absent, slack, hwm);
    Partition(unproven, slack, hwm);
    SortedIs(Within(absent, slack, hwm));
    SortedIs(Within(unproven, slack, hwm));
    hide Sorted, Within, Beyond, SumOver, Rate;
  }

  lemma AckedSplit(ledger: map<nat, Tag>, counts: map<nat, nat>)
    ensures |Tagged(ledger, ACK)| == |Tagged(ledger, ACK) * counts.Keys| + |Absent(ledger, counts)|
  {
    SplitSize(Tagged(ledger, ACK), counts.Keys);
  }

  lemma FrontierOnlyRelabels(
    ledger: map<nat, Tag>, counts: map<nat, nat>, total: nat, conflicts: seq<Conflict>,
    slack: nat, wider: nat, hwm: nat, tier: Option<char>, fault: Option<string>)
    ensures
      var r := CheckCounts(ledger, counts, total, conflicts, slack, Some(hwm), tier, fault);
      var w := CheckCounts(ledger, counts, total, conflicts, wider, Some(hwm), tier, fault);
      w.i2Leaked == r.i2Leaked && w.duplicateRate == r.duplicateRate && w.ackedCount == r.ackedCount
  {
    hide Sorted, Within, Beyond, SumOver, Rate, Absent, Leaked, Unproven, Tagged;
  }

  /** A wider frontier excuses more and never less: what it excuses is counted, not dropped. */
  lemma WiderFrontier(
    ledger: map<nat, Tag>, counts: map<nat, nat>, total: nat, conflicts: seq<Conflict>,
    slack: nat, wider: nat, hwm: nat, tier: Option<char>, fault: Option<string>)
    requires slack <= wider
    ensures
      var r := CheckCounts(ledger, counts, total, conflicts, slack, Some(hwm), tier, fault);
      var w := CheckCounts(ledger, counts, total, conflicts, wider, Some(hwm), tier, fault);
      && (r.ok ==> w.ok)
      && (forall s :: s in w.i1Missing ==> s in r.i1Missing)
      && (forall s :: s in w.orphanedDelivered ==> s in r.orphanedDelivered)
      && w.i2Leaked == r.i2Leaked && w.duplicateRate == r.duplicateRate
      && |w.i1Missing| + w.i1Exempt + w.expectedLoss == |r.i1Missing| + r.i1Exempt + r.expectedLoss
      && |w.orphanedDelivered| + w.pendingProvenance == |r.orphanedDelivered| + r.pendingProvenance
  {
    hide CheckCounts, Tagged;
    ListsMeaning(ledger, counts, total, conflicts, slack, hwm, tier, fault);
    ListsMeaning(ledger, counts, total, conflicts, wider, hwm, tier, fault);
    VerdictMeaning(ledger, counts, total, conflicts, slack, hwm, tier, fault);
    VerdictMeaning(ledger, counts, total, conflicts, wider, hwm, tier, fault);
    Conservation(ledger, counts, total, conflicts, slack, hwm, tier, fault);
    Conservation(ledger, counts, total, conflicts, wider, hwm, tier, fault);
    FrontierOnlyRelabels(ledger, counts, total, conflicts, slack, wider, hwm, tier, fault);
    assert forall s :: Frontier(s, slack, hwm) ==> Frontier(s, wider, hwm);
    hide Frontier;
  }
}
