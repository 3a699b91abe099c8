/**
 * How a run is judged: the tallies kept while it runs, the selections its report and the release
 * gate make from the records it wrote, and the exit code.
 */
module Verdict {
  import opened Wrappers
  import opened Oracle

  datatype Trigger = SigtermAt | DoubleSigterm | SigtermInRecovery | AdminPauseResume

  datatype Canary = Bit | DidNotBite | Unexpected

  /** One line of `episodes.jsonl`; a key the writer left out has the default its readers supply. */
  datatype Record = Record(
    episode: Option<nat>,  // None for the final pass
    fault: Option<string>, tier: Option<char>, ok: bool, quiesced: bool, aborted: bool, noProgress: bool,
    advisory: bool, anomalyReasons: nat, i1Missing: seq<nat>, i2Leaked: seq<nat>, ledgerConflicts: seq<Conflict>,
    expectedLoss: nat, trigger: Option<Trigger>, cut: Option<string>, canary: Option<Canary>)

  // ---- The selections made from the records

  predicate IsViolation(e: Record) {
    !e.ok && !e.advisory
  }

  predicate IsAnomaly(e: Record) {
    !e.quiesced || e.aborted || e.noProgress || e.advisory || e.anomalyReasons > 0
  }

  function Violations(records: seq<Record>): nat {
    if records == [] then 0
    else Violations(records[..|records| - 1]) + if IsViolation(records[|records| - 1]) then 1 else 0
  }

  function Anomalies(records: seq<Record>): nat {
    if records == [] then 0
    else Anomalies(records[..|records| - 1]) + if IsAnomaly(records[|records| - 1]) then 1 else 0
  }

  datatype PowerLoss = Pass | Inconclusive | Fail

  predicate IsPowerLoss(e: Record) {
    e.fault == Some("power_loss") && !e.aborted
  }

  predicate ShowsFailure(e: Record) {
    e.i1Missing != [] || e.i2Leaked != [] || e.ledgerConflicts != []
  }

  function PowerLossRecords(records: seq<Record>): seq<Record> {
    if records == [] then []
    else
      var last := records[|records| - 1];
      PowerLossRecords(records[..|records| - 1]) + if IsPowerLoss(last) then [last] else []
  }

  function Buffered(records: seq<Record>): seq<Record> {
    if records == [] then []
    else
      var last := records[|records| - 1];
      Buffered(records[..|records| - 1]) + if last.tier == Some('U') then [last] else []
  }

  function PowerLossVerdict(records: seq<Record>): PowerLoss {
    var pl := PowerLossRecords(records);
    var buffered := Buffered(pl);
    if pl == [] then Pass
    else if exists i :: 0 <= i < |pl| && ShowsFailure(pl[i]) then Fail
    else if buffered != [] && buffered[|buffered| - 1].expectedLoss == 0 then Inconclusive
    else Pass
  }

  function ExitCodeFor(violations: nat, anomalies: nat, verdict: PowerLoss): int {
    if violations > 0 || anomalies > 0 || verdict == Fail then 1
    else if verdict == Inconclusive then 2
    else 0
  }

  // ---- The episodes

  /** What the harness saw of one episode. */
  datatype Episode =
    | Abort(scheduled: Option<Trigger>)
    | Judged(st: State, recorderAlive: bool, quiesced: bool, noProgress: bool,
             trigger: Option<Trigger>, triggerReasons: nat, cut: Option<string>, canary: Option<Canary>)

  datatype Run = Run(tier: char, fault: Option<string>, slack: nat)

  /** A record lists at most the first fifty of anything. */
  function First50<T>(s: seq<T>): (r: seq<T>)
    ensures r <= s && |r| == if |s| < 50 then |s| else 50
  {
    if |s| <= 50 then s else s[..50]
  }

  function EpisodeCounts(ok: bool, advisory: bool, quiesced: bool, noProgress: bool, reasons: nat): (nat, nat) {
    (if !ok && !advisory then 1 else 0, if !quiesced || noProgress || advisory || reasons > 0 then 1 else 0)
  }

  /** An aborted episode keeps the trigger it was scheduled for, and reached none of the rest. */
  function AbortRecord(run: Run, i: nat, scheduled: Option<Trigger>): Record {
    Record(Some(i), run.fault, None, true, false, true, false, false, 0, [], [], [], 0, scheduled, None, None)
  }

  function EpisodeRecord(run: Run, i: nat, e: Episode, r: VerifyResult): Record
    requires e.Judged?
  {
    Record(Some(i), run.fault, Some(run.tier), r.ok, e.quiesced, false, e.noProgress, !e.recorderAlive,
           if e.trigger.Some? then e.triggerReasons else 0,
           First50(r.i1Missing), First50(r.i2Leaked), First50(r.ledgerConflicts), r.expectedLoss,
           e.trigger, e.cut, e.canary)
  }

  // ---- The final pass

  datatype Reason =
    | LoadgenNeverStarted | LoadgenDirtyExit | DaemonNotRunning | MetricsScrapeFailed | RecorderNotRunning
    | DaemonKillAtStop | DrainOutNotQuiesced | DrainOutKillAtStop | CheckFailedToRun | ScanFailed
    | Survivors(n: nat) | AdvisoryCheckFailed

  datatype LoadgenExit = LoadgenExit(code: int, forced: bool)

  datatype DrainOut = DrainOut(quiesced: bool, cleanStop: bool)

  /**
   * What the final pass meets. `drainOut` is what a drain-out does should one be run; `state` is the
   * oracle once both logs are read, or nothing when reading them raised; `survivors` says of each
   * file the scan found whether it is a quarantined segment, or nothing when the scan failed.
   */
  datatype Teardown = Teardown(
    loadgen: Option<LoadgenExit>, daemonAlive: bool, scraped: bool, recorderAlive: bool, cleanStop: bool,
    needsDrainOut: bool, drainOut: DrainOut, state: Option<State>, survivors: Option<seq<bool>>)

  /** The load ended and drained in full view, so that no exemption is due. */
  predicate Trustworthy(t: Teardown) {
    && t.loadgen == Some(LoadgenExit(0, false)) && t.daemonAlive && t.recorderAlive && t.cleanStop
    && (t.needsDrainOut ==> t.drainOut.quiesced)
  }

  function Unexplained(survivors: seq<bool>, fault: Option<string>): nat {
    if survivors == [] then 0
    else
      var explained := fault == Some("power_loss") && survivors[|survivors| - 1];
      Unexplained(survivors[..|survivors| - 1], fault) + if explained then 0 else 1
  }

  /** The file at `i` is not a segment quarantined by a power cut. */
  predicate UnexplainedAt(survivors: seq<bool>, fault: Option<string>, i: nat)
    requires i < |survivors|
  {
    !(survivors[i] && fault == Some("power_loss"))
  }

  ghost function UnexplainedFiles(survivors: seq<bool>, fault: Option<string>): set<nat> {
    set i: nat | i < |survivors| && UnexplainedAt(survivors, fault, i)
  }

  lemma {:induction false} UnexplainedCounts(survivors: seq<bool>, fault: Option<string>)
    ensures Unexplained(survivors, fault) == |UnexplainedFiles(survivors, fault)|
    decreases |survivors|
  {
    if survivors != [] {
      var n := |survivors| - 1;
      UnexplainedCounts(survivors[..n], fault);
      UnexplainedGrows(survivors, fault, n);
      hide UnexplainedFiles;
    }
  }

  /** Only files quarantined by a power cut go uncounted, and every other file is counted once. */
  lemma UnexplainedExactly(survivors: seq<bool>, fault: Option<string>)
    ensures Unexplained(survivors, fault) == |UnexplainedFiles(survivors, fault)|
    ensures Unexplained(survivors, fault) == 0 <==> AllExplained(survivors, fault)
  {
    hide Unexplained;
    UnexplainedCounts(survivors, fault);
    var files := UnexplainedFiles(survivors, fault);
    if files == {} {
      forall i | 0 <= i < |survivors|
        ensures survivors[i] && fault == Some("power_loss")
      {
        assert i !in files && !UnexplainedAt(survivors, fault, i);
      }
      assert survivors == [] || survivors[0];
    } else {
      var i :| i in files;
      assert UnexplainedAt(survivors, fault, i);
    }
  }

  lemma UnexplainedGrows(survivors: seq<bool>, fault: Option<string>, n: nat)
    requires |survivors| == n + 1
    ensures var before := UnexplainedFiles(survivors[..n], fault);
            && n !in before
            && UnexplainedFiles(survivors, fault) == before + if UnexplainedAt(survivors, fault, n) then {n} else {}
  {
    assert forall i: nat :: i < n ==> (UnexplainedAt(survivors[..n], fault, i) <==> UnexplainedAt(survivors, fault, i));
  }

  /** The final pass found nothing and had nothing to excuse. */
  ghost predicate FinalClean(run: Run, t: Teardown) {
    && t.loadgen == Some(LoadgenExit(0, false)) && t.daemonAlive && t.recorderAlive && t.cleanStop && t.scraped
    && (t.needsDrainOut ==> t.drainOut.quiesced && t.drainOut.cleanStop)
    && t.state.Some? && Check(t.state.value, 0, Some(run.tier), run.fault).ok
    && t.survivors.Some? && AllExplained(t.survivors.value, run.fault)
  }

  /** Everything left on disk is a segment quarantined by a power cut. */
  ghost predicate AllExplained(survivors: seq<bool>, fault: Option<string>) {
    survivors == [] || (fault == Some("power_loss") && forall i :: 0 <= i < |survivors| ==> survivors[i])
  }

  /** What goes wrong before the last check, and the name it is reported under. */
  predicate ShutdownReason(t: Teardown, r: Reason) {
    match r
    case LoadgenNeverStarted => t.loadgen == None
    case LoadgenDirtyExit => t.loadgen.Some? && t.loadgen != Some(LoadgenExit(0, false))
    case DaemonNotRunning => !t.daemonAlive
    case MetricsScrapeFailed => t.daemonAlive && !t.scraped
    case RecorderNotRunning => !t.recorderAlive
    case DaemonKillAtStop => t.daemonAlive && !t.cleanStop
    case DrainOutNotQuiesced => t.recorderAlive && t.needsDrainOut && !t.drainOut.quiesced
    case DrainOutKillAtStop => t.recorderAlive && t.needsDrainOut && t.drainOut.quiesced && !t.drainOut.cleanStop
    case _ => false
  }

  /** Steps 1 to 3b: stop the producer, scrape, stop the daemon, drain out. */
  method Shutdown(t: Teardown) returns (advisory: seq<Reason>, anomaly: seq<Reason>)
    ensures advisory == [] <==> Trustworthy(t)
    ensures anomaly == [] <==> Trustworthy(t) && t.scraped && (t.needsDrainOut ==> t.drainOut.cleanStop)
    ensures forall r :: r in anomaly <==> ShutdownReason(t, r)
  {
    advisory, anomaly := [], [];
    if t.loadgen.None? {
      anomaly := anomaly + [LoadgenNeverStarted];
      advisory := advisory + [LoadgenNeverStarted];
    } else if t.loadgen.value.forced || t.loadgen.value.code != 0 {
      anomaly := anomaly + [LoadgenDirtyExit];
      advisory := advisory + [LoadgenDirtyExit];
    }
    if !t.daemonAlive {
      anomaly := anomaly + [DaemonNotRunning];
      advisory := advisory + [DaemonNotRunning];
    } else if !t.scraped {
      anomaly := anomaly + [MetricsScrapeFailed];
    }
    if !t.recorderAlive {
      anomaly := anomaly + [RecorderNotRunning];
      advisory := advisory + [RecorderNotRunning];
    }
    if t.daemonAlive && !t.cleanStop {
      anomaly := anomaly + [DaemonKillAtStop];
      advisory := advisory + [DaemonKillAtStop];
    }
    if t.needsDrainOut && t.recorderAlive {
      if !t.drainOut.quiesced {
        anomaly := anomaly + [DrainOutNotQuiesced];
        advisory := advisory + [DrainOutNotQuiesced];
      } else if !t.drainOut.cleanStop {
        anomaly := anomaly + [DrainOutKillAtStop];
      }
    }
  }

  /**
   * Counts a violation or an anomaly exactly when its own record will be read as one, and neither
   * exactly when the run ended trustworthily and the zero-slack check passed.
   */
  method FinalPass(run: Run, t: Teardown)
    returns (record: Record, violations: nat, anomalies: nat, reasons: seq<Reason>)
    ensures violations == (if IsViolation(record) then 1 else 0)
    ensures anomalies == (if IsAnomaly(record) then 1 else 0)
    ensures record.advisory <==> !Trustworthy(t)
    ensures Trustworthy(t) <==>
            && t.loadgen == Some(LoadgenExit(0, false)) && t.daemonAlive && t.recorderAlive && t.cleanStop
            && (t.needsDrainOut ==> t.drainOut.quiesced)
    ensures record.episode == None && record.fault == run.fault && record.tier == Some(run.tier)
    ensures record.quiesced && !record.aborted && !record.noProgress
    ensures record.trigger == None && record.cut == None && record.canary == None
    ensures match t.state
            case None => anomalies == 1
            case Some(st) =>
              var r := Check(st, if Trustworthy(t) then 0 else run.slack, Some(run.tier), run.fault);
              && record.ok == r.ok && record.i1Missing == First50(r.i1Missing) && record.i2Leaked == First50(r.i2Leaked)
              && record.ledgerConflicts == First50(r.ledgerConflicts) && record.expectedLoss == r.expectedLoss
    ensures t.state.None? ==> record.ok && !ShowsFailure(record)
    ensures violations == anomalies == 0 <==> FinalClean(run, t)
    ensures record.anomalyReasons == |reasons|
    ensures forall r :: r in reasons <==>
              || ShutdownReason(t, r)
              || (r == CheckFailedToRun && t.state.None?) || (r == ScanFailed && t.survivors.None?)
              || (r == AdvisoryCheckFailed && !record.ok && !Trustworthy(t))
              || (&& t.survivors.Some? && !AllExplained(t.survivors.value, run.fault)
                  && r == Survivors(|UnexplainedFiles(t.survivors.value, run.fault)|))
  {
    hide Check, Unexplained, UnexplainedFiles, AllExplained, First50;
    var advisory, anomaly := Shutdown(t);
    var slack := if advisory != [] then run.slack else 0;
    record := Record(
      None, run.fault, Some(run.tier), true, true, false, false, advisory != [], 0, [], [], [], 0, None, None, None);
    if t.state.None? {
      anomaly := anomaly + [CheckFailedToRun];
    } else {
      var r := Check(t.state.value, slack, Some(run.tier), run.fault);
      record := record.(ok := r.ok, i1Missing := First50(r.i1Missing), i2Leaked := First50(r.i2Leaked),
                        ledgerConflicts := First50(r.ledgerConflicts), expectedLoss := r.expectedLoss);
    }
    if t.survivors.None? {
      anomaly := anomaly + [ScanFailed];
    } else {
      var unexplained := Unexplained(t.survivors.value, run.fault);
      UnexplainedExactly(t.survivors.value, run.fault);
      if unexplained > 0 {
        anomaly := anomaly + [Survivors(unexplained)];
      }
    }
    if !record.ok && advisory != [] {
      anomaly := anomaly + [AdvisoryCheckFailed];
    }
    reasons := anomaly;
    record := record.(anomalyReasons := |anomaly|);
    violations := if !record.ok && advisory == [] then 1 else 0;
    anomalies := if anomaly != [] then 1 else 0;
  }

  // ---- The whole run

  /** A record shows a failure exactly when it does not call itself ok. */
  predicate Honest(e: Record) {
    ShowsFailure(e) <==> !e.ok
  }

  lemma ResultHonest(st: State, slack: nat, tier: Option<char>, fault: Option<string>)
    ensures var r := Check(st, slack, tier, fault);
      r.ok <==> First50(r.i1Missing) == [] && First50(r.i2Leaked) == [] && First50(r.ledgerConflicts) == []
  {
    hide Sorted, Within, Beyond, SumOver, Rate, Absent, Leaked, Unproven, Tagged;
  }

  /** A clean record: neither a violation nor an anomaly. */
  predicate Clean(e: Record) {
    e.ok && e.quiesced && !e.aborted && !e.noProgress && !e.advisory && e.anomalyReasons == 0
  }

  /**
   * The episode loop and the final pass. The tallies kept along the way are what the report and the
   * gate select from the records afterwards; exit 0 requires a clean final pass.
   */
  method Campaign(run: Run, episodes: seq<Episode>, t: Teardown)
    returns (records: seq<Record>, violations: nat, anomalies: nat, code: int)
    ensures violations == Violations(records) && anomalies == Anomalies(records)
    ensures forall i :: 0 <= i < |records| ==> Honest(records[i])
    ensures records != [] && forall i :: 0 <= i < |records| ==> (records[i].episode.None? <==> i == |records| - 1)
    ensures code == ExitCodeFor(violations, anomalies, PowerLossVerdict(records))
    ensures code == 0 ==>
      && FinalClean(run, t)
      && (run.tier == 'U' && run.fault == Some("power_loss") ==>
            Check(t.state.value, 0, Some(run.tier), run.fault).expectedLoss > 0)
  {
    hide Check, PowerLossVerdict, ExitCodeFor, Unexplained, First50, Violations, Anomalies;
    records, violations, anomalies := EpisodeLoop(run, episodes);
    var record, v, a, _ := FinalPass(run, t);
    FinalHonest(run, t, record);
    OneMore(records, record);
    records, violations, anomalies := records + [record], violations + v, anomalies + a;
    code := ExitCodeFor(violations, anomalies, PowerLossVerdict(records));
    ExitNeedsClean(violations, anomalies, PowerLossVerdict(records));
    LastBuffered(records);
  }

  lemma FinalHonest(run: Run, t: Teardown, record: Record)
    requires match t.state
             case None => record.ok && !ShowsFailure(record)
             case Some(st) =>
               var r := Check(st, if Trustworthy(t) then 0 else run.slack, Some(run.tier), run.fault);
               && record.ok == r.ok && record.i1Missing == First50(r.i1Missing) && record.i2Leaked == First50(r.i2Leaked)
               && record.ledgerConflicts == First50(r.ledgerConflicts)
    ensures Honest(record)
  {
    hide Check, First50;
    if t.state.Some? {
      ResultHonest(t.state.value, if Trustworthy(t) then 0 else run.slack, Some(run.tier), run.fault);
    }
  }

  lemma NoneYet()
    ensures Violations([]) == 0 && Anomalies([]) == 0
  {
  }

  lemma OneMore(records: seq<Record>, e: Record)
    ensures Violations(records + [e]) == Violations(records) + if IsViolation(e) then 1 else 0
    ensures Anomalies(records + [e]) == Anomalies(records) + if IsAnomaly(e) then 1 else 0
  {
    hide IsViolation, IsAnomaly;
    assert (records + [e])[..|records|] == records;
  }

  method EpisodeLoop(run: Run, episodes: seq<Episode>) returns (records: seq<Record>, violations: nat, anomalies: nat)
    ensures violations == Violations(records) && anomalies == Anomalies(records)
    ensures forall i :: 0 <= i < |records| ==> Honest(records[i]) && records[i].episode.Some?
  {
    hide IsViolation, IsAnomaly, Honest, Violations, Anomalies, Check;
    records, violations, anomalies := [], 0, 0;
    NoneYet();
    for i := 0 to |episodes|
      invariant violations == Violations(records) && anomalies == Anomalies(records)
      invariant forall k :: 0 <= k < |records| ==> Honest(records[k]) && records[k].episode.Some?
    {
      var record, v, a, stop := Step(run, i, episodes[i]);
      OneMore(records, record);
      records, violations, anomalies := records + [record], violations + v, anomalies + a;
      if stop { break; }
    }
  }

  /** A buffered run that lost nothing is not a pass. */
  lemma LastBuffered(records: seq<Record>)
    requires records != []
    ensures var last := records[|records| - 1];
      IsPowerLoss(last) && last.tier == Some('U') && PowerLossVerdict(records) == Pass ==> last.expectedLoss > 0
  {
    var n := |records| - 1;
    var last := records[n];
    if IsPowerLoss(last) && last.tier == Some('U') {
      var pl := PowerLossRecords(records);
      assert pl == PowerLossRecords(records[..n]) + [last];
      assert Buffered(pl) == Buffered(pl[..|pl| - 1]) + [last];
    }
  }

  lemma ExitNeedsClean(violations: nat, anomalies: nat, verdict: PowerLoss)
    ensures ExitCodeFor(violations, anomalies, verdict) == 0 <==> violations == 0 && anomalies == 0 && verdict == Pass
    ensures ExitCodeFor(violations, anomalies, verdict) == 1 <==> violations + anomalies > 0 || verdict == Fail
    ensures ExitCodeFor(violations, anomalies, verdict) == 2 <==> violations == 0 && anomalies == 0 && verdict == Inconclusive
  {
  }

  /** One episode: its record, what it adds to the tallies, and whether the loop stops. */
  method Step(run: Run, i: nat, e: Episode) returns (record: Record, violations: nat, anomalies: nat, stop: bool)
    ensures violations == (if IsViolation(record) then 1 else 0)
    ensures anomalies == (if IsAnomaly(record) then 1 else 0)
    ensures record.episode == Some(i) && Honest(record) && record.fault == run.fault
    ensures match e
            case Abort(scheduled) =>
              && record.aborted && stop && record.trigger == scheduled && record.cut == None
              && violations == 0 && anomalies == 1
            case Judged(st, recorderAlive, quiesced, noProgress, trigger, reasons, _, _) =>
              var r := Check(st, run.slack, Some(run.tier), run.fault);
              && violations == (if !r.ok && recorderAlive then 1 else 0)
              && anomalies == (if quiesced && !noProgress && recorderAlive && (trigger.None? || reasons == 0) then 0 else 1)
              && !record.aborted && record.tier == Some(run.tier) && record.ok == r.ok && record.expectedLoss == r.expectedLoss
              && record.quiesced == quiesced && record.noProgress == noProgress
              && record.anomalyReasons == (if trigger.None? then 0 else reasons)
              && record.i1Missing == First50(r.i1Missing) && record.i2Leaked == First50(r.i2Leaked)
              && record.ledgerConflicts == First50(r.ledgerConflicts)
              && record.trigger == e.trigger && record.cut == e.cut && record.canary == e.canary
              && (record.advisory <==> !recorderAlive) && (stop <==> !recorderAlive)
  {
    hide Check, First50;
    match e
    case Abort(scheduled) =>
      return AbortRecord(run, i, scheduled), 0, 1, true;
    case Judged(st, recorderAlive, quiesced, noProgress, trigger, reasons, _, _) =>
      var r := Check(st, run.slack, Some(run.tier), run.fault);
      ResultHonest(st, run.slack, Some(run.tier), run.fault);
      var (v, a) := EpisodeCounts(r.ok, !recorderAlive, quiesced, noProgress, if trigger.Some? then reasons else 0);
      return EpisodeRecord(run, i, e, r), v, a, !recorderAlive;
  }

  // ---- What the exit code says

  lemma {:induction false} NoneCounted(records: seq<Record>)
    ensures Violations(records) == 0 && Anomalies(records) == 0 <==> forall i :: 0 <= i < |records| ==> Clean(records[i])
    decreases |records|
  {
    if records != [] {
      var n := |records| - 1;
      NoneCounted(records[..n]);
      hide Clean, IsViolation, IsAnomaly;
      assert Clean(records[n]) <==> !IsViolation(records[n]) && !IsAnomaly(records[n]) by { CleanIs(records[n]); }
      assert (forall i :: 0 <= i < |records| ==> Clean(records[i])) ==> forall i :: 0 <= i < n ==> Clean(records[..n][i]);
      if (forall i :: 0 <= i < n ==> Clean(records[..n][i])) && Clean(records[n]) {
        forall i | 0 <= i < |records|
          ensures Clean(records[i])
        {
          assert i < n ==> records[i] == records[..n][i];
        }
      }
    }
  }

  lemma CleanIs(e: Record)
    ensures Clean(e) <==> !IsViolation(e) && !IsAnomaly(e)
  {
  }

  /** Exit 0: every record is clean and the power-loss verdict is a pass; and conversely. */
  lemma ExitZeroExactly(records: seq<Record>)
    ensures ExitCodeFor(Violations(records), Anomalies(records), PowerLossVerdict(records)) == 0 <==>
            (forall i :: 0 <= i < |records| ==> Clean(records[i])) && PowerLossVerdict(records) == Pass
  {
    NoneCounted(records);
    hide PowerLossVerdict, Violations, Anomalies, Clean;
  }

  /** Exit 1: some record is not clean, or the power-loss verdict fails. Exit 2: every record is clean and it is inconclusive. */
  lemma ExitCodesExactly(records: seq<Record>)
    ensures var code := ExitCodeFor(Violations(records), Anomalies(records), PowerLossVerdict(records));
            var clean := forall i :: 0 <= i < |records| ==> Clean(records[i]);
            && (code == 1 <==> !clean || PowerLossVerdict(records) == Fail)
            && (code == 2 <==> clean && PowerLossVerdict(records) == Inconclusive)
  {
    NoneCounted(records);
    hide PowerLossVerdict, Violations, Anomalies, Clean;
  }

  lemma {:induction false} PowerLossAre(records: seq<Record>, k: nat) returns (i: nat)
    requires k < |PowerLossRecords(records)|
    ensures i < |records| && records[i] == PowerLossRecords(records)[k]
    decreases |records|
  {
    var n := |records| - 1;
    if k < |PowerLossRecords(records[..n])| {
      i := PowerLossAre(records[..n], k);
    } else {
      i := n;
    }
  }

  lemma {:induction false} PowerLossKept(records: seq<Record>, i: nat) returns (k: nat)
    requires i < |records| && IsPowerLoss(records[i])
    ensures k < |PowerLossRecords(records)| && PowerLossRecords(records)[k] == records[i]
    decreases |records|
  {
    var n := |records| - 1;
    if i < n {
      k := PowerLossKept(records[..n], i);
    } else {
      k := |PowerLossRecords(records[..n])|;
    }
  }

  /** The power-loss verdict fails exactly when a power cut's own record is not ok. */
  lemma FailExactly(records: seq<Record>)
    requires forall i :: 0 <= i < |records| ==> Honest(records[i])
    ensures PowerLossVerdict(records) == Fail <==> exists i :: 0 <= i < |records| && IsPowerLoss(records[i]) && !records[i].ok
  {
    var pl := PowerLossRecords(records);
    if k :| 0 <= k < |pl| && ShowsFailure(pl[k]) {
      var i := PowerLossAre(records, k);
      PowerLossOnly(records, k);
      assert IsPowerLoss(records[i]) && !records[i].ok;
    }
    if i :| 0 <= i < |records| && IsPowerLoss(records[i]) && !records[i].ok {
      var k := PowerLossKept(records, i);
      assert ShowsFailure(pl[k]);
    }
  }

  lemma {:induction false} PowerLossOnly(records: seq<Record>, k: nat)
    requires k < |PowerLossRecords(records)|
    ensures IsPowerLoss(PowerLossRecords(records)[k])
    decreases |records|
  {
    var n := |records| - 1;
    if k < |PowerLossRecords(records[..n])| {
      PowerLossOnly(records[..n], k);
    }
  }

  /** A failed power-loss verdict is always among the counted violations and anomalies. */
  lemma FailIsCounted(records: seq<Record>)
    requires forall i :: 0 <= i < |records| ==> Honest(records[i])
    ensures PowerLossVerdict(records) == Fail ==> Violations(records) + Anomalies(records) > 0
  {
    FailExactly(records);
    NoneCounted(records);
    hide PowerLossVerdict, Violations, Anomalies, Honest;
    if PowerLossVerdict(records) == Fail {
      var i :| 0 <= i < |records| && IsPowerLoss(records[i]) && !records[i].ok;
      assert !Clean(records[i]);
    }
  }

  // ---- What the power-loss verdict says

  /** A power cut the run carried through. */
  predicate CutAt(records: seq<Record>, i: nat) {
    i < |records| && records[i].fault == Some("power_loss") && !records[i].aborted
  }

  /** Record `i` is the last power cut of a buffered run. */
  ghost predicate LastBufferedCut(records: seq<Record>, i: nat) {
    && CutAt(records, i) && records[i].tier == Some('U')
    && forall j :: i < j < |records| && CutAt(records, j) ==> records[j].tier != Some('U')
  }

  lemma BufferedSnoc(pl: seq<Record>, e: Record)
    ensures Buffered(pl + [e]) == Buffered(pl) + if e.tier == Some('U') then [e] else []
  {
    assert (pl + [e])[..|pl|] == pl;
  }

  /** What is judged last is the last buffered power cut there is. */
  lemma {:induction false} LastBufferedIs(records: seq<Record>)
    ensures var b := Buffered(PowerLossRecords(records));
            && (b == [] ==> forall i: nat :: !LastBufferedCut(records, i))
            && (b != [] ==> exists i: nat :: LastBufferedCut(records, i) && records[i] == b[|b| - 1])
    decreases |records|
  {
    if records != [] {
      var n := |records| - 1;
      var prefix, last := records[..n], records[n];
      LastBufferedIs(prefix);
      LastBufferedStep(records, n);
      BufferedSnoc(PowerLossRecords(prefix), last);
      assert PowerLossRecords(records) == PowerLossRecords(prefix) + if IsPowerLoss(last) then [last] else [];
      assert PowerLossRecords(prefix) + [] == PowerLossRecords(prefix);
      hide *;
      if IsPowerLoss(last) && last.tier == Some('U') {
        assert LastBufferedCut(records, n);
      } else if Buffered(PowerLossRecords(prefix)) != [] {
        var b := Buffered(PowerLossRecords(prefix));
        var i: nat :| LastBufferedCut(prefix, i) && prefix[i] == b[|b| - 1];
        assert LastBufferedCut(records, i);
      }
    }
  }

  lemma LastBufferedStep(records: seq<Record>, n: nat)
    requires |records| == n + 1
    ensures IsPowerLoss(records[n]) && records[n].tier == Some('U') ==>
              forall i: nat :: LastBufferedCut(records, i) <==> i == n
    ensures !(IsPowerLoss(records[n]) && records[n].tier == Some('U')) ==>
              forall i: nat :: LastBufferedCut(records, i) <==> LastBufferedCut(records[..n], i)
    ensures forall i: nat :: LastBufferedCut(records[..n], i) ==> i < n && records[..n][i] == records[i]
  {
    assert forall j: nat :: j < n ==> (CutAt(records[..n], j) <==> CutAt(records, j));
  }

  lemma OnlyOneLast(records: seq<Record>, i: nat, j: nat)
    requires LastBufferedCut(records, i) && LastBufferedCut(records, j)
    ensures i == j
  {
  }

  /**
   * It fails exactly when some power cut's record lists a missing, leaked or conflicting record, and is
   * inconclusive exactly when none does and the last buffered cut lost nothing.
   */
  lemma PowerLossExactly(records: seq<Record>)
    ensures PowerLossVerdict(records) == Fail <==>
            exists i: nat :: CutAt(records, i)
              && (records[i].i1Missing != [] || records[i].i2Leaked != [] || records[i].ledgerConflicts != [])
    ensures PowerLossVerdict(records) == Inconclusive <==>
            && PowerLossVerdict(records) != Fail
            && exists i: nat :: LastBufferedCut(records, i) && records[i].expectedLoss == 0
  {
    var pl := PowerLossRecords(records);
    if k :| 0 <= k < |pl| && ShowsFailure(pl[k]) {
      var i := PowerLossAre(records, k);
      PowerLossOnly(records, k);
      assert CutAt(records, i);
    }
    if i: nat :| CutAt(records, i) && ShowsFailure(records[i]) {
      var k := PowerLossKept(records, i);
      assert ShowsFailure(pl[k]);
    }
    InconclusiveExactly(records);
  }

  lemma InconclusiveExactly(records: seq<Record>)
    ensures PowerLossVerdict(records) == Inconclusive <==>
            && PowerLossVerdict(records) != Fail
            && exists i: nat :: LastBufferedCut(records, i) && records[i].expectedLoss == 0
  {
    var pl := PowerLossRecords(records);
    var b := Buffered(pl);
    LastBufferedIs(records);
    assert pl == [] ==> b == [];
    hide PowerLossRecords, Buffered, LastBufferedCut, ShowsFailure;
    if b != [] {
      var i: nat :| LastBufferedCut(records, i) && records[i] == b[|b| - 1];
      forall j: nat | LastBufferedCut(records, j)
        ensures j == i
      {
        OnlyOneLast(records, i, j);
      }
    }
  }

  // ---- The release gate

  const MIN_CUTS_TOTAL: nat := 1000
  const MIN_CUTS_PER_SCHEDULE: nat := 200

  /** A real episode of a gate trigger that ended in a power cut. */
  predicate IsCut(e: Record) {
    e.episode.Some? && e.trigger.Some? && e.cut == Some("power_loss") && !e.aborted
  }

  function Cuts(records: seq<Record>, kind: Trigger): nat {
    if records == [] then 0
    else
      var last := records[|records| - 1];
      Cuts(records[..|records| - 1], kind) + if IsCut(last) && last.trigger == Some(kind) then 1 else 0
  }

  predicate CutBy(e: Record, kind: Trigger) {
    e.episode.Some? && e.trigger == Some(kind) && e.cut == Some("power_loss") && !e.aborted
  }

  ghost function CutRecords(records: seq<Record>, kind: Trigger): set<nat> {
    set i: nat | i < |records| && CutBy(records[i], kind)
  }

  /** The cuts of a schedule are its episodes that ended in a power cut, each counted once. */
  lemma {:induction false} CutsCounted(records: seq<Record>, kind: Trigger)
    ensures Cuts(records, kind) == |CutRecords(records, kind)|
    decreases |records|
  {
    if records != [] {
      var n := |records| - 1;
      CutsCounted(records[..n], kind);
      assert Cuts(records, kind) == Cuts(records[..n], kind) + if CutBy(records[n], kind) then 1 else 0;
      CutRecordsGrow(records, kind, n);
      hide CutRecords, Cuts, CutBy;
    }
  }

  lemma CutRecordsGrow(records: seq<Record>, kind: Trigger, n: nat)
    requires |records| == n + 1
    ensures var before := CutRecords(records[..n], kind);
            n !in before && CutRecords(records, kind) == before + if CutBy(records[n], kind) then {n} else {}
  {
    hide CutBy;
    assert forall i: nat :: i < n ==> records[..n][i] == records[i];
  }

  function CutsIn(runs: seq<seq<Record>>, kind: Trigger): nat {
    if runs == [] then 0 else CutsIn(runs[..|runs| - 1], kind) + Cuts(runs[|runs| - 1], kind)
  }

  predicate HasFinal(records: seq<Record>) {
    exists i :: 0 <= i < |records| && records[i].episode.None?
  }

  /** What the gate asks of one run, record by record. */
  predicate RunPasses(records: seq<Record>, allowAnomalies: bool) {
    && (exists i :: 0 <= i < |records| && records[i].episode == None)
    && forall i :: 0 <= i < |records| ==> RecordPasses(records[i], allowAnomalies)
  }

  predicate RecordPasses(e: Record, allowAnomalies: bool) {
    && (e.ok || e.advisory)
    && (allowAnomalies || (e.quiesced && !e.aborted && !e.noProgress && !e.advisory && e.anomalyReasons == 0))
    && (e.episode.Some? && e.trigger.Some? && e.cut == Some("power_loss") && !e.aborted ==> e.canary == Some(Bit))
  }

  datatype Tally = Tally(cuts: map<Trigger, nat>, canaryMisses: nat, violations: nat, anomalies: nat, noFinal: nat)

  const NO_TALLY: Tally :=
    Tally(map[SigtermAt := 0, DoubleSigterm := 0, SigtermInRecovery := 0, AdminPauseResume := 0], 0, 0, 0, 0)

  function CutsOf(t: Tally, kind: Trigger): nat {
    if kind in t.cuts then t.cuts[kind] else 0
  }

  /** What one record adds to the tally. */
  function AddRecord(t: Tally, e: Record): Tally {
    t.(cuts := if IsCut(e) then t.cuts[e.trigger.value := CutsOf(t, e.trigger.value) + 1] else t.cuts,
       canaryMisses := t.canaryMisses + if IsCut(e) && e.canary != Some(Bit) then 1 else 0,
       violations := t.violations + if IsViolation(e) then 1 else 0,
       anomalies := t.anomalies + if IsAnomaly(e) then 1 else 0)
  }

  function AddRecords(t: Tally, records: seq<Record>): Tally {
    if records == [] then t else AddRecord(AddRecords(t, records[..|records| - 1]), records[|records| - 1])
  }

  function AddRun(t: Tally, records: seq<Record>): Tally {
    AddRecords(t.(noFinal := t.noFinal + if HasFinal(records) then 0 else 1), records)
  }

  function AddRuns(t: Tally, runs: seq<seq<Record>>): Tally {
    if runs == [] then t else AddRun(AddRuns(t, runs[..|runs| - 1]), runs[|runs| - 1])
  }

  predicate CanaryBit(e: Record) {
    IsCut(e) ==> e.canary == Some(Bit)
  }

  lemma {:induction false} RecordsTallied(t: Tally, records: seq<Record>, kind: Trigger)
    ensures var t' := AddRecords(t, records);
      && CutsOf(t', kind) == CutsOf(t, kind) + Cuts(records, kind)
      && t'.violations == t.violations + Violations(records)
      && t'.anomalies == t.anomalies + Anomalies(records)
      && t'.noFinal == t.noFinal
    decreases |records|
  {
    hide IsViolation, IsAnomaly;
    if records != [] {
      RecordsTallied(t, records[..|records| - 1], kind);
    }
  }

  lemma {:induction false} MissesTallied(t: Tally, records: seq<Record>)
    ensures AddRecords(t, records).canaryMisses >= t.canaryMisses
    ensures AddRecords(t, records).canaryMisses == t.canaryMisses <==> forall i :: 0 <= i < |records| ==> CanaryBit(records[i])
    decreases |records|
  {
    if records != [] {
      var n := |records| - 1;
      var prefix := records[..n];
      MissesTallied(t, prefix);
      assert forall i :: 0 <= i < n ==> prefix[i] == records[i];
      assert AddRecords(t, records).canaryMisses
          == AddRecords(t, prefix).canaryMisses + if CanaryBit(records[n]) then 0 else 1;
      hide CanaryBit, AddRecord;
    }
  }

  lemma RunPassesExactly(records: seq<Record>, allowAnomalies: bool)
    ensures RunPasses(records, allowAnomalies) <==>
            && HasFinal(records) && Violations(records) == 0 && (Anomalies(records) == 0 || allowAnomalies)
            && forall i :: 0 <= i < |records| ==> CanaryBit(records[i])
  {
    NoViolations(records);
    NoAnomalies(records);
    assert HasFinal(records) <==> exists i :: 0 <= i < |records| && records[i].episode == None;
    hide HasFinal, Violations, Anomalies;
    forall i | 0 <= i < |records|
      ensures RecordPasses(records[i], allowAnomalies) <==>
        !IsViolation(records[i]) && (IsAnomaly(records[i]) ==> allowAnomalies) && CanaryBit(records[i])
    {
    }
    hide RecordPasses, CanaryBit, IsViolation, IsAnomaly;
  }

  lemma {:induction false} NoViolations(records: seq<Record>)
    ensures Violations(records) == 0 <==> forall i :: 0 <= i < |records| ==> !IsViolation(records[i])
    decreases |records|
  {
    hide IsViolation;
    if records != [] {
      NoViolations(records[..|records| - 1]);
      assert forall i :: 0 <= i < |records| - 1 ==> records[..|records| - 1][i] == records[i];
    }
  }

  lemma {:induction false} NoAnomalies(records: seq<Record>)
    ensures Anomalies(records) == 0 <==> forall i :: 0 <= i < |records| ==> !IsAnomaly(records[i])
    decreases |records|
  {
    hide IsAnomaly;
    if records != [] {
      NoAnomalies(records[..|records| - 1]);
      assert forall i :: 0 <= i < |records| - 1 ==> records[..|records| - 1][i] == records[i];
    }
  }

  /** A tally is spotless when nothing in it fails the gate. */
  predicate Spotless(t: Tally, allowAnomalies: bool) {
    t.violations == 0 && t.canaryMisses == 0 && t.noFinal == 0 && (t.anomalies == 0 || allowAnomalies)
  }

  lemma AddRunTallied(t: Tally, records: seq<Record>, allowAnomalies: bool, kind: Trigger)
    ensures Spotless(AddRun(t, records), allowAnomalies) <==> Spotless(t, allowAnomalies) && RunPasses(records, allowAnomalies)
    ensures CutsOf(AddRun(t, records), kind) == CutsOf(t, kind) + Cuts(records, kind)
  {
    var t' := t.(noFinal := t.noFinal + if HasFinal(records) then 0 else 1);
    RecordsTallied(t', records, kind);
    MissesTallied(t', records);
    RunPassesExactly(records, allowAnomalies);
    hide AddRecords, Cuts, Violations, Anomalies, HasFinal, RunPasses, CanaryBit;
    assert CutsOf(t', kind) == CutsOf(t, kind);
  }

  lemma {:induction false} RunsTallied(runs: seq<seq<Record>>, allowAnomalies: bool, kind: Trigger)
    ensures Spotless(AddRuns(NO_TALLY, runs), allowAnomalies) <==>
            forall i :: 0 <= i < |runs| ==> RunPasses(runs[i], allowAnomalies)
    ensures CutsOf(AddRuns(NO_TALLY, runs), kind) == CutsIn(runs, kind)
    decreases |runs|
  {
    if runs != [] {
      var n := |runs| - 1;
      RunsTallied(runs[..n], allowAnomalies, kind);
      AddRunTallied(AddRuns(NO_TALLY, runs[..n]), runs[n], allowAnomalies, kind);
      AddRunsLast(runs, kind);
      hide AddRun, AddRuns, CutsIn, Spotless, RunPasses, CutsOf, Cuts;
      AllRunsPass(runs, allowAnomalies);
    } else {
      assert Spotless(NO_TALLY, allowAnomalies) && CutsOf(NO_TALLY, kind) == 0;
    }
  }

  lemma AddRunsLast(runs: seq<seq<Record>>, kind: Trigger)
    requires runs != []
    ensures var n := |runs| - 1;
      && AddRuns(NO_TALLY, runs) == AddRun(AddRuns(NO_TALLY, runs[..n]), runs[n])
      && CutsIn(runs, kind) == CutsIn(runs[..n], kind) + Cuts(runs[n], kind)
  {
    hide AddRun, Cuts;
  }

  lemma AllRunsPass(runs: seq<seq<Record>>, allowAnomalies: bool)
    requires runs != []
    ensures var n := |runs| - 1;
      (forall i :: 0 <= i < |runs| ==> RunPasses(runs[i], allowAnomalies)) <==>
        (forall i :: 0 <= i < n ==> RunPasses(runs[..n][i], allowAnomalies)) && RunPasses(runs[n], allowAnomalies)
  {
    hide RunPasses;
    var n := |runs| - 1;
    assert forall i :: 0 <= i < n ==> runs[..n][i] == runs[i];
  }

  /** The gate passes exactly when every run passes record by record and every schedule has its cuts. */
  method CampaignGate(runs: seq<seq<Record>>, allowAnomalies: bool) returns (ok: bool, t: Tally)
    ensures ok <==>
      && (forall i :: 0 <= i < |runs| ==> RunPasses(runs[i], allowAnomalies))
      && (forall k :: CutsIn(runs, k) >= 200)
      && CutsIn(runs, SigtermAt) + CutsIn(runs, DoubleSigterm) + CutsIn(runs, SigtermInRecovery)
         + CutsIn(runs, AdminPauseResume) >= 1000
  {
    hide HasFinal, AddRecord, CutsIn, RunPasses;
    t := NO_TALLY;
    for n := 0 to |runs|
      invariant t == AddRuns(NO_TALLY, runs[..n])
    {
      assert runs[..n + 1][..n] == runs[..n];
      ghost var start := t.(noFinal := t.noFinal + if HasFinal(runs[n]) then 0 else 1);
      if !HasFinal(runs[n]) {
        t := t.(noFinal := t.noFinal + 1);
      }
      assert t == start;
      for k := 0 to |runs[n]|
        invariant t == AddRecords(start, runs[n][..k])
      {
        assert runs[n][..k + 1][..k] == runs[n][..k];
        t := AddRecord(t, runs[n][k]);
      }
      assert runs[n][..|runs[n]|] == runs[n];
    }
    assert runs[..|runs|] == runs;
    forall k: Trigger
      ensures CutsOf(t, k) == CutsIn(runs, k)
    {
      RunsTallied(runs, allowAnomalies, k);
    }
    RunsTallied(runs, allowAnomalies, SigtermAt);
    hide CutsOf, AddRuns, AddRecords;
    var a, b, c, d := CutsOf(t, SigtermAt), CutsOf(t, DoubleSigterm), CutsOf(t, SigtermInRecovery), CutsOf(t, AdminPauseResume);
    var least := MIN_CUTS_PER_SCHEDULE;
    EveryTrigger(runs, least);
    ok := a + b + c + d >= MIN_CUTS_TOTAL && a >= least && b >= least && c >= least && d >= least && Spotless(t, allowAnomalies);
  }

  lemma EveryTrigger(runs: seq<seq<Record>>, least: nat)
    ensures (forall k :: CutsIn(runs, k) >= least) <==>
            CutsIn(runs, SigtermAt) >= least && CutsIn(runs, DoubleSigterm) >= least
            && CutsIn(runs, SigtermInRecovery) >= least && CutsIn(runs, AdminPauseResume) >= least
  {
    forall k | CutsIn(runs, SigtermAt) >= least && CutsIn(runs, DoubleSigterm) >= least
               && CutsIn(runs, SigtermInRecovery) >= least && CutsIn(runs, AdminPauseResume) >= least
      ensures CutsIn(runs, k) >= least
    {
      assert k == SigtermAt || k == DoubleSigterm || k == SigtermInRecovery || k == AdminPauseResume;
    }
  }
}
