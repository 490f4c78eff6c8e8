/** Waivers and the decision procedure (src/policy/waivers.ts and src/policy/evaluate.ts). */
module PolicyEvaluate {
  import opened Wrappers
  import opened CoreTypes
  import opened PolicyResolve

  /** Absent and empty optional strings are not told apart anywhere, so both are "". */
  datatype Finding = Finding(
    id: string, scanner: string, ruleId: string, fingerprint: string, path: string, severity: Severity)

  datatype Status = Success | Failed | Skipped

  /** A missing status reads as success. */
  datatype ScannerResult = ScannerResult(scanner: string, findings: seq<Finding>, status: Status)

  /** A creation time: missing, not a date, or a number of milliseconds. */
  datatype Stamp = Absent | Unreadable | At(ms: int)

  datatype Waiver = Waiver(
    id: string, fingerprint: string, ruleId: string, path: string, scanner: string, repository: string, service: string,
    ticket: string, approver: string, approvedAt: string, createdAt: Stamp, expiresAt: int)

  datatype WaiverRules = WaiverRules(requireApproval: bool, requireTicket: bool, maxDurationDays: int)

  /** Where and when the scan runs, and the rules for waivers. */
  datatype Setting = Setting(waivers: seq<Waiver>, rules: WaiverRules, repository: string, service: string, now: int)

  datatype Refusal = Expired | ApprovalRequired | TicketRequired | InvalidCreatedAt | TooLong

  datatype AuditRecord =
    | PolicyResolved
    | WaiverApplied(waiverId: string, findingId: string)
    | WaiverRejected(waiverId: string, findingId: string, reason: Refusal)

  const DAY_MS := 86_400_000

  predicate Selects(wanted: string, actual: string) { wanted == "" || wanted == actual }

  predicate ScopeMatches(w: Waiver, f: Finding, s: Setting) {
    && Selects(w.fingerprint, f.fingerprint)
    && Selects(w.ruleId, f.ruleId)
    && Selects(w.path, f.path)
    && Selects(w.scanner, f.scanner)
    && Selects(w.repository, s.repository)
    && Selects(w.service, s.service)
  }

  function WaiverValidity(w: Waiver, s: Setting): Option<Refusal> {
    if w.expiresAt <= s.now then Some(Expired)
    else if s.rules.requireApproval && (w.approver == "" || w.approvedAt == "") then Some(ApprovalRequired)
    else if s.rules.requireTicket && w.ticket == "" then Some(TicketRequired)
    else
      match w.createdAt
      case Absent => None
      case Unreadable => Some(InvalidCreatedAt)
      case At(created) => if w.expiresAt - created > s.rules.maxDurationDays * DAY_MS then Some(TooLong) else None
  }

  predicate Covers(w: Waiver, f: Finding, s: Setting) {
    ScopeMatches(w, f, s) && WaiverValidity(w, s).None?
  }

  /** The first covering waiver, and the records the search pushes. */
  function FindWaiver(f: Finding, waivers: seq<Waiver>, s: Setting): (Option<Waiver>, seq<AuditRecord>) {
    if waivers == [] then (None, [])
    else
      var w := waivers[0];
      if !ScopeMatches(w, f, s) then FindWaiver(f, waivers[1..], s)
      else
        match WaiverValidity(w, s)
        case None => (Some(w), [WaiverApplied(w.id, f.id)])
        case Some(reason) =>
          var (found, records) := FindWaiver(f, waivers[1..], s);
          (found, [WaiverRejected(w.id, f.id, reason)] + records)
  }

  /** The audit list that the evaluation and the waiver search both push to. */
  class AuditTrail {
    var records: seq<AuditRecord>

    constructor ()
      ensures records == [PolicyResolved]
    {
      records := [PolicyResolved];
    }

    method Push(r: AuditRecord)
      modifies this
      ensures records == old(records) + [r]
    {
      records := records + [r];
    }
  }

  method FindApplicableWaiver(f: Finding, s: Setting, audit: AuditTrail) returns (found: Option<Waiver>)
    modifies audit
    ensures found == FindWaiver(f, s.waivers, s).0
    ensures audit.records == old(audit.records) + FindWaiver(f, s.waivers, s).1
  {
    hide ScopeMatches, WaiverValidity;
    var i := 0;
    assert s.waivers[0..] == s.waivers;
    while i < |s.waivers|
      invariant 0 <= i <= |s.waivers|
      invariant FindWaiver(f, s.waivers, s).0 == FindWaiver(f, s.waivers[i..], s).0
      invariant old(audit.records) + FindWaiver(f, s.waivers, s).1 == audit.records + FindWaiver(f, s.waivers[i..], s).1
    {
      var w := s.waivers[i];
      assert s.waivers[i..][0] == w && s.waivers[i..][1..] == s.waivers[i + 1..];
      if ScopeMatches(w, f, s) {
        var invalid := WaiverValidity(w, s);
        if invalid.None? {
          audit.Push(WaiverApplied(w.id, f.id));
          return Some(w);
        }
        ghost var before := audit.records;
        audit.Push(WaiverRejected(w.id, f.id, invalid.value));
        assert before + ([WaiverRejected(w.id, f.id, invalid.value)] + FindWaiver(f, s.waivers[i + 1..], s).1)
            == audit.records + FindWaiver(f, s.waivers[i + 1..], s).1;
      }
      i := i + 1;
    }
    return None;
  }

  // ---------- evaluation ----------

  /** waiverId is meaningful for waived findings only. */
  datatype AppliedFinding = AppliedFinding(finding: Finding, waived: bool, waiverId: string)

  datatype Reason =
    | ScannersMissing(missing: seq<string>)
    | FailedClosed(scanner: string)
    | FailedOpen(scanner: string)
    | BlockingFindings(count: nat)
    | WarningFindings(count: nat)
    | NothingViolated

  datatype PolicyResult = PolicyResult(
    decision: Decision, findings: seq<AppliedFinding>, counts: map<Severity, nat>, waivedCount: nat,
    reasons: seq<Reason>, audit: seq<AuditRecord>)

  predicate Ran(results: seq<ScannerResult>, scanner: string) {
    exists i :: 0 <= i < |results| && results[i].status != Skipped && results[i].scanner == scanner
  }

  function Missing(required: seq<string>, results: seq<ScannerResult>): seq<string> {
    if required == [] then []
    else (if Ran(results, required[0]) then [] else [required[0]]) + Missing(required[1..], results)
  }

  function EffectiveMode(policy: Effective, scanner: string): FailureMode {
    if scanner in policy.scannerFailureModes then policy.scannerFailureModes[scanner]
    else if scanner in policy.requiredScanners then Fail
    else Warn
  }

  /** The decision a failed scanner forces, and the reason it adds. */
  datatype Forced = Forced(decision: Decision, reasons: seq<Reason>)

  function Force(policy: Effective, r: ScannerResult, forced: Forced): Forced {
    if r.status != Failed then forced
    else
      match EffectiveMode(policy, r.scanner)
      case Fail => Forced(FAIL, forced.reasons + [FailedClosed(r.scanner)])
      case Warn => if forced.decision == FAIL then forced else Forced(WARN, forced.reasons + [FailedOpen(r.scanner)])
      case Ignore => forced
  }

  /** The first n results; PASS stands for "nothing forced". */
  function ForcedBy(policy: Effective, results: seq<ScannerResult>, n: nat): Forced
    requires n <= |results|
  {
    if n == 0 then
      var missing := Missing(policy.requiredScanners, results);
      if missing == [] then Forced(PASS, []) else Forced(FAIL, [ScannersMissing(missing)])
    else Force(policy, results[n - 1], ForcedBy(policy, results, n - 1))
  }

  function AllFindings(results: seq<ScannerResult>): seq<Finding> {
    if results == [] then [] else results[0].findings + AllFindings(results[1..])
  }

  function ApplyOne(f: Finding, s: Setting): AppliedFinding {
    var found := FindWaiver(f, s.waivers, s).0;
    AppliedFinding(f, found.Some?, if found.Some? then found.value.id else "")
  }

  function Applied(findings: seq<Finding>, s: Setting): (r: seq<AppliedFinding>)
    ensures |r| == |findings|
  {
    if findings == [] then [] else [ApplyOne(findings[0], s)] + Applied(findings[1..], s)
  }

  function Records(findings: seq<Finding>, s: Setting): seq<AuditRecord> {
    if findings == [] then [] else FindWaiver(findings[0], s.waivers, s).1 + Records(findings[1..], s)
  }

  /** The unwaived findings of the given severities. */
  function Counted(applied: seq<AppliedFinding>, severities: set<Severity>): nat {
    if applied == [] then 0
    else
      (if !applied[0].waived && applied[0].finding.severity in severities then 1 else 0)
      + Counted(applied[1..], severities)
  }

  function WaivedIn(applied: seq<AppliedFinding>): nat {
    if applied == [] then 0 else (if applied[0].waived then 1 else 0) + WaivedIn(applied[1..])
  }

  const SEVERITIES: set<Severity> := {Info, Low, Medium, High, Critical}

  function Members(severities: seq<Severity>): set<Severity> {
    set x | x in severities
  }

  function Decide(forced: Forced, blocking: nat, warnings: nat): Decision {
    var decision := if blocking > 0 then FAIL else if warnings > 0 then WARN else PASS;
    if forced.decision == FAIL then FAIL
    else if forced.decision == WARN && decision == PASS then WARN
    else decision
  }

  function LastReason(forced: Forced, blocking: nat, warnings: nat): seq<Reason> {
    if blocking > 0 then [BlockingFindings(blocking)]
    else if warnings > 0 then [WarningFindings(warnings)]
    else if forced.reasons == [] then [NothingViolated]
    else []
  }

  function Evaluate(policy: Effective, results: seq<ScannerResult>, s: Setting): PolicyResult {
    var forced := ForcedBy(policy, results, |results|);
    var applied := Applied(AllFindings(results), s);
    var blocking, warnings := Counted(applied, Members(policy.failOn)), Counted(applied, Members(policy.warnOn));
    PolicyResult(
      Decide(forced, blocking, warnings), applied, map x | x in SEVERITIES :: Counted(applied, {x}), WaivedIn(applied),
      forced.reasons + LastReason(forced, blocking, warnings), [PolicyResolved] + Records(AllFindings(results), s))
  }

  method EvaluatePolicy(policy: Effective, results: seq<ScannerResult>, s: Setting) returns (r: PolicyResult)
    ensures r == Evaluate(policy, results, s)
  {
    hide Missing, EffectiveMode, FindWaiver, AllFindings, Applied, Records, Counted, WaivedIn, Members;
    var audit := new AuditTrail();
    var missing := Missing(policy.requiredScanners, results);
    var forcedDecision, reasons: seq<Reason> := PASS, [];
    if missing != [] {
      forcedDecision, reasons := FAIL, [ScannersMissing(missing)];
    }
    var i := 0;
    while i < |results|
      invariant 0 <= i <= |results|
      invariant Forced(forcedDecision, reasons) == ForcedBy(policy, results, i)
      invariant fresh(audit) && audit.records == [PolicyResolved]
    {
      var result := results[i];
      if result.status == Failed {
        var mode := EffectiveMode(policy, result.scanner);
        if mode == Fail {
          forcedDecision := FAIL;
          reasons := reasons + [FailedClosed(result.scanner)];
        } else if mode == Warn && forcedDecision != FAIL {
          forcedDecision := WARN;
          reasons := reasons + [FailedOpen(result.scanner)];
        }
      }
      i := i + 1;
    }
    var applied := ApplyWaivers(AllFindings(results), s, audit);
    var blocking, warnings := Counted(applied, Members(policy.failOn)), Counted(applied, Members(policy.warnOn));
    var decision := if blocking > 0 then FAIL else if warnings > 0 then WARN else PASS;
    if forcedDecision == FAIL {
      decision := FAIL;
    } else if forcedDecision == WARN && decision == PASS {
      decision := WARN;
    }
    if blocking > 0 {
      reasons := reasons + [BlockingFindings(blocking)];
    } else if warnings > 0 {
      reasons := reasons + [WarningFindings(warnings)];
    } else if |reasons| == 0 {
      reasons := reasons + [NothingViolated];
    }
    r := PolicyResult(decision, applied, map x | x in SEVERITIES :: Counted(applied, {x}), WaivedIn(applied), reasons,
        audit.records);
  }

  lemma {:induction false} AppliedLast(findings: seq<Finding>, f: Finding, s: Setting)
    ensures Applied(findings + [f], s) == Applied(findings, s) + [ApplyOne(f, s)]
    ensures Records(findings + [f], s) == Records(findings, s) + FindWaiver(f, s.waivers, s).1
  {
    hide FindWaiver, ApplyOne;
    if findings == [] {
      assert [f][1..] == [] && [] + [f] == [f];
    } else {
      assert (findings + [f])[1..] == findings[1..] + [f];
      AppliedLast(findings[1..], f, s);
    }
  }

  /** What the first i findings come to, and one more. */
  lemma AppliedSoFar(findings: seq<Finding>, s: Setting, i: nat)
    requires i <= |findings|
    ensures Applied(findings[..0], s) == [] && Records(findings[..0], s) == []
    ensures i < |findings| ==>
              && Applied(findings[..i + 1], s) == Applied(findings[..i], s) + [ApplyOne(findings[i], s)]
              && Records(findings[..i + 1], s) == Records(findings[..i], s) + FindWaiver(findings[i], s.waivers, s).1
  {
    hide FindWaiver, ApplyOne;
    if i < |findings| {
      AppliedLast(findings[..i], findings[i], s);
      assert findings[..i + 1] == findings[..i] + [findings[i]];
    }
  }

  method ApplyWaivers(findings: seq<Finding>, s: Setting, audit: AuditTrail) returns (applied: seq<AppliedFinding>)
    modifies audit
    ensures applied == Applied(findings, s)
    ensures audit.records == old(audit.records) + Records(findings, s)
  {
    hide FindWaiver, Applied, Records;
    applied := [];
    var i := 0;
    ghost var records: seq<AuditRecord> := [];
    AppliedSoFar(findings, s, 0);
    while i < |findings|
      invariant 0 <= i <= |findings|
      invariant applied == Applied(findings[..i], s)
      invariant records == Records(findings[..i], s)
      invariant audit.records == old(audit.records) + records
    {
      AppliedSoFar(findings, s, i);
      var found := FindApplicableWaiver(findings[i], s, audit);
      applied := applied + [AppliedFinding(findings[i], found.Some?, if found.Some? then found.value.id else "")];
      records := records + FindWaiver(findings[i], s.waivers, s).1;
      i := i + 1;
    }
    assert findings[..|findings|] == findings;
  }

  // ---------- the rule ----------

  ghost predicate Waived(f: Finding, s: Setting) {
    exists w :: w in s.waivers && Covers(w, f, s)
  }

  ghost predicate HasUnwaived(results: seq<ScannerResult>, s: Setting, severities: seq<Severity>) {
    exists r, f :: r in results && f in r.findings && !Waived(f, s) && f.severity in severities
  }

  ghost predicate SomeMissing(policy: Effective, results: seq<ScannerResult>) {
    exists scanner :: scanner in policy.requiredScanners && !Ran(results, scanner)
  }

  ghost predicate SomeFailedAs(policy: Effective, results: seq<ScannerResult>, mode: FailureMode) {
    exists r :: r in results && r.status == Failed && EffectiveMode(policy, r.scanner) == mode
  }

  ghost predicate MustFail(policy: Effective, results: seq<ScannerResult>, s: Setting) {
    SomeMissing(policy, results) || SomeFailedAs(policy, results, Fail) || HasUnwaived(results, s, policy.failOn)
  }

  ghost predicate MustWarn(policy: Effective, results: seq<ScannerResult>, s: Setting) {
    SomeFailedAs(policy, results, Warn) || HasUnwaived(results, s, policy.warnOn)
  }

  lemma {:induction false} FindsIffCovered(f: Finding, waivers: seq<Waiver>, s: Setting)
    ensures var found := FindWaiver(f, waivers, s).0;
            && (found.Some? <==> exists w :: w in waivers && Covers(w, f, s))
            && (found.Some? ==> found.value in waivers && Covers(found.value, f, s))
  {
    hide ScopeMatches, WaiverValidity;
    if waivers != [] {
      assert waivers == [waivers[0]] + waivers[1..];
      FindsIffCovered(f, waivers[1..], s);
      assert Covers(waivers[0], f, s) ==> waivers[0] in waivers;
      assert forall w :: w in waivers <==> w == waivers[0] || w in waivers[1..];
    }
  }

  lemma {:induction false} MissingMembers(required: seq<string>, results: seq<ScannerResult>)
    ensures forall x :: x in Missing(required, results) <==> x in required && !Ran(results, x)
  {
    hide Ran;
    if required != [] {
      assert required == [required[0]] + required[1..];
      MissingMembers(required[1..], results);
    }
  }

  ghost predicate FailedAsUpTo(policy: Effective, results: seq<ScannerResult>, n: nat, mode: FailureMode)
    requires n <= |results|
  {
    exists i :: 0 <= i < n && results[i].status == Failed && EffectiveMode(policy, results[i].scanner) == mode
  }

  lemma {:induction false} ForcedDecision(policy: Effective, results: seq<ScannerResult>, n: nat)
    requires n <= |results|
    ensures var d := ForcedBy(policy, results, n).decision;
            && (d == FAIL <==> SomeMissing(policy, results) || FailedAsUpTo(policy, results, n, Fail))
            && (d == WARN <==> d != FAIL && FailedAsUpTo(policy, results, n, Warn))
  {
    hide EffectiveMode, Missing;
    if n == 0 {
      MissingMembers(policy.requiredScanners, results);
      var missing := Missing(policy.requiredScanners, results);
      if missing != [] {
        assert missing[0] in missing;
      }
      hide Ran;
    } else {
      hide SomeMissing;
      ForcedDecision(policy, results, n - 1);
    }
  }

  lemma FailedAsAll(policy: Effective, results: seq<ScannerResult>, mode: FailureMode)
    ensures FailedAsUpTo(policy, results, |results|, mode) <==> SomeFailedAs(policy, results, mode)
  {
    hide EffectiveMode;
    if r :| r in results && r.status == Failed && EffectiveMode(policy, r.scanner) == mode {
      var i :| 0 <= i < |results| && results[i] == r;
    }
  }

  lemma {:induction false} AllFindingsMembers(results: seq<ScannerResult>)
    ensures forall f :: f in AllFindings(results) <==> exists r :: r in results && f in r.findings
  {
    if results != [] {
      assert results == [results[0]] + results[1..];
      AllFindingsMembers(results[1..]);
    }
  }

  lemma {:induction false} CountedIff(findings: seq<Finding>, s: Setting, severities: set<Severity>)
    ensures Counted(Applied(findings, s), severities) > 0
       <==> exists f :: f in findings && !Waived(f, s) && f.severity in severities
  {
    if findings != [] {
      assert findings == [findings[0]] + findings[1..];
      FindsIffCovered(findings[0], s.waivers, s);
      assert ApplyOne(findings[0], s).waived <==> Waived(findings[0], s);
      hide FindWaiver, Covers, Waived;
      CountedIff(findings[1..], s, severities);
    }
  }

  lemma HasUnwaivedIffCounted(results: seq<ScannerResult>, s: Setting, severities: seq<Severity>)
    ensures HasUnwaived(results, s, severities) <==> Counted(Applied(AllFindings(results), s), Members(severities)) > 0
  {
    CountedIff(AllFindings(results), s, Members(severities));
    AllFindingsMembers(results);
    hide Waived, Counted, Applied, AllFindings;
  }

  /** The loops decide by a rule: FAIL exactly when a required scanner did not run, a failed scanner
      fails closed, or an unwaived finding is in failOn; otherwise WARN exactly when a failed
      scanner may warn or an unwaived finding is in warnOn; otherwise PASS. */
  lemma DecidesByRule(policy: Effective, results: seq<ScannerResult>, s: Setting)
    ensures Evaluate(policy, results, s).decision
            == if MustFail(policy, results, s) then FAIL else if MustWarn(policy, results, s) then WARN else PASS
  {
    ForcedDecision(policy, results, |results|);
    FailedAsAll(policy, results, Fail);
    FailedAsAll(policy, results, Warn);
    HasUnwaivedIffCounted(results, s, policy.failOn);
    HasUnwaivedIffCounted(results, s, policy.warnOn);
    hide ForcedBy, FailedAsUpTo, SomeFailedAs, HasUnwaived, SomeMissing, Counted, Applied, AllFindings, Records,
      WaivedIn;
  }

  // ---------- monotonicity ----------

  /** Same scanners with the same outcomes, each reporting at least what it reported before. */
  ghost predicate ReportsMore(before: seq<ScannerResult>, after: seq<ScannerResult>) {
    |before| == |after| && forall i :: 0 <= i < |before| ==>
      && before[i].scanner == after[i].scanner && before[i].status == after[i].status
      && forall f :: f in before[i].findings ==> f in after[i].findings
  }

  lemma MoreUnwaived(before: seq<ScannerResult>, after: seq<ScannerResult>, s: Setting, s': Setting,
                     severities: seq<Severity>, severities': seq<Severity>)
    requires ReportsMore(before, after) && s'.(waivers := s.waivers) == s
    requires forall w :: w in s'.waivers ==> w in s.waivers
    requires forall x :: x in severities ==> x in severities'
    requires HasUnwaived(before, s, severities)
    ensures HasUnwaived(after, s', severities')
  {
    hide Covers;
    var r, f :| r in before && f in r.findings && !Waived(f, s) && f.severity in severities;
    var i :| 0 <= i < |before| && before[i] == r;
    assert f in after[i].findings;
    assert !Waived(f, s') by {
      forall w | w in s'.waivers ensures !Covers(w, f, s') {
        assert w in s.waivers;
        CoverageIgnoresOthers(w, f, s, s');
      }
    }
  }

  lemma CoverageIgnoresOthers(w: Waiver, f: Finding, s: Setting, s': Setting)
    requires s'.(waivers := s.waivers) == s
    ensures Covers(w, f, s) <==> Covers(w, f, s')
  {
  }

  lemma SameScanners(policy: Effective, policy': Effective, before: seq<ScannerResult>, after: seq<ScannerResult>)
    requires ReportsMore(before, after)
    requires policy'.(failOn := policy.failOn, warnOn := policy.warnOn) == policy
    ensures SomeMissing(policy, before) <==> SomeMissing(policy', after)
    ensures forall m :: SomeFailedAs(policy, before, m) <==> SomeFailedAs(policy', after, m)
  {
    forall x ensures Ran(before, x) <==> Ran(after, x) {
      if i :| 0 <= i < |before| && before[i].status != Skipped && before[i].scanner == x {
        assert after[i].status != Skipped && after[i].scanner == x;
      }
      if i :| 0 <= i < |after| && after[i].status != Skipped && after[i].scanner == x {
        assert before[i].status != Skipped && before[i].scanner == x;
      }
    }
    hide Ran;
    forall m ensures SomeFailedAs(policy, before, m) <==> SomeFailedAs(policy', after, m) {
      SomeFailedCarries(policy, policy', before, after, m);
    }
  }

  lemma SomeFailedCarries(policy: Effective, policy': Effective, before: seq<ScannerResult>,
                          after: seq<ScannerResult>, m: FailureMode)
    requires ReportsMore(before, after)
    requires policy'.(failOn := policy.failOn, warnOn := policy.warnOn) == policy
    ensures SomeFailedAs(policy, before, m) <==> SomeFailedAs(policy', after, m)
  {
    FailedAsAll(policy, before, m);
    FailedAsAll(policy', after, m);
    forall x ensures EffectiveMode(policy, x) == EffectiveMode(policy', x) {}
    hide EffectiveMode, SomeFailedAs;
  }

  /** The decision is monotone: dropping waivers, adding findings and adding severities to failOn or
      warnOn never makes it laxer. Read the other way, adding waivers never makes it stricter. */
  lemma DecisionMonotone(policy: Effective, policy': Effective, before: seq<ScannerResult>, after: seq<ScannerResult>,
                         s: Setting, s': Setting)
    requires policy'.(failOn := policy.failOn, warnOn := policy.warnOn) == policy
    requires forall x :: x in policy.failOn ==> x in policy'.failOn
    requires forall x :: x in policy.warnOn ==> x in policy'.warnOn
    requires ReportsMore(before, after)
    requires s'.(waivers := s.waivers) == s && forall w :: w in s'.waivers ==> w in s.waivers
    ensures DecisionRank(Evaluate(policy, before, s).decision) <= DecisionRank(Evaluate(policy', after, s').decision)
  {
    DecidesByRule(policy, before, s);
    DecidesByRule(policy', after, s');
    SameScanners(policy, policy', before, after);
    if HasUnwaived(before, s, policy.failOn) {
      MoreUnwaived(before, after, s, s', policy.failOn, policy'.failOn);
    }
    if HasUnwaived(before, s, policy.warnOn) {
      MoreUnwaived(before, after, s, s', policy.warnOn, policy'.warnOn);
    }
    hide Evaluate, HasUnwaived, SomeMissing, SomeFailedAs, ReportsMore;
  }

  // ---------- the audit trail ----------

  function AppliedRecords(records: seq<AuditRecord>): seq<AuditRecord> {
    if records == [] then []
    else (if records[0].WaiverApplied? then [records[0]] else []) + AppliedRecords(records[1..])
  }

  /** One record per waived finding, in the order of the findings. */
  function ExpectedRecords(applied: seq<AppliedFinding>): seq<AuditRecord> {
    if applied == [] then []
    else
      (if applied[0].waived then [WaiverApplied(applied[0].waiverId, applied[0].finding.id)] else [])
      + ExpectedRecords(applied[1..])
  }

  lemma AppliedRecordsHead(record: AuditRecord, records: seq<AuditRecord>)
    ensures AppliedRecords([record] + records)
            == (if record.WaiverApplied? then [record] else []) + AppliedRecords(records)
  {
    assert ([record] + records)[1..] == records;
  }

  lemma HeadFirst(a: seq<AuditRecord>, b: seq<AuditRecord>)
    requires a != []
    ensures [a[0]] + a[1..] == a && [a[0]] + (a[1..] + b) == a + b
  {
  }

  lemma {:induction false} AppliedRecordsConcat(a: seq<AuditRecord>, b: seq<AuditRecord>)
    ensures AppliedRecords(a + b) == AppliedRecords(a) + AppliedRecords(b)
  {
    if a == [] {
      assert a + b == b;
    } else {
      hide AppliedRecords;
      AppliedRecordsConcat(a[1..], b);
      AppliedRecordsHead(a[0], a[1..]);
      AppliedRecordsHead(a[0], a[1..] + b);
      HeadFirst(a, b);
    }
  }

  lemma {:induction false} SearchRecords(f: Finding, waivers: seq<Waiver>, s: Setting)
    ensures var (found, records) := FindWaiver(f, waivers, s);
            AppliedRecords(records) == if found.Some? then [WaiverApplied(found.value.id, f.id)] else []
  {
    hide ScopeMatches, WaiverValidity;
    if waivers != [] {
      SearchRecords(f, waivers[1..], s);
      var w := waivers[0];
      var rest := FindWaiver(f, waivers[1..], s).1;
      if ScopeMatches(w, f, s) {
        if WaiverValidity(w, s).Some? {
          AppliedRecordsConcat([WaiverRejected(w.id, f.id, WaiverValidity(w, s).value)], rest);
        } else {
          assert [WaiverApplied(w.id, f.id)][1..] == [];
        }
      }
    }
  }

  lemma {:induction false} RecordsMatch(findings: seq<Finding>, s: Setting)
    ensures AppliedRecords(Records(findings, s)) == ExpectedRecords(Applied(findings, s))
  {
    if findings != [] {
      var f := findings[0];
      RecordsMatch(findings[1..], s);
      SearchRecords(f, s.waivers, s);
      AppliedRecordsConcat(FindWaiver(f, s.waivers, s).1, Records(findings[1..], s));
      hide FindWaiver, AppliedRecords;
    }
  }

  /** The waiver.applied records are exactly one per waived finding, in the findings' order, each
      naming the waiver that covered it. */
  lemma AuditMatchesWaived(policy: Effective, results: seq<ScannerResult>, s: Setting)
    ensures AppliedRecords(Evaluate(policy, results, s).audit) == ExpectedRecords(Evaluate(policy, results, s).findings)
  {
    var records := Records(AllFindings(results), s);
    AppliedRecordsConcat([PolicyResolved], records);
    RecordsMatch(AllFindings(results), s);
    assert AppliedRecords([PolicyResolved]) == [];
    hide AppliedRecords, ExpectedRecords, Applied, Records;
  }

  /** Every finding is counted once: under its severity when it is not waived, otherwise as waived. */
  lemma {:induction false} CountsAddUp(applied: seq<AppliedFinding>)
    ensures Counted(applied, {Info}) + Counted(applied, {Low}) + Counted(applied, {Medium})
            + Counted(applied, {High}) + Counted(applied, {Critical}) + WaivedIn(applied) == |applied|
  {
    if applied != [] {
      CountsAddUp(applied[1..]);
      match applied[0].finding.severity {
        case Info =>
        case Low =>
        case Medium =>
        case High =>
        case Critical =>
      }
    }
  }
}
