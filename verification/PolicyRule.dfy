/** What decides a scan, on the fields of waivers, findings, scanner results and the policy alone. */
module PolicyRule {
  import opened CoreTypes
  import opened PolicyResolve
  import opened PolicyEvaluate

  // ---------- waivers ----------

  /** Not expired, approved and ticketed where that is asked for, and with a date that can be read and is not too
      long before the expiry. */
  ghost predicate IsGood(w: Waiver, s: Setting) {
    && s.now < w.expiresAt
    && (s.rules.requireApproval ==> w.approver != "" && w.approvedAt != "")
    && (s.rules.requireTicket ==> w.ticket != "")
    && w.createdAt != Unreadable
    && forall created :: w.createdAt == At(created)
                         ==> w.expiresAt <= created + s.rules.maxDurationDays * 86_400_000
  }

  /** Every selector that the waiver gives agrees with the finding or the place of the scan. */
  ghost predicate Agrees(w: Waiver, f: Finding, s: Setting) {
    && w.fingerprint in {"", f.fingerprint} && w.ruleId in {"", f.ruleId} && w.path in {"", f.path}
    && w.scanner in {"", f.scanner} && w.repository in {"", s.repository} && w.service in {"", s.service}
  }

  lemma CoversIff(w: Waiver, f: Finding, s: Setting)
    ensures Covers(w, f, s) <==> IsGood(w, s) && Agrees(w, f, s)
    ensures ScopeMatches(w, f, s) <==> Agrees(w, f, s)
    ensures WaiverValidity(w, s).None? <==> IsGood(w, s)
  {
  }

  /** The waiver at k is the first that is good and agrees with the finding. */
  ghost predicate IsFirstGood(waivers: seq<Waiver>, k: nat, f: Finding, s: Setting) {
    && k < |waivers| && IsGood(waivers[k], s) && Agrees(waivers[k], f, s)
    && forall j :: 0 <= j < k ==> !IsGood(waivers[j], s) || !Agrees(waivers[j], f, s)
  }

  ghost predicate SomeGood(waivers: seq<Waiver>, f: Finding, s: Setting) {
    exists w :: w in waivers && IsGood(w, s) && Agrees(w, f, s)
  }

  lemma {:induction false} FindsFirstGood(f: Finding, waivers: seq<Waiver>, s: Setting)
    ensures var found := FindWaiver(f, waivers, s).0;
            && (found.Some? <==> SomeGood(waivers, f, s))
            && (found.Some? ==> exists k: nat :: IsFirstGood(waivers, k, f, s) && waivers[k] == found.value)
  {
    hide ScopeMatches, WaiverValidity, IsGood, Agrees;
    if waivers != [] {
      CoversIff(waivers[0], f, s);
      FindsFirstGood(f, waivers[1..], s);
      assert waivers == [waivers[0]] + waivers[1..];
      if IsGood(waivers[0], s) && Agrees(waivers[0], f, s) {
        assert IsFirstGood(waivers, 0, f, s);
      } else {
        assert forall w :: w in waivers <==> w == waivers[0] || w in waivers[1..];
        var found := FindWaiver(f, waivers[1..], s).0;
        if found.Some? {
          var k: nat :| IsFirstGood(waivers[1..], k, f, s) && waivers[1..][k] == found.value;
          assert forall j :: 0 < j < |waivers| ==> waivers[j] == waivers[1..][j - 1];
          assert IsFirstGood(waivers, k + 1, f, s) && waivers[k + 1] == found.value;
        }
      }
    }
  }

  lemma {:induction false} AppliedAt(findings: seq<Finding>, s: Setting, i: nat)
    requires i < |findings|
    ensures Applied(findings, s)[i] == ApplyOne(findings[i], s)
  {
    hide ApplyOne;
    if i > 0 {
      AppliedAt(findings[1..], s, i - 1);
    }
  }

  /** Every finding is reported in its place. It is waived exactly when some waiver is good and agrees with it, and
      then by the first such waiver. */
  lemma WaivedIff(policy: Effective, results: seq<ScannerResult>, s: Setting, i: nat)
    requires i < |AllFindings(results)|
    ensures var r, f := Evaluate(policy, results, s), AllFindings(results)[i];
            && |r.findings| == |AllFindings(results)| && r.findings[i].finding == f
            && (r.findings[i].waived <==> SomeGood(s.waivers, f, s))
            && (r.findings[i].waived ==>
                  exists k: nat :: IsFirstGood(s.waivers, k, f, s) && s.waivers[k].id == r.findings[i].waiverId)
  {
    AppliedAt(AllFindings(results), s, i);
    FindsFirstGood(AllFindings(results)[i], s.waivers, s);
    hide FindWaiver, Counted, Records, WaivedIn, ForcedBy, Applied, SomeGood, IsFirstGood, AllFindings;
  }

  /** The findings of the scanners one after the other. */
  lemma {:induction false} FindingsInOrder(a: seq<ScannerResult>, b: seq<ScannerResult>)
    ensures AllFindings(a + b) == AllFindings(a) + AllFindings(b)
    ensures |b| == 1 ==> AllFindings(b) == b[0].findings
  {
    assert |b| == 1 ==> AllFindings(b[1..]) == [] && b[0].findings + [] == b[0].findings;
    assert AllFindings([]) == [];
    assert |b| == 1 ==> AllFindings(b) == b[0].findings;
    hide AllFindings;
    if a == [] {
      assert a + b == b;
    } else {
      FindingsInOrder(a[1..], b);
      AllFindingsHead(a[0], a[1..]);
      AllFindingsHead(a[0], a[1..] + b);
      assert [a[0]] + a[1..] == a && [a[0]] + (a[1..] + b) == a + b;
    }
  }

  lemma AllFindingsHead(r: ScannerResult, results: seq<ScannerResult>)
    ensures AllFindings([r] + results) == r.findings + AllFindings(results)
  {
    assert ([r] + results)[1..] == results;
  }

  /** A good waiver that agrees with a finding waives it. */
  lemma GoodWaiverWaives(policy: Effective, results: seq<ScannerResult>, s: Setting, w: Waiver, i: nat)
    requires i < |AllFindings(results)| && w in s.waivers && IsGood(w, s) && Agrees(w, AllFindings(results)[i], s)
    ensures Evaluate(policy, results, s).findings[i].waived
  {
    WaivedIff(policy, results, s, i);
    hide IsGood, Agrees, Evaluate;
  }

  lemma {:induction false} NoneFound(f: Finding, waivers: seq<Waiver>, s: Setting)
    requires forall w :: w in waivers ==> !IsGood(w, s)
    ensures FindWaiver(f, waivers, s).0.None?
    ensures forall x :: x in FindWaiver(f, waivers, s).1 ==> !x.WaiverApplied?
  {
    hide IsGood, Agrees, ScopeMatches, WaiverValidity;
    if waivers != [] {
      CoversIff(waivers[0], f, s);
      assert waivers[0] in waivers;
      NoneFound(f, waivers[1..], s);
    }
  }

  lemma {:induction false} NoneApplied(findings: seq<Finding>, s: Setting)
    requires forall w :: w in s.waivers ==> !IsGood(w, s)
    ensures Applied(findings, s) == Applied(findings, s.(waivers := []))
    ensures forall x :: x in Records(findings, s) ==> !x.WaiverApplied?
  {
    hide IsGood;
    if findings != [] {
      NoneFound(findings[0], s.waivers, s);
      NoneApplied(findings[1..], s);
    }
  }

  /** Without a good waiver the scan is decided as if there were none, and no application is recorded. */
  lemma NoGoodWaiver(policy: Effective, results: seq<ScannerResult>, s: Setting)
    requires forall w :: w in s.waivers ==> !IsGood(w, s)
    ensures var r, bare := Evaluate(policy, results, s), Evaluate(policy, results, s.(waivers := []));
            && r.(audit := bare.audit) == bare
            && forall x :: x in r.audit ==> !x.WaiverApplied?
  {
    NoneApplied(AllFindings(results), s);
    hide IsGood, Applied, Records, Counted, WaivedIn, AllFindings, ForcedBy;
  }

  /** Expired waivers waive nothing. */
  lemma ExpiredWaiveNothing(policy: Effective, results: seq<ScannerResult>, s: Setting)
    requires forall w :: w in s.waivers ==> w.expiresAt <= s.now
    ensures var r, bare := Evaluate(policy, results, s), Evaluate(policy, results, s.(waivers := []));
            r.decision == bare.decision && r.findings == bare.findings && forall x :: x in r.audit ==> !x.WaiverApplied?
  {
    NoGoodWaiver(policy, results, s);
    hide Evaluate;
  }

  /** Neither do waivers without approver or approval date, when approval is required. */
  lemma UnapprovedWaiveNothing(policy: Effective, results: seq<ScannerResult>, s: Setting)
    requires s.rules.requireApproval && forall w :: w in s.waivers ==> w.approver == "" || w.approvedAt == ""
    ensures var r, bare := Evaluate(policy, results, s), Evaluate(policy, results, s.(waivers := []));
            r.decision == bare.decision && r.findings == bare.findings && forall x :: x in r.audit ==> !x.WaiverApplied?
  {
    NoGoodWaiver(policy, results, s);
    hide Evaluate;
  }

  /** Nor waivers without a ticket, when tickets are required. */
  lemma UnticketedWaiveNothing(policy: Effective, results: seq<ScannerResult>, s: Setting)
    requires s.rules.requireTicket && forall w :: w in s.waivers ==> w.ticket == ""
    ensures var r, bare := Evaluate(policy, results, s), Evaluate(policy, results, s.(waivers := []));
            r.decision == bare.decision && r.findings == bare.findings && forall x :: x in r.audit ==> !x.WaiverApplied?
  {
    NoGoodWaiver(policy, results, s);
    hide Evaluate;
  }

  /** Nor waivers whose creation date cannot be read or is further from the expiry than allowed. */
  lemma LongWaiveNothing(policy: Effective, results: seq<ScannerResult>, s: Setting)
    requires forall w :: w in s.waivers ==>
               || w.createdAt == Unreadable
               || exists created :: w.createdAt == At(created)
                                    && w.expiresAt - created > s.rules.maxDurationDays * 86_400_000
    ensures var r, bare := Evaluate(policy, results, s), Evaluate(policy, results, s.(waivers := []));
            r.decision == bare.decision && r.findings == bare.findings && forall x :: x in r.audit ==> !x.WaiverApplied?
  {
    NoGoodWaiver(policy, results, s);
    hide Evaluate;
  }

  // ---------- the decision ----------

  /** Some required scanner has no result that was not skipped. */
  ghost predicate LacksScanner(policy: Effective, results: seq<ScannerResult>) {
    exists x :: x in policy.requiredScanners && forall r :: r in results && r.scanner == x ==> r.status == Skipped
  }

  /** The policy's mode for the scanner; by default required scanners fail closed. */
  ghost predicate HasMode(policy: Effective, scanner: string, mode: FailureMode) {
    if scanner in policy.scannerFailureModes then policy.scannerFailureModes[scanner] == mode
    else mode == if scanner in policy.requiredScanners then Fail else Warn
  }

  ghost predicate FailsWith(policy: Effective, results: seq<ScannerResult>, mode: FailureMode) {
    exists r :: r in results && r.status == Failed && HasMode(policy, r.scanner, mode)
  }

  /** Some finding of such a severity that no waiver waives. */
  ghost predicate Violates(results: seq<ScannerResult>, s: Setting, severities: seq<Severity>) {
    exists r, f :: r in results && f in r.findings && f.severity in severities && !SomeGood(s.waivers, f, s)
  }

  lemma LacksIff(policy: Effective, results: seq<ScannerResult>)
    ensures LacksScanner(policy, results) <==> SomeMissing(policy, results)
  {
    forall x
      ensures Ran(results, x) <==> exists r :: r in results && r.scanner == x && r.status != Skipped
    {
      if r :| r in results && r.scanner == x && r.status != Skipped {
        var i :| 0 <= i < |results| && results[i] == r;
      }
    }
    hide Ran;
  }

  lemma FailsIff(policy: Effective, results: seq<ScannerResult>, mode: FailureMode)
    ensures FailsWith(policy, results, mode) <==> SomeFailedAs(policy, results, mode)
  {
    forall scanner ensures HasMode(policy, scanner, mode) <==> EffectiveMode(policy, scanner) == mode {}
    hide HasMode, EffectiveMode;
  }

  lemma ViolatesIff(results: seq<ScannerResult>, s: Setting, severities: seq<Severity>)
    ensures Violates(results, s, severities) <==> HasUnwaived(results, s, severities)
  {
    forall f ensures SomeGood(s.waivers, f, s) <==> Waived(f, s) {
      forall w ensures Covers(w, f, s) <==> IsGood(w, s) && Agrees(w, f, s) {
        CoversIff(w, f, s);
      }
      hide Covers, IsGood, Agrees;
    }
    hide SomeGood, Waived;
  }

  /** The decision on the fields: FAIL exactly when a required scanner is lacking, a failed scanner fails closed or
      an unwaived finding has a blocking severity; otherwise WARN exactly when a failed scanner only warns or an
      unwaived finding has a warning severity; otherwise PASS. */
  lemma DecidesByFields(policy: Effective, results: seq<ScannerResult>, s: Setting)
    ensures Evaluate(policy, results, s).decision
            == if LacksScanner(policy, results) || FailsWith(policy, results, Fail)
                  || Violates(results, s, policy.failOn) then FAIL
               else if FailsWith(policy, results, Warn) || Violates(results, s, policy.warnOn) then WARN
               else PASS
  {
    DecidesByRule(policy, results, s);
    LacksIff(policy, results);
    FailsIff(policy, results, Fail);
    FailsIff(policy, results, Warn);
    ViolatesIff(results, s, policy.failOn);
    ViolatesIff(results, s, policy.warnOn);
    hide Evaluate, LacksScanner, FailsWith, Violates, SomeMissing, SomeFailedAs, HasUnwaived;
  }

  // ---------- time ----------

  /** As time goes on nothing becomes waived and the decision does not become laxer: a waiver that has expired
      stays expired. */
  lemma TimeTightens(policy: Effective, results: seq<ScannerResult>, s: Setting, later: int)
    requires s.now <= later
    ensures var r, r' := Evaluate(policy, results, s), Evaluate(policy, results, s.(now := later));
            && DecisionRank(r.decision) <= DecisionRank(r'.decision)
            && |r'.findings| == |r.findings|
            && forall i :: 0 <= i < |r.findings| && r'.findings[i].waived ==> r.findings[i].waived
  {
    var s' := s.(now := later);
    DecidesByFields(policy, results, s);
    DecidesByFields(policy, results, s');
    forall f ensures SomeGood(s'.waivers, f, s') ==> SomeGood(s.waivers, f, s) {
      GoodStaysAgreeing(f, s, later);
    }
    forall i | 0 <= i < |AllFindings(results)|
      ensures Evaluate(policy, results, s').findings[i].waived ==> Evaluate(policy, results, s).findings[i].waived
    {
      WaivedIff(policy, results, s, i);
      WaivedIff(policy, results, s', i);
    }
    hide SomeGood, LacksScanner, FailsWith, IsFirstGood;
    assert |Evaluate(policy, results, s).findings| == |AllFindings(results)|;
    assert |Evaluate(policy, results, s').findings| == |AllFindings(results)|;
    hide Evaluate, AllFindings;
  }

  lemma GoodStaysAgreeing(f: Finding, s: Setting, later: int)
    requires s.now <= later
    ensures SomeGood(s.waivers, f, s.(now := later)) ==> SomeGood(s.waivers, f, s)
  {
  }

  // ---------- counts and reasons ----------

  function Chosen(applied: seq<AppliedFinding>, p: AppliedFinding -> bool): seq<AppliedFinding> {
    if applied == [] then []
    else
      Chosen(applied[..|applied| - 1], p)
      + if p(applied[|applied| - 1]) then [applied[|applied| - 1]] else []
  }

  function Unwaived(severities: set<Severity>): AppliedFinding -> bool {
    (a: AppliedFinding) => !a.waived && a.finding.severity in severities
  }

  lemma {:induction false} ChosenFront(applied: seq<AppliedFinding>, p: AppliedFinding -> bool)
    requires applied != []
    ensures |Chosen(applied, p)| == |Chosen(applied[1..], p)| + if p(applied[0]) then 1 else 0
    decreases |applied|
  {
    if |applied| == 1 {
      assert applied[..0] == [] && applied[1..] == [];
    } else {
      var front := applied[..|applied| - 1];
      ChosenFront(front, p);
      assert front[1..] == applied[1..][..|applied| - 2];
    }
  }

  lemma {:induction false} CountedIsChosen(applied: seq<AppliedFinding>, severities: set<Severity>)
    ensures Counted(applied, severities) == |Chosen(applied, Unwaived(severities))|
    ensures WaivedIn(applied) == |Chosen(applied, (a: AppliedFinding) => a.waived)|
  {
    hide Chosen;
    if applied != [] {
      ChosenFront(applied, Unwaived(severities));
      ChosenFront(applied, (a: AppliedFinding) => a.waived);
      CountedIsChosen(applied[1..], severities);
    } else {
      NoneChosen();
    }
  }

  lemma NoneChosen()
    ensures forall p :: Chosen([], p) == []
  {
  }

  /** The counts are the numbers of reported findings of each severity that are not waived, and of waived ones. */
  lemma CountsAreNumbers(policy: Effective, results: seq<ScannerResult>, s: Setting, severity: Severity)
    ensures var r := Evaluate(policy, results, s);
            && severity in r.counts && r.counts[severity] == |Chosen(r.findings, Unwaived({severity}))|
            && r.waivedCount == |Chosen(r.findings, (a: AppliedFinding) => a.waived)|
  {
    CountedIsChosen(Applied(AllFindings(results), s), {severity});
    hide Counted, WaivedIn, Applied, Records, ForcedBy, Chosen;
  }

  // ---------- what is recorded ----------

  /** The first of the checks that the waiver fails. */
  ghost predicate IsReason(reason: Refusal, w: Waiver, s: Setting) {
    var unapproved := s.rules.requireApproval && (w.approver == "" || w.approvedAt == "");
    var unticketed := s.rules.requireTicket && w.ticket == "";
    match reason
    case Expired => w.expiresAt <= s.now
    case ApprovalRequired => s.now < w.expiresAt && unapproved
    case TicketRequired => s.now < w.expiresAt && !unapproved && unticketed
    case InvalidCreatedAt => s.now < w.expiresAt && !unapproved && !unticketed && w.createdAt == Unreadable
    case TooLong =>
      && s.now < w.expiresAt && !unapproved && !unticketed
      && exists created :: w.createdAt == At(created) && w.expiresAt - created > s.rules.maxDurationDays * 86_400_000
  }

  lemma RefusedForReason(w: Waiver, s: Setting)
    ensures WaiverValidity(w, s).Some? ==> IsReason(WaiverValidity(w, s).value, w, s)
  {
  }

  /** The rejection of a waiver that agrees with the finding but fails a check. */
  ghost predicate IsRejection(x: AuditRecord, w: Waiver, f: Finding, s: Setting) {
    && x.WaiverRejected? && x.waiverId == w.id && x.findingId == f.id && Agrees(w, f, s) && IsReason(x.reason, w, s)
  }

  lemma {:induction false} SearchRejects(f: Finding, waivers: seq<Waiver>, s: Setting)
    ensures forall x :: x in FindWaiver(f, waivers, s).1 && x.WaiverRejected?
                        ==> exists w :: w in waivers && IsRejection(x, w, f, s)
    ensures forall k :: 0 <= k < |waivers| && Agrees(waivers[k], f, s) && !IsGood(waivers[k], s)
                        && (forall j :: 0 <= j < k ==> !IsGood(waivers[j], s) || !Agrees(waivers[j], f, s))
                        ==> exists x :: x in FindWaiver(f, waivers, s).1 && IsRejection(x, waivers[k], f, s)
  {
    hide ScopeMatches, WaiverValidity, IsGood, Agrees, IsReason;
    if waivers != [] {
      var w, rest := waivers[0], waivers[1..];
      CoversIff(w, f, s);
      RefusedForReason(w, s);
      SearchRejects(f, rest, s);
      var records := FindWaiver(f, waivers, s).1;
      forall x | x in records && x.WaiverRejected? ensures exists v :: v in waivers && IsRejection(x, v, f, s) {
        if ScopeMatches(w, f, s) && x == records[0] {
          assert w in waivers && IsRejection(x, w, f, s);
        } else {
          assert x in FindWaiver(f, rest, s).1;
          var v :| v in rest && IsRejection(x, v, f, s);
          assert v in waivers;
        }
      }
      forall k | 0 <= k < |waivers| && Agrees(waivers[k], f, s) && !IsGood(waivers[k], s)
                 && (forall j :: 0 <= j < k ==> !IsGood(waivers[j], s) || !Agrees(waivers[j], f, s))
        ensures exists x :: x in records && IsRejection(x, waivers[k], f, s)
      {
        if k == 0 {
          assert records[0] in records && IsRejection(records[0], w, f, s);
        } else {
          assert rest[k - 1] == waivers[k];
          assert forall j :: 0 <= j < k - 1 ==> rest[j] == waivers[j + 1];
          var x :| x in FindWaiver(f, rest, s).1 && IsRejection(x, rest[k - 1], f, s);
          assert x in records;
        }
      }
    }
  }

  lemma {:induction false} RecordsMembers(findings: seq<Finding>, s: Setting)
    ensures forall x :: x in Records(findings, s) <==> exists f :: f in findings && x in FindWaiver(f, s.waivers, s).1
  {
    assert Records([], s) == [];
    hide FindWaiver;
    if findings != [] {
      RecordsMembers(findings[1..], s);
      assert findings == [findings[0]] + findings[1..];
      RecordsHead(findings, s);
      hide Records;
      forall x ensures x in Records(findings, s) <==> exists f :: f in findings && x in FindWaiver(f, s.waivers, s).1 {
        if x in FindWaiver(findings[0], s.waivers, s).1 {
          assert findings[0] in findings;
        } else if f :| f in findings && x in FindWaiver(f, s.waivers, s).1 {
          assert f in findings[1..];
        }
      }
    }
  }

  lemma RecordsHead(findings: seq<Finding>, s: Setting)
    requires findings != []
    ensures forall x :: x in Records(findings, s)
                        <==> x in FindWaiver(findings[0], s.waivers, s).1 || x in Records(findings[1..], s)
  {
    hide FindWaiver;
  }

  /** Every rejection on record is of a waiver that agrees with a finding and names the first check it fails; and
      every such waiver before the one that is applied is on record. */
  lemma RejectionsAreRecorded(policy: Effective, results: seq<ScannerResult>, s: Setting)
    ensures forall x :: x in Evaluate(policy, results, s).audit && x.WaiverRejected? ==>
              exists w, f :: w in s.waivers && f in AllFindings(results) && IsRejection(x, w, f, s)
    ensures forall k, f ::
              && 0 <= k < |s.waivers| && f in AllFindings(results)
              && Agrees(s.waivers[k], f, s) && !IsGood(s.waivers[k], s)
              && (forall j :: 0 <= j < k ==> !IsGood(s.waivers[j], s) || !Agrees(s.waivers[j], f, s))
              ==> exists x :: x in Evaluate(policy, results, s).audit && IsRejection(x, s.waivers[k], f, s)
  {
    RecordsMembers(AllFindings(results), s);
    var audit := Evaluate(policy, results, s).audit;
    assert audit == [PolicyResolved] + Records(AllFindings(results), s);
    hide Evaluate, Records, AllFindings, IsGood, Agrees, FindWaiver, IsReason;
    forall f { SearchRejects(f, s.waivers, s); }
    forall x | x in audit && x.WaiverRejected?
      ensures exists w, f :: w in s.waivers && f in AllFindings(results) && IsRejection(x, w, f, s)
    {
      var f :| f in AllFindings(results) && x in FindWaiver(f, s.waivers, s).1;
      var w :| w in s.waivers && IsRejection(x, w, f, s);
    }
    forall k, f | 0 <= k < |s.waivers| && f in AllFindings(results) && Agrees(s.waivers[k], f, s)
                  && !IsGood(s.waivers[k], s)
                  && (forall j :: 0 <= j < k ==> !IsGood(s.waivers[j], s) || !Agrees(s.waivers[j], f, s))
      ensures exists x :: x in audit && IsRejection(x, s.waivers[k], f, s)
    {
      var x :| x in FindWaiver(f, s.waivers, s).1 && IsRejection(x, s.waivers[k], f, s);
      assert x in audit;
    }
  }

  // ---------- reasons ----------

  /** The report says that nothing is violated exactly when the decision is PASS, and then nothing else. It counts
      the blocking findings, or else the warning ones, and names the lacking scanners and those that failed. */
  lemma ReasonsExplain(policy: Effective, results: seq<ScannerResult>, s: Setting)
    ensures var r := Evaluate(policy, results, s);
            var blocking, warning := |Chosen(r.findings, Unwaived(Members(policy.failOn)))|,
                                     |Chosen(r.findings, Unwaived(Members(policy.warnOn)))|;
            && (NothingViolated in r.reasons <==> r.decision == PASS)
            && (r.decision == PASS ==> r.reasons == [NothingViolated])
            && (forall n :: BlockingFindings(n) in r.reasons <==> n > 0 && n == blocking)
            && (forall n :: WarningFindings(n) in r.reasons <==> n > 0 && n == warning && blocking == 0)
            && (forall m :: ScannersMissing(m) in r.reasons
                            <==> m != [] && m == Missing(policy.requiredScanners, results))
            && (forall x :: FailedClosed(x) in r.reasons <==> FailsAs(policy, results, |results|, x, Fail))
            && (forall x :: FailedOpen(x) in r.reasons ==> FailsAs(policy, results, |results|, x, Warn))
  {
    hide ForcedBy, Counted, WaivedIn, Applied, Records, Chosen, FailsAs, AllFindings, Missing, Members, Decide,
      LastReason;
    ForcedReasons(policy, results, |results|);
    var applied := Applied(AllFindings(results), s);
    CountedIsChosen(applied, Members(policy.failOn));
    CountedIsChosen(applied, Members(policy.warnOn));
    LastReasonIs(ForcedBy(policy, results, |results|), |Chosen(applied, Unwaived(Members(policy.failOn)))|,
        |Chosen(applied, Unwaived(Members(policy.warnOn)))|);
  }

  lemma LastReasonIs(forced: Forced, blocking: nat, warning: nat)
    requires forced.decision == PASS <==> forced.reasons == []
    requires forall x :: x in forced.reasons ==> x.ScannersMissing? || x.FailedClosed? || x.FailedOpen?
    ensures var reasons, d := forced.reasons + LastReason(forced, blocking, warning), Decide(forced, blocking, warning);
            && (NothingViolated in reasons <==> d == PASS)
            && (d == PASS ==> reasons == [NothingViolated])
            && (forall n :: BlockingFindings(n) in reasons <==> n > 0 && n == blocking)
            && (forall n :: WarningFindings(n) in reasons <==> n > 0 && n == warning && blocking == 0)
            && (forall x: Reason :: x.ScannersMissing? || x.FailedClosed? || x.FailedOpen?
                            ==> (x in reasons <==> x in forced.reasons))
  {
    var reasons, d := forced.reasons + LastReason(forced, blocking, warning), Decide(forced, blocking, warning);
    if d == PASS {
      assert [] + [NothingViolated] == [NothingViolated];
    }
  }

  /** One of the first n results is a failure of the scanner, and its mode is the given one. */
  ghost predicate FailsAs(policy: Effective, results: seq<ScannerResult>, n: nat, scanner: string, mode: FailureMode)
    requires n <= |results|
  {
    HasMode(policy, scanner, mode)
    && exists i :: 0 <= i < n && results[i].scanner == scanner && results[i].status == Failed
  }

  /** The missing scanners are the required ones, in order, that have no result but skipped ones. */
  lemma {:induction false} MissingInOrder(required: seq<string>, results: seq<ScannerResult>)
    ensures forall x :: x in Missing(required, results)
                        <==> x in required && forall r :: r in results && r.scanner == x ==> r.status == Skipped
    ensures |required| == 1 && Missing(required, results) != [] ==> Missing(required, results) == required
    ensures forall a, b :: required == a + b ==> Missing(required, results) == Missing(a, results) + Missing(b, results)
  {
    MissingMembers(required, results);
    forall x ensures Ran(results, x) <==> exists r :: r in results && r.scanner == x && r.status != Skipped {
      if r :| r in results && r.scanner == x && r.status != Skipped {
        var i :| 0 <= i < |results| && results[i] == r;
      }
    }
    hide Ran;
    assert |required| == 1 ==> Missing(required[1..], results) == [];
    forall a, b | required == a + b ensures Missing(required, results) == Missing(a, results) + Missing(b, results) {
      MissingConcat(a, b, results);
    }
  }

  lemma {:induction false} MissingConcat(a: seq<string>, b: seq<string>, results: seq<ScannerResult>)
    ensures Missing(a + b, results) == Missing(a, results) + Missing(b, results)
  {
    assert Missing([], results) == [];
    hide Missing;
    if a == [] {
      assert a + b == b;
    } else {
      MissingConcat(a[1..], b, results);
      MissingHead(a[0], a[1..], results);
      MissingHead(a[0], a[1..] + b, results);
      assert [a[0]] + a[1..] == a && [a[0]] + (a[1..] + b) == a + b;
    }
  }

  lemma MissingHead(x: string, required: seq<string>, results: seq<ScannerResult>)
    ensures Missing([x] + required, results) == (if Ran(results, x) then [] else [x]) + Missing(required, results)
  {
    assert ([x] + required)[1..] == required;
  }

  lemma {:induction false} ForcedReasons(policy: Effective, results: seq<ScannerResult>, n: nat)
    requires n <= |results|
    ensures var forced := ForcedBy(policy, results, n);
            && (forced.decision == PASS <==> forced.reasons == [])
            && (forall x :: x in forced.reasons ==> x.ScannersMissing? || x.FailedClosed? || x.FailedOpen?)
            && (forall m :: ScannersMissing(m) in forced.reasons
                            <==> m != [] && m == Missing(policy.requiredScanners, results))
            && (forall x :: FailedClosed(x) in forced.reasons <==> FailsAs(policy, results, n, x, Fail))
            && (forall x :: FailedOpen(x) in forced.reasons ==> FailsAs(policy, results, n, x, Warn))
  {
    hide Missing;
    if n > 0 {
      ForcedReasons(policy, results, n - 1);
    }
  }
}
