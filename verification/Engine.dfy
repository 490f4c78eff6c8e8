/** The policy tail of a scan (src/core/engine.ts): the scanner floor of consumers and managed
    profiles, resolution, evaluation and the join with the OPA decision. */
module Engine {
  import opened Wrappers
  import opened Text
  import opened Sorting
  import opened CoreTypes
  import opened PolicyResolve
  import opened PolicyEvaluate

  // ---------- the floor ----------

  datatype Consumer = Consumer(consumerId: string, adapter: string, enabled: bool, requiredScanners: seq<string>)

  datatype ConsumerConfig = ConsumerConfig(consumers: seq<Consumer>, craReportingEnabled: bool)

  /** The legacy CRA configuration joins the explicit consumers unless one is already called cra. */
  function ListConfiguredConsumers(config: ConsumerConfig): seq<Consumer> {
    if exists i :: 0 <= i < |config.consumers| && config.consumers[i].consumerId == "cra" then config.consumers
    else if config.craReportingEnabled then config.consumers + [Consumer("cra", "cra", true, [])]
    else config.consumers
  }

  /** The adapters that exist. */
  predicate IsAdapter(adapter: string) { adapter == "cra" || adapter == "cyber" }

  function RequirementsOf(consumers: seq<Consumer>): seq<string> {
    if consumers == [] then []
    else
      (if consumers[0].enabled && IsAdapter(consumers[0].adapter) then consumers[0].requiredScanners else [])
      + RequirementsOf(consumers[1..])
  }

  function ConsumerRequiredScanners(config: ConsumerConfig): seq<string> {
    Sort(StringLeq, Unique(RequirementsOf(ListConfiguredConsumers(config))))
  }

  /** Runner profiles as (scanner id, profile name) pairs; an empty name does not count. */
  datatype RunnerConfig = RunnerConfig(enabled: bool, profiles: seq<(string, string)>)

  function NamedProfiles(profiles: seq<(string, string)>): seq<string> {
    if profiles == [] then []
    else (if profiles[0].1 != "" then [profiles[0].0] else []) + NamedProfiles(profiles[1..])
  }

  function ManagedProfileScanners(runner: RunnerConfig): seq<string> {
    if runner.enabled then NamedProfiles(runner.profiles) else []
  }

  function Floor(consumers: ConsumerConfig, runner: RunnerConfig): seq<string> {
    Sort(StringLeq, Unique(ConsumerRequiredScanners(consumers) + ManagedProfileScanners(runner)))
  }

  lemma {:induction false} RequirementMember(consumers: seq<Consumer>, c: Consumer, scanner: string)
    requires c in consumers && c.enabled && IsAdapter(c.adapter) && scanner in c.requiredScanners
    ensures scanner in RequirementsOf(consumers)
  {
    if c != consumers[0] {
      assert consumers == [consumers[0]] + consumers[1..];
      RequirementMember(consumers[1..], c, scanner);
    }
  }

  lemma {:induction false} ProfileMember(profiles: seq<(string, string)>, p: (string, string))
    requires p in profiles && p.1 != ""
    ensures p.0 in NamedProfiles(profiles)
  {
    if p != profiles[0] {
      assert profiles == [profiles[0]] + profiles[1..];
      ProfileMember(profiles[1..], p);
    }
  }

  /** Every scanner that an enabled consumer with a known adapter requires is in the floor. */
  lemma ConsumersAreInFloor(config: ConsumerConfig, runner: RunnerConfig, c: Consumer, scanner: string)
    requires c in config.consumers && c.enabled && IsAdapter(c.adapter) && scanner in c.requiredScanners
    ensures scanner in Floor(config, runner)
  {
    var consumers := ListConfiguredConsumers(config);
    assert c in consumers;
    RequirementMember(consumers, c, scanner);
    hide ListConfiguredConsumers;
    SortMembers(StringLeq, Unique(RequirementsOf(consumers)));
    SortMembers(StringLeq, Unique(ConsumerRequiredScanners(config) + ManagedProfileScanners(runner)));
    hide Sort;
  }

  /** Every scanner with a named managed profile is in the floor when the runner is enabled. */
  lemma ManagedProfilesAreInFloor(config: ConsumerConfig, runner: RunnerConfig, p: (string, string))
    requires runner.enabled && p in runner.profiles && p.1 != ""
    ensures p.0 in Floor(config, runner)
  {
    ProfileMember(runner.profiles, p);
    SortMembers(StringLeq, Unique(ConsumerRequiredScanners(config) + ManagedProfileScanners(runner)));
    hide Sort, ConsumerRequiredScanners;
  }

  lemma {:induction false} RequirementsIff(consumers: seq<Consumer>, scanner: string)
    ensures scanner in RequirementsOf(consumers)
            <==> exists c :: c in consumers && c.enabled && c.adapter in ["cra", "cyber"]
                             && scanner in c.requiredScanners
  {
    if consumers != [] {
      RequirementsIff(consumers[1..], scanner);
      assert consumers == [consumers[0]] + consumers[1..];
      var c := consumers[0];
      assert IsAdapter(c.adapter) <==> c.adapter in ["cra", "cyber"];
      hide IsAdapter;
    }
  }

  lemma {:induction false} NamedIff(profiles: seq<(string, string)>, scanner: string)
    ensures scanner in NamedProfiles(profiles) <==> exists name :: (scanner, name) in profiles && name != ""
  {
    if profiles != [] {
      NamedIff(profiles[1..], scanner);
      assert profiles == [profiles[0]] + profiles[1..];
    }
  }

  /** The consumers are the given ones, in their order, and after them the legacy CRA consumer when
      reporting is enabled and none of them is called cra. */
  lemma ConfiguredIff(config: ConsumerConfig, c: Consumer)
    ensures config.consumers <= ListConfiguredConsumers(config)
    ensures c in ListConfiguredConsumers(config)
            <==> || c in config.consumers
                 || (&& c == Consumer("cra", "cra", true, []) && config.craReportingEnabled
                     && forall d :: d in config.consumers ==> d.consumerId != "cra")
  {
  }

  /** The floor is what enabled consumers with an adapter require and what has a named profile while the
      runner is enabled, sorted and without repetitions. */
  lemma FloorIff(config: ConsumerConfig, runner: RunnerConfig)
    ensures Sorted(StringLeq, Floor(config, runner)) && Distinct(Floor(config, runner))
    ensures forall scanner ::
              scanner in Floor(config, runner)
              <==> || (exists c :: c in config.consumers && c.enabled && c.adapter in ["cra", "cyber"]
                                   && scanner in c.requiredScanners)
                   || (runner.enabled && exists name :: (scanner, name) in runner.profiles && name != "")
  {
    var all := ConsumerRequiredScanners(config) + ManagedProfileScanners(runner);
    StringIsTotalOrder([]);
    SortSorted(StringLeq, Unique(all));
    SortMembers(StringLeq, Unique(all));
    PermutedDistinct(Unique(all), Floor(config, runner));
    var consumers := ListConfiguredConsumers(config);
    SortMembers(StringLeq, Unique(RequirementsOf(consumers)));
    hide Sort, Sorted, Distinct, StringLeq;
    forall scanner
      ensures scanner in Floor(config, runner)
              <==> || (exists c :: c in config.consumers && c.enabled && c.adapter in ["cra", "cyber"]
                                   && scanner in c.requiredScanners)
                   || (runner.enabled && exists name :: (scanner, name) in runner.profiles && name != "")
    {
      RequirementsIff(consumers, scanner);
      NamedIff(runner.profiles, scanner);
      LegacyRequiresNothing(config, scanner);
      hide RequirementsOf, NamedProfiles, ListConfiguredConsumers, Floor;
      assert scanner in Floor(config, runner)
             <==> scanner in RequirementsOf(consumers) || scanner in ManagedProfileScanners(runner);
    }
  }

  lemma LegacyRequiresNothing(config: ConsumerConfig, scanner: string)
    ensures (exists c :: c in ListConfiguredConsumers(config) && c.enabled && c.adapter in ["cra", "cyber"]
                         && scanner in c.requiredScanners)
            <==> exists c :: c in config.consumers && c.enabled && c.adapter in ["cra", "cyber"]
                             && scanner in c.requiredScanners
  {
    hide ListConfiguredConsumers;
    forall c: Consumer
      ensures c in ListConfiguredConsumers(config) && scanner in c.requiredScanners
              <==> c in config.consumers && scanner in c.requiredScanners
    {
      ConfiguredIff(config, c);
    }
  }

  // ---------- the decision ----------

  function Stricter(a: Decision, b: Decision): Decision {
    if DecisionRank(a) >= DecisionRank(b) then a else b
  }

  /** Everything the tail reads: the policy files and when they were loaded, the configuration and
      the scan. */
  datatype Scan = Scan(
    files: seq<Loaded>, loadedAt: int, context: Context, defaults: Defaults, consumers: ConsumerConfig,
    runner: RunnerConfig,
    results: seq<ScannerResult>, setting: Setting)

  /** The OPA answer is absent when OPA is disabled. */
  method DecideScan(scan: Scan, pathLeq: (string, string) -> bool, opa: Option<Decision>)
    returns (r: Result<Decision, PolicyError>)
    ensures r == FinalDecision(scan, pathLeq, opa)
  {
    var documents := LoadPolicyDocuments(scan.files, scan.context, scan.loadedAt, pathLeq);
    if documents.Err? {
      return Err(documents.error);
    }
    var effective := ResolvePolicy(scan.defaults, documents.value, Floor(scan.consumers, scan.runner));
    if effective.Err? {
      return Err(effective.error);
    }
    var policy := EvaluatePolicy(effective.value, scan.results, scan.setting);
    var decision := policy.decision;
    if opa.Some? {
      decision := Stricter(decision, opa.value);
    }
    return Ok(decision);
  }

  function EffectivePolicy(scan: Scan, pathLeq: (string, string) -> bool): Result<Effective, PolicyError> {
    var documents :- Load(scan.files, scan.context, scan.loadedAt, pathLeq);
    Resolve(scan.defaults, documents, Floor(scan.consumers, scan.runner))
  }

  function FinalDecision(scan: Scan, pathLeq: (string, string) -> bool,
                         opa: Option<Decision>): Result<Decision, PolicyError> {
    var policy :- EffectivePolicy(scan, pathLeq);
    var builtin := Evaluate(policy, scan.results, scan.setting).decision;
    Ok(if opa.Some? then Stricter(builtin, opa.value) else builtin)
  }

  /** The scan fails when either side says so, and passes only when no side objects. */
  lemma FinalIff(scan: Scan, pathLeq: (string, string) -> bool, opa: Option<Decision>)
    requires FinalDecision(scan, pathLeq, opa).Ok?
    ensures var final := FinalDecision(scan, pathLeq, opa).value;
            var builtin := Evaluate(EffectivePolicy(scan, pathLeq).value, scan.results, scan.setting).decision;
            && (final == FAIL <==> builtin == FAIL || opa == Some(FAIL))
            && (final == PASS <==> builtin == PASS && (opa.None? || opa == Some(PASS)))
  {
    hide EffectivePolicy, Evaluate;
  }

  /** The final decision is the stricter of the built-in and the OPA decision. */
  lemma FinalIsMaximum(scan: Scan, pathLeq: (string, string) -> bool, opa: Option<Decision>)
    requires FinalDecision(scan, pathLeq, opa).Ok?
    ensures var final := FinalDecision(scan, pathLeq, opa).value;
            var builtin := Evaluate(EffectivePolicy(scan, pathLeq).value, scan.results, scan.setting).decision;
            && DecisionRank(builtin) <= DecisionRank(final)
            && (opa.Some? ==> DecisionRank(opa.value) <= DecisionRank(final))
            && (final == builtin || opa == Some(final))
  {
    hide EffectivePolicy, Evaluate;
  }

  /** Fail closed, end to end: whatever the policy documents, waivers, findings and OPA say, a
      scanner of the floor without a non-skipped result makes the decision FAIL. */
  lemma FloorFailsClosed(scan: Scan, pathLeq: (string, string) -> bool, opa: Option<Decision>, scanner: string)
    requires scanner in Floor(scan.consumers, scan.runner) && !Ran(scan.results, scanner)
    requires FinalDecision(scan, pathLeq, opa).Ok?
    ensures FinalDecision(scan, pathLeq, opa).value == FAIL
  {
    hide Floor, Ran, Load, Resolve, Evaluate;
    var documents := Load(scan.files, scan.context, scan.loadedAt, pathLeq).value;
    var policy := EffectivePolicy(scan, pathLeq).value;
    FloorIsRequired(scan.defaults, documents, Floor(scan.consumers, scan.runner), scanner);
    DecidesByRule(policy, scan.results, scan.setting);
    assert SomeMissing(policy, scan.results);
  }
}
