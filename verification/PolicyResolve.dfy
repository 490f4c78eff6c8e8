/** Loading policy documents in level order and folding them into one effective policy under field
    locks (src/policy/documents.ts and src/policy/resolve.ts). */
module PolicyResolve {
  import opened Wrappers
  import opened Text
  import opened Sorting
  import opened CoreTypes

  // ---------- documents ----------

  /** A member of a scope or a context; None when it is not given. */
  datatype Scope = Scope(
    tenant: Option<string>, project: Option<string>, repository: Option<string>, service: Option<string>)

  datatype Context = Context(
    tenant: Option<string>, project: Option<string>, repository: string, service: Option<string>)

  datatype Enforcement = Enforcement(
    failOn: Option<seq<Severity>>, warnOn: Option<seq<Severity>>, requiredScanners: Option<seq<string>>,
    scannerFailureModes: Option<map<string, FailureMode>>)

  datatype PolicyDocument = PolicyDocument(
    id: string, version: string, level: PolicyLevel, scope: Option<Scope>, effectiveFrom: Option<int>,
    effectiveUntil: Option<int>, enforcement: Option<Enforcement>, lock: seq<PolicyField>)

  datatype Loaded = Loaded(path: string, document: PolicyDocument)

  predicate Admits(wanted: Option<string>, actual: Option<string>) {
    wanted.Some? ==> wanted == actual
  }

  predicate MatchesScope(d: PolicyDocument, context: Context) {
    d.scope.Some? ==>
      && Admits(d.scope.value.tenant, context.tenant)
      && Admits(d.scope.value.project, context.project)
      && Admits(d.scope.value.repository, Some(context.repository))
      && Admits(d.scope.value.service, context.service)
  }

  predicate ActiveAt(d: PolicyDocument, now: int) {
    && (d.effectiveFrom.Some? ==> d.effectiveFrom.value <= now)
    && (d.effectiveUntil.Some? ==> now < d.effectiveUntil.value)
  }

  predicate Applies(d: PolicyDocument, context: Context, now: int) {
    MatchesScope(d, context) && ActiveAt(d, now)
  }

  datatype PolicyError =
    | DuplicateId(level: PolicyLevel, id: string)
    | LockedField(id: string, version: string, field: PolicyField)

  // ---------- loading ----------

  predicate LoadedLeq(pathLeq: (string, string) -> bool, a: Loaded, b: Loaded) {
    || LevelRank(a.document.level) < LevelRank(b.document.level)
    || (a.document.level == b.document.level && pathLeq(a.path, b.path))
  }

  /** By level, then by path. */
  function Order(pathLeq: (string, string) -> bool): (Loaded, Loaded) -> bool {
    (a, b) => LoadedLeq(pathLeq, a, b)
  }

  /** The applicable files among the first n. */
  function Filtered(files: seq<Loaded>, n: nat, context: Context, now: int): seq<Loaded>
    requires n <= |files|
  {
    if n == 0 then []
    else
      Filtered(files, n - 1, context, now)
      + if Applies(files[n - 1].document, context, now) then [files[n - 1]] else []
  }

  function IdOf(l: Loaded): (PolicyLevel, string) { (l.document.level, l.document.id) }

  /** The level and id of file n were used by an earlier file. */
  predicate IsDuplicate(files: seq<Loaded>, n: nat)
    requires n < |files|
  {
    exists i :: 0 <= i < n && IdOf(files[i]) == IdOf(files[n])
  }

  /** The first of the first n files that is a duplicate. */
  function FirstDuplicate(files: seq<Loaded>, n: nat): (r: Option<nat>)
    requires n <= |files|
    ensures r.Some? ==> r.value < n
  {
    if n == 0 then None
    else if FirstDuplicate(files, n - 1).Some? then FirstDuplicate(files, n - 1)
    else if IsDuplicate(files, n - 1) then Some(n - 1)
    else None
  }

  /** The files, in the order of their names, become the applicable documents in level order; a
      repeated id at a level is an error even when its document does not apply. */
  function Load(files: seq<Loaded>, context: Context, now: int,
                pathLeq: (string, string) -> bool): Result<seq<Loaded>, PolicyError> {
    match FirstDuplicate(files, |files|)
    case Some(j) => Err(DuplicateId(files[j].document.level, files[j].document.id))
    case None => Ok(Sort(Order(pathLeq), Filtered(files, |files|, context, now)))
  }

  lemma {:induction false} FirstDuplicateStays(files: seq<Loaded>, i: nat, n: nat)
    requires i <= n <= |files| && FirstDuplicate(files, i).Some?
    ensures FirstDuplicate(files, n) == FirstDuplicate(files, i)
  {
    hide IsDuplicate;
    if i < n {
      FirstDuplicateStays(files, i, n - 1);
    }
  }

  method LoadPolicyDocuments(files: seq<Loaded>, context: Context, now: int, pathLeq: (string, string) -> bool)
    returns (r: Result<seq<Loaded>, PolicyError>)
    ensures r == Load(files, context, now, pathLeq)
  {
    hide Applies, Sort;
    var seen: set<(PolicyLevel, string)> := {};
    var result: seq<Loaded> := [];
    var i := 0;
    while i < |files|
      invariant 0 <= i <= |files|
      invariant FirstDuplicate(files, i).None?
      invariant seen == set k | 0 <= k < i :: IdOf(files[k])
      invariant result == Filtered(files, i, context, now)
    {
      var key := IdOf(files[i]);
      assert key in seen <==> IsDuplicate(files, i);
      if key in seen {
        assert FirstDuplicate(files, i + 1) == Some(i);
        FirstDuplicateStays(files, i + 1, |files|);
        return Err(DuplicateId(files[i].document.level, files[i].document.id));
      }
      seen := seen + {key};
      if Applies(files[i].document, context, now) {
        result := result + [files[i]];
      }
      i := i + 1;
    }
    return Ok(Sort(Order(pathLeq), result));
  }

  lemma OrderIsPreorder(pathLeq: (string, string) -> bool)
    requires TotalPreorder(pathLeq)
    ensures TotalPreorder(Order(pathLeq))
  {
  }

  /** Loaded documents of a higher level come before those of every lower level. */
  lemma HigherLevelsFirst(files: seq<Loaded>, pathLeq: (string, string) -> bool, i: nat, j: nat)
    requires TotalPreorder(pathLeq)
    requires i < |files| && j < |files|
    requires var sorted := Sort(Order(pathLeq), files);
             LevelRank(sorted[i].document.level) < LevelRank(sorted[j].document.level)
    ensures i < j
  {
    hide *;
    var sorted := Sort(Order(pathLeq), files);
    OrderIsPreorder(pathLeq);
    HigherNotBelow(pathLeq, sorted[i], sorted[j]);
    StrictlyBefore(Order(pathLeq), files, i, j);
  }

  lemma HigherNotBelow(pathLeq: (string, string) -> bool, a: Loaded, b: Loaded)
    requires LevelRank(a.document.level) < LevelRank(b.document.level)
    ensures !Order(pathLeq)(b, a)
  {
  }

  // ---------- folding ----------

  datatype Effective = Effective(
    sourceDocuments: seq<Loaded>, failOn: seq<Severity>, warnOn: seq<Severity>, requiredScanners: seq<string>,
    scannerFailureModes: map<string, FailureMode>, lockedFields: seq<PolicyField>)

  /** The policy section of the configuration. */
  datatype Defaults = Defaults(
    failOn: seq<Severity>, warnOn: seq<Severity>, requiredScanners: seq<string>,
    scannerFailureModes: map<string, FailureMode>)

  function Initial(config: Defaults): Effective {
    Effective([], config.failOn, config.warnOn, config.requiredScanners, config.scannerFailureModes, [])
  }

  predicate ChangesLockedField(f: PolicyField, d: PolicyDocument, current: Effective) {
    d.enforcement.Some? &&
    var e := d.enforcement.value;
    match f
    case FailOn => e.failOn.Some? && current.failOn != e.failOn.value
    case WarnOn => e.warnOn.Some? && current.warnOn != e.warnOn.value
    case RequiredScanners => e.requiredScanners.Some? && current.requiredScanners != e.requiredScanners.value
    case ScannerFailureModes =>
      && e.scannerFailureModes.Some?
      && current.scannerFailureModes != current.scannerFailureModes + e.scannerFailureModes.value
  }

  /** The first locked field, in locking order, that the document would change. */
  function FirstChanged(locked: seq<PolicyField>, d: PolicyDocument, current: Effective): Option<PolicyField> {
    if locked == [] then None
    else if ChangesLockedField(locked[0], d, current) then Some(locked[0])
    else FirstChanged(locked[1..], d, current)
  }

  lemma {:induction false} NoneChanged(locked: seq<PolicyField>, d: PolicyDocument, current: Effective)
    ensures FirstChanged(locked, d, current).None? <==> forall f :: f in locked ==> !ChangesLockedField(f, d, current)
  {
    hide ChangesLockedField;
    if locked != [] {
      assert locked == [locked[0]] + locked[1..];
      NoneChanged(locked[1..], d, current);
    }
  }

  function AddLocks(locked: seq<PolicyField>, lock: seq<PolicyField>): seq<PolicyField>
    decreases |lock|
  {
    if lock == [] then locked
    else AddLocks(if lock[0] in locked then locked else locked + [lock[0]], lock[1..])
  }

  lemma {:induction false} AddLocksMembers(locked: seq<PolicyField>, lock: seq<PolicyField>)
    ensures forall f :: f in AddLocks(locked, lock) <==> f in locked || f in lock
    decreases |lock|
  {
    if lock != [] {
      assert lock == [lock[0]] + lock[1..];
      AddLocksMembers(if lock[0] in locked then locked else locked + [lock[0]], lock[1..]);
    }
  }

  /** What a document sets, once its locks were respected. */
  function Apply(current: Effective, loaded: Loaded): Effective {
    var d := loaded.document;
    var e := if d.enforcement.Some? then d.enforcement.value else Enforcement(None, None, None, None);
    Effective(
      current.sourceDocuments + [loaded],
      if e.failOn.Some? then e.failOn.value else current.failOn,
      if e.warnOn.Some? then e.warnOn.value else current.warnOn,
      if e.requiredScanners.Some? then e.requiredScanners.value else current.requiredScanners,
      if e.scannerFailureModes.Some? then current.scannerFailureModes + e.scannerFailureModes.value
        else current.scannerFailureModes,
      AddLocks(current.lockedFields, d.lock))
  }

  /** The fold over the first n documents. */
  function Fold(config: Defaults, docs: seq<Loaded>, n: nat): Result<Effective, PolicyError>
    requires n <= |docs|
  {
    if n == 0 then Ok(Initial(config))
    else
      var current :- Fold(config, docs, n - 1);
      var d := docs[n - 1].document;
      match FirstChanged(current.lockedFields, d, current)
      case Some(f) => Err(LockedField(d.id, d.version, f))
      case None => Ok(Apply(current, docs[n - 1]))
  }

  function AddFloor(required: seq<string>, floor: seq<string>): seq<string>
    decreases |floor|
  {
    if floor == [] then required
    else AddFloor(if floor[0] in required then required else required + [floor[0]], floor[1..])
  }

  lemma {:induction false} AddFloorMembers(required: seq<string>, floor: seq<string>)
    ensures forall s :: s in AddFloor(required, floor) <==> s in required || s in floor
    decreases |floor|
  {
    if floor != [] {
      assert floor == [floor[0]] + floor[1..];
      AddFloorMembers(if floor[0] in required then required else required + [floor[0]], floor[1..]);
    }
  }

  function WithFloor(e: Effective, floor: seq<string>): Effective {
    e.(requiredScanners := Sort(StringLeq, AddFloor(e.requiredScanners, floor)))
  }

  function Resolve(config: Defaults, docs: seq<Loaded>, floor: seq<string>): Result<Effective, PolicyError> {
    var e :- Fold(config, docs, |docs|);
    Ok(WithFloor(e, floor))
  }

  lemma {:induction false} ErrorPersists(config: Defaults, docs: seq<Loaded>, i: nat, n: nat)
    requires i <= n <= |docs|
    ensures Fold(config, docs, i).Err? ==> Fold(config, docs, n) == Fold(config, docs, i)
  {
    hide FirstChanged, Apply;
    if i < n {
      ErrorPersists(config, docs, i, n - 1);
    }
  }

  method ResolvePolicy(config: Defaults, docs: seq<Loaded>, floor: seq<string>)
    returns (r: Result<Effective, PolicyError>)
    ensures r == Resolve(config, docs, floor)
  {
    hide ChangesLockedField, Apply, Sort;
    var effective := Initial(config);
    var i := 0;
    while i < |docs|
      invariant 0 <= i <= |docs|
      invariant Fold(config, docs, i) == Ok(effective)
    {
      var d := docs[i].document;
      ghost var before := effective;
      var k := 0;
      while k < |effective.lockedFields|
        invariant 0 <= k <= |effective.lockedFields|
        invariant FirstChanged(before.lockedFields, d, before) == FirstChanged(effective.lockedFields[k..], d, before)
      {
        var f := effective.lockedFields[k];
        if ChangesLockedField(f, d, effective) {
          ErrorPersists(config, docs, i + 1, |docs|);
          return Err(LockedField(d.id, d.version, f));
        }
        assert effective.lockedFields[k..][1..] == effective.lockedFields[k + 1..];
        k := k + 1;
      }
      effective := ApplyDocument(effective, docs[i]);
      i := i + 1;
    }
    var required := effective.requiredScanners;
    var m := 0;
    while m < |floor|
      invariant 0 <= m <= |floor|
      invariant AddFloor(effective.requiredScanners, floor) == AddFloor(required, floor[m..])
    {
      assert floor[m..][1..] == floor[m + 1..];
      if floor[m] !in required {
        required := required + [floor[m]];
      }
      m := m + 1;
    }
    return Ok(effective.(requiredScanners := Sort(StringLeq, required)));
  }

  method ApplyDocument(current: Effective, loaded: Loaded) returns (effective: Effective)
    ensures effective == Apply(current, loaded)
  {
    var d := loaded.document;
    effective := current;
    if d.enforcement.Some? && d.enforcement.value.failOn.Some? {
      effective := effective.(failOn := d.enforcement.value.failOn.value);
    }
    if d.enforcement.Some? && d.enforcement.value.warnOn.Some? {
      effective := effective.(warnOn := d.enforcement.value.warnOn.value);
    }
    if d.enforcement.Some? && d.enforcement.value.requiredScanners.Some? {
      effective := effective.(requiredScanners := d.enforcement.value.requiredScanners.value);
    }
    if d.enforcement.Some? && d.enforcement.value.scannerFailureModes.Some? {
      effective := effective.(scannerFailureModes :=
                                effective.scannerFailureModes + d.enforcement.value.scannerFailureModes.value);
    }
    var k := 0;
    while k < |d.lock|
      invariant 0 <= k <= |d.lock|
      invariant effective == Apply(current, loaded).(lockedFields := effective.lockedFields,
                                                     sourceDocuments := current.sourceDocuments)
      invariant AddLocks(current.lockedFields, d.lock) == AddLocks(effective.lockedFields, d.lock[k..])
    {
      assert d.lock[k..][1..] == d.lock[k + 1..];
      if d.lock[k] !in effective.lockedFields {
        effective := effective.(lockedFields := effective.lockedFields + [d.lock[k]]);
      }
      k := k + 1;
    }
    effective := effective.(sourceDocuments := effective.sourceDocuments + [loaded]);
  }

  // ---------- lock safety ----------

  /** The fold without its lock checks. */
  function Unchecked(config: Defaults, docs: seq<Loaded>, n: nat): Effective
    requires n <= |docs|
  {
    if n == 0 then Initial(config) else Apply(Unchecked(config, docs, n - 1), docs[n - 1])
  }

  /** Two policies give a field the same value. */
  predicate Agree(f: PolicyField, a: Effective, b: Effective) {
    match f
    case FailOn => a.failOn == b.failOn
    case WarnOn => a.warnOn == b.warnOn
    case RequiredScanners => a.requiredScanners == b.requiredScanners
    case ScannerFailureModes => a.scannerFailureModes == b.scannerFailureModes
  }

  /** Some document before position n locks f. */
  predicate LockedBefore(docs: seq<Loaded>, n: nat, f: PolicyField)
    requires n <= |docs|
  {
    exists i :: 0 <= i < n && f in docs[i].document.lock
  }

  lemma {:induction false} UncheckedLocks(config: Defaults, docs: seq<Loaded>, n: nat, f: PolicyField)
    requires n <= |docs|
    ensures f in Unchecked(config, docs, n).lockedFields <==> LockedBefore(docs, n, f)
  {
    if n > 0 {
      UncheckedLocks(config, docs, n - 1, f);
      AddLocksMembers(Unchecked(config, docs, n - 1).lockedFields, docs[n - 1].document.lock);
    }
  }

  lemma {:induction false} FoldIsUnchecked(config: Defaults, docs: seq<Loaded>, n: nat)
    requires n <= |docs|
    ensures Fold(config, docs, n).Ok? ==> Fold(config, docs, n).value == Unchecked(config, docs, n)
  {
    if n > 0 {
      FoldIsUnchecked(config, docs, n - 1);
    }
  }

  /** Document j keeps every field that an earlier document locks, at the value it had right after
      the locking document. */
  ghost predicate RespectsLocks(config: Defaults, docs: seq<Loaded>, j: nat)
    requires j < |docs|
  {
    forall i, f :: 0 <= i < j && f in docs[i].document.lock ==>
      !ChangesLockedField(f, docs[j].document, Unchecked(config, docs, i + 1))
  }

  ghost predicate LocksRespected(config: Defaults, docs: seq<Loaded>, n: nat)
    requires n <= |docs|
  {
    forall j :: 0 <= j < n ==> RespectsLocks(config, docs, j)
  }

  lemma {:induction false} LockedValueStays(config: Defaults, docs: seq<Loaded>, i: nat, n: nat, f: PolicyField)
    requires i < n <= |docs| && f in docs[i].document.lock && LocksRespected(config, docs, n)
    ensures Agree(f, Unchecked(config, docs, n), Unchecked(config, docs, i + 1))
  {
    if n > i + 1 {
      LockedValueStays(config, docs, i, n - 1, f);
      assert RespectsLocks(config, docs, n - 1);
      assert !ChangesLockedField(f, docs[n - 1].document, Unchecked(config, docs, i + 1));
    }
  }

  lemma ChangeDependsOnValue(f: PolicyField, d: PolicyDocument, a: Effective, b: Effective)
    requires Agree(f, a, b)
    ensures ChangesLockedField(f, d, a) <==> ChangesLockedField(f, d, b)
  {
  }

  /** The lock check of the fold looks at the current value, which is the locked one. */
  lemma CheckIsRespect(config: Defaults, docs: seq<Loaded>, n: nat)
    requires n < |docs| && LocksRespected(config, docs, n)
    ensures var current := Unchecked(config, docs, n);
            FirstChanged(current.lockedFields, docs[n].document, current).None? <==> RespectsLocks(config, docs, n)
  {
    hide ChangesLockedField, Unchecked, Agree, FirstChanged, LocksRespected;
    var current, d := Unchecked(config, docs, n), docs[n].document;
    NoneChanged(current.lockedFields, d, current);
    if RespectsLocks(config, docs, n) {
      forall f | f in current.lockedFields ensures !ChangesLockedField(f, d, current) {
        UncheckedLocks(config, docs, n, f);
        var i :| 0 <= i < n && f in docs[i].document.lock;
        LockedFieldChecked(config, docs, i, n, f);
      }
    }
    if FirstChanged(current.lockedFields, d, current).None? {
      forall i, f | 0 <= i < n && f in docs[i].document.lock
        ensures !ChangesLockedField(f, d, Unchecked(config, docs, i + 1))
      {
        UncheckedLocks(config, docs, n, f);
        LockedFieldChecked(config, docs, i, n, f);
      }
    }
  }

  lemma LockedFieldChecked(config: Defaults, docs: seq<Loaded>, i: nat, n: nat, f: PolicyField)
    requires i < n < |docs| && f in docs[i].document.lock && LocksRespected(config, docs, n)
    ensures ChangesLockedField(f, docs[n].document, Unchecked(config, docs, n))
       <==> ChangesLockedField(f, docs[n].document, Unchecked(config, docs, i + 1))
  {
    LockedValueStays(config, docs, i, n, f);
    ChangeDependsOnValue(f, docs[n].document, Unchecked(config, docs, n), Unchecked(config, docs, i + 1));
    hide *;
  }

  lemma RespectedSplit(config: Defaults, docs: seq<Loaded>, n: nat)
    requires 0 < n <= |docs|
    ensures LocksRespected(config, docs, n)
            <==> LocksRespected(config, docs, n - 1) && RespectsLocks(config, docs, n - 1)
  {
    hide RespectsLocks;
  }

  lemma FoldStep(config: Defaults, docs: seq<Loaded>, n: nat)
    requires 0 < n <= |docs|
    ensures var current := Unchecked(config, docs, n - 1);
            Fold(config, docs, n).Ok? <==>
              Fold(config, docs, n - 1).Ok? && FirstChanged(current.lockedFields, docs[n - 1].document, current).None?
  {
    FoldIsUnchecked(config, docs, n - 1);
    hide FirstChanged, Apply, Unchecked;
  }

  /** Resolution succeeds exactly when no document changes a field that an earlier document locks. */
  lemma {:induction false} FoldsIff(config: Defaults, docs: seq<Loaded>, n: nat)
    requires n <= |docs|
    ensures Fold(config, docs, n).Ok? <==> LocksRespected(config, docs, n)
  {
    NothingFolded(config, docs);
    hide *;
    if n > 0 {
      FoldsIff(config, docs, n - 1);
      RespectedSplit(config, docs, n);
      FoldStep(config, docs, n);
      if LocksRespected(config, docs, n - 1) {
        CheckIsRespect(config, docs, n - 1);
      }
    }
  }

  lemma NothingFolded(config: Defaults, docs: seq<Loaded>)
    ensures Fold(config, docs, 0).Ok? && LocksRespected(config, docs, 0)
  {
  }

  lemma ResolvesIff(config: Defaults, docs: seq<Loaded>, floor: seq<string>)
    ensures Resolve(config, docs, floor).Ok? <==> LocksRespected(config, docs, |docs|)
  {
    FoldsIff(config, docs, |docs|);
  }

  /** The floor is always required. */
  lemma FloorIsRequired(config: Defaults, docs: seq<Loaded>, floor: seq<string>, s: string)
    requires Resolve(config, docs, floor).Ok? && s in floor
    ensures s in Resolve(config, docs, floor).value.requiredScanners
  {
    var required := Fold(config, docs, |docs|).value.requiredScanners;
    SortMembers(StringLeq, AddFloor(required, floor));
    AddFloorMembers(required, floor);
  }
}
