/** What a resolved policy says, read off the configuration and the documents alone. */
module PolicyEffect {
  import opened Wrappers
  import opened Text
  import opened Sorting
  import opened CoreTypes
  import opened PolicyResolve

  // ---------- what documents give ----------

  function FailOnIn(d: PolicyDocument): Option<seq<Severity>> {
    if d.enforcement.None? then None else d.enforcement.value.failOn
  }

  function WarnOnIn(d: PolicyDocument): Option<seq<Severity>> {
    if d.enforcement.None? then None else d.enforcement.value.warnOn
  }

  function RequiredIn(d: PolicyDocument): Option<seq<string>> {
    if d.enforcement.None? then None else d.enforcement.value.requiredScanners
  }

  function ModeFor(modes: map<string, FailureMode>, scanner: string): Option<FailureMode> {
    if scanner in modes then Some(modes[scanner]) else None
  }

  /** The mode a document lists for the scanner. */
  function ModeIn(scanner: string): PolicyDocument -> Option<FailureMode> {
    (d: PolicyDocument) =>
      if d.enforcement.None? || d.enforcement.value.scannerFailureModes.None? then None
      else ModeFor(d.enforcement.value.scannerFailureModes.value, scanner)
  }

  /** The value of the last document that gives one; nothing when none does. */
  function LastGiven<T>(docs: seq<Loaded>, pick: PolicyDocument -> Option<T>): Option<T> {
    if docs == [] then None
    else if pick(docs[|docs| - 1].document).Some? then pick(docs[|docs| - 1].document)
    else LastGiven(docs[..|docs| - 1], pick)
  }

  lemma {:induction false} LastGivenIs<T(!new)>(docs: seq<Loaded>, pick: PolicyDocument -> Option<T>)
    ensures var r := LastGiven(docs, pick);
            if r.None? then forall i :: 0 <= i < |docs| ==> pick(docs[i].document).None?
            else exists i :: 0 <= i < |docs| && pick(docs[i].document) == r
                             && forall j :: i < j < |docs| ==> pick(docs[j].document).None?
  {
    if docs != [] {
      LastGivenIs(docs[..|docs| - 1], pick);
    }
  }

  function Or<T>(given: Option<T>, default: T): T {
    if given.Some? then given.value else default
  }

  function FailOnAfter(config: Defaults, docs: seq<Loaded>): seq<Severity> {
    Or(LastGiven(docs, FailOnIn), config.failOn)
  }

  function WarnOnAfter(config: Defaults, docs: seq<Loaded>): seq<Severity> {
    Or(LastGiven(docs, WarnOnIn), config.warnOn)
  }

  function RequiredAfter(config: Defaults, docs: seq<Loaded>): seq<string> {
    Or(LastGiven(docs, RequiredIn), config.requiredScanners)
  }

  function ModeAfter(config: Defaults, docs: seq<Loaded>, scanner: string): Option<FailureMode> {
    var given := LastGiven(docs, ModeIn(scanner));
    if given.Some? then given else ModeFor(config.scannerFailureModes, scanner)
  }

  /** All locks in the order of the documents. */
  function Locks(docs: seq<Loaded>): seq<PolicyField> {
    if docs == [] then [] else Locks(docs[..|docs| - 1]) + docs[|docs| - 1].document.lock
  }

  // ---------- the fold gives what the documents give ----------

  ghost predicate Says(e: Effective, config: Defaults, docs: seq<Loaded>) {
    && e.sourceDocuments == docs
    && e.failOn == FailOnAfter(config, docs)
    && e.warnOn == WarnOnAfter(config, docs)
    && e.requiredScanners == RequiredAfter(config, docs)
    && (forall scanner :: ModeFor(e.scannerFailureModes, scanner) == ModeAfter(config, docs, scanner))
    && e.lockedFields == Unique(Locks(docs))
  }

  lemma {:induction false} AddLocksIs(locked: seq<PolicyField>, lock: seq<PolicyField>)
    ensures AddLocks(Unique(locked), lock) == Unique(locked + lock)
    decreases |lock|
  {
    hide Unique;
    if lock == [] {
      assert locked + lock == locked;
    } else {
      UniqueSnoc(locked, lock[0]);
      assert (locked + [lock[0]]) + lock[1..] == locked + lock;
      AddLocksIs(locked + [lock[0]], lock[1..]);
      assert Unique(locked) + [] == Unique(locked);
    }
  }

  lemma UniqueSnoc<T(!new)>(s: seq<T>, x: T)
    ensures Unique(s + [x]) == Unique(s) + if x in Unique(s) then [] else [x]
  {
    assert (s + [x])[..|s|] == s;
  }

  lemma ApplySays(current: Effective, config: Defaults, front: seq<Loaded>, loaded: Loaded)
    requires Says(current, config, front)
    ensures Says(Apply(current, loaded), config, front + [loaded])
  {
    hide Unique, AddLocks, LastGiven, Locks;
    var docs := front + [loaded];
    GivenLast(front, loaded, FailOnIn);
    GivenLast(front, loaded, WarnOnIn);
    GivenLast(front, loaded, RequiredIn);
    LocksLast(front, loaded);
    AddLocksIs(Locks(front), loaded.document.lock);
    forall scanner
      ensures ModeFor(Apply(current, loaded).scannerFailureModes, scanner) == ModeAfter(config, docs, scanner)
    {
      assert ModeFor(current.scannerFailureModes, scanner) == ModeAfter(config, front, scanner);
      hide Says, FailOnIn, WarnOnIn, RequiredIn;
      GivenLast(front, loaded, ModeIn(scanner));
    }
  }

  lemma GivenLast<T>(front: seq<Loaded>, loaded: Loaded, pick: PolicyDocument -> Option<T>)
    ensures LastGiven(front + [loaded], pick)
            == if pick(loaded.document).Some? then pick(loaded.document) else LastGiven(front, pick)
  {
    assert (front + [loaded])[..|front|] == front;
  }

  lemma LocksLast(front: seq<Loaded>, loaded: Loaded)
    ensures Locks(front + [loaded]) == Locks(front) + loaded.document.lock
  {
    assert (front + [loaded])[..|front|] == front;
  }

  lemma {:induction false} UncheckedSays(config: Defaults, docs: seq<Loaded>, n: nat)
    requires n <= |docs|
    ensures Says(Unchecked(config, docs, n), config, docs[..n])
  {
    if n > 0 {
      UncheckedSays(config, docs, n - 1);
      ApplySays(Unchecked(config, docs, n - 1), config, docs[..n - 1], docs[n - 1]);
      assert docs[..n] == docs[..n - 1] + [docs[n - 1]];
      hide Says, Apply;
    } else {
      assert docs[..0] == [];
    }
  }

  /** Sorted, the base with its repetitions, and the missing members of the floor once. */
  ghost predicate IsWithFloor(required: seq<string>, base: seq<string>, floor: seq<string>) {
    && Sorted(StringLeq, required)
    && forall s :: multiset(required)[s]
                   == if s in base then multiset(base)[s] else if s in floor then 1 else 0
  }

  lemma {:induction false} AddFloorCounts(required: seq<string>, floor: seq<string>, s: string)
    ensures multiset(AddFloor(required, floor))[s]
            == if s in required then multiset(required)[s] else if s in floor then 1 else 0
    decreases |floor|
  {
    if floor != [] {
      assert floor == [floor[0]] + floor[1..];
      AddFloorCounts(if floor[0] in required then required else required + [floor[0]], floor[1..], s);
      assert s !in required ==> multiset(required)[s] == 0;
    }
  }

  lemma WithFloorIs(e: Effective, floor: seq<string>)
    ensures IsWithFloor(WithFloor(e, floor).requiredScanners, e.requiredScanners, floor)
  {
    StringIsTotalOrder([]);
    SortSorted(StringLeq, AddFloor(e.requiredScanners, floor));
    hide StringLeq, Sort, AddFloor;
    forall s { AddFloorCounts(e.requiredScanners, floor, s); }
  }

  /** A resolved policy has what the last document that gives a field says, or else the configuration; the mode
      of each scanner is that of the last document that lists it; fields are locked in the order of their first
      lock; and the floor is added to the required scanners. */
  lemma ResolvedSays(config: Defaults, docs: seq<Loaded>, floor: seq<string>)
    requires Resolve(config, docs, floor).Ok?
    ensures var e := Resolve(config, docs, floor).value;
            && e.sourceDocuments == docs
            && e.failOn == FailOnAfter(config, docs)
            && e.warnOn == WarnOnAfter(config, docs)
            && IsWithFloor(e.requiredScanners, RequiredAfter(config, docs), floor)
            && (forall scanner :: ModeFor(e.scannerFailureModes, scanner) == ModeAfter(config, docs, scanner))
            && e.lockedFields == Unique(Locks(docs))
  {
    var n := |docs|;
    FoldIsUnchecked(config, docs, n);
    UncheckedSays(config, docs, n);
    assert docs[..n] == docs;
    hide Fold, Unchecked;
    WithFloorIs(Unchecked(config, docs, n), floor);
    hide IsWithFloor, AddFloor, Sort;
  }

  /** The opposite of the default: one document's failOn, warnOn and modes take effect. */
  lemma OneDocumentDecides(config: Defaults, d: Loaded, floor: seq<string>)
    requires d.document.enforcement.Some? && d.document.enforcement.value.failOn.Some?
    ensures Resolve(config, [d], floor).Ok?
    ensures Resolve(config, [d], floor).value.failOn == d.document.enforcement.value.failOn.value
  {
    ResolvesIff(config, [d], floor);
    assert [d][0] == d;
    hide LastGiven;
    if Resolve(config, [d], floor).Ok? {
      ResolvedSays(config, [d], floor);
      LastGivenIs([d], FailOnIn);
    }
    hide Resolve;
    assert LocksRespected(config, [d], 1);
  }

  // ---------- locks ----------

  /** Both lists of documents give the field the same value. */
  ghost predicate SameValue(f: PolicyField, config: Defaults, a: seq<Loaded>, b: seq<Loaded>) {
    match f
    case FailOn => FailOnAfter(config, a) == FailOnAfter(config, b)
    case WarnOn => WarnOnAfter(config, a) == WarnOnAfter(config, b)
    case RequiredScanners => RequiredAfter(config, a) == RequiredAfter(config, b)
    case ScannerFailureModes => forall scanner :: ModeAfter(config, a, scanner) == ModeAfter(config, b, scanner)
  }

  /** The field has the same value right after document i as right after document j. */
  ghost predicate KeepsValue(f: PolicyField, config: Defaults, docs: seq<Loaded>, i: nat, j: nat)
    requires i < |docs| && j < |docs|
  {
    SameValue(f, config, docs[..i + 1], docs[..j + 1])
  }

  lemma SameModes(a: map<string, FailureMode>, b: map<string, FailureMode>)
    ensures a == b <==> forall scanner :: ModeFor(a, scanner) == ModeFor(b, scanner)
  {
    if forall scanner :: ModeFor(a, scanner) == ModeFor(b, scanner) {
      forall scanner ensures scanner in a <==> scanner in b {
        assert ModeFor(a, scanner) == ModeFor(b, scanner);
      }
      forall scanner | scanner in a ensures a[scanner] == b[scanner] {
        assert ModeFor(a, scanner) == ModeFor(b, scanner);
      }
    }
  }

  lemma AgreeIff(f: PolicyField, config: Defaults, docs: seq<Loaded>, i: nat, j: nat)
    requires i < |docs| && j < |docs|
    ensures Agree(f, Unchecked(config, docs, i + 1), Unchecked(config, docs, j + 1))
            <==> KeepsValue(f, config, docs, i, j)
  {
    UncheckedSays(config, docs, i + 1);
    UncheckedSays(config, docs, j + 1);
    var a, b := Unchecked(config, docs, i + 1), Unchecked(config, docs, j + 1);
    SameModes(a.scannerFailureModes, b.scannerFailureModes);
    hide Unchecked, ModeFor, ModeAfter, FailOnAfter, WarnOnAfter, RequiredAfter;
  }

  /** Nothing before document n unlocks a field, and no document after a lock changes the field's value. */
  ghost predicate LocksHold(config: Defaults, docs: seq<Loaded>, n: nat)
    requires n <= |docs|
  {
    forall i, j, f :: 0 <= i < j < n && f in docs[i].document.lock ==> KeepsValue(f, config, docs, i, j)
  }

  lemma AppliesUnchanged(f: PolicyField, current: Effective, d: Loaded)
    ensures Agree(f, Apply(current, d), current) <==> !ChangesLockedField(f, d.document, current)
  {
    hide AddLocks;
  }

  lemma LocksHoldIff(config: Defaults, docs: seq<Loaded>, n: nat)
    requires n <= |docs|
    ensures LocksHold(config, docs, n) <==> LocksRespected(config, docs, n)
  {
    hide KeepsValue, Agree, ChangesLockedField, Unchecked;
    if LocksRespected(config, docs, n) {
      forall i, j, f | 0 <= i < j < n && f in docs[i].document.lock ensures KeepsValue(f, config, docs, i, j) {
        LockedValueStays(config, docs, i, j + 1, f);
        AgreeIff(f, config, docs, j, i);
        KeepsBothWays(f, config, docs, i, j);
      }
    }
    if LocksHold(config, docs, n) {
      forall j | 0 <= j < n ensures RespectsLocks(config, docs, j) {
        forall i, f | 0 <= i < j && f in docs[i].document.lock
          ensures !ChangesLockedField(f, docs[j].document, Unchecked(config, docs, i + 1))
        {
          KeptIsUnchanged(config, docs, n, i, j, f);
        }
      }
    }
  }

  lemma KeepsBothWays(f: PolicyField, config: Defaults, docs: seq<Loaded>, i: nat, j: nat)
    requires i < |docs| && j < |docs|
    ensures KeepsValue(f, config, docs, i, j) <==> KeepsValue(f, config, docs, j, i)
  {
    hide FailOnAfter, WarnOnAfter, RequiredAfter, ModeAfter;
  }

  lemma KeptIsUnchanged(config: Defaults, docs: seq<Loaded>, n: nat, i: nat, j: nat, f: PolicyField)
    requires n <= |docs| && LocksHold(config, docs, n) && i < j < n && f in docs[i].document.lock
    ensures !ChangesLockedField(f, docs[j].document, Unchecked(config, docs, i + 1))
  {
    var before, after, locked := Unchecked(config, docs, j), Unchecked(config, docs, j + 1),
                                 Unchecked(config, docs, i + 1);
    assert after == Apply(before, docs[j]);
    hide *;
    KeptAgrees(config, docs, n, i, j, f);
    if j > i + 1 {
      KeptAgrees(config, docs, n, i, j - 1, f);
    } else {
      AgreesItself(f, locked);
    }
    AgreesThrough(f, locked, after, before);
    AppliesUnchanged(f, before, docs[j]);
    ChangeDependsOnValue(f, docs[j].document, before, locked);
  }

  lemma KeptAgrees(config: Defaults, docs: seq<Loaded>, n: nat, i: nat, j: nat, f: PolicyField)
    requires n <= |docs| && LocksHold(config, docs, n) && i < j < n && f in docs[i].document.lock
    ensures Agree(f, Unchecked(config, docs, i + 1), Unchecked(config, docs, j + 1))
  {
    hide Unchecked, KeepsValue, Agree;
    assert KeepsValue(f, config, docs, i, j);
    AgreeIff(f, config, docs, i, j);
  }

  lemma AgreesItself(f: PolicyField, a: Effective)
    ensures Agree(f, a, a)
  {
  }

  lemma AgreesThrough(f: PolicyField, a: Effective, b: Effective, c: Effective)
    requires Agree(f, a, b) && Agree(f, a, c)
    ensures Agree(f, b, c) && Agree(f, c, a)
  {
  }

  /** Resolution succeeds exactly when every field keeps, after each later document, the value it has right after
      a document that locks it. */
  lemma ResolvesIffLocksHold(config: Defaults, docs: seq<Loaded>, floor: seq<string>)
    ensures Resolve(config, docs, floor).Ok? <==> LocksHold(config, docs, |docs|)
  {
    ResolvesIff(config, docs, floor);
    LocksHoldIff(config, docs, |docs|);
    hide *;
  }

  /** When it fails, the error names the first document that changes a locked field, and such a field. */
  lemma {:induction false} RefusalNamesChange(config: Defaults, docs: seq<Loaded>, n: nat)
    requires n <= |docs| && Fold(config, docs, n).Err?
    ensures exists i, j, f ::
              && 0 <= i < j < n && f in docs[i].document.lock && !KeepsValue(f, config, docs, i, j)
              && Fold(config, docs, j).Ok?
              && Fold(config, docs, n).error == LockedField(docs[j].document.id, docs[j].document.version, f)
  {
    hide KeepsValue, FirstChanged, Apply;
    if Fold(config, docs, n - 1).Err? {
      RefusalNamesChange(config, docs, n - 1);
    } else {
      var j := n - 1;
      FoldIsUnchecked(config, docs, j);
      var current := Unchecked(config, docs, j);
      var f := FirstChanged(current.lockedFields, docs[j].document, current).value;
      FirstChangedIs(current.lockedFields, docs[j].document, current);
      UncheckedLocks(config, docs, j, f);
      var i :| 0 <= i < j && f in docs[i].document.lock;
      ChangedIsNotKept(config, docs, i, j, f);
    }
  }

  lemma {:induction false} FirstChangedIs(locked: seq<PolicyField>, d: PolicyDocument, current: Effective)
    ensures var r := FirstChanged(locked, d, current);
            r.Some? ==> exists k :: 0 <= k < |locked| && locked[k] == r.value
                                    && ChangesLockedField(locked[k], d, current)
                                    && forall m :: 0 <= m < k ==> !ChangesLockedField(locked[m], d, current)
  {
    hide ChangesLockedField;
    if locked != [] && !ChangesLockedField(locked[0], d, current) {
      FirstChangedIs(locked[1..], d, current);
      assert locked == [locked[0]] + locked[1..];
      var r := FirstChanged(locked[1..], d, current);
      if r.Some? {
        var k :| 0 <= k < |locked[1..]| && locked[1..][k] == r.value && ChangesLockedField(locked[1..][k], d, current)
                 && forall m :: 0 <= m < k ==> !ChangesLockedField(locked[1..][m], d, current);
        assert locked[k + 1] == r.value;
        forall m | 0 <= m < k + 1 ensures !ChangesLockedField(locked[m], d, current) {
          assert m > 0 ==> locked[m] == locked[1..][m - 1];
        }
      }
    }
  }

  lemma ChangedIsNotKept(config: Defaults, docs: seq<Loaded>, i: nat, j: nat, f: PolicyField)
    requires i < j < |docs| && f in docs[i].document.lock && Fold(config, docs, j).Ok?
    requires ChangesLockedField(f, docs[j].document, Unchecked(config, docs, j))
    ensures !KeepsValue(f, config, docs, i, j)
  {
    FoldsIff(config, docs, j);
    LockedValueStays(config, docs, i, j, f);
    var before, after, locked := Unchecked(config, docs, j), Unchecked(config, docs, j + 1),
                                 Unchecked(config, docs, i + 1);
    assert after == Apply(before, docs[j]);
    hide Unchecked, KeepsValue, Apply, ChangesLockedField, Fold, LocksRespected, Agree;
    AgreeIff(f, config, docs, i, j);
    AppliesUnchanged(f, before, docs[j]);
    if Agree(f, locked, after) {
      AgreesAlong(f, before, locked, after);
    }
  }

  lemma AgreesAlong(f: PolicyField, a: Effective, b: Effective, c: Effective)
    requires Agree(f, a, b) && Agree(f, b, c)
    ensures Agree(f, c, a)
  {
  }

  /** When resolution succeeds, a field that document i locks has in the final policy the value that the
      configuration and the documents up to i give it. */
  lemma LockSafety(config: Defaults, docs: seq<Loaded>, floor: seq<string>, i: nat, f: PolicyField)
    requires Resolve(config, docs, floor).Ok? && i < |docs| && f in docs[i].document.lock
    ensures var final, upTo := Resolve(config, docs, floor).value, docs[..i + 1];
            && f in final.lockedFields
            && match f
               case FailOn => final.failOn == FailOnAfter(config, upTo)
               case WarnOn => final.warnOn == WarnOnAfter(config, upTo)
               case RequiredScanners => IsWithFloor(final.requiredScanners, RequiredAfter(config, upTo), floor)
               case ScannerFailureModes =>
                 forall scanner :: ModeFor(final.scannerFailureModes, scanner) == ModeAfter(config, upTo, scanner)
  {
    hide *;
    ResolvesIffLocksHold(config, docs, floor);
    ResolvedSays(config, docs, floor);
    LocksMembers(docs, i, f);
    LockedToTheEnd(config, docs, i, f);
    SameValueIs(f, config, docs[..i + 1], docs);
  }

  lemma LockedToTheEnd(config: Defaults, docs: seq<Loaded>, i: nat, f: PolicyField)
    requires LocksHold(config, docs, |docs|) && i < |docs| && f in docs[i].document.lock
    ensures SameValue(f, config, docs[..i + 1], docs)
  {
    assert docs[..|docs|] == docs;
    if i + 1 < |docs| {
      hide SameValue;
      assert KeepsValue(f, config, docs, i, |docs| - 1);
    }
  }

  lemma SameValueIs(f: PolicyField, config: Defaults, a: seq<Loaded>, b: seq<Loaded>)
    requires SameValue(f, config, a, b)
    ensures match f
            case FailOn => FailOnAfter(config, a) == FailOnAfter(config, b)
            case WarnOn => WarnOnAfter(config, a) == WarnOnAfter(config, b)
            case RequiredScanners => RequiredAfter(config, a) == RequiredAfter(config, b)
            case ScannerFailureModes => forall scanner :: ModeAfter(config, a, scanner) == ModeAfter(config, b, scanner)
  {
    hide FailOnAfter, WarnOnAfter, RequiredAfter, ModeAfter;
  }

  lemma {:induction false} LocksMembers(docs: seq<Loaded>, i: nat, f: PolicyField)
    requires i < |docs| && f in docs[i].document.lock
    ensures f in Locks(docs)
  {
    if i < |docs| - 1 {
      LocksMembers(docs[..|docs| - 1], i, f);
    }
  }

  // ---------- levels and loading ----------

  /** LEVELS of the source, highest first. */
  const LEVELS := [Organization, Tenant, Project, Repository, Service]

  /** a stands before b in LEVELS. */
  ghost predicate IsHigher(a: PolicyLevel, b: PolicyLevel) {
    exists i, j :: 0 <= i < j < |LEVELS| && LEVELS[i] == a && LEVELS[j] == b
  }

  lemma RankIsIndex(a: PolicyLevel, b: PolicyLevel)
    ensures IsHigher(a, b) <==> LevelRank(a) < LevelRank(b)
  {
    assert LEVELS[0] == Organization && LEVELS[1] == Tenant && LEVELS[2] == Project && LEVELS[3] == Repository
           && LEVELS[4] == Service;
    if LevelRank(a) < LevelRank(b) {
      assert LEVELS[LevelRank(a)] == a && LEVELS[LevelRank(b)] == b;
    }
  }

  /** With the loader's order a lock binds every lower level: a loaded document of a lower level than a locking
      one leaves the field as it is right after the lock, or resolution throws. */
  lemma LowerLevelsBound(config: Defaults, files: seq<Loaded>, floor: seq<string>, context: Context, now: int,
                         pathLeq: (string, string) -> bool, i: nat, j: nat, f: PolicyField)
    requires TotalPreorder(pathLeq) && Load(files, context, now, pathLeq).Ok?
    requires var docs := Load(files, context, now, pathLeq).value;
             && i < |docs| && j < |docs| && IsHigher(docs[i].document.level, docs[j].document.level)
             && f in docs[i].document.lock
    ensures var docs := Load(files, context, now, pathLeq).value;
            i < j && (Resolve(config, docs, floor).Ok? ==> KeepsValue(f, config, docs, i, j))
  {
    var docs := Load(files, context, now, pathLeq).value;
    var kept := Filtered(files, |files|, context, now);
    assert docs == Sort(Order(pathLeq), kept);
    RankIsIndex(docs[i].document.level, docs[j].document.level);
    HigherLevelsFirst(kept, pathLeq, i, j);
    ResolvesIffLocksHold(config, docs, floor);
    hide Sort, Resolve, KeepsValue, Load, Filtered, IsHigher;
  }

  /** The document is in force at the time and meant for the context. */
  ghost predicate InForce(d: PolicyDocument, context: Context, now: int) {
    && (d.effectiveFrom == None || exists from :: d.effectiveFrom == Some(from) && from <= now)
    && (d.effectiveUntil == None || exists until :: d.effectiveUntil == Some(until) && now < until)
    && (d.scope == None || exists tenant, project, repository, service ::
          && d.scope == Some(Scope(tenant, project, repository, service))
          && tenant in {None, context.tenant} && project in {None, context.project}
          && repository in {None, Some(context.repository)} && service in {None, context.service})
  }

  lemma AppliesIff(d: PolicyDocument, context: Context, now: int)
    ensures Applies(d, context, now) <==> InForce(d, context, now)
  {
    if d.scope.Some? {
      var s := d.scope.value;
      assert d.scope == Some(Scope(s.tenant, s.project, s.repository, s.service));
    }
  }

  lemma {:induction false} FilteredIs(files: seq<Loaded>, n: nat, context: Context, now: int)
    requires n <= |files|
    ensures forall x :: multiset(Filtered(files, n, context, now))[x]
                        == if Applies(x.document, context, now) then multiset(files[..n])[x] else 0
  {
    hide Applies;
    if n == 0 {
      assert files[..0] == [];
    } else {
      FilteredIs(files, n - 1, context, now);
      assert files[..n] == files[..n - 1] + [files[n - 1]];
    }
  }

  lemma {:induction false} DuplicateIff(files: seq<Loaded>, n: nat)
    requires n <= |files|
    ensures FirstDuplicate(files, n).None? <==> forall i, j :: 0 <= i < j < n ==> IdOf(files[i]) != IdOf(files[j])
    ensures FirstDuplicate(files, n).Some? ==>
              var k := FirstDuplicate(files, n).value;
              && k < n && (exists i :: 0 <= i < k && IdOf(files[i]) == IdOf(files[k]))
              && forall i, j :: 0 <= i < j < k ==> IdOf(files[i]) != IdOf(files[j])
  {
    hide IdOf;
    if n > 0 {
      DuplicateIff(files, n - 1);
    }
  }

  lemma ByLevelThenPath(docs: seq<Loaded>, pathLeq: (string, string) -> bool)
    requires Sorted(Order(pathLeq), docs)
    ensures forall i, j :: 0 <= i < j < |docs| ==>
              || IsHigher(docs[i].document.level, docs[j].document.level)
              || (docs[i].document.level == docs[j].document.level && pathLeq(docs[i].path, docs[j].path))
  {
    forall a: PolicyLevel, b: PolicyLevel { RankIsIndex(a, b); }
    hide IsHigher, LevelRank;
  }

  /** Loading gives the documents in force, each as often as it was found, ordered by level and then by path; it
      fails exactly when two files share level and id, and names the first that repeats one. */
  lemma LoadsInForce(files: seq<Loaded>, context: Context, now: int, pathLeq: (string, string) -> bool)
    requires TotalPreorder(pathLeq)
    ensures var r := Load(files, context, now, pathLeq);
            && (r.Ok? <==> forall i, j :: 0 <= i < j < |files| ==>
                             files[i].document.level != files[j].document.level
                             || files[i].document.id != files[j].document.id)
            && (r.Ok? ==>
                  && (forall x :: multiset(r.value)[x]
                                  == if InForce(x.document, context, now) then multiset(files)[x] else 0)
                  && (forall i, j :: 0 <= i < j < |r.value| ==>
                        || IsHigher(r.value[i].document.level, r.value[j].document.level)
                        || (r.value[i].document.level == r.value[j].document.level
                            && pathLeq(r.value[i].path, r.value[j].path))))
            && (r.Err? ==> exists i, j ::
                  && 0 <= i < j < |files|
                  && r.error == DuplicateId(files[i].document.level, files[i].document.id)
                  && r.error == DuplicateId(files[j].document.level, files[j].document.id))
  {
    DuplicateIff(files, |files|);
    FilteredIs(files, |files|, context, now);
    assert files[..|files|] == files;
    var kept := Filtered(files, |files|, context, now);
    OrderIsPreorder(pathLeq);
    SortSorted(Order(pathLeq), kept);
    ByLevelThenPath(Sort(Order(pathLeq), kept), pathLeq);
    forall x: Loaded { AppliesIff(x.document, context, now); }
    hide Sort, Sorted, Order, Filtered, Applies, InForce, IsHigher, FirstDuplicate;
    if FirstDuplicate(files, |files|).Some? {
      var k := FirstDuplicate(files, |files|).value;
      var i :| 0 <= i < k && IdOf(files[i]) == IdOf(files[k]);
      assert DuplicateId(files[i].document.level, files[i].document.id)
             == DuplicateId(files[k].document.level, files[k].document.id);
    }
  }
}
