/** The dependency diff of src/dependencies/diff.ts: what it lists, that it is a patch, when it is
    empty, and when reversing the snapshots mirrors it. */
module DependencyDiff {
  import opened Wrappers
  import opened Text
  import opened Sorting
  import opened Components
  import Versions

  datatype Kind = Added | Removed | Upgraded | Downgraded | Changed

  datatype Change = Change(
    kind: Kind, ecosystem: Inventory.Ecosystem, name: string, before: Option<Component>, after: Option<Component>)

  // ---------- grouping ----------

  function Filter<T>(s: seq<T>, p: T -> bool): seq<T> {
    if s == [] then []
    else Filter(s[..|s| - 1], p) + if p(s[|s| - 1]) then [s[|s| - 1]] else []
  }

  lemma {:induction false} FilterMembers<T(!new)>(s: seq<T>, p: T -> bool)
    ensures forall x :: x in Filter(s, p) <==> x in s && p(x)
    ensures |Filter(s, p)| <= |s|
  {
    if s != [] {
      FilterMembers(s[..|s| - 1], p);
      assert s == s[..|s| - 1] + [s[|s| - 1]];
    }
  }

  lemma FilterSingle<T(!new)>(x: T, p: T -> bool)
    ensures Filter([x], p) == if p(x) then [x] else []
  {
    assert [x][..0] == [];
  }

  lemma {:induction false} FilterDistinct<T(!new)>(s: seq<T>, p: T -> bool)
    requires Distinct(s)
    ensures Distinct(Filter(s, p))
  {
    if s != [] {
      var front, last := s[..|s| - 1], s[|s| - 1];
      FilterDistinct(front, p);
      FilterMembers(front, p);
      assert last !in front;
    }
  }

  function OfKey(k: Key): Component -> bool {
    c => KeyOf(c) == k
  }

  function Items(components: seq<Component>, k: Key): seq<Component> {
    Filter(components, OfKey(k))
  }

  function KeysOf(components: seq<Component>): (r: seq<Key>)
    ensures |r| == |components|
    ensures forall i :: 0 <= i < |r| ==> r[i] == KeyOf(components[i])
  {
    seq(|components|, i requires 0 <= i < |components| => KeyOf(components[i]))
  }

  function EcosystemName(e: Inventory.Ecosystem): string {
    match e
    case Npm => "npm" case Pypi => "pypi" case Maven => "maven" case Nuget => "nuget" case Cargo => "cargo"
    case Go => "go" case Conan => "conan" case Vcpkg => "vcpkg" case Apk => "apk" case Deb => "deb" case Rpm => "rpm"
  }

  predicate KeyLeq(a: Key, b: Key) {
    StringLeq(EcosystemName(a.0) + ":" + a.1, EcosystemName(b.0) + ":" + b.1)
  }

  function Lookup(groups: map<Key, seq<Component>>, k: Key): seq<Component> {
    if k in groups then groups[k] else []
  }

  /** The groups of a snapshot, and the order in which their keys were first seen. */
  ghost predicate Grouped(groups: map<Key, seq<Component>>, order: seq<Key>, components: seq<Component>) {
    && order == Unique(KeysOf(components))
    && (forall k :: k in groups <==> k in order)
    && (forall k :: Lookup(groups, k) == Items(components, k))
  }

  lemma UniqueStep(front: seq<Component>, c: Component)
    ensures Unique(KeysOf(front + [c]))
            == Unique(KeysOf(front)) + if KeyOf(c) in Unique(KeysOf(front)) then [] else [KeyOf(c)]
  {
    assert KeysOf(front + [c])[..|front|] == KeysOf(front);
  }

  lemma ItemsStep(front: seq<Component>, c: Component, k: Key)
    ensures Items(front + [c], k) == Items(front, k) + if KeyOf(c) == k then [c] else []
  {
    assert (front + [c])[..|front|] == front;
  }

  lemma GroupedStep(groups: map<Key, seq<Component>>, order: seq<Key>, front: seq<Component>, c: Component)
    requires Grouped(groups, order, front)
    ensures var k := KeyOf(c);
            Grouped(groups[k := Lookup(groups, k) + [c]], order + if k in groups then [] else [k], front + [c])
  {
    hide Unique, Items, KeyOf;
    UniqueStep(front, c);
    forall k ensures Items(front + [c], k) == Items(front, k) + if KeyOf(c) == k then [c] else [] {
      ItemsStep(front, c, k);
    }
    assert forall k :: Items(front + [c], k) == Lookup(groups[KeyOf(c) := Lookup(groups, KeyOf(c)) + [c]], k);
  }

  lemma NothingGrouped()
    ensures Grouped(map[], [], [])
  {
  }

  method Group(components: seq<Component>) returns (groups: map<Key, seq<Component>>, order: seq<Key>)
    ensures Grouped(groups, order, components)
  {
    hide *;
    groups, order := map[], [];
    NothingGrouped();
    for i := 0 to |components|
      invariant Grouped(groups, order, components[..i])
    {
      var c := components[i];
      var k := KeyOf(c);
      GroupedStep(groups, order, components[..i], c);
      assert components[..i + 1] == components[..i] + [c];
      order := order + if k in groups then [] else [k];
      groups := groups[k := Lookup(groups, k) + [c]];
    }
    assert components[..|components|] == components;
  }

  // ---------- the changes of one group ----------

  predicate HasVersion(components: seq<Component>, version: string) {
    exists c :: c in components && c.version == version
  }

  function Lacks(others: seq<Component>): Component -> bool {
    (c: Component) => !HasVersion(others, c.version)
  }

  function Knows(others: seq<Component>): string -> bool {
    v => HasVersion(others, v)
  }

  function VersionsOf(components: seq<Component>): (r: seq<string>)
    ensures |r| == |components|
    ensures forall i :: 0 <= i < |r| ==> r[i] == components[i].version
  {
    seq(|components|, i requires 0 <= i < |components| => components[i].version)
  }

  /** The entry of a Map from version to component: the last component set for it. */
  function Entry(components: seq<Component>, version: string): (c: Component)
    requires HasVersion(components, version)
    ensures c in components && c.version == version
  {
    var front, last := components[..|components| - 1], components[|components| - 1];
    if last.version == version then last
    else
      assert components == front + [last];
      Entry(front, version)
  }

  function Removal(c: Component): Change { Change(Removed, c.ecosystem, c.name, Some(c), None) }

  function Addition(c: Component): Change { Change(Added, c.ecosystem, c.name, None, Some(c)) }

  function Replacement(kind: Kind, before: Component, after: Component): Change {
    Change(kind, after.ecosystem, after.name, Some(before), Some(after))
  }

  function MoveKind(before: Component, after: Component): Kind {
    var comparison := Versions.Compare(after.version, before.version);
    if comparison > 0 then Upgraded else if comparison < 0 then Downgraded else Changed
  }

  predicate Remarked(before: Component, after: Component) {
    before.source != after.source || before.replacedFrom != after.replacedFrom
  }

  function Removals(components: seq<Component>): (r: seq<Change>)
    ensures |r| == |components|
    ensures forall i :: 0 <= i < |r| ==> r[i] == Removal(components[i])
  {
    seq(|components|, i requires 0 <= i < |components| => Removal(components[i]))
  }

  function Additions(components: seq<Component>): (r: seq<Change>)
    ensures |r| == |components|
    ensures forall i :: 0 <= i < |r| ==> r[i] == Addition(components[i])
  {
    seq(|components|, i requires 0 <= i < |components| => Addition(components[i]))
  }

  ghost predicate InBoth(olds: seq<Component>, news: seq<Component>, versions: seq<string>) {
    forall v :: v in versions ==> HasVersion(olds, v) && HasVersion(news, v)
  }

  function Remarks(olds: seq<Component>, news: seq<Component>, versions: seq<string>): seq<Change>
    requires InBoth(olds, news, versions)
  {
    if versions == [] then []
    else
      var v := versions[|versions| - 1];
      var before, after := Entry(olds, v), Entry(news, v);
      Remarks(olds, news, versions[..|versions| - 1])
      + if Remarked(before, after) then [Replacement(Changed, before, after)] else []
  }

  function Shared(olds: seq<Component>, news: seq<Component>): (r: seq<string>)
    ensures InBoth(olds, news, r)
  {
    FilterMembers(Unique(VersionsOf(olds)), Knows(news));
    Filter(Unique(VersionsOf(olds)), Knows(news))
  }

  predicate IsMove(olds: seq<Component>, news: seq<Component>) {
    |olds| == 1 && |news| == 1 && |Filter(olds, Lacks(news))| == 1 && |Filter(news, Lacks(olds))| == 1
  }

  function GroupChanges(olds: seq<Component>, news: seq<Component>): seq<Change> {
    if IsMove(olds, news) then [Replacement(MoveKind(olds[0], news[0]), olds[0], news[0])]
    else
      Removals(Filter(olds, Lacks(news))) + Additions(Filter(news, Lacks(olds)))
      + Remarks(olds, news, Shared(olds, news))
  }

  method PushRemarks(changes: seq<Change>, olds: seq<Component>, news: seq<Component>, versions: seq<string>)
    returns (r: seq<Change>)
    requires InBoth(olds, news, versions)
    ensures r == changes + Remarks(olds, news, versions)
  {
    hide HasVersion, Entry, Remarked, Replacement;
    r := changes;
    for i := 0 to |versions|
      invariant r == changes + Remarks(olds, news, versions[..i])
    {
      var before, after := Entry(olds, versions[i]), Entry(news, versions[i]);
      assert versions[..i + 1][..i] == versions[..i];
      if Remarked(before, after) {
        r := r + [Replacement(Changed, before, after)];
      }
    }
    assert versions[..|versions|] == versions;
  }

  method PushRemovals(changes: seq<Change>, removed: seq<Component>) returns (r: seq<Change>)
    ensures r == changes + Removals(removed)
  {
    hide Removal;
    r := changes;
    for i := 0 to |removed|
      invariant r == changes + Removals(removed)[..i]
    {
      r := r + [Removal(removed[i])];
    }
  }

  method PushAdditions(changes: seq<Change>, added: seq<Component>) returns (r: seq<Change>)
    ensures r == changes + Additions(added)
  {
    hide Addition;
    r := changes;
    for i := 0 to |added|
      invariant r == changes + Additions(added)[..i]
    {
      r := r + [Addition(added[i])];
    }
  }

  method PushGroupChanges(changes: seq<Change>, olds: seq<Component>, news: seq<Component>) returns (r: seq<Change>)
    ensures r == changes + GroupChanges(olds, news)
  {
    hide Filter, Shared, Remarks, Lacks, InBoth, HasVersion, Removal, Addition, Replacement, MoveKind;
    hide Removals, Additions;
    var removed, added := Filter(olds, Lacks(news)), Filter(news, Lacks(olds));
    if |olds| == 1 && |news| == 1 && |removed| == 1 && |added| == 1 {
      return changes + [Replacement(MoveKind(olds[0], news[0]), olds[0], news[0])];
    }
    r := PushRemovals(changes, removed);
    r := PushAdditions(r, added);
    r := PushRemarks(r, olds, news, Shared(olds, news));
  }

  // ---------- the diff ----------

  function AllKeys(before: seq<Component>, after: seq<Component>): seq<Key> {
    Sort(KeyLeq, Unique(Unique(KeysOf(before)) + Unique(KeysOf(after))))
  }

  function ChangesOver(keys: seq<Key>, before: seq<Component>, after: seq<Component>): seq<Change> {
    if keys == [] then []
    else
      var k := keys[|keys| - 1];
      ChangesOver(keys[..|keys| - 1], before, after) + GroupChanges(Items(before, k), Items(after, k))
  }

  function Diff(before: seq<Component>, after: seq<Component>): seq<Change> {
    ChangesOver(AllKeys(before, after), before, after)
  }

  method DiffDependencies(before: seq<Component>, after: seq<Component>) returns (changes: seq<Change>)
    ensures changes == Diff(before, after)
  {
    hide GroupChanges, Items, Sort, Unique;
    var beforeGroups, beforeOrder := Group(before);
    var afterGroups, afterOrder := Group(after);
    var keys := Sort(KeyLeq, Unique(beforeOrder + afterOrder));
    changes := [];
    for i := 0 to |keys|
      invariant changes == ChangesOver(keys[..i], before, after)
    {
      var k := keys[i];
      assert keys[..i + 1][..i] == keys[..i];
      changes := PushGroupChanges(changes, Lookup(beforeGroups, k), Lookup(afterGroups, k));
    }
    assert keys[..|keys|] == keys;
  }

  // ---------- what the diff lists ----------

  ghost predicate OnePerVersion(components: seq<Component>) {
    && Distinct(components)
    && forall c, d :: c in components && d in components && c.version == d.version ==> c == d
  }

  lemma ItemsFacts(components: seq<Component>, k: Key)
    requires DistinctIds(components)
    ensures OnePerVersion(Items(components, k))
    ensures forall c :: c in Items(components, k) <==> c in components && KeyOf(c) == k
  {
    hide KeyOf;
    FilterMembers(components, OfKey(k));
    assert Distinct(components);
    FilterDistinct(components, OfKey(k));
    forall c, d | c in Items(components, k) && d in Items(components, k) && c.version == d.version ensures c == d {
      assert IdentityOf(c) == IdentityOf(d);
    }
  }

  ghost predicate IsRemoval(ch: Change, olds: seq<Component>, news: seq<Component>) {
    && ch.before.Some? && ch == Removal(ch.before.value) && ch.before.value in olds
    && !HasVersion(news, ch.before.value.version)
  }

  ghost predicate IsAddition(ch: Change, olds: seq<Component>, news: seq<Component>) {
    && ch.after.Some? && ch == Addition(ch.after.value) && ch.after.value in news
    && !HasVersion(olds, ch.after.value.version)
  }

  ghost predicate IsRemark(ch: Change, olds: seq<Component>, news: seq<Component>) {
    && ch.before.Some? && ch.after.Some?
    && ch.before.value in olds && ch.after.value in news && ch.before.value.version == ch.after.value.version
    && Remarked(ch.before.value, ch.after.value)
    && ch == Replacement(Changed, ch.before.value, ch.after.value)
  }

  lemma RemovalsAre(olds: seq<Component>, news: seq<Component>)
    requires Distinct(olds)
    ensures Distinct(Removals(Filter(olds, Lacks(news))))
    ensures forall ch :: ch in Removals(Filter(olds, Lacks(news))) <==> IsRemoval(ch, olds, news)
  {
    hide HasVersion;
    FilterMembers(olds, Lacks(news));
    FilterDistinct(olds, Lacks(news));
    var cs := Filter(olds, Lacks(news));
    hide Filter;
    forall ch | ch in Removals(cs) ensures IsRemoval(ch, olds, news) {
      var i :| 0 <= i < |cs| && ch == Removal(cs[i]);
      assert cs[i] in cs;
    }
    forall ch | IsRemoval(ch, olds, news) ensures ch in Removals(cs) {
      assert ch.before.value in cs;
      var i :| 0 <= i < |cs| && cs[i] == ch.before.value;
      assert Removals(cs)[i] == ch;
    }
  }

  lemma AdditionsAre(olds: seq<Component>, news: seq<Component>)
    requires Distinct(news)
    ensures Distinct(Additions(Filter(news, Lacks(olds))))
    ensures forall ch :: ch in Additions(Filter(news, Lacks(olds))) <==> IsAddition(ch, olds, news)
  {
    hide HasVersion;
    FilterMembers(news, Lacks(olds));
    FilterDistinct(news, Lacks(olds));
    var cs := Filter(news, Lacks(olds));
    hide Filter;
    forall ch | ch in Additions(cs) ensures IsAddition(ch, olds, news) {
      var i :| 0 <= i < |cs| && ch == Addition(cs[i]);
      assert cs[i] in cs;
    }
    forall ch | IsAddition(ch, olds, news) ensures ch in Additions(cs) {
      assert ch.after.value in cs;
      var i :| 0 <= i < |cs| && cs[i] == ch.after.value;
      assert Additions(cs)[i] == ch;
    }
  }

  lemma {:induction false} RemarksOver(olds: seq<Component>, news: seq<Component>, versions: seq<string>)
    requires OnePerVersion(olds) && OnePerVersion(news) && InBoth(olds, news, versions) && Distinct(versions)
    ensures Distinct(Remarks(olds, news, versions))
    ensures forall ch :: ch in Remarks(olds, news, versions)
                         <==> IsRemark(ch, olds, news) && ch.before.value.version in versions
  {
    hide Remarked, HasVersion;
    if versions != [] {
      var front, v := versions[..|versions| - 1], versions[|versions| - 1];
      RemarksOver(olds, news, front);
      assert versions == front + [v] && v !in front;
      var last := if Remarked(Entry(olds, v), Entry(news, v))
        then [Replacement(Changed, Entry(olds, v), Entry(news, v))] else [];
      forall ch ensures ch in last <==> IsRemark(ch, olds, news) && ch.before.value.version == v {
      }
      DistinctConcat(Remarks(olds, news, front), last);
    }
  }

  lemma RemarksAre(olds: seq<Component>, news: seq<Component>)
    requires OnePerVersion(olds) && OnePerVersion(news)
    ensures Distinct(Remarks(olds, news, Shared(olds, news)))
    ensures forall ch :: ch in Remarks(olds, news, Shared(olds, news)) <==> IsRemark(ch, olds, news)
  {
    FilterMembers(Unique(VersionsOf(olds)), Knows(news));
    FilterDistinct(Unique(VersionsOf(olds)), Knows(news));
    RemarksOver(olds, news, Shared(olds, news));
    hide Remarks, Filter, Unique, Remarked;
    forall ch | IsRemark(ch, olds, news) ensures ch.before.value.version in Shared(olds, news) {
      var i :| 0 <= i < |olds| && olds[i] == ch.before.value;
      assert VersionsOf(olds)[i] == ch.before.value.version;
    }
  }

  /** One component on either side, with different versions. */
  predicate Moved(olds: seq<Component>, news: seq<Component>) {
    |olds| == 1 && |news| == 1 && olds[0].version != news[0].version
  }

  lemma MoveIffMoved(olds: seq<Component>, news: seq<Component>)
    ensures IsMove(olds, news) <==> Moved(olds, news)
  {
    if |olds| == 1 && |news| == 1 {
      assert olds == [olds[0]] && news == [news[0]];
      FilterSingle(olds[0], Lacks(news));
      FilterSingle(news[0], Lacks(olds));
      assert HasVersion(news, olds[0].version) <==> news[0].version == olds[0].version;
      assert HasVersion(olds, news[0].version) <==> news[0].version == olds[0].version;
    }
  }

  ghost predicate IsGroupChange(ch: Change, olds: seq<Component>, news: seq<Component>) {
    if Moved(olds, news) then ch == Replacement(MoveKind(olds[0], news[0]), olds[0], news[0])
    else IsRemoval(ch, olds, news) || IsAddition(ch, olds, news) || IsRemark(ch, olds, news)
  }

  lemma GroupChangesAre(olds: seq<Component>, news: seq<Component>)
    requires OnePerVersion(olds) && OnePerVersion(news)
    ensures Distinct(GroupChanges(olds, news))
    ensures forall ch :: ch in GroupChanges(olds, news) <==> IsGroupChange(ch, olds, news)
  {
    MoveIffMoved(olds, news);
    if !Moved(olds, news) {
      RemovalsAre(olds, news);
      AdditionsAre(olds, news);
      RemarksAre(olds, news);
      var removals, additions := Removals(Filter(olds, Lacks(news))), Additions(Filter(news, Lacks(olds)));
      var remarks := Remarks(olds, news, Shared(olds, news));
      hide Filter, Remarks, Shared, HasVersion, Moved, IsMove, Remarked;
      DistinctConcat(removals, additions);
      DistinctConcat(removals + additions, remarks);
    }
  }

  ghost predicate HasEnd(ch: Change) { ch.before.Some? || ch.after.Some? }

  ghost function ChangeKey(ch: Change): Key
    requires HasEnd(ch)
  {
    KeyOf(if ch.before.Some? then ch.before.value else ch.after.value)
  }

  /** Every component of k in before and after is replaced by the other: one on either side. */
  ghost predicate MovedKey(before: seq<Component>, after: seq<Component>, k: Key) {
    Moved(Items(before, k), Items(after, k))
  }

  /** The changes that a diff is to report. */
  ghost predicate Expected(ch: Change, before: seq<Component>, after: seq<Component>) {
    match (ch.before, ch.after)
    case (None, None) => false
    case (Some(o), None) =>
      o in before && !HasId(after, IdentityOf(o)) && !MovedKey(before, after, KeyOf(o)) && ch == Removal(o)
    case (None, Some(n)) =>
      n in after && !HasId(before, IdentityOf(n)) && !MovedKey(before, after, KeyOf(n)) && ch == Addition(n)
    case (Some(o), Some(n)) =>
      && o in before && n in after && KeyOf(o) == KeyOf(n)
      && if o.version == n.version then Remarked(o, n) && ch == Replacement(Changed, o, n)
         else MovedKey(before, after, KeyOf(o)) && ch == Replacement(MoveKind(o, n), o, n)
  }

  lemma VersionInGroup(components: seq<Component>, k: Key, version: string)
    requires DistinctIds(components)
    ensures HasVersion(Items(components, k), version) <==> HasId(components, Identity(k, version))
  {
    hide KeyOf;
    ItemsFacts(components, k);
  }

  lemma ExpectedInGroup(ch: Change, before: seq<Component>, after: seq<Component>, k: Key)
    requires DistinctIds(before) && DistinctIds(after)
    ensures IsGroupChange(ch, Items(before, k), Items(after, k))
            <==> HasEnd(ch) && ChangeKey(ch) == k && Expected(ch, before, after)
  {
    hide KeyOf, Items, DistinctIds, OnePerVersion, MoveKind, Remarked, HasVersion, HasId;
    ItemsFacts(before, k);
    ItemsFacts(after, k);
    match (ch.before, ch.after) {
      case (None, None) =>
      case (Some(o), None) => VersionInGroup(after, k, o.version);
      case (None, Some(n)) => VersionInGroup(before, k, n.version);
      case (Some(o), Some(n)) =>
    }
  }

  lemma {:induction false} ChangesOverAre(keys: seq<Key>, before: seq<Component>, after: seq<Component>)
    requires DistinctIds(before) && DistinctIds(after) && Distinct(keys)
    ensures Distinct(ChangesOver(keys, before, after))
    ensures forall ch :: ch in ChangesOver(keys, before, after)
                         <==> Expected(ch, before, after) && HasEnd(ch) && ChangeKey(ch) in keys
  {
    hide Expected, HasEnd, ChangeKey, DistinctIds, IsGroupChange, GroupChanges, Items, OnePerVersion;
    if keys != [] {
      var front, k := keys[..|keys| - 1], keys[|keys| - 1];
      ChangesOverAre(front, before, after);
      ItemsFacts(before, k);
      ItemsFacts(after, k);
      GroupChangesAre(Items(before, k), Items(after, k));
      forall ch { ExpectedInGroup(ch, before, after, k); }
      assert keys == front + [k] && k !in front;
      DistinctConcat(ChangesOver(front, before, after), GroupChanges(Items(before, k), Items(after, k)));
    }
  }

  lemma AllKeysAre(before: seq<Component>, after: seq<Component>)
    ensures Distinct(AllKeys(before, after))
    ensures forall c :: c in before || c in after ==> KeyOf(c) in AllKeys(before, after)
  {
    var all := Unique(Unique(KeysOf(before)) + Unique(KeysOf(after)));
    SortMembers(KeyLeq, all);
    PermutedDistinct(all, Sort(KeyLeq, all));
    hide Sort, KeyLeq, KeyOf;
    forall c | c in before || c in after ensures KeyOf(c) in all {
      if c in before {
        var i :| 0 <= i < |before| && before[i] == c;
        assert KeysOf(before)[i] == KeyOf(c);
      } else {
        var i :| 0 <= i < |after| && after[i] == c;
        assert KeysOf(after)[i] == KeyOf(c);
      }
    }
  }

  ghost predicate Lists(changes: seq<Change>, before: seq<Component>, after: seq<Component>) {
    forall ch :: ch in changes <==> Expected(ch, before, after)
  }

  /** On deduplicated snapshots the diff lists exactly the expected changes, each once. */
  lemma DiffListsExactly(before: seq<Component>, after: seq<Component>)
    requires DistinctIds(before) && DistinctIds(after)
    ensures Distinct(Diff(before, after))
    ensures Lists(Diff(before, after), before, after)
  {
    AllKeysAre(before, after);
    ChangesOverAre(AllKeys(before, after), before, after);
    hide AllKeys, ChangesOver, KeyOf, Remarked, MoveKind, MovedKey, HasId, DistinctIds;
  }

  // ---------- the diff is a patch ----------

  datatype Mark = Mark(source: string, replacedFrom: Option<string>)

  function MarkOf(c: Component): Mark { Mark(c.source, c.replacedFrom) }

  /** What a snapshot says: each identity with where it comes from and what it replaces. */
  function Marks(components: seq<Component>): map<Identity, Mark> {
    if components == [] then map[]
    else
      var last := components[|components| - 1];
      Marks(components[..|components| - 1])[IdentityOf(last) := MarkOf(last)]
  }

  /** The snapshot once every before identity is gone. */
  function Without(marks: map<Identity, Mark>, changes: seq<Change>): map<Identity, Mark> {
    if changes == [] then marks
    else
      var last := changes[|changes| - 1];
      Without(marks, changes[..|changes| - 1]) - if last.before.Some? then {IdentityOf(last.before.value)} else {}
  }

  /** The snapshot once every after identity has come, with its marks. */
  function With(marks: map<Identity, Mark>, changes: seq<Change>): map<Identity, Mark> {
    if changes == [] then marks
    else
      var last := changes[|changes| - 1];
      var rest := With(marks, changes[..|changes| - 1]);
      if last.after.Some? then rest[IdentityOf(last.after.value) := MarkOf(last.after.value)] else rest
  }

  lemma {:induction false} MarksAre(components: seq<Component>)
    requires DistinctIds(components)
    ensures forall id :: id in Marks(components) <==> HasId(components, id)
    ensures forall c :: c in components ==>
              HasId(components, IdentityOf(c)) && Marks(components)[IdentityOf(c)] == MarkOf(c)
  {
    hide IdentityOf, MarkOf;
    if components != [] {
      var front, last := components[..|components| - 1], components[|components| - 1];
      MarksAre(front);
      assert components == front + [last];
      forall id ensures HasId(components, id) <==> HasId(front, id) || id == IdentityOf(last) {
        assert last in components;
      }
    }
  }

  ghost predicate Drops(changes: seq<Change>, id: Identity) {
    exists ch :: ch in changes && ch.before.Some? && IdentityOf(ch.before.value) == id
  }

  ghost predicate Brings(changes: seq<Change>, c: Component) {
    exists ch :: ch in changes && ch.after == Some(c)
  }

  lemma {:induction false} WithoutIs(marks: map<Identity, Mark>, changes: seq<Change>)
    ensures forall id :: id in Without(marks, changes) <==> id in marks && !Drops(changes, id)
    ensures forall id :: id in Without(marks, changes) ==> Without(marks, changes)[id] == marks[id]
  {
    hide IdentityOf;
    if changes != [] {
      var front, last := changes[..|changes| - 1], changes[|changes| - 1];
      WithoutIs(marks, front);
      assert changes == front + [last];
      forall id
        ensures Drops(changes, id) <==> Drops(front, id) || (last.before.Some? && IdentityOf(last.before.value) == id)
      {
        assert last in changes;
      }
    }
  }

  /** Where an identity ends up: at one of the components brought for it, or where it was. */
  lemma {:induction false} WithIs(marks: map<Identity, Mark>, changes: seq<Change>, id: Identity)
    ensures (exists c :: Brings(changes, c) && IdentityOf(c) == id)
            ==> id in With(marks, changes)
                && exists c :: Brings(changes, c) && IdentityOf(c) == id && With(marks, changes)[id] == MarkOf(c)
    ensures (forall c :: Brings(changes, c) ==> IdentityOf(c) != id)
            ==> (id in With(marks, changes) <==> id in marks) && (id in marks ==> With(marks, changes)[id] == marks[id])
  {
    hide IdentityOf, MarkOf;
    if changes != [] {
      var front, last := changes[..|changes| - 1], changes[|changes| - 1];
      WithIs(marks, front, id);
      assert changes == front + [last];
      forall c ensures Brings(changes, c) <==> Brings(front, c) || last.after == Some(c) {
        assert last in changes;
      }
    }
  }

  lemma MoveExpected(before: seq<Component>, after: seq<Component>, k: Key)
    requires DistinctIds(before) && DistinctIds(after) && MovedKey(before, after, k)
    ensures var o, n := Items(before, k)[0], Items(after, k)[0];
            && Expected(Replacement(MoveKind(o, n), o, n), before, after) && o.version != n.version
            && (forall c :: c in before && KeyOf(c) == k ==> c == o)
            && (forall c :: c in after && KeyOf(c) == k ==> c == n)
  {
    ItemsFacts(before, k);
    ItemsFacts(after, k);
    hide Items, KeyOf, MoveKind;
    var o, n := Items(before, k)[0], Items(after, k)[0];
    assert Items(before, k) == [o] && Items(after, k) == [n];
    assert o in Items(before, k) && n in Items(after, k);
  }

  /** A component that is nowhere in before with its identity is brought. */
  lemma NewIsBrought(before: seq<Component>, after: seq<Component>, changes: seq<Change>, n: Component)
    requires DistinctIds(before) && DistinctIds(after) && Lists(changes, before, after)
    requires n in after && !HasId(before, IdentityOf(n))
    ensures Brings(changes, n)
  {
    if MovedKey(before, after, KeyOf(n)) {
      MoveExpected(before, after, KeyOf(n));
      var o := Items(before, KeyOf(n))[0];
      assert Replacement(MoveKind(o, n), o, n) in changes;
    } else {
      assert Expected(Addition(n), before, after);
      assert Addition(n) in changes;
    }
  }

  lemma GoneIsDropped(before: seq<Component>, after: seq<Component>, changes: seq<Change>, o: Component)
    requires DistinctIds(before) && DistinctIds(after) && Lists(changes, before, after)
    requires o in before && !HasId(after, IdentityOf(o))
    ensures Drops(changes, IdentityOf(o))
  {
    if MovedKey(before, after, KeyOf(o)) {
      MoveExpected(before, after, KeyOf(o));
      var n := Items(after, KeyOf(o))[0];
      assert Replacement(MoveKind(o, n), o, n) in changes;
    } else {
      assert Expected(Removal(o), before, after);
      assert Removal(o) in changes;
    }
  }

  /** What is dropped and still there afterwards is brought too. */
  lemma DroppedOrBrought(before: seq<Component>, after: seq<Component>, changes: seq<Change>, n: Component)
    requires DistinctIds(before) && DistinctIds(after) && Lists(changes, before, after)
    requires n in after && Drops(changes, IdentityOf(n))
    ensures Brings(changes, n)
  {
    var ch :| ch in changes && ch.before.Some? && IdentityOf(ch.before.value) == IdentityOf(n);
    assert Expected(ch, before, after);
    var o := ch.before.value;
    if ch.after.Some? && o.version != ch.after.value.version {
      MoveExpected(before, after, KeyOf(o));
    }
  }

  lemma RemarkedIsBrought(before: seq<Component>, after: seq<Component>, changes: seq<Change>, o: Component,
                          n: Component)
    requires DistinctIds(before) && DistinctIds(after) && Lists(changes, before, after)
    requires o in before && n in after && IdentityOf(o) == IdentityOf(n) && MarkOf(o) != MarkOf(n)
    ensures Brings(changes, n)
  {
    assert Expected(Replacement(Changed, o, n), before, after);
    assert Replacement(Changed, o, n) in changes;
  }

  lemma BroughtIsAfter(before: seq<Component>, after: seq<Component>, changes: seq<Change>, c: Component)
    requires Lists(changes, before, after) && Brings(changes, c)
    ensures c in after
  {
    var ch :| ch in changes && ch.after == Some(c);
    assert Expected(ch, before, after);
  }

  lemma PatchedAt(before: seq<Component>, after: seq<Component>, changes: seq<Change>, id: Identity)
    requires DistinctIds(before) && DistinctIds(after) && Lists(changes, before, after)
    ensures var patched := With(Without(Marks(before), changes), changes);
            (id in patched <==> id in Marks(after)) && (id in Marks(after) ==> patched[id] == Marks(after)[id])
  {
    var kept := Without(Marks(before), changes);
    MarksAre(before);
    MarksAre(after);
    WithoutIs(Marks(before), changes);
    WithIs(kept, changes, id);
    hide With, Without, Marks, Brings, Lists, IdentityOf, MarkOf, DistinctIds, Drops;
    if c :| Brings(changes, c) && IdentityOf(c) == id {
      forall c | Brings(changes, c) ensures c in after { BroughtIsAfter(before, after, changes, c); }
    } else if n :| n in after && IdentityOf(n) == id {
      if !HasId(before, id) { NewIsBrought(before, after, changes, n); }
      if Drops(changes, id) { DroppedOrBrought(before, after, changes, n); }
      var o :| o in before && IdentityOf(o) == id;
      if MarkOf(o) != MarkOf(n) { RemarkedIsBrought(before, after, changes, o, n); }
    } else if o :| o in before && IdentityOf(o) == id {
      GoneIsDropped(before, after, changes, o);
    }
  }

  /** Dropping every before identity and bringing every after identity turns the old snapshot into the new one. */
  lemma DiffIsPatch(before: seq<Component>, after: seq<Component>)
    requires DistinctIds(before) && DistinctIds(after)
    ensures With(Without(Marks(before), Diff(before, after)), Diff(before, after)) == Marks(after)
  {
    var changes := Diff(before, after);
    var patched := With(Without(Marks(before), changes), changes);
    DiffListsExactly(before, after);
    hide *;
    forall id ensures (id in patched <==> id in Marks(after)) && (id in patched ==> patched[id] == Marks(after)[id]) {
      PatchedAt(before, after, changes, id);
    }
    assert patched.Keys == Marks(after).Keys;
  }

  /** Nothing is listed exactly when the identities, their sources and what they replace agree. */
  lemma EmptyIffSame(before: seq<Component>, after: seq<Component>)
    requires DistinctIds(before) && DistinctIds(after)
    ensures Diff(before, after) == [] <==> Marks(before) == Marks(after)
  {
    DiffListsExactly(before, after);
    DiffIsPatch(before, after);
    MarksAre(before);
    MarksAre(after);
    var changes := Diff(before, after);
    if changes != [] && Marks(before) == Marks(after) {
      assert changes[0] in changes;
      NothingExpected(changes[0], before, after);
    }
  }

  /** The identity that a moved key leaves is not in the new snapshot. */
  lemma OnlyMoved(before: seq<Component>, after: seq<Component>, o: Component, n: Component)
    requires DistinctIds(before) && DistinctIds(after) && MovedKey(before, after, KeyOf(o))
    requires o in before && n in after && KeyOf(o) == KeyOf(n) && o.version != n.version
    ensures !HasId(after, IdentityOf(o))
  {
    hide MovedKey, Items, Expected, DistinctIds;
    MoveExpected(before, after, KeyOf(o));
  }

  lemma NothingExpected(ch: Change, before: seq<Component>, after: seq<Component>)
    requires DistinctIds(before) && DistinctIds(after)
    requires forall id :: HasId(before, id) <==> HasId(after, id)
    requires forall o, n :: o in before && n in after && IdentityOf(o) == IdentityOf(n) ==> MarkOf(o) == MarkOf(n)
    ensures !Expected(ch, before, after)
  {
    hide MovedKey, DistinctIds, KeyOf, MoveKind;
    var o, n := ch.before, ch.after;
    if o.Some? && o.value in before { assert HasId(before, IdentityOf(o.value)); }
    if n.Some? && n.value in after { assert HasId(after, IdentityOf(n.value)); }
    if o.Some? && n.Some? && o.value.version != n.value.version && Expected(ch, before, after) {
      OnlyMoved(before, after, o.value, n.value);
    }
  }

  // ---------- reversing the snapshots ----------

  function MirrorKind(kind: Kind): Kind {
    match kind
    case Added => Removed case Removed => Added
    case Upgraded => Downgraded case Downgraded => Upgraded
    case Changed => Changed
  }

  /** The same change seen from the other side, named after the component it then ends with. */
  function Mirror(ch: Change): Change {
    match (ch.before, ch.after)
    case (None, None) => ch
    case (Some(o), None) => Change(MirrorKind(ch.kind), o.ecosystem, o.name, None, Some(o))
    case (_, Some(n)) =>
      var named := if ch.before.Some? then ch.before.value else n;
      Change(MirrorKind(ch.kind), named.ecosystem, named.name, Some(n), ch.before)
  }

  function Mirrored(changes: seq<Change>): (r: seq<Change>)
    ensures |r| == |changes|
    ensures forall i :: 0 <= i < |r| ==> r[i] == Mirror(changes[i])
  {
    seq(|changes|, i requires 0 <= i < |changes| => Mirror(changes[i]))
  }

  /** No key moves between two versions that clash (Versions.Clash). */
  ghost predicate NoMoveClashes(before: seq<Component>, after: seq<Component>) {
    forall k :: MovedKey(before, after, k) ==> !Versions.Clash(Items(before, k)[0].version, Items(after, k)[0].version)
  }

  lemma ClashBothWays(before: seq<Component>, after: seq<Component>)
    requires NoMoveClashes(before, after)
    ensures NoMoveClashes(after, before)
  {
    hide Versions.Clash, Versions.Compare, Items;
    forall k | MovedKey(after, before, k)
      ensures !Versions.Clash(Items(after, k)[0].version, Items(before, k)[0].version)
    {
      assert MovedKey(before, after, k);
      Versions.AntisymmetricIff(Items(after, k)[0].version, Items(before, k)[0].version);
      Versions.AntisymmetricIff(Items(before, k)[0].version, Items(after, k)[0].version);
    }
  }

  lemma MoveKindMirrors(o: Component, n: Component)
    ensures MoveKind(n, o) == MirrorKind(MoveKind(o, n)) <==> !Versions.Clash(o.version, n.version)
  {
    hide Versions.Clash, Versions.Compare;
    Versions.AntisymmetricIff(o.version, n.version);
    Versions.AntisymmetricIff(n.version, o.version);
  }

  lemma MovedBothWays(before: seq<Component>, after: seq<Component>, k: Key)
    ensures MovedKey(before, after, k) <==> MovedKey(after, before, k)
  {
    hide Items;
  }

  /** A key that moves without a clash moves back with the mirrored kind. */
  lemma MoveMirrors(before: seq<Component>, after: seq<Component>, o: Component, n: Component)
    requires DistinctIds(before) && DistinctIds(after) && NoMoveClashes(before, after)
    requires o in before && n in after && KeyOf(o) == KeyOf(n) && MovedKey(before, after, KeyOf(o))
    ensures MoveKind(n, o) == MirrorKind(MoveKind(o, n))
  {
    hide MoveKind, Items, KeyOf, MovedKey, Expected, DistinctIds, Versions.Clash;
    MoveExpected(before, after, KeyOf(o));
    MoveKindMirrors(o, n);
  }

  lemma MirrorOfRemoval(c: Component)
    ensures Mirror(Removal(c)) == Addition(c) && Mirror(Addition(c)) == Removal(c)
  {
  }

  lemma MirrorOfReplacement(kind: Kind, o: Component, n: Component)
    ensures Mirror(Replacement(kind, o, n)) == Replacement(MirrorKind(kind), n, o)
    ensures MirrorKind(MirrorKind(kind)) == kind
  {
  }

  lemma RemovalMirrors(o: Component, before: seq<Component>, after: seq<Component>)
    ensures Expected(Removal(o), before, after) <==> Expected(Addition(o), after, before)
  {
    MovedBothWays(before, after, KeyOf(o));
    hide HasId, MovedKey, KeyOf;
  }

  lemma ReplacementMirrors(kind: Kind, o: Component, n: Component, before: seq<Component>, after: seq<Component>)
    requires DistinctIds(before) && DistinctIds(after) && NoMoveClashes(before, after)
    requires Expected(Replacement(kind, o, n), before, after)
    ensures Expected(Replacement(MirrorKind(kind), n, o), after, before)
  {
    hide HasId, MovedKey, KeyOf, MoveKind, NoMoveClashes, DistinctIds;
    if o.version != n.version {
      MoveMirrors(before, after, o, n);
      MovedBothWays(before, after, KeyOf(o));
    }
  }

  lemma ExpectedShape(ch: Change, before: seq<Component>, after: seq<Component>)
    requires Expected(ch, before, after)
    ensures match (ch.before, ch.after)
            case (None, None) => false
            case (Some(o), None) => ch == Removal(o)
            case (None, Some(n)) => ch == Addition(n)
            case (Some(o), Some(n)) => ch == Replacement(ch.kind, o, n)
  {
    hide HasId, MovedKey, KeyOf, MoveKind;
  }

  lemma ExpectedMirrors(ch: Change, before: seq<Component>, after: seq<Component>)
    requires DistinctIds(before) && DistinctIds(after) && NoMoveClashes(before, after)
    requires Expected(ch, before, after)
    ensures Expected(Mirror(ch), after, before) && Mirror(Mirror(ch)) == ch
  {
    hide *;
    ExpectedShape(ch, before, after);
    match (ch.before, ch.after) {
      case (Some(o), None) =>
        RemovalMirrors(o, before, after);
        MirrorOfRemoval(o);
      case (None, Some(n)) =>
        RemovalMirrors(n, after, before);
        MirrorOfRemoval(n);
      case (Some(o), Some(n)) =>
        ReplacementMirrors(ch.kind, o, n, before, after);
        MirrorOfReplacement(ch.kind, o, n);
        MirrorOfReplacement(MirrorKind(ch.kind), n, o);
    }
  }

  /** Diffing the other way lists the mirror images exactly when no key moves between clashing versions. */
  lemma MirrorsIff(before: seq<Component>, after: seq<Component>)
    requires DistinctIds(before) && DistinctIds(after)
    ensures multiset(Diff(after, before)) == multiset(Mirrored(Diff(before, after))) <==> NoMoveClashes(before, after)
  {
    if NoMoveClashes(before, after) {
      MirrorsWithoutClash(before, after);
    } else {
      ClashIsNotMirrored(before, after);
    }
  }

  lemma MirrorsWithoutClash(before: seq<Component>, after: seq<Component>)
    requires DistinctIds(before) && DistinctIds(after) && NoMoveClashes(before, after)
    ensures multiset(Diff(after, before)) == multiset(Mirrored(Diff(before, after)))
  {
    var there, back := Diff(before, after), Diff(after, before);
    DiffListsExactly(before, after);
    DiffListsExactly(after, before);
    ClashBothWays(before, after);
    forall ch | ch in there ensures Mirror(ch) in back && Mirror(Mirror(ch)) == ch {
      ExpectedMirrors(ch, before, after);
    }
    forall ch | ch in back ensures Mirror(ch) in there && Mirror(Mirror(ch)) == ch {
      ExpectedMirrors(ch, after, before);
    }
    hide *;
    MirroredIs(there, back);
  }

  /** Two lists that the mirror maps into each other, and back, are mirror images. */
  lemma MirroredIs(there: seq<Change>, back: seq<Change>)
    requires Distinct(there) && Distinct(back)
    requires forall ch :: ch in there ==> Mirror(ch) in back && Mirror(Mirror(ch)) == ch
    requires forall ch :: ch in back ==> Mirror(ch) in there && Mirror(Mirror(ch)) == ch
    ensures multiset(back) == multiset(Mirrored(there))
  {
    hide Mirror;
    var images := Mirrored(there);
    forall i, j | 0 <= i < j < |images| ensures images[i] != images[j] {
      assert there[i] in there && there[j] in there;
      assert Mirror(images[i]) == there[i] && Mirror(images[j]) == there[j];
    }
    forall ch | ch in images ensures ch in back {
      var i :| 0 <= i < |images| && images[i] == ch;
      assert there[i] in there;
    }
    forall ch | ch in back ensures ch in images {
      var i :| 0 <= i < |there| && there[i] == Mirror(ch);
      assert images[i] == ch;
    }
    DistinctSameMultiset(back, images);
  }

  lemma ClashIsNotMirrored(before: seq<Component>, after: seq<Component>)
    requires DistinctIds(before) && DistinctIds(after) && !NoMoveClashes(before, after)
    ensures multiset(Diff(after, before)) != multiset(Mirrored(Diff(before, after)))
  {
    hide Diff, Items, Versions.Clash, MoveKind, KeyOf;
    var k :| MovedKey(before, after, k) && Versions.Clash(Items(before, k)[0].version, Items(after, k)[0].version);
    var o, n := Items(before, k)[0], Items(after, k)[0];
    MoveExpected(before, after, k);
    MoveKindMirrors(o, n);
    DiffListsExactly(before, after);
    DiffListsExactly(after, before);
    var there := Diff(before, after);
    var move := Replacement(MoveKind(o, n), o, n);
    var i :| 0 <= i < |there| && there[i] == move;
    assert Mirrored(there)[i] == Mirror(move);
    assert Mirror(move) in Mirrored(there);
    assert !Expected(Mirror(move), after, before);
    if multiset(Diff(after, before)) == multiset(Mirrored(there)) {
      SameMembers(Diff(after, before), Mirrored(there));
    }
  }

  // ---------- snapshots that are not mirrored ----------

  function Versioned(version: string): Component {
    Component(Inventory.Npm, "left-pad", version, true, "package-lock.json", None, "pkg:npm/left-pad")
  }

  lemma OneItem(c: Component)
    ensures Items([c], KeyOf(c)) == [c] && DistinctIds([c])
  {
    FilterSingle(c, OfKey(KeyOf(c)));
  }

  /** An upgrade between two versions of 342 or more nines is an upgrade both ways. */
  lemma HugeMoveIsNotMirrored(j: nat, k: nat)
    requires j >= 342 && k >= 342 && j != k
    ensures var before, after := [Versioned(Versions.Nines(j))], [Versioned(Versions.Nines(k))];
            && DistinctIds(before) && DistinctIds(after)
            && multiset(Diff(after, before)) != multiset(Mirrored(Diff(before, after)))
  {
    hide Versions.Nines, Versions.Clash, Versions.Compare, Diff, Items;
    var o, n := Versioned(Versions.Nines(j)), Versioned(Versions.Nines(k));
    Versions.NinesGrow(j);
    Versions.NinesGrow(k);
    assert o.version != n.version;
    Versions.HugeVersionsClash(j, k);
    OneItem(o);
    OneItem(n);
    assert MovedKey([o], [n], KeyOf(o));
    MirrorsIff([o], [n]);
  }
}
