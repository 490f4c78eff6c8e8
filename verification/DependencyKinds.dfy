/** What the kinds in a dependency diff mean, and the order in which the changes are listed. */
module DependencyKinds {
  import opened Wrappers
  import opened Text
  import opened Sorting
  import opened Components
  import opened DependencyDiff
  import opened VersionOrder

  /** What the kind of a change says about the component it names. */
  ghost predicate TellsKind(ch: Change) {
    match (ch.before, ch.after)
    case (None, None) => false
    case (Some(o), None) => ch.kind == Removed && ch.ecosystem == o.ecosystem && ch.name == o.name
    case (None, Some(n)) => ch.kind == Added && ch.ecosystem == n.ecosystem && ch.name == n.name
    case (Some(o), Some(n)) =>
      && ch.ecosystem == n.ecosystem && ch.name == n.name
      && (o.version == n.version ==> ch.kind == Changed)
      && (o.version != n.version && !Versions.Clash(n.version, o.version) ==>
            && (ch.kind == Upgraded <==> IsLarger(n.version, o.version))
            && (ch.kind == Downgraded <==> IsLarger(o.version, n.version))
            && (ch.kind == Changed <==> !IsLarger(n.version, o.version) && !IsLarger(o.version, n.version)))
  }

  lemma MoveTellsKind(o: Component, n: Component)
    requires !Versions.Clash(n.version, o.version)
    ensures MoveKind(o, n) == Upgraded <==> IsLarger(n.version, o.version)
    ensures MoveKind(o, n) == Downgraded <==> IsLarger(o.version, n.version)
    ensures MoveKind(o, n) == Changed <==> !IsLarger(n.version, o.version) && !IsLarger(o.version, n.version)
  {
    CompareIffLarger(n.version, o.version);
    hide IsLarger, Versions.Compare, Versions.Clash;
  }

  /** In every diff a change is an addition without a component before it, a removal without one after it, and for
      a component that moved an upgrade exactly when the new version is the larger one, a downgrade exactly when
      the old one is, and a plain change otherwise. */
  lemma KindsTell(before: seq<Component>, after: seq<Component>, ch: Change)
    requires DistinctIds(before) && DistinctIds(after) && ch in Diff(before, after)
    ensures TellsKind(ch)
  {
    DiffListsExactly(before, after);
    hide Diff, IsLarger, Versions.Clash, MoveKind, KeyOf, HasId, MovedKey, DistinctIds;
    assert Expected(ch, before, after);
    if ch.before.Some? && ch.after.Some? {
      var o, n := ch.before.value, ch.after.value;
      if o.version != n.version && !Versions.Clash(n.version, o.version) {
        MoveTellsKind(o, n);
      }
    }
  }

  /** The one component of a key in either snapshot: in the diff its versions are compared by the numbers written. */
  lemma WrittenMove(before: seq<Component>, after: seq<Component>, o: Component, x: seq<nat>, n: Component, y: seq<nat>)
    requires DistinctIds(before) && DistinctIds(after)
    requires o in before && n in after && KeyOf(o) == KeyOf(n) && o.version != n.version
    requires forall c :: c in before && KeyOf(c) == KeyOf(o) ==> c == o
    requires forall c :: c in after && KeyOf(c) == KeyOf(o) ==> c == n
    requires IsWritten(o.version, x) && IsWritten(n.version, y)
    ensures exists ch :: ch in Diff(before, after) && IsMoveTo(ch, o, n)
                         && ch.kind == if NumbersLarger(y, x) then Upgraded
                                       else if NumbersLarger(x, y) then Downgraded else Changed
  {
    hide *;
    var ch := Replacement(MoveKind(o, n), o, n);
    OneEach(before, after, o, n);
    MoveIsListed(before, after, o, n);
    WrittenOrder(n.version, y, o.version, x);
    WrittenOrder(o.version, x, n.version, y);
    NotBoth(x, y);
    MoveTellsKind(o, n);
    MoveKinds(o, n);
    assert ch in Diff(before, after) && IsMoveTo(ch, o, n) && ch.kind == MoveKind(o, n);
  }

  lemma NotBoth(x: seq<nat>, y: seq<nat>)
    ensures !(NumbersLarger(x, y) && NumbersLarger(y, x))
  {
    FirstDifference(x, y);
  }

  lemma MoveIsListed(before: seq<Component>, after: seq<Component>, o: Component, n: Component)
    requires DistinctIds(before) && DistinctIds(after) && MovedKey(before, after, KeyOf(o))
    requires o in before && n in after && KeyOf(o) == KeyOf(n) && o.version != n.version
    ensures var ch := Replacement(MoveKind(o, n), o, n);
            ch in Diff(before, after) && IsMoveTo(ch, o, n) && ch.kind == MoveKind(o, n)
  {
    DiffListsExactly(before, after);
    hide Diff, MoveKind, KeyOf, HasId, DistinctIds, MovedKey;
    assert Expected(Replacement(MoveKind(o, n), o, n), before, after);
  }

  lemma MoveKinds(o: Component, n: Component)
    ensures MoveKind(o, n) in {Upgraded, Downgraded, Changed}
  {
  }

  predicate IsMoveTo(ch: Change, o: Component, n: Component) { ch.before == Some(o) && ch.after == Some(n) }

  lemma OneEach(before: seq<Component>, after: seq<Component>, o: Component, n: Component)
    requires DistinctIds(before) && DistinctIds(after)
    requires o in before && n in after && KeyOf(o) == KeyOf(n) && o.version != n.version
    requires forall c :: c in before && KeyOf(c) == KeyOf(o) ==> c == o
    requires forall c :: c in after && KeyOf(c) == KeyOf(o) ==> c == n
    ensures MovedKey(before, after, KeyOf(o))
  {
    var k := KeyOf(o);
    ItemsFacts(before, k);
    ItemsFacts(after, k);
    hide Items, KeyOf, DistinctIds;
    Only(Items(before, k), o);
    Only(Items(after, k), n);
  }

  lemma Only<T(!new)>(s: seq<T>, x: T)
    requires Distinct(s) && forall y :: y in s <==> y == x
    ensures s == [x]
  {
    DistinctSameMultiset(s, [x]);
    assert |s| == |multiset(s)| == |multiset([x])|;
    assert s[0] in s;
  }

  // ---------- the order of the changes ----------

  /** Removals stand before additions, and additions before changes. */
  function PlaceOf(ch: Change): nat {
    if ch.after.None? then 0 else if ch.before.None? then 1 else 2
  }

  /** The text the changes are sorted by: ecosystem and lower-cased name of the component. */
  ghost function SortKey(ch: Change): string
    requires HasEnd(ch)
  {
    var c := if ch.before.Some? then ch.before.value else ch.after.value;
    EcosystemName(c.ecosystem) + ":" + LowerAscii(c.name)
  }

  /** a may stand before b. */
  ghost predicate InOrder(a: Change, b: Change) {
    && HasEnd(a) && HasEnd(b) && StringLeq(SortKey(a), SortKey(b))
    && (ChangeKey(a) == ChangeKey(b) ==> PlaceOf(a) <= PlaceOf(b))
  }

  lemma {:induction false} RemarksPlace(olds: seq<Component>, news: seq<Component>, versions: seq<string>)
    requires InBoth(olds, news, versions)
    ensures forall ch :: ch in Remarks(olds, news, versions) ==> PlaceOf(ch) == 2
  {
    hide Remarked, Entry, HasVersion;
    if versions != [] {
      RemarksPlace(olds, news, versions[..|versions| - 1]);
    }
  }

  lemma GroupInOrder(olds: seq<Component>, news: seq<Component>, i: nat, j: nat)
    requires i < j < |GroupChanges(olds, news)|
    ensures PlaceOf(GroupChanges(olds, news)[i]) <= PlaceOf(GroupChanges(olds, news)[j])
  {
    hide Filter, Shared, MoveKind, Remarks, Lacks;
    if !IsMove(olds, news) {
      var removed, added := Removals(Filter(olds, Lacks(news))), Additions(Filter(news, Lacks(olds)));
      var changed := Remarks(olds, news, Shared(olds, news));
      RemarksPlace(olds, news, Shared(olds, news));
      assert GroupChanges(olds, news) == removed + added + changed;
      assert forall ch :: ch in changed ==> PlaceOf(ch) == 2;
      if j >= |removed| + |added| {
        assert changed[j - |removed| - |added|] in changed;
      }
    }
  }

  lemma {:induction false} OverInOrder(keys: seq<Key>, before: seq<Component>, after: seq<Component>, i: nat, j: nat)
    requires DistinctIds(before) && DistinctIds(after) && Distinct(keys) && Sorted(KeyLeq, keys)
    requires i < j < |ChangesOver(keys, before, after)|
    ensures InOrder(ChangesOver(keys, before, after)[i], ChangesOver(keys, before, after)[j])
  {
    hide *;
    ChangesSplit(keys, before, after);
    var n := |keys| - 1;
    var front, k := keys[..n], keys[n];
    var head, last := ChangesOver(front, before, after), GroupChanges(Items(before, k), Items(after, k));
    KeysSplit(keys);
    KeysIn(front, before, after);
    KeysIn([k], before, after);
    OneKey(k, before, after);
    if j < |head| {
      OverInOrder(front, before, after, i, j);
    } else if i < |head| {
      assert head[i] in head && last[j - |head|] in last;
      HigherKey(front, k, head[i], last[j - |head|]);
    } else {
      assert last[i - |head|] in last && last[j - |head|] in last;
      GroupInOrder(Items(before, k), Items(after, k), i - |head|, j - |head|);
      SameKeys(last[i - |head|], last[j - |head|]);
    }
  }

  lemma ChangesSplit(keys: seq<Key>, before: seq<Component>, after: seq<Component>)
    ensures keys == [] ==> ChangesOver(keys, before, after) == []
    ensures keys != [] ==>
              var n := |keys| - 1;
              ChangesOver(keys, before, after)
              == ChangesOver(keys[..n], before, after) + GroupChanges(Items(before, keys[n]), Items(after, keys[n]))
  {
    hide GroupChanges;
  }

  lemma KeysSplit(keys: seq<Key>)
    requires keys != [] && Distinct(keys) && Sorted(KeyLeq, keys)
    ensures var front, k := keys[..|keys| - 1], keys[|keys| - 1];
            Distinct(front) && Sorted(KeyLeq, front) && Distinct([k])
            && forall x :: x in front ==> x != k && KeyLeq(x, k)
  {
    hide KeyLeq;
  }

  lemma KeysIn(keys: seq<Key>, before: seq<Component>, after: seq<Component>)
    requires DistinctIds(before) && DistinctIds(after) && Distinct(keys)
    ensures forall ch :: ch in ChangesOver(keys, before, after) ==> HasEnd(ch) && ChangeKey(ch) in keys
  {
    ChangesOverAre(keys, before, after);
    hide ChangesOver, Expected;
  }

  lemma HigherKey(front: seq<Key>, k: Key, a: Change, b: Change)
    requires HasEnd(a) && HasEnd(b) && ChangeKey(a) in front && ChangeKey(b) in [k]
    requires forall x :: x in front ==> x != k && KeyLeq(x, k)
    ensures InOrder(a, b)
  {
    hide KeyLeq;
    DifferentKeys(a, b);
  }

  lemma OneKey(k: Key, before: seq<Component>, after: seq<Component>)
    ensures ChangesOver([k], before, after) == GroupChanges(Items(before, k), Items(after, k))
  {
    hide GroupChanges;
    assert [k][..0] == [];
    assert ChangesOver([], before, after) == [];
  }

  lemma DifferentKeys(a: Change, b: Change)
    requires HasEnd(a) && HasEnd(b) && KeyLeq(ChangeKey(a), ChangeKey(b)) && ChangeKey(a) != ChangeKey(b)
    ensures InOrder(a, b)
  {
    hide StringLeq, EcosystemName;
  }

  lemma SameKeys(a: Change, b: Change)
    requires HasEnd(a) && HasEnd(b) && PlaceOf(a) <= PlaceOf(b)
    requires exists k :: ChangeKey(a) in [k] && ChangeKey(b) in [k]
    ensures InOrder(a, b)
  {
    hide EcosystemName;
    assert SortKey(a) == SortKey(b);
    StringIsTotalOrder([]);
    hide StringLeq;
  }

  /** The changes are listed by ecosystem and name, and for each component removals first and changes last. */
  lemma ChangesInOrder(before: seq<Component>, after: seq<Component>, i: nat, j: nat)
    requires DistinctIds(before) && DistinctIds(after) && i < j < |Diff(before, after)|
    ensures InOrder(Diff(before, after)[i], Diff(before, after)[j])
  {
    AllKeysAre(before, after);
    KeysSorted(before, after);
    hide AllKeys, ChangesOver, InOrder, DistinctIds;
    OverInOrder(AllKeys(before, after), before, after, i, j);
  }

  lemma KeysSorted(before: seq<Component>, after: seq<Component>)
    ensures Sorted(KeyLeq, AllKeys(before, after))
  {
    StringIsTotalOrder([]);
    hide StringLeq, EcosystemName;
    assert TotalPreorder(KeyLeq);
    SortSorted(KeyLeq, Unique(Unique(KeysOf(before)) + Unique(KeysOf(after))));
    hide Sort, Unique, KeyLeq;
  }

  /** The place of an ecosystem in the alphabet. */
  function Alphabetical(e: Inventory.Ecosystem): nat {
    match e
    case Apk => 0 case Cargo => 1 case Conan => 2 case Deb => 3 case Go => 4 case Maven => 5 case Npm => 6
    case Nuget => 7 case Pypi => 8 case Rpm => 9 case Vcpkg => 10
  }

  lemma FirstTwo(e: Inventory.Ecosystem)
    ensures var name := EcosystemName(e);
            && |name| >= 2
            && name[0] == "accdgmnnprv"[Alphabetical(e)] && name[1] == "paoeoapuypc"[Alphabetical(e)]
  {
  }

  lemma TwoDecide(a: string, b: string)
    requires |a| >= 2 && |b| >= 2 && StringLeq(a, b)
    ensures a[0] < b[0] || (a[0] == b[0] && a[1] <= b[1])
  {
    LexIff(CharCode, a, b);
    var k: nat :| LexAt(CharCode, a, b, k);
  }

  /** So the ecosystems come in alphabetical order. */
  lemma EcosystemsInOrder(before: seq<Component>, after: seq<Component>, i: nat, j: nat)
    requires DistinctIds(before) && DistinctIds(after) && i < j < |Diff(before, after)|
    ensures var a, b := Diff(before, after)[i], Diff(before, after)[j];
            HasEnd(a) && HasEnd(b) && Alphabetical(ChangeKey(a).0) <= Alphabetical(ChangeKey(b).0)
  {
    ChangesInOrder(before, after, i, j);
    var a, b := Diff(before, after)[i], Diff(before, after)[j];
    hide *;
    KeysInOrder(a, b);
  }

  lemma KeysInOrder(a: Change, b: Change)
    requires InOrder(a, b)
    ensures HasEnd(a) && HasEnd(b) && Alphabetical(ChangeKey(a).0) <= Alphabetical(ChangeKey(b).0)
  {
    hide StringLeq, EcosystemName, Alphabetical;
    var x, y := ChangeKey(a).0, ChangeKey(b).0;
    NamesInOrder(x, ChangeKey(a).1, y, ChangeKey(b).1);
  }

  lemma NamesInOrder(x: Inventory.Ecosystem, p: string, y: Inventory.Ecosystem, q: string)
    requires StringLeq(EcosystemName(x) + ":" + p, EcosystemName(y) + ":" + q)
    ensures Alphabetical(x) <= Alphabetical(y)
  {
    FirstTwo(x);
    FirstTwo(y);
    hide EcosystemName, Alphabetical, StringLeq;
    TwoDecide(EcosystemName(x) + ":" + p, EcosystemName(y) + ":" + q);
    LettersInOrder(x, y);
  }

  lemma LettersInOrder(x: Inventory.Ecosystem, y: Inventory.Ecosystem)
    requires var i, j := Alphabetical(x), Alphabetical(y);
             || "accdgmnnprv"[i] < "accdgmnnprv"[j]
             || ("accdgmnnprv"[i] == "accdgmnnprv"[j] && "paoeoapuypc"[i] <= "paoeoapuypc"[j])
    ensures Alphabetical(x) <= Alphabetical(y)
  {
  }
}
