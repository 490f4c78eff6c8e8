/** Dependency components, their identities, and the deduplication of a snapshot
    (uniq in src/dependencies/discover.ts). */
module Components {
  import opened Wrappers
  import opened Text
  import opened Sorting
  import opened Inventory

  datatype Component = Component(
    ecosystem: Ecosystem, name: string, version: string, direct: bool, source: string, replacedFrom: Option<string>,
    purl: string)

  /** Ecosystem and lower-cased name. */
  type Key = (Ecosystem, string)

  function KeyOf(c: Component): Key { (c.ecosystem, LowerAscii(c.name)) }

  datatype Identity = Identity(key: Key, version: string)

  function IdentityOf(c: Component): Identity { Identity(KeyOf(c), c.version) }

  // ---------- deduplication ----------

  function Find(components: seq<Component>, id: Identity): Option<nat> {
    if components == [] then None
    else if IdentityOf(components[|components| - 1]) == id then Some(|components| - 1)
    else Find(components[..|components| - 1], id)
  }

  lemma {:induction false} FindFacts(components: seq<Component>, id: Identity)
    ensures Find(components, id).None? <==> forall i :: 0 <= i < |components| ==> IdentityOf(components[i]) != id
    ensures Find(components, id).Some? ==>
              Find(components, id).value < |components| && IdentityOf(components[Find(components, id).value]) == id
  {
    hide IdentityOf;
    if components != [] {
      FindFacts(components[..|components| - 1], id);
    }
  }

  /** The map of uniq after one more component, as its entries in insertion order. */
  function Keep(kept: seq<Component>, c: Component): seq<Component> {
    FindFacts(kept, IdentityOf(c));
    match Find(kept, IdentityOf(c))
    case None => kept + [c]
    case Some(i) => if !kept[i].direct && c.direct then kept[i := c] else kept
  }

  function Deduplicated(components: seq<Component>): seq<Component> {
    if components == [] then []
    else Keep(Deduplicated(components[..|components| - 1]), components[|components| - 1])
  }

  ghost predicate DistinctIds(components: seq<Component>) {
    forall i, j :: 0 <= i < j < |components| ==> IdentityOf(components[i]) != IdentityOf(components[j])
  }

  ghost predicate HasId(components: seq<Component>, id: Identity) {
    exists c :: c in components && IdentityOf(c) == id
  }

  ghost predicate HasDirect(components: seq<Component>, id: Identity) {
    exists c :: c in components && IdentityOf(c) == id && c.direct
  }

  /** kept has one of the components for each of their identities, a direct one when there is one. */
  ghost predicate Represents(kept: seq<Component>, components: seq<Component>) {
    && DistinctIds(kept)
    && (forall c :: c in kept ==> c in components)
    && (forall id :: HasId(components, id) <==> HasId(kept, id))
    && (forall id :: HasDirect(components, id) <==> HasDirect(kept, id))
  }

  lemma KeepRepresents(kept: seq<Component>, front: seq<Component>, c: Component)
    requires Represents(kept, front)
    ensures Represents(Keep(kept, c), front + [c])
  {
    var id := IdentityOf(c);
    FindFacts(kept, id);
    var r := Keep(kept, c);
    assert forall x :: x in front + [c] <==> x in front || x == c;
    forall x ensures HasId(front + [c], x) <==> HasId(front, x) || x == id {
      assert c in front + [c];
    }
    forall x ensures HasDirect(front + [c], x) <==> HasDirect(front, x) || (x == id && c.direct) {
      assert c in front + [c];
    }
    match Find(kept, id) {
      case None =>
        assert r == kept + [c];
        assert forall x :: x in r <==> x in kept || x == c;
      case Some(i) =>
        assert kept[i] in kept;
        if !kept[i].direct && c.direct {
          ReplaceMembers(kept, i, c);
        }
    }
    hide IdentityOf;
    KeepIds(kept, c);
  }

  lemma ReplaceMembers(kept: seq<Component>, i: nat, c: Component)
    requires i < |kept|
    ensures forall x :: x in kept[i := c] ==> x in kept || x == c
    ensures c in kept[i := c]
    ensures forall x :: x in kept && x != kept[i] ==> x in kept[i := c]
  {
    assert kept[i := c][i] == c;
    forall x | x in kept && x != kept[i] ensures x in kept[i := c] {
      var j :| 0 <= j < |kept| && kept[j] == x;
      assert kept[i := c][j] == x;
    }
  }

  lemma KeepIds(kept: seq<Component>, c: Component)
    requires DistinctIds(kept)
    ensures DistinctIds(Keep(kept, c))
    ensures forall x :: HasId(Keep(kept, c), x) <==> HasId(kept, x) || x == IdentityOf(c)
    ensures forall x :: HasDirect(Keep(kept, c), x) <==> HasDirect(kept, x) || (x == IdentityOf(c) && c.direct)
  {
    var id := IdentityOf(c);
    FindFacts(kept, id);
    var r := Keep(kept, c);
    match Find(kept, id) {
      case None =>
        assert forall x :: x in r <==> x in kept || x == c;
      case Some(i) =>
        ReplaceMembers(kept, i, c);
        assert kept[i] in kept;
        forall x | x in kept && IdentityOf(x) == id ensures x == kept[i] {
          var j :| 0 <= j < |kept| && kept[j] == x;
        }
    }
  }

  lemma {:induction false} DeduplicatedRepresents(components: seq<Component>)
    ensures Represents(Deduplicated(components), components)
  {
    if components != [] {
      var front, last := components[..|components| - 1], components[|components| - 1];
      DeduplicatedRepresents(front);
      KeepRepresents(Deduplicated(front), front, last);
      assert front + [last] == components;
    }
  }

  /** c stands at k, and before it there is nothing with its identity except, for a direct c, entries
      that are not direct; a c that is not direct has no direct entry beside it. */
  ghost predicate IsChosenAt(components: seq<Component>, c: Component, k: nat) {
    && k < |components| && components[k] == c
    && (forall l :: 0 <= l < k && IdentityOf(components[l]) == IdentityOf(c) ==> c.direct && !components[l].direct)
    && (forall l :: 0 <= l < |components| && IdentityOf(components[l]) == IdentityOf(c) && components[l].direct
                    ==> c.direct)
  }

  ghost predicate IsChosen(components: seq<Component>, c: Component) {
    exists k: nat :: IsChosenAt(components, c, k)
  }

  lemma StaysChosen(front: seq<Component>, x: Component, c: Component)
    requires IsChosen(front, x) && (IdentityOf(x) == IdentityOf(c) && c.direct ==> x.direct)
    ensures IsChosen(front + [c], x)
  {
    hide IdentityOf;
    var k: nat :| IsChosenAt(front, x, k);
    assert IsChosenAt(front + [c], x, k);
  }

  lemma IsFirstDirect(front: seq<Component>, c: Component)
    requires forall l :: 0 <= l < |front| && IdentityOf(front[l]) == IdentityOf(c) ==> c.direct && !front[l].direct
    ensures IsChosen(front + [c], c)
  {
    hide IdentityOf;
    assert IsChosenAt(front + [c], c, |front|);
  }

  /** Of the components with one identity the first direct one is kept, or the first one when none is direct. */
  lemma {:induction false} KeepsFirstDirect(components: seq<Component>)
    ensures forall c :: c in Deduplicated(components) ==> IsChosen(components, c)
  {
    hide IdentityOf, IsChosen;
    if components != [] {
      var front, c := components[..|components| - 1], components[|components| - 1];
      KeepsFirstDirect(front);
      DeduplicatedRepresents(front);
      assert front + [c] == components;
      var kept := Deduplicated(front);
      FindFacts(kept, IdentityOf(c));
      forall x | x in Keep(kept, c) ensures IsChosen(components, x) {
        KeptIsChosen(front, kept, c, x);
      }
    }
  }

  lemma KeptIsChosen(front: seq<Component>, kept: seq<Component>, c: Component, x: Component)
    requires Represents(kept, front) && (forall y :: y in kept ==> IsChosen(front, y)) && x in Keep(kept, c)
    ensures IsChosen(front + [c], x)
  {
    var id := IdentityOf(c);
    FindFacts(kept, id);
    var found := Find(kept, id);
    hide IdentityOf, Find, DistinctIds;
    if found.None? {
      assert !HasId(kept, id);
      assert forall l :: 0 <= l < |front| ==> front[l] in front;
      if x == c {
        IsFirstDirect(front, c);
      } else {
        StaysChosen(front, x, c);
      }
    } else {
      var held := kept[found.value];
      assert held in kept;
      ChosenIsAlone(front, held);
      if x in kept && (IdentityOf(x) == id && c.direct ==> x.direct) {
        StaysChosen(front, x, c);
      } else {
        OnlyOldGoes(kept, found.value, c, x);
        IsFirstDirect(front, c);
      }
    }
  }

  lemma ChosenIsAlone(front: seq<Component>, held: Component)
    requires IsChosen(front, held)
    ensures !held.direct ==>
              forall l :: 0 <= l < |front| && IdentityOf(front[l]) == IdentityOf(held) ==> !front[l].direct
  {
    hide IdentityOf;
  }

  lemma OnlyOldGoes(kept: seq<Component>, i: nat, c: Component, x: Component)
    requires i < |kept| && DistinctIds(kept) && IdentityOf(kept[i]) == IdentityOf(c)
    requires x in if !kept[i].direct && c.direct then kept[i := c] else kept
    requires x !in kept || (IdentityOf(x) == IdentityOf(c) && c.direct && !x.direct)
    ensures x == c && c.direct && !kept[i].direct
  {
    hide IdentityOf;
    var r := if !kept[i].direct && c.direct then kept[i := c] else kept;
    assert forall j :: 0 <= j < |r| ==> r[j] == kept[j] || (j == i && r[j] == c);
  }

  function Identities(components: seq<Component>): (r: seq<Identity>)
    ensures |r| == |components| && forall i :: 0 <= i < |r| ==> r[i] == IdentityOf(components[i])
  {
    seq(|components|, i requires 0 <= i < |components| => IdentityOf(components[i]))
  }

  /** The identities are kept in the order of their first occurrence. */
  lemma {:induction false} FirstSeenOrder(components: seq<Component>)
    ensures Identities(Deduplicated(components)) == Unique(Identities(components))
  {
    hide IdentityOf, Keep;
    if components != [] {
      var front, c := components[..|components| - 1], components[|components| - 1];
      FirstSeenOrder(front);
      KeptIdentities(Deduplicated(front), c);
      var ids := Identities(components);
      assert ids[..|ids| - 1] == Identities(front) && ids[|ids| - 1] == IdentityOf(c);
      hide Identities;
    }
  }

  lemma KeptIdentities(kept: seq<Component>, c: Component)
    ensures var ids, id := Identities(kept), IdentityOf(c);
            Identities(Keep(kept, c)) == if id in ids then ids else ids + [id]
  {
    hide IdentityOf, Find;
    var id := IdentityOf(c);
    FindFacts(kept, id);
    if Find(kept, id).Some? {
      assert Identities(kept)[Find(kept, id).value] == id;
      assert Identities(Keep(kept, c)) == Identities(kept);
    } else {
      assert Identities(kept + [c]) == Identities(kept) + [id];
    }
  }

  lemma SortDistinctIds(leq: (Component, Component) -> bool, kept: seq<Component>)
    requires DistinctIds(kept)
    ensures DistinctIds(Sort(leq, kept))
  {
    var sorted := Sort(leq, kept);
    SortMembers(leq, kept);
    assert Distinct(kept);
    PermutedDistinct(kept, sorted);
    hide Sort;
    forall i, j | 0 <= i < j < |sorted| ensures IdentityOf(sorted[i]) != IdentityOf(sorted[j]) {
      assert sorted[i] in kept && sorted[j] in kept && sorted[i] != sorted[j];
    }
  }

  /** Sorting keeps what a snapshot represents. */
  lemma SortRepresents(leq: (Component, Component) -> bool, kept: seq<Component>, components: seq<Component>)
    requires Represents(kept, components)
    ensures Represents(Sort(leq, kept), components)
  {
    SortMembers(leq, kept);
    SortDistinctIds(leq, kept);
    hide IdentityOf, Sort, DistinctIds;
  }

  /** The result is sorted by a collation of the identity's text, taken as a parameter. */
  method Uniq(components: seq<Component>, leq: (Component, Component) -> bool) returns (r: seq<Component>)
    ensures r == Sort(leq, Deduplicated(components))
    ensures Represents(r, components)
  {
    hide Keep;
    var kept: seq<Component> := [];
    var i := 0;
    while i < |components|
      invariant 0 <= i <= |components|
      invariant kept == Deduplicated(components[..i])
    {
      assert components[..i + 1][..i] == components[..i];
      kept := Keep(kept, components[i]);
      i := i + 1;
    }
    assert components[..i] == components;
    DeduplicatedRepresents(components);
    SortRepresents(leq, kept, components);
    return Sort(leq, kept);
  }
}
