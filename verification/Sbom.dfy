/** The CycloneDX writer of src/sbom/generate.ts, and the proof that the inventory reader undoes it. */
module Sbom {
  import opened Wrappers
  import opened Text
  import opened Sorting
  import opened DependencyGraph
  import opened Inventory

  /** A component as the native discovery reports it, with the purls it depends on. */
  datatype Package = Package(
    ecosystem: Ecosystem, name: string, version: string, purl: string, direct: bool, dev: bool,
    license: Option<string>, dependencies: seq<string>)

  /** The root reference; both parts come out of encodeURIComponent. */
  function RootRef(repository: string, commit: string): string {
    "pkg:generic/" + repository + "@" + commit
  }

  function Item(c: Package): BomComponent {
    BomComponent(
      Some(c.name), Some(c.version), Some(c.purl), Some(c.purl), Some(if c.dev then "optional" else "required"), None,
      if c.license.Some? && c.license.value != "" then [LicenseEntry(None, c.license, None)] else [])
  }

  function Items(components: seq<Package>): (r: seq<Option<BomComponent>>)
    ensures |r| == |components| && forall i :: 0 <= i < |r| ==> r[i] == Some(Item(components[i]))
  {
    seq(|components|, i requires 0 <= i < |components| => Some(Item(components[i])))
  }

  predicate IsRef(components: seq<Package>, ref: string) {
    exists i :: 0 <= i < |components| && components[i].purl == ref
  }

  function Somes(values: seq<string>): (r: seq<Option<string>>)
    ensures |r| == |values| && forall i :: 0 <= i < |r| ==> r[i] == Some(values[i])
  {
    seq(|values|, i requires 0 <= i < |values| => Some(values[i]))
  }

  function Known(components: seq<Package>, refs: seq<string>): (r: seq<string>)
    ensures forall x :: x in r <==> x in refs && IsRef(components, x)
  {
    if refs == [] then []
    else
      assert refs == [refs[0]] + refs[1..];
      (if IsRef(components, refs[0]) then [refs[0]] else []) + Known(components, refs[1..])
  }

  function DirectRefs(components: seq<Package>): (r: seq<string>)
    ensures forall x :: x in r <==> exists c :: c in components && c.direct && c.purl == x
  {
    if components == [] then []
    else
      assert components == [components[0]] + components[1..];
      (if components[0].direct then [components[0].purl] else []) + DirectRefs(components[1..])
  }

  function DependencyOf(components: seq<Package>, c: Package): Dependency {
    Dependency(Some(c.purl), Some(Somes(Known(components, c.dependencies))))
  }

  /** The dependency entries of the first n components. */
  function DependenciesOf(components: seq<Package>, n: nat): seq<Dependency>
    requires n <= |components|
  {
    if n == 0 then [] else DependenciesOf(components, n - 1) + [DependencyOf(components, components[n - 1])]
  }

  function CycloneDxSbom(repository: string, commit: string, components: seq<Package>): Document {
    Document(
      Some("CycloneDX"), Some("1.5"), Some(RootRef(repository, commit)),
      Some(Items(components)),
      Some([Dependency(Some(RootRef(repository, commit)), Some(Somes(DirectRefs(components))))]
           + DependenciesOf(components, |components|)))
  }

  // ---------- what is written ----------

  ghost predicate HasItem(document: Document, ref: string) {
    && document.components.Some?
    && exists item :: item in document.components.value && item.Some? && item.value.bomRef == Some(ref)
  }

  /** The entry is for the root or an item of the document, and depends on items only. */
  ghost predicate RefersToItems(document: Document, d: Dependency) {
    && d.ref.Some? && (d.ref == document.rootRef || HasItem(document, d.ref.value))
    && d.dependsOn.Some? && forall x :: x in d.dependsOn.value ==> x.Some? && HasItem(document, x.value)
  }

  /** Every ref in the dependencies is that of the root or of an item of the document. */
  lemma RefsAreItems(repository: string, commit: string, components: seq<Package>)
    ensures var document := CycloneDxSbom(repository, commit, components);
            document.dependencies.Some? && forall d :: d in document.dependencies.value ==> RefersToItems(document, d)
  {
    hide RefersToItems, DependencyOf, DependenciesOf, Items, DirectRefs, Somes, RootRef;
    DependenciesWritten(components, |components|);
    RootRefers(repository, commit, components);
    forall c | c in components
      ensures RefersToItems(CycloneDxSbom(repository, commit, components), DependencyOf(components, c))
    {
      EntryRefers(repository, commit, components, c);
    }
  }

  lemma ItemFor(repository: string, commit: string, components: seq<Package>, ref: string)
    requires IsRef(components, ref)
    ensures HasItem(CycloneDxSbom(repository, commit, components), ref)
  {
    hide DependenciesOf, RootRef;
    var i :| 0 <= i < |components| && components[i].purl == ref;
    assert Items(components)[i] == Some(Item(components[i]));
  }

  lemma EntryRefers(repository: string, commit: string, components: seq<Package>, c: Package)
    requires c in components
    ensures RefersToItems(CycloneDxSbom(repository, commit, components), DependencyOf(components, c))
  {
    hide CycloneDxSbom, HasItem;
    var i :| 0 <= i < |components| && components[i] == c;
    ItemFor(repository, commit, components, c.purl);
    forall x | x in Known(components, c.dependencies) ensures HasItem(CycloneDxSbom(repository, commit, components), x) {
      ItemFor(repository, commit, components, x);
    }
  }

  lemma RootRefers(repository: string, commit: string, components: seq<Package>)
    ensures RefersToItems(CycloneDxSbom(repository, commit, components),
                          Dependency(Some(RootRef(repository, commit)), Some(Somes(DirectRefs(components)))))
  {
    hide HasItem, Items, DependenciesOf;
    forall x | x in DirectRefs(components) ensures HasItem(CycloneDxSbom(repository, commit, components), x) {
      var c :| c in components && c.direct && c.purl == x;
      var i :| 0 <= i < |components| && components[i] == c;
      ItemFor(repository, commit, components, x);
    }
  }

  lemma {:induction false} DependenciesWritten(components: seq<Package>, n: nat)
    requires n <= |components|
    ensures forall d :: d in DependenciesOf(components, n)
                        ==> exists c :: c in components && d == DependencyOf(components, c)
  {
    hide DependencyOf;
    if n > 0 {
      DependenciesWritten(components, n - 1);
      assert components[n - 1] in components;
    }
  }

  /** An item has its purl for a ref, and its license as an id. */
  lemma ItemsAreWritten(repository: string, commit: string, components: seq<Package>, i: nat)
    requires i < |components|
    ensures var c, document := components[i], CycloneDxSbom(repository, commit, components);
            && document.components.Some? && |document.components.value| == |components|
            && var item := document.components.value[i];
               && item.Some? && item.value.bomRef == item.value.purl == Some(c.purl)
               && item.value.name == Some(c.name) && item.value.version == Some(c.version)
               && item.value.scope == Some(if c.dev then "optional" else "required")
               && (forall l :: l in item.value.licenses ==> l.expression.None? && l.name.None? && l.id == c.license)
               && (item.value.licenses == [] <==> c.license.None? || c.license.value == "")
  {
  }

  // ---------- what a reader can be asked to recover ----------

  predicate DistinctPurls(components: seq<Package>) {
    forall i, j :: 0 <= i < j < |components| ==> components[i].purl != components[j].purl
  }

  /** Texts are trimmed, the purl is well formed and names the component's own ecosystem. */
  predicate WellFormed(c: Package) {
    && IsTrimmed(c.name) && '\0' !in c.name
    && IsTrimmed(c.version)
    && IsTrimmed(c.purl) && IsPurl(c.purl) && EcosystemFromPurl(c.purl) == Some(c.ecosystem)
    && (c.license.Some? ==> c.license.value == "" || IsTrimmed(c.license.value))
  }

  /** A component with purl from depends on the written purl to. */
  ghost predicate DependsOn(components: seq<Package>, from: string, to: string) {
    IsRef(components, to) && exists c :: c in components && c.purl == from && to in c.dependencies
  }

  /** A chain of written components, from a direct one along their dependencies. */
  ghost predicate DependencyChain(components: seq<Package>, chain: seq<string>) {
    && chain != []
    && (exists c :: c in components && c.direct && c.purl == chain[0])
    && (forall i :: 0 < i < |chain| ==> DependsOn(components, chain[i - 1], chain[i]))
  }

  ghost predicate Needed(components: seq<Package>, purl: string) {
    exists chain :: DependencyChain(components, chain) && chain[|chain| - 1] == purl
  }

  predicate IsOs(e: Ecosystem) { e == Apk || e == Deb || e == Rpm }

  // ---------- the edges that are read back ----------

  lemma RootIsNoPurl(repository: string, commit: string, c: Package)
    requires WellFormed(c)
    ensures c.purl != RootRef(repository, commit)
  {
    hide IsTrimmed, IsPurl, PurlType, RootRef;
    RootType(repository, commit);
    assert EcosystemFromPurl(RootRef(repository, commit)).None?;
  }

  lemma RootType(repository: string, commit: string)
    ensures PurlType(RootRef(repository, commit)) == Some("generic")
  {
    hide UpToSlash, LowerAscii;
    var root := RootRef(repository, commit);
    GenericType(repository + "@" + commit);
    LowerGeneric();
    assert root[..4] == "pkg:" && root[4] == 'g';
    assert root[4..] == "generic/" + (repository + "@" + commit);
  }

  lemma LowerGeneric()
    ensures LowerAscii("generic") == "generic"
  {
  }

  lemma GenericType(rest: string)
    ensures UpToSlash("generic/" + rest) == "generic"
  {
    TypePrefix("generic", rest);
    assert "generic/" + rest == "generic" + ("/" + rest);
  }

  lemma {:induction false} TypePrefix(t: string, rest: string)
    requires '/' !in t
    ensures UpToSlash(t + ("/" + rest)) == t
  {
    if t == "" {
      assert t + ("/" + rest) == "/" + rest;
    } else {
      assert (t + ("/" + rest))[1..] == t[1..] + ("/" + rest);
      TypePrefix(t[1..], rest);
      assert t == [t[0]] + t[1..];
    }
  }

  lemma NonemptyRefs(values: seq<string>)
    requires "" !in values
    ensures forall x :: x in NonemptyStrings(Somes(values)) <==> x in values
  {
    forall x ensures x in NonemptyStrings(Somes(values)) <==> x in values {
      if x in values {
        var i :| 0 <= i < |values| && values[i] == x;
        assert Somes(values)[i] == Some(x);
      }
      if Some(x) in Somes(values) {
        var i :| 0 <= i < |values| && Somes(values)[i] == Some(x);
      }
    }
  }

  /** The edges hold the root's direct refs and the dependencies of the first n components. */
  ghost predicate Written(edges: Edges, root: Dependency, components: seq<Package>, n: nat)
    requires n <= |components| && root.ref.Some? && root.dependsOn.Some?
  {
    && root.ref.value in edges && edges[root.ref.value] == NonemptyStrings(root.dependsOn.value)
    && (forall i :: 0 <= i < n ==>
          && components[i].purl in edges
          && edges[components[i].purl] == NonemptyStrings(Somes(Known(components, components[i].dependencies))))
    && (forall k :: k in edges ==> k == root.ref.value || exists i :: 0 <= i < n && components[i].purl == k)
  }

  lemma WrittenStep(edges: Edges, root: Dependency, components: seq<Package>, n: nat)
    requires n < |components| && DistinctPurls(components)
    requires root.ref.Some? && root.dependsOn.Some? && components[n].purl != root.ref.value
    requires Written(edges, root, components, n)
    ensures var refs := NonemptyStrings(Somes(Known(components, components[n].dependencies)));
            Written(edges[components[n].purl := refs], root, components, n + 1)
  {
    hide NonemptyStrings, Known;
  }

  lemma WrittenRoot(root: Dependency, components: seq<Package>)
    requires root.ref.Some? && root.dependsOn.Some?
    ensures Written(EdgesOf([root] + DependenciesOf(components, 0)), root, components, 0)
  {
    EdgesSnoc([], root);
    assert [root] + DependenciesOf(components, 0) == [] + [root];
    assert EdgesOf([]) == map[];
    hide EdgesOf, NonemptyStrings;
  }

  lemma {:induction false} WrittenEdges(root: Dependency, components: seq<Package>, n: nat)
    requires n <= |components| && DistinctPurls(components)
    requires root.ref.Some? && root.dependsOn.Some?
    requires forall i :: 0 <= i < |components| ==> components[i].purl != root.ref.value
    ensures Written(EdgesOf([root] + DependenciesOf(components, n)), root, components, n)
  {
    hide EdgesOf, Written, NonemptyStrings, Known, DistinctPurls;
    if n == 0 {
      WrittenRoot(root, components);
    } else {
      WrittenEdges(root, components, n - 1);
      var c := components[n - 1];
      var before, d := DependenciesOf(components, n - 1), DependencyOf(components, c);
      assert DependenciesOf(components, n) == before + [d];
      hide DependenciesOf;
      EdgesSnoc([root] + before, d);
      WrittenStep(EdgesOf([root] + before), root, components, n - 1);
      assert [root] + (before + [d]) == ([root] + before) + [d];
    }
  }

  lemma EdgesSnoc(front: seq<Dependency>, d: Dependency)
    requires d.ref.Some? && d.dependsOn.Some?
    ensures EdgesOf(front + [d]) == EdgesOf(front)[d.ref.value := NonemptyStrings(d.dependsOn.value)]
  {
    assert (front + [d])[..|front|] == front;
  }

  lemma PurlsNonempty(components: seq<Package>, refs: seq<string>)
    requires forall c :: c in components ==> WellFormed(c)
    requires forall x :: x in refs ==> IsRef(components, x)
    ensures "" !in refs
  {
    forall x | x in refs ensures x != "" {
      var i :| 0 <= i < |components| && components[i].purl == x;
      assert WellFormed(components[i]);
    }
  }

  /** The graph a reader builds from the written document. */
  ghost function WrittenGraph(repository: string, commit: string, components: seq<Package>): Graph {
    var d := CycloneDxSbom(repository, commit, components);
    GraphOf(d.rootRef, d.dependencies)
  }

  ghost predicate Readable(components: seq<Package>) {
    DistinctPurls(components) && forall c :: c in components ==> WellFormed(c)
  }

  lemma WrittenDirect(repository: string, commit: string, components: seq<Package>)
    requires Readable(components)
    ensures var g := WrittenGraph(repository, commit, components);
            && g.available
            && (forall x :: x in g.direct <==> x in DirectRefs(components))
            && exists edges: Edges ::
                 && g.reachable == ReachableRefs(edges, g.direct)
                 && EdgesAgree(edges, RootRef(repository, commit), components)
  {
    var rootRef := RootRef(repository, commit);
    var root := Dependency(Some(rootRef), Some(Somes(DirectRefs(components))));
    forall i | 0 <= i < |components| ensures components[i].purl != rootRef {
      RootIsNoPurl(repository, commit, components[i]);
    }
    WrittenEdges(root, components, |components|);
    var edges := EdgesOf([root] + DependenciesOf(components, |components|));
    hide EdgesOf, DependenciesOf, RootRef, ReachableRefs, WellFormed, NonemptyStrings, DirectRefs;
    WrittenAgree(edges, root, components);
    DirectRefsReadBack(components);
    GraphIs(repository, commit, components, root, edges);
  }

  lemma GraphIs(repository: string, commit: string, components: seq<Package>, root: Dependency, edges: Edges)
    requires root == Dependency(Some(RootRef(repository, commit)), Some(Somes(DirectRefs(components))))
    requires edges == EdgesOf([root] + DependenciesOf(components, |components|))
    requires Written(edges, root, components, |components|)
    ensures var direct := set x | x in NonemptyStrings(Somes(DirectRefs(components)));
            WrittenGraph(repository, commit, components) == Graph(true, direct, ReachableRefs(edges, direct))
  {
    hide EdgesOf, DependenciesOf, RootRef, ReachableRefs, NonemptyStrings, DirectRefs;
  }

  /** No direct reference is empty, so all of them are read. */
  lemma DirectRefsReadBack(components: seq<Package>)
    requires Readable(components)
    ensures forall x :: x in NonemptyStrings(Somes(DirectRefs(components))) <==> x in DirectRefs(components)
  {
    hide WellFormed;
    forall x | x in DirectRefs(components) ensures IsRef(components, x) {
      var c :| c in components && c.direct && c.purl == x;
      var i :| 0 <= i < |components| && components[i] == c;
    }
    PurlsNonempty(components, DirectRefs(components));
    NonemptyRefs(DirectRefs(components));
  }

  /** An edge other than the root's leads from a written component to a written dependency. */
  ghost predicate EdgesAgree(edges: Edges, rootRef: string, components: seq<Package>) {
    forall x, y :: x != rootRef ==> (y in Children(edges, x) <==> DependsOn(components, x, y))
  }

  lemma WrittenAgree(edges: Edges, root: Dependency, components: seq<Package>)
    requires root.ref.Some? && root.dependsOn.Some? && Readable(components)
    requires Written(edges, root, components, |components|)
    ensures EdgesAgree(edges, root.ref.value, components)
  {
    hide NonemptyStrings, Known, Written, Readable, Children, DependsOn;
    forall x, y | x != root.ref.value ensures y in Children(edges, x) <==> DependsOn(components, x, y) {
      if IsRef(components, x) {
        var i :| 0 <= i < |components| && components[i].purl == x;
        WrittenChildren(edges, root, components, i, y);
      } else {
        UnwrittenChildren(edges, root, components, x, y);
      }
    }
  }

  lemma WrittenChildren(edges: Edges, root: Dependency, components: seq<Package>, i: nat, y: string)
    requires root.ref.Some? && root.dependsOn.Some? && Readable(components) && i < |components|
    requires Written(edges, root, components, |components|)
    ensures y in Children(edges, components[i].purl) <==> DependsOn(components, components[i].purl, y)
  {
    hide NonemptyStrings, Known, WellFormed, DistinctPurls;
    assert components[i] in components;
    KnownReadBack(components, i);
    forall c | c in components && c.purl == components[i].purl ensures c == components[i] {
      SamePurl(components, c, components[i]);
    }
  }

  lemma UnwrittenChildren(edges: Edges, root: Dependency, components: seq<Package>, x: string, y: string)
    requires root.ref.Some? && root.dependsOn.Some? && x != root.ref.value && !IsRef(components, x)
    requires Written(edges, root, components, |components|)
    ensures y !in Children(edges, x) && !DependsOn(components, x, y)
  {
    hide NonemptyStrings, Known;
    forall c | c in components ensures c.purl != x {
      var j :| 0 <= j < |components| && components[j] == c;
    }
  }

  lemma SamePurl(components: seq<Package>, c: Package, d: Package)
    requires DistinctPurls(components) && c in components && d in components && c.purl == d.purl
    ensures c == d
  {
    var i :| 0 <= i < |components| && components[i] == c;
    var j :| 0 <= j < |components| && components[j] == d;
  }

  lemma KnownReadBack(components: seq<Package>, i: nat)
    requires Readable(components) && i < |components|
    ensures var refs := components[i].dependencies;
            forall y :: y in NonemptyStrings(Somes(Known(components, refs))) <==> y in refs && IsRef(components, y)
  {
    var known := Known(components, components[i].dependencies);
    PurlsNonempty(components, known);
    NonemptyRefs(known);
  }

  /** Walks in the read graph are exactly the dependency chains that were written. */
  lemma WalksAreChains(edges: Edges, rootRef: string, components: seq<Package>, direct: set<string>, path: seq<string>)
    requires EdgesAgree(edges, rootRef, components) && !IsRef(components, rootRef)
    requires forall x :: x in direct <==> x in DirectRefs(components)
    ensures IsPath(edges, direct, path) <==> DependencyChain(components, path)
  {
    hide Children;
    if IsPath(edges, direct, path) {
      var c :| c in components && c.direct && c.purl == path[0];
      forall i | 0 < i < |path| ensures DependsOn(components, path[i - 1], path[i]) {
        PathStaysWritten(edges, rootRef, components, direct, path, i - 1);
      }
    }
    if DependencyChain(components, path) {
      forall i | 0 < i < |path| ensures path[i] in Children(edges, path[i - 1]) {
        DependerIsWritten(components, path[i - 1], path[i]);
      }
    }
  }

  lemma DependerIsWritten(components: seq<Package>, from: string, to: string)
    requires DependsOn(components, from, to)
    ensures IsRef(components, from)
  {
    var c :| c in components && c.purl == from && to in c.dependencies;
    var i :| 0 <= i < |components| && components[i] == c;
  }

  lemma {:induction false} PathStaysWritten(edges: Edges, rootRef: string, components: seq<Package>,
                                            direct: set<string>, path: seq<string>, i: nat)
    requires EdgesAgree(edges, rootRef, components) && !IsRef(components, rootRef)
    requires forall x :: x in direct <==> x in DirectRefs(components)
    requires IsPath(edges, direct, path) && i < |path|
    ensures IsRef(components, path[i])
  {
    if i == 0 {
      var c :| c in components && c.direct && c.purl == path[0];
      var j :| 0 <= j < |components| && components[j] == c;
    } else {
      PathStaysWritten(edges, rootRef, components, direct, path, i - 1);
      assert path[i] in Children(edges, path[i - 1]);
    }
  }

  /** A written purl is reachable in the read graph exactly when a chain of dependencies leads to it. */
  lemma ReachableIffNeeded(repository: string, commit: string, components: seq<Package>, purl: string)
    requires Readable(components)
    ensures purl in WrittenGraph(repository, commit, components).reachable <==> Needed(components, purl)
  {
    var g := WrittenGraph(repository, commit, components);
    var rootRef := RootRef(repository, commit);
    WrittenDirect(repository, commit, components);
    var edges: Edges :| g.reachable == ReachableRefs(edges, g.direct) && EdgesAgree(edges, rootRef, components);
    forall i | 0 <= i < |components| ensures components[i].purl != rootRef {
      RootIsNoPurl(repository, commit, components[i]);
    }
    ReachesIsReachable(edges, g.direct, purl);
    hide WrittenGraph, RootRef, EdgesAgree, ReachableRefs;
    forall path ensures IsPath(edges, g.direct, path) <==> DependencyChain(components, path) {
      WalksAreChains(edges, rootRef, components, g.direct, path);
    }
    hide IsPath, DependencyChain;
  }

  // ---------- the round trip ----------

  /** The component a reader recovers. */
  ghost predicate Recovered(c: Package, r: Component, components: seq<Package>) {
    && r.purl == c.purl && r.name == c.name && r.version == c.version && r.ecosystem == c.ecosystem
    && r.license == (if c.license == Some("") then None else c.license)
    && r.inventoryScope == Some(if c.dev then "optional" else "required")
    && r.direct == (r.relationship == Direct)
    && (r.relationship == Os <==> IsOs(c.ecosystem))
    && (!IsOs(c.ecosystem) ==>
          && (r.relationship == Direct <==> c.direct)
          && (r.relationship == Transitive <==> !c.direct && Needed(components, c.purl)))
  }

  lemma LicenseRecovered(c: Package)
    requires c.license.Some? ==> c.license.value == "" || IsTrimmed(c.license.value)
    ensures ComponentLicense(Item(c)) == if c.license == Some("") then None else c.license
  {
    var item := Item(c);
    if c.license.Some? && c.license.value != "" {
      var e := item.licenses[0];
      assert item.licenses[1..] == [];
      assert LicenseValues(item.licenses) == [c.license.value];
      assert Unique([c.license.value]) == [c.license.value] by {
        assert [c.license.value][..0] == [];
      }
    }
  }

  lemma ScopesTrimmed()
    ensures IsTrimmed("optional") && IsTrimmed("required")
  {
  }

  lemma EntryFields(c: Package, g: Graph)
    requires WellFormed(c) && IsTrimmed("optional") && IsTrimmed("required")
    ensures var relationship := RelationshipFor(c.ecosystem, c.purl, g);
            ReadEntry(Some(Item(c)), g)
            == Kept(Component(c.ecosystem, c.name, c.version, c.purl, relationship, relationship == Direct,
                              Some(if c.dev then "optional" else "required"), ComponentLicense(Item(c))))
  {
    hide ComponentLicense, RelationshipFor, IsPurl, EcosystemFromPurl, Trim;
    var scope := if c.dev then "optional" else "required";
    assert Trim(scope) == scope != "";
  }

  lemma RelationshipRecovered(repository: string, commit: string, components: seq<Package>, c: Package)
    requires Readable(components) && c in components
    ensures var r := RelationshipFor(c.ecosystem, c.purl, WrittenGraph(repository, commit, components));
            && (r == Os <==> IsOs(c.ecosystem))
            && (!IsOs(c.ecosystem) ==>
                  && (r == Direct <==> c.direct)
                  && (r == Transitive <==> !c.direct && Needed(components, c.purl)))
  {
    var g := WrittenGraph(repository, commit, components);
    WrittenDirect(repository, commit, components);
    ReachableIffNeeded(repository, commit, components, c.purl);
    hide WrittenGraph, Needed, WellFormed;
    assert c.purl in g.direct <==> c.direct by {
      if c.purl in DirectRefs(components) {
        var d :| d in components && d.direct && d.purl == c.purl;
        SamePurl(components, c, d);
      }
    }
  }

  lemma EntryRecovered(repository: string, commit: string, components: seq<Package>, c: Package)
    requires Readable(components) && c in components
    ensures var entry := ReadEntry(Some(Item(c)), WrittenGraph(repository, commit, components));
            entry.Kept? && entry.component.purl == c.purl && Recovered(c, entry.component, components)
  {
    var g := WrittenGraph(repository, commit, components);
    assert WellFormed(c);
    LicenseRecovered(c);
    ScopesTrimmed();
    RelationshipRecovered(repository, commit, components, c);
    EntryFields(c, g);
    hide ReadEntry, WrittenGraph, Needed, WellFormed, Readable, ComponentLicense, RelationshipFor, Item;
  }

  /** Reading distinct kept entries into a map keeps each of them as it is. */
  lemma {:induction false} CollectDistinct(items: seq<Option<BomComponent>>, graph: Graph, acc: Collected)
    requires forall i :: 0 <= i < |items| ==> ReadEntry(items[i], graph).Kept?
    requires forall i, j :: 0 <= i < j < |items| ==>
               ReadEntry(items[i], graph).component.purl != ReadEntry(items[j], graph).component.purl
    requires forall i :: 0 <= i < |items| ==> ReadEntry(items[i], graph).component.purl !in acc.byPurl
    ensures var r := Collect(items, graph, acc);
            && r.Ok? && r.value.unresolved == acc.unresolved
            && (forall p :: p in r.value.byPurl ==>
                  p in acc.byPurl || exists i :: 0 <= i < |items| && ReadEntry(items[i], graph).component.purl == p)
            && (forall p :: p in acc.byPurl ==> p in r.value.byPurl && r.value.byPurl[p] == acc.byPurl[p])
            && (forall i :: 0 <= i < |items| ==>
                  var c := ReadEntry(items[i], graph).component;
                  c.purl in r.value.byPurl && r.value.byPurl[c.purl] == c)
  {
    hide ReadEntry;
    if items != [] {
      var c := ReadEntry(items[0], graph).component;
      var rest := items[1..];
      var acc' := acc.(byPurl := acc.byPurl[c.purl := c]);
      assert Collect(items, graph, acc) == Collect(rest, graph, acc');
      hide Collect;
      assert forall i :: 0 < i < |items| ==> items[i] == rest[i - 1];
      assert forall i :: 0 <= i < |rest| ==> rest[i] == items[i + 1];
      CollectDistinct(rest, graph, acc');
    }
  }

  /** The reader undoes the writer: nothing is left unresolved, exactly the written purls come
      back with their name, version, ecosystem and license, direct components are exactly those
      written direct, and transitive ones exactly those that some direct component needs. */
  lemma WriteReadRoundTrip(repository: string, commit: string, components: seq<Package>)
    requires Readable(components)
    ensures var r := Read(CycloneDxSbom(repository, commit, components));
            && r.Ok? && r.value.unresolved == map[] && r.value.coverage.graphAvailable
            && (forall p :: p in r.value.components <==> IsRef(components, p))
            && (forall c :: c in components ==>
                  c.purl in r.value.components && Recovered(c, r.value.components[c.purl], components))
  {
    var g := WrittenGraph(repository, commit, components);
    WrittenDirect(repository, commit, components);
    assert Read(CycloneDxSbom(repository, commit, components)) == ReadItems(Items(components), g);
    hide CycloneDxSbom, Read, Collect;
    ItemsRecovered(repository, commit, components);
  }

  lemma ItemsRecovered(repository: string, commit: string, components: seq<Package>)
    requires Readable(components)
    ensures var r := Collect(Items(components), WrittenGraph(repository, commit, components), Collected(map[], map[]));
            && r.Ok? && r.value.unresolved == map[]
            && (forall p :: p in r.value.byPurl <==> IsRef(components, p))
            && (forall c :: c in components ==>
                  c.purl in r.value.byPurl && Recovered(c, r.value.byPurl[c.purl], components))
  {
    hide ReadEntry, Collect, WrittenGraph, Recovered, WellFormed, Item;
    var g := WrittenGraph(repository, commit, components);
    var items := Items(components);
    forall i | 0 <= i < |items|
      ensures ReadEntry(items[i], g).Kept? && ReadEntry(items[i], g).component.purl == components[i].purl
      ensures Recovered(components[i], ReadEntry(items[i], g).component, components)
    {
      EntryRecovered(repository, commit, components, components[i]);
    }
    CollectDistinct(items, g, Collected(map[], map[]));
    forall c | c in components
      ensures var r := Collect(items, g, Collected(map[], map[]));
              c.purl in r.value.byPurl && Recovered(c, r.value.byPurl[c.purl], components)
    {
      var i :| 0 <= i < |components| && components[i] == c;
    }
  }
}
