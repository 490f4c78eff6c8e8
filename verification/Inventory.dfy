/** Normalizing a CycloneDX 1.5 inventory: per-component classification, the merge of repeated
    purls, coverage counts, and the reconciliation of unknown relationships
    (src/scanners/supply-chain/adapters.ts and scanner.ts). */
module Inventory {
  import opened Wrappers
  import opened Text
  import opened Sorting
  import opened DependencyGraph
  import opened Listings

  datatype Ecosystem = Npm | Pypi | Maven | Nuget | Cargo | Go | Conan | Vcpkg | Apk | Deb | Rpm

  datatype Relationship = Direct | Transitive | Os | Unknown

  // ---------- the document; None stands for a member that is missing or of another type ----------

  datatype LicenseEntry = LicenseEntry(expression: Option<string>, id: Option<string>, name: Option<string>)

  datatype BomComponent = BomComponent(
    name: Option<string>, version: Option<string>, purl: Option<string>, bomRef: Option<string>,
    scope: Option<string>, license: Option<string>, licenses: seq<LicenseEntry>)

  datatype Document = Document(
    bomFormat: Option<string>, specVersion: Option<string>, rootRef: Option<string>,
    components: Option<seq<Option<BomComponent>>>, dependencies: Option<seq<Dependency>>)

  // ---------- the inventory ----------

  datatype Component = Component(
    ecosystem: Ecosystem, name: string, version: string, purl: string, relationship: Relationship,
    direct: bool, inventoryScope: Option<string>, license: Option<string>)

  datatype Reason = MissingPurl | MissingVersion | UnsupportedEcosystem

  datatype Unresolved = Unresolved(name: string, version: Option<string>, purl: Option<string>, reason: Reason)

  datatype Coverage = Coverage(direct: nat, transitive: nat, os: nat, unknown: nat, graphAvailable: bool)

  datatype Inventory = Inventory(
    components: map<string, Component>, unresolved: map<(string, string, Reason), Unresolved>, coverage: Coverage)

  datatype InventoryError = NotCycloneDx15 | MalformedComponent | InvalidName | InvalidPurl

  // ---------- one component ----------

  function UpToSlash(s: string): string {
    if s == "" || s[0] == '/' then "" else [s[0]] + UpToSlash(s[1..])
  }

  /** The lower-cased text between `pkg:` and the first slash. */
  function PurlType(purl: string): Option<string> {
    if |purl| > 4 && purl[..4] == "pkg:" && purl[4] != '/' then Some(LowerAscii(UpToSlash(purl[4..]))) else None
  }

  function EcosystemFromPurl(purl: string): Option<Ecosystem> {
    var t :- PurlType(purl);
    if t == "npm" then Some(Npm)
    else if t == "pypi" then Some(Pypi)
    else if t == "maven" then Some(Maven)
    else if t == "nuget" then Some(Nuget)
    else if t == "cargo" then Some(Cargo)
    else if t == "golang" then Some(Go)
    else if t == "conan" then Some(Conan)
    else if t == "vcpkg" then Some(Vcpkg)
    else if t == "apk" then Some(Apk)
    else if t == "deb" then Some(Deb)
    else if t == "rpm" then Some(Rpm)
    else None
  }

  /** The shape pkg:type/something@version, with the type up to the first slash at i and the
      at sign at j. */
  predicate PurlShapeAt(purl: string, i: int, j: int) {
    && 4 < i && i + 1 < j && j + 1 < |purl|
    && purl[..4] == "pkg:"
    && (forall k :: 4 <= k < i ==> purl[k] != '/') && purl[i] == '/'
    && (forall k :: i < k < j ==> !IsLineEnd(purl[k] as int)) && purl[j] == '@'
    && purl[j + 1] != '?'
  }

  predicate IsPurl(purl: string) {
    exists i, j :: 0 <= i < |purl| && 0 <= j < |purl| && PurlShapeAt(purl, i, j)
  }

  /** A string that is present and not blank, trimmed. */
  function Present(value: Option<string>): Option<string> {
    if value.Some? && Trim(value.value) != "" then Some(Trim(value.value)) else None
  }

  function RequiredString(value: Option<string>): Option<string> {
    if value.Some? && '\0' in value.value then None else Present(value)
  }

  /** The identifiers that one license entry contributes: an expression, then an id or else a name. */
  function EntryValues(e: LicenseEntry): seq<string> {
    (if Present(e.expression).Some? then [Present(e.expression).value] else [])
    + (if Present(e.id).Some? then [Present(e.id).value]
       else if Present(e.name).Some? then [Present(e.name).value] else [])
  }

  function LicenseValues(entries: seq<LicenseEntry>): seq<string> {
    if entries == [] then [] else EntryValues(entries[0]) + LicenseValues(entries[1..])
  }

  function JoinAnd(values: seq<string>): string
    requires values != []
  {
    if |values| == 1 then values[0] else values[0] + " AND " + JoinAnd(values[1..])
  }

  function ComponentLicense(c: BomComponent): Option<string> {
    if Present(c.license).Some? then Present(c.license)
    else
      var values := Unique(LicenseValues(c.licenses));
      if values == [] then None else Some(JoinAnd(values))
  }

  function RelationshipFor(ecosystem: Ecosystem, bomRef: string, graph: Graph): Relationship {
    if ecosystem == Apk || ecosystem == Deb || ecosystem == Rpm then Os
    else if !graph.available then Unknown
    else if bomRef in graph.direct then Direct
    else if bomRef in graph.reachable then Transitive
    else Unknown
  }

  /** What one entry of `components` contributes. */
  datatype Entry = Bad(error: InventoryError) | Skipped(unresolved: Unresolved) | Kept(component: Component)

  function ReadEntry(item: Option<BomComponent>, graph: Graph): Entry {
    if item.None? then Bad(MalformedComponent)
    else
      var c := item.value;
      var name := RequiredString(c.name);
      var version, purl := Present(c.version), Present(c.purl);
      if name.None? then Bad(InvalidName)
      else if purl.None? then Skipped(Unresolved(name.value, version, None, MissingPurl))
      else if version.None? then Skipped(Unresolved(name.value, None, purl, MissingVersion))
      else if !IsPurl(purl.value) then Bad(InvalidPurl)
      else
        var ecosystem := EcosystemFromPurl(purl.value);
        if ecosystem.None? then Skipped(Unresolved(name.value, version, purl, UnsupportedEcosystem))
        else
          var bomRef := if c.bomRef.Some? && c.bomRef.value != "" then c.bomRef.value else purl.value;
          var relationship := RelationshipFor(ecosystem.value, bomRef, graph);
          Kept(Component(ecosystem.value, name.value, version.value, purl.value, relationship, relationship == Direct,
                         Present(c.scope), ComponentLicense(c)))
  }

  // ---------- the merge ----------

  function Rank(r: Relationship): int {
    match r case Direct => 4 case Os => 3 case Transitive => 2 case Unknown => 1
  }

  function Merge(existing: Component, c: Component): Component {
    var preferred :=
      if Rank(c.relationship) > Rank(existing.relationship) then c.relationship else existing.relationship;
    existing.(relationship := preferred, direct := preferred == Direct,
              license := if existing.license.Some? then existing.license else c.license,
              inventoryScope := if existing.inventoryScope.Some? then existing.inventoryScope else c.inventoryScope)
  }

  function KeyOf(u: Unresolved): (string, string, Reason) {
    match u.reason
    case MissingPurl => (u.name, if u.version.Some? then u.version.value else "", MissingPurl)
    case MissingVersion => (u.name, if u.purl.Some? then u.purl.value else "", MissingVersion)
    case UnsupportedEcosystem => (if u.purl.Some? then u.purl.value else "", "", UnsupportedEcosystem)
  }

  /** The two maps the reader fills. */
  datatype Collected = Collected(byPurl: map<string, Component>, unresolved: map<(string, string, Reason), Unresolved>)

  function Add(acc: Collected, entry: Entry): Collected
    requires !entry.Bad?
  {
    match entry
    case Skipped(u) => acc.(unresolved := acc.unresolved[KeyOf(u) := u])
    case Kept(c) =>
      acc.(byPurl := acc.byPurl[c.purl := if c.purl in acc.byPurl then Merge(acc.byPurl[c.purl], c) else c])
  }

  function Collect(items: seq<Option<BomComponent>>, graph: Graph, acc: Collected): Result<Collected, InventoryError> {
    if items == [] then Ok(acc)
    else
      match ReadEntry(items[0], graph)
      case Bad(e) => Err(e)
      case entry => Collect(items[1..], graph, Add(acc, entry))
  }

  function With(byPurl: map<string, Component>, r: Relationship): set<string> {
    set p | p in byPurl && byPurl[p].relationship == r
  }

  function CoverageOf(byPurl: map<string, Component>, graphAvailable: bool): Coverage {
    Coverage(|With(byPurl, Direct)|, |With(byPurl, Transitive)|, |With(byPurl, Os)|, |With(byPurl, Unknown)|,
             graphAvailable)
  }

  predicate IsCycloneDx15(document: Document) {
    document.bomFormat == Some("CycloneDX") && document.specVersion == Some("1.5") && document.components.Some?
  }

  function ReadItems(items: seq<Option<BomComponent>>, graph: Graph): Result<Inventory, InventoryError> {
    match Collect(items, graph, Collected(map[], map[]))
    case Err(e) => Err(e)
    case Ok(acc) => Ok(Inventory(acc.byPurl, acc.unresolved, CoverageOf(acc.byPurl, graph.available)))
  }

  /** The purl under which an entry is kept. */
  function PurlIn(graph: Graph): Option<BomComponent> -> Option<string> {
    (item: Option<BomComponent>) =>
      var entry := ReadEntry(item, graph);
      if entry.Kept? then Some(entry.component.purl) else None
  }

  /** The purls of the components in the order in which they are returned. */
  function Order(collate: (string, string) -> bool, items: seq<Option<BomComponent>>, graph: Graph): seq<string> {
    Listed(collate, PurlIn(graph), items)
  }

  /** The reader as a function of the document. */
  ghost function Read(document: Document): Result<Inventory, InventoryError> {
    if !IsCycloneDx15(document) then Err(NotCycloneDx15)
    else ReadItems(document.components.value, GraphOf(document.rootRef, document.dependencies))
  }

  /** The inventory, and the order in which its components are returned. */
  method InventoryFromCycloneDx(document: Document, collate: (string, string) -> bool)
    returns (r: Result<Inventory, InventoryError>, order: seq<string>)
    ensures r == Read(document)
    ensures r.Ok? ==>
              order == Order(collate, document.components.value, GraphOf(document.rootRef, document.dependencies))
  {
    hide Collect, KeysOf, Unique, Sort, PurlIn;
    if !IsCycloneDx15(document) {
      return Err(NotCycloneDx15), [];
    }
    var graph := DependencyGraph.DependencyGraph(document.rootRef, document.dependencies);
    var collected, seen := CollectItems(document.components.value, graph);
    if collected.Err? {
      return Err(collected.error), [];
    }
    var acc := collected.value;
    r := Ok(Inventory(acc.byPurl, acc.unresolved, CoverageOf(acc.byPurl, graph.available)));
    order := Sort(collate, seen);
  }

  /** The filled maps, and the purls in the order of their first setting. */
  method CollectItems(items: seq<Option<BomComponent>>, graph: Graph)
    returns (r: Result<Collected, InventoryError>, order: seq<string>)
    ensures r == Collect(items, graph, Collected(map[], map[]))
    ensures r.Ok? ==> order == Unique(KeysOf(PurlIn(graph), items))
  {
    hide ReadEntry, KeysOf, Unique, Collect, PurlIn, KeyOf, Merge;
    order := [];
    var byPurl: map<string, Component> := map[];
    var unresolved: map<(string, string, Reason), Unresolved> := map[];
    var i := 0;
    NothingSeen(graph);
    assert items[0..] == items;
    while i < |items|
      invariant 0 <= i <= |items|
      invariant Collect(items, graph, Collected(map[], map[]))
                == Collect(items[i..], graph, Collected(byPurl, unresolved))
      invariant order == Unique(KeysOf(PurlIn(graph), items[..i]))
      invariant forall p :: p in order <==> p in byPurl
    {
      SeenStep(items, i, graph);
      CollectStep(items, i, graph, Collected(byPurl, unresolved));
      match ReadEntry(items[i], graph) {
        case Bad(e) => return Err(e), [];
        case Skipped(u) => unresolved := unresolved[KeyOf(u) := u];
        case Kept(c) =>
          if c.purl !in byPurl {
            order := order + [c.purl];
            byPurl := byPurl[c.purl := c];
          } else {
            byPurl := byPurl[c.purl := Merge(byPurl[c.purl], c)];
          }
      }
      i := i + 1;
    }
    assert items[..|items|] == items && items[|items|..] == [];
    r := Ok(Collected(byPurl, unresolved));
  }

  lemma SeenStep(items: seq<Option<BomComponent>>, i: nat, graph: Graph)
    requires i < |items|
    ensures var seen, entry := Unique(KeysOf(PurlIn(graph), items[..i])), ReadEntry(items[i], graph);
            Unique(KeysOf(PurlIn(graph), items[..i + 1]))
            == seen + if entry.Kept? && entry.component.purl !in seen then [entry.component.purl] else []
  {
    hide ReadEntry, KeysOf, Unique;
    FirstSeenStep(PurlIn(graph), items[..i], items[i]);
    assert items[..i + 1] == items[..i] + [items[i]];
  }

  lemma CollectStep(items: seq<Option<BomComponent>>, i: nat, graph: Graph, acc: Collected)
    requires i < |items|
    ensures Collect(items[i..], graph, acc)
            == if ReadEntry(items[i], graph).Bad? then Err(ReadEntry(items[i], graph).error)
               else Collect(items[i + 1..], graph, Add(acc, ReadEntry(items[i], graph)))
  {
    hide ReadEntry, Add;
    assert items[i..][0] == items[i] && items[i..][1..] == items[i + 1..];
  }

  lemma NothingSeen(graph: Graph)
    ensures forall acc :: Collect([], graph, acc) == Ok(acc)
    ensures Unique(KeysOf(PurlIn(graph), [])) == []
  {
  }

  // ---------- what the merge keeps ----------

  /** The entry is a component with this purl and relationship. */
  predicate Contributes(item: Option<BomComponent>, graph: Graph, purl: string, r: Relationship) {
    var entry := ReadEntry(item, graph);
    entry.Kept? && entry.component.purl == purl && entry.component.relationship == r
  }

  ghost predicate Claimed(items: seq<Option<BomComponent>>, graph: Graph, purl: string, r: Relationship) {
    exists item :: item in items && Contributes(item, graph, purl, r)
  }

  ghost predicate Mentioned(items: seq<Option<BomComponent>>, graph: Graph, purl: string) {
    exists r :: Claimed(items, graph, purl, r)
  }

  /** r is the strongest relationship any entry claims for the purl. */
  ghost predicate Strongest(items: seq<Option<BomComponent>>, graph: Graph, purl: string, r: Relationship) {
    Claimed(items, graph, purl, r) && forall r' :: Claimed(items, graph, purl, r') ==> Rank(r') <= Rank(r)
  }

  lemma ClaimedCons(items: seq<Option<BomComponent>>, graph: Graph, purl: string, r: Relationship)
    requires items != []
    ensures Claimed(items, graph, purl, r)
            <==> Contributes(items[0], graph, purl, r) || Claimed(items[1..], graph, purl, r)
  {
    assert items == [items[0]] + items[1..];
  }

  lemma {:induction false} CollectKeeps(items: seq<Option<BomComponent>>, graph: Graph, acc: Collected, purl: string)
    requires Collect(items, graph, acc).Ok?
    ensures var byPurl := Collect(items, graph, acc).value.byPurl;
            && (purl in byPurl <==> purl in acc.byPurl || Mentioned(items, graph, purl))
            && (purl in byPurl ==>
                  var r := byPurl[purl].relationship;
                  && ((purl in acc.byPurl && acc.byPurl[purl].relationship == r) || Claimed(items, graph, purl, r))
                  && (purl in acc.byPurl ==> Rank(acc.byPurl[purl].relationship) <= Rank(r))
                  && (forall r' :: Claimed(items, graph, purl, r') ==> Rank(r') <= Rank(r)))
  {
    if items != [] {
      var entry := ReadEntry(items[0], graph);
      CollectKeeps(items[1..], graph, Add(acc, entry), purl);
      forall r
        ensures Claimed(items, graph, purl, r)
                <==> Contributes(items[0], graph, purl, r) || Claimed(items[1..], graph, purl, r)
      {
        ClaimedCons(items, graph, purl, r);
      }
      hide ReadEntry, Claimed;
      if entry.Kept? && entry.component.purl == purl {
        assert Contributes(items[0], graph, purl, entry.component.relationship);
      }
    }
  }

  /** Per purl the inventory keeps the strongest relationship over all entries, and holds exactly
      the purls that some entry has. */
  lemma KeepsStrongest(document: Document, purl: string)
    requires Read(document).Ok?
    ensures var inv, items := Read(document).value, document.components.value;
            var graph := GraphOf(document.rootRef, document.dependencies);
            && (purl in inv.components <==> Mentioned(items, graph, purl))
            && (purl in inv.components ==> Strongest(items, graph, purl, inv.components[purl].relationship))
  {
    CollectKeeps(document.components.value, GraphOf(document.rootRef, document.dependencies), Collected(map[], map[]),
                 purl);
  }

  function EntryFor(entry: Entry, purl: string): seq<Component> {
    if entry.Kept? && entry.component.purl == purl then [entry.component] else []
  }

  /** The entries that are components with this purl, in document order. */
  function EntriesFor(items: seq<Option<BomComponent>>, graph: Graph, purl: string): seq<Component> {
    if items == [] then [] else EntryFor(ReadEntry(items[0], graph), purl) + EntriesFor(items[1..], graph, purl)
  }

  function FirstLicense(entries: seq<Component>): Option<string> {
    if entries == [] then None else if entries[0].license.Some? then entries[0].license else FirstLicense(entries[1..])
  }

  function FirstScope(entries: seq<Component>): Option<string> {
    if entries == [] then None
    else if entries[0].inventoryScope.Some? then entries[0].inventoryScope
    else FirstScope(entries[1..])
  }

  /** Apart from the relationship, a component is its purl's first entry, completed with the first
      license and the first scope that any of its entries has; the direct flag follows the
      relationship. */
  ghost predicate FirstWins(c: Component, entries: seq<Component>) {
    && entries != []
    && c == entries[0].(relationship := c.relationship, direct := c.relationship == Direct,
                        license := FirstLicense(entries), inventoryScope := FirstScope(entries))
  }

  /** The component held for a purl, as a list. */
  function Held(byPurl: map<string, Component>, purl: string): seq<Component> {
    if purl in byPurl then [byPurl[purl]] else []
  }

  ghost predicate FollowsRelationship(held: seq<Component>) {
    forall c :: c in held ==> c.direct == (c.relationship == Direct)
  }

  lemma {:induction false} CollectFirst(items: seq<Option<BomComponent>>, graph: Graph, acc: Collected, purl: string)
    requires Collect(items, graph, acc).Ok? && FollowsRelationship(Held(acc.byPurl, purl))
    ensures var byPurl := Collect(items, graph, acc).value.byPurl;
            var entries := Held(acc.byPurl, purl) + EntriesFor(items, graph, purl);
            if purl in byPurl then FirstWins(byPurl[purl], entries) else entries == []
  {
    if items == [] {
      FirstAlone(acc.byPurl, purl);
    } else {
      var entry := ReadEntry(items[0], graph);
      assert FollowsRelationship(EntryFor(entry, purl));
      hide ReadEntry, FirstWins;
      var rest := EntriesFor(items[1..], graph, purl);
      AddFirst(acc, entry, purl, rest);
      hide Add, Held, EntryFor, FollowsRelationship;
      CollectFirst(items[1..], graph, Add(acc, entry), purl);
    }
  }

  lemma AddFirst(acc: Collected, entry: Entry, purl: string, rest: seq<Component>)
    requires !entry.Bad? && FollowsRelationship(Held(acc.byPurl, purl)) && FollowsRelationship(EntryFor(entry, purl))
    ensures FollowsRelationship(Held(Add(acc, entry).byPurl, purl))
    ensures var added := Held(Add(acc, entry).byPurl, purl) + rest;
            var plain := Held(acc.byPurl, purl) + (EntryFor(entry, purl) + rest);
            && (added == [] ==> plain == [])
            && forall c :: FirstWins(c, added) ==> FirstWins(c, plain)
  {
    var added := Held(Add(acc, entry).byPurl, purl) + rest;
    var plain := Held(acc.byPurl, purl) + (EntryFor(entry, purl) + rest);
    if entry.Kept? && entry.component.purl == purl && purl in acc.byPurl {
      MergeFirst(acc.byPurl[purl], entry.component, rest);
      assert plain == [acc.byPurl[purl], entry.component] + rest;
    } else {
      assert added == plain;
    }
  }

  lemma FirstAlone(byPurl: map<string, Component>, purl: string)
    requires FollowsRelationship(Held(byPurl, purl))
    ensures purl in byPurl ==> FirstWins(byPurl[purl], Held(byPurl, purl) + [])
  {
    if purl in byPurl {
      var one := [byPurl[purl]];
      assert byPurl[purl] in Held(byPurl, purl);
      assert one + [] == one && one[1..] == [];
      assert FirstLicense(one) == byPurl[purl].license && FirstScope(one) == byPurl[purl].inventoryScope;
    }
  }

  lemma MergeFirst(a: Component, b: Component, rest: seq<Component>)
    ensures forall c :: FirstWins(c, [Merge(a, b)] + rest) ==> FirstWins(c, [a, b] + rest)
  {
    var merged, both, tail := [Merge(a, b)] + rest, [a, b] + rest, [b] + rest;
    assert merged[1..] == rest && both[1..] == tail && tail[1..] == rest;
    assert FirstLicense(tail) == if b.license.Some? then b.license else FirstLicense(rest);
    assert FirstLicense(both) == if a.license.Some? then a.license else FirstLicense(tail);
    assert FirstLicense(merged) == FirstLicense(both);
    assert FirstScope(tail) == if b.inventoryScope.Some? then b.inventoryScope else FirstScope(rest);
    assert FirstScope(both) == if a.inventoryScope.Some? then a.inventoryScope else FirstScope(tail);
    assert FirstScope(merged) == FirstScope(both);
  }

  /** Everything else in the merge is first come, first kept. */
  lemma KeepsFirst(document: Document, purl: string)
    requires Read(document).Ok? && purl in Read(document).value.components
    ensures FirstWins(Read(document).value.components[purl],
                      EntriesFor(document.components.value, GraphOf(document.rootRef, document.dependencies), purl))
  {
    var graph := GraphOf(document.rootRef, document.dependencies);
    CollectFirst(document.components.value, graph, Collected(map[], map[]), purl);
    var entries := EntriesFor(document.components.value, graph, purl);
    assert [] + entries == entries;
  }

  lemma {:induction false} CollectFailsIff(items: seq<Option<BomComponent>>, graph: Graph, acc: Collected)
    ensures Collect(items, graph, acc).Err? <==> exists item :: item in items && ReadEntry(item, graph).Bad?
  {
    hide ReadEntry, Add;
    if items != [] {
      if !ReadEntry(items[0], graph).Bad? {
        CollectFailsIff(items[1..], graph, Add(acc, ReadEntry(items[0], graph)));
        hide Collect;
        assert items == [items[0]] + items[1..];
      } else {
        assert items[0] in items;
      }
    }
  }

  predicate SkippedAs(item: Option<BomComponent>, graph: Graph, key: (string, string, Reason)) {
    var entry := ReadEntry(item, graph);
    entry.Skipped? && KeyOf(entry.unresolved) == key
  }

  ghost predicate LeftUnresolved(items: seq<Option<BomComponent>>, graph: Graph, key: (string, string, Reason)) {
    exists item :: item in items && SkippedAs(item, graph, key)
  }

  lemma LeftUnresolvedCons(items: seq<Option<BomComponent>>, graph: Graph, key: (string, string, Reason))
    requires items != []
    ensures LeftUnresolved(items, graph, key)
            <==> SkippedAs(items[0], graph, key) || LeftUnresolved(items[1..], graph, key)
  {
    hide SkippedAs;
    assert items == [items[0]] + items[1..];
  }

  /** The keys that entries leave unresolved. */
  lemma {:induction false} CollectUnresolved(items: seq<Option<BomComponent>>, graph: Graph, acc: Collected,
                                             key: (string, string, Reason))
    requires Collect(items, graph, acc).Ok?
    ensures key in Collect(items, graph, acc).value.unresolved
            <==> key in acc.unresolved || LeftUnresolved(items, graph, key)
  {
    if items != [] {
      hide ReadEntry, KeyOf, LeftUnresolved;
      CollectUnresolved(items[1..], graph, Add(acc, ReadEntry(items[0], graph)), key);
      LeftUnresolvedCons(items, graph, key);
    }
  }

  /** The order of the entries decides neither whether reading fails, nor which purls and
      unresolved keys there are, nor any relationship, nor the coverage counts. */
  lemma OrderIndependent(i: seq<Option<BomComponent>>, j: seq<Option<BomComponent>>, graph: Graph)
    requires multiset(i) == multiset(j)
    ensures ReadItems(i, graph).Ok? <==> ReadItems(j, graph).Ok?
    ensures ReadItems(i, graph).Ok? ==>
              var x, y := ReadItems(i, graph).value, ReadItems(j, graph).value;
              && x.components.Keys == y.components.Keys && x.unresolved.Keys == y.unresolved.Keys
              && (forall p :: p in x.components ==> x.components[p].relationship == y.components[p].relationship)
              && x.coverage == y.coverage
  {
    var none := Collected(map[], map[]);
    SameMembers(i, j);
    CollectFailsIff(i, graph, none);
    CollectFailsIff(j, graph, none);
    hide ReadEntry, Collect, CoverageOf;
    if Collect(i, graph, none).Ok? {
      CollectedAlike(i, j, graph);
      SameRelationshipsSameCoverage(Collect(i, graph, none).value.byPurl, Collect(j, graph, none).value.byPurl,
          graph.available);
    }
  }

  /** Each component is returned once. */
  lemma OrderListsAll(collate: (string, string) -> bool, items: seq<Option<BomComponent>>, graph: Graph)
    requires ReadItems(items, graph).Ok?
    ensures Distinct(Order(collate, items, graph))
    ensures forall p :: p in Order(collate, items, graph) <==> p in ReadItems(items, graph).value.components
  {
    hide Collect, ReadEntry;
    ListedKeys(collate, PurlIn(graph), items);
    forall p ensures p in Order(collate, items, graph) <==> p in ReadItems(items, graph).value.components {
      CollectKeeps(items, graph, Collected(map[], map[]), p);
      MentionedIff(items, graph, p);
    }
  }

  lemma MentionedIff(items: seq<Option<BomComponent>>, graph: Graph, p: string)
    ensures Mentioned(items, graph, p) <==> exists item :: item in items && PurlIn(graph)(item) == Some(p)
  {
    hide ReadEntry;
    if item :| item in items && PurlIn(graph)(item) == Some(p) {
      assert Claimed(items, graph, p, ReadEntry(item, graph).component.relationship);
    }
    if Mentioned(items, graph, p) {
      var r :| Claimed(items, graph, p, r);
      var item :| item in items && Contributes(item, graph, p, r);
      assert PurlIn(graph)(item) == Some(p);
    }
  }

  /** The order of the entries shows in that of the components exactly when two purls collate alike. */
  lemma OrderForgetsEntriesIff(collate: (string, string) -> bool, items: seq<Option<BomComponent>>, graph: Graph)
    requires TotalPreorder(collate)
    ensures (forall other :: multiset(other) == multiset(items)
                             ==> Order(collate, other, graph) == Order(collate, items, graph))
            <==> NoTies(collate, Order(collate, items, graph))
  {
    hide NoTies, Listed, PurlIn;
    ListedForgetsOrderIff(collate, PurlIn(graph), items);
    forall other: seq<Option<BomComponent>>
      ensures Order(collate, other, graph) == Listed(collate, PurlIn(graph), other)
    {
    }
  }

  lemma CollectedAlike(i: seq<Option<BomComponent>>, j: seq<Option<BomComponent>>, graph: Graph)
    requires forall item :: item in i <==> item in j
    requires Collect(i, graph, Collected(map[], map[])).Ok? && Collect(j, graph, Collected(map[], map[])).Ok?
    ensures var none := Collected(map[], map[]);
            var x, y := Collect(i, graph, none).value, Collect(j, graph, none).value;
            && x.byPurl.Keys == y.byPurl.Keys && x.unresolved.Keys == y.unresolved.Keys
            && (forall p :: p in x.byPurl ==> x.byPurl[p].relationship == y.byPurl[p].relationship)
  {
    hide Collect, ReadEntry, Claimed;
    var none := Collected(map[], map[]);
    var x, y := Collect(i, graph, none).value, Collect(j, graph, none).value;
    forall p ensures p in x.byPurl <==> p in y.byPurl
             ensures p in x.byPurl ==> x.byPurl[p].relationship == y.byPurl[p].relationship
    {
      CollectKeeps(i, graph, none, p);
      CollectKeeps(j, graph, none, p);
      SameClaims(i, j, graph, p);
    }
    forall k ensures k in x.unresolved <==> k in y.unresolved {
      CollectUnresolved(i, graph, none, k);
      CollectUnresolved(j, graph, none, k);
      hide SkippedAs;
    }
  }

  lemma SameClaims(i: seq<Option<BomComponent>>, j: seq<Option<BomComponent>>, graph: Graph, p: string)
    requires forall item :: item in i <==> item in j
    ensures forall r :: Claimed(i, graph, p, r) <==> Claimed(j, graph, p, r)
  {
    hide Contributes;
  }

  lemma SameRelationshipsSameCoverage(x: map<string, Component>, y: map<string, Component>, available: bool)
    requires x.Keys == y.Keys && forall p :: p in x ==> x[p].relationship == y[p].relationship
    ensures CoverageOf(x, available) == CoverageOf(y, available)
  {
    forall r ensures With(x, r) == With(y, r) {
      forall p ensures p in With(x, r) <==> p in With(y, r) {
        assert p in x.Keys <==> p in y.Keys;
      }
    }
  }

  /** The four counts always add up to the number of components. */
  lemma CoverageAddsUp(byPurl: map<string, Component>, available: bool)
    ensures var c := CoverageOf(byPurl, available);
            c.direct + c.transitive + c.os + c.unknown == |byPurl|
  {
    hide With;
    var d, t, o, u := With(byPurl, Direct), With(byPurl, Transitive), With(byPurl, Os), With(byPurl, Unknown);
    WithEach(byPurl);
    FourParts(d, t, o, u);
    assert |byPurl.Keys| == |byPurl|;
  }

  /** Every purl has one of the four relationships. */
  lemma WithEach(byPurl: map<string, Component>)
    ensures var d, t, o, u := With(byPurl, Direct), With(byPurl, Transitive), With(byPurl, Os), With(byPurl, Unknown);
            byPurl.Keys == d + t + o + u && d !! t && d !! o && d !! u && t !! o && t !! u && o !! u
  {
  }

  lemma FourParts(d: set<string>, t: set<string>, o: set<string>, u: set<string>)
    requires d !! t && d !! o && d !! u && t !! o && t !! u && o !! u
    ensures |d + t + o + u| == |d| + |t| + |o| + |u|
  {
    var all := d + t;
    assert |all| == |d| + |t| && all !! o;
    assert |all + o| == |all| + |o| && (all + o) !! u;
  }

  // ---------- reconciliation with the native discovery ----------

  datatype NativeComponent = NativeComponent(
    ecosystem: Ecosystem, name: string, version: string, purl: string, direct: bool)

  /** The last native component with the key, as a map filled in order has it. */
  function LastWith(native: seq<NativeComponent>, matches: NativeComponent -> bool): Option<NativeComponent> {
    if native == [] then None
    else if matches(native[|native| - 1]) then Some(native[|native| - 1])
    else LastWith(native[..|native| - 1], matches)
  }

  function WithPurl(purl: string): NativeComponent -> bool {
    (n: NativeComponent) => n.purl == purl
  }

  function WithIdentity(c: Component): NativeComponent -> bool {
    (n: NativeComponent) =>
      n.ecosystem == c.ecosystem && LowerAscii(n.name) == LowerAscii(c.name) && n.version == c.version
  }

  function Matched(c: Component, native: seq<NativeComponent>): Option<NativeComponent> {
    var byPurl := LastWith(native, WithPurl(c.purl));
    if byPurl.Some? then byPurl else LastWith(native, WithIdentity(c))
  }

  function Reconciled(c: Component, native: seq<NativeComponent>): Component {
    if c.relationship != Unknown then c
    else
      match Matched(c, native)
      case None => c
      case Some(n) => c.(relationship := if n.direct then Direct else Transitive, direct := n.direct)
  }

  function Reconcile(inv: Inventory, native: seq<NativeComponent>): Inventory {
    if inv.coverage.unknown == 0 then inv
    else
      var components := map p | p in inv.components :: Reconciled(inv.components[p], native);
      inv.(components := components, coverage := CoverageOf(components, inv.coverage.graphAvailable))
  }

  /** Reconciliation touches only the relationship and direct flag of unknown components, resolves
      exactly the ones with a native counterpart, and keeps the counts summing to the number of
      components. Known relationships only gain members. */
  lemma ReconcileOnlyResolves(inv: Inventory, native: seq<NativeComponent>)
    requires inv.coverage == CoverageOf(inv.components, inv.coverage.graphAvailable)
    ensures var r := Reconcile(inv, native);
            && r.components.Keys == inv.components.Keys && r.unresolved == inv.unresolved
            && r.coverage == CoverageOf(r.components, inv.coverage.graphAvailable)
            && r.coverage.direct + r.coverage.transitive + r.coverage.os + r.coverage.unknown == |inv.components|
            && (forall p :: p in inv.components ==>
                  var c, c' := inv.components[p], r.components[p];
                  && c' == c.(relationship := c'.relationship, direct := c'.direct)
                  && (c.relationship != Unknown || Matched(c, native).None? ==> c' == c)
                  && (c.relationship == Unknown && Matched(c, native).Some? ==>
                        && c'.direct == Matched(c, native).value.direct
                        && c'.relationship == if c'.direct then Direct else Transitive))
            && (forall k :: k != Unknown ==> With(inv.components, k) <= With(r.components, k))
  {
    hide Matched, CoverageOf;
    var r := Reconcile(inv, native);
    ReconciledKeys(inv, native);
    CoverageAddsUp(r.components, inv.coverage.graphAvailable);
    SameSize(inv.components, r.components);
    forall p | p in inv.components ensures r.components[p] == Reconciled(inv.components[p], native) {
      ReconciledAt(inv, native, p);
    }
    hide Reconcile;
  }

  lemma SameSize(a: map<string, Component>, b: map<string, Component>)
    requires a.Keys == b.Keys
    ensures |a| == |b|
  {
    assert |a.Keys| == |a| && |b.Keys| == |b|;
  }

  lemma ReconciledKeys(inv: Inventory, native: seq<NativeComponent>)
    requires inv.coverage == CoverageOf(inv.components, inv.coverage.graphAvailable)
    ensures var r := Reconcile(inv, native);
            && r.components.Keys == inv.components.Keys && r.unresolved == inv.unresolved
            && r.coverage == CoverageOf(r.components, inv.coverage.graphAvailable)
  {
    hide Reconciled;
  }

  lemma ReconciledAt(inv: Inventory, native: seq<NativeComponent>, p: string)
    requires inv.coverage == CoverageOf(inv.components, inv.coverage.graphAvailable) && p in inv.components
    ensures p in Reconcile(inv, native).components
    ensures Reconcile(inv, native).components[p] == Reconciled(inv.components[p], native)
  {
    hide Matched;
    if inv.coverage.unknown == 0 {
      assert p !in With(inv.components, Unknown);
    }
  }
}
