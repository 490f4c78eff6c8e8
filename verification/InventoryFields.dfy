/** What the fields of an inventory are, read off the document alone
    (src/scanners/supply-chain/adapters.ts and scanner.ts). */
module InventoryFields {
  import opened Wrappers
  import opened Text
  import opened Sorting
  import opened DependencyGraph
  import opened Inventory

  // ---------- package URLs ----------

  /** A purl, taken apart. */
  ghost predicate IsWritten(purl: string, kind: string, path: string, version: string) {
    && purl == "pkg:" + kind + "/" + path + "@" + version
    && kind != "" && '/' !in kind
    && path != "" && (forall k :: 0 <= k < |path| ==> !IsLineEnd(path[k] as int))
    && version != "" && version[0] != '?'
  }

  lemma PurlIff(purl: string)
    ensures IsPurl(purl) <==> exists kind, path, version :: IsWritten(purl, kind, path, version)
  {
    if IsPurl(purl) {
      var i, j :| 0 <= i < |purl| && 0 <= j < |purl| && PurlShapeAt(purl, i, j);
      ShapeIsWritten(purl, i, j);
    }
    if kind, path, version :| IsWritten(purl, kind, path, version) {
      WrittenHasShape(purl, kind, path, version);
    }
  }

  lemma ShapeIsWritten(purl: string, i: int, j: int)
    requires PurlShapeAt(purl, i, j)
    ensures IsWritten(purl, purl[4..i], purl[i + 1..j], purl[j + 1..])
  {
    assert purl == purl[..4] + purl[4..i] + [purl[i]] + purl[i + 1..j] + [purl[j]] + purl[j + 1..];
  }

  lemma WrittenHasShape(purl: string, kind: string, path: string, version: string)
    requires IsWritten(purl, kind, path, version)
    ensures IsPurl(purl)
  {
    var i := 4 + |kind|;
    var j := i + 1 + |path|;
    assert purl[..4] == "pkg:" && purl[4..i] == kind && purl[i + 1..j] == path;
    assert purl[i] == '/' && purl[j] == '@' && purl[j + 1] == version[0];
    forall k | 4 <= k < i ensures purl[k] != '/' {
      assert purl[k] == kind[k - 4];
    }
    forall k | i < k < j ensures !IsLineEnd(purl[k] as int) {
      assert purl[k] == path[k - i - 1];
    }
    assert PurlShapeAt(purl, i, j);
  }

  // ---------- ecosystems ----------

  /** The package type of each ecosystem. */
  function TypeName(e: Ecosystem): string {
    match e
    case Npm => "npm" case Pypi => "pypi" case Maven => "maven" case Nuget => "nuget" case Cargo => "cargo"
    case Go => "golang" case Conan => "conan" case Vcpkg => "vcpkg" case Apk => "apk" case Deb => "deb"
    case Rpm => "rpm"
  }

  /** The text before the first slash is the type, in any case. */
  ghost predicate HasType(purl: string, name: string) {
    exists kind, rest :: TypeIs(purl, kind, rest) && SameButCase(kind, name)
  }

  predicate TypeIs(purl: string, kind: string, rest: string) {
    purl == "pkg:" + kind + rest && '/' !in kind && (rest == "" || rest[0] == '/')
  }

  lemma {:induction false} UpToSlashIs(kind: string, rest: string)
    requires '/' !in kind && (rest == "" || rest[0] == '/')
    ensures UpToSlash(kind + rest) == kind
  {
    if kind == "" {
      assert kind + rest == rest;
    } else {
      UpToSlashIs(kind[1..], rest);
      assert (kind + rest)[1..] == kind[1..] + rest;
    }
  }

  lemma {:induction false} UpToSlashSplits(s: string) returns (rest: string)
    ensures s == UpToSlash(s) + rest && '/' !in UpToSlash(s) && (rest == "" || rest[0] == '/')
  {
    rest := s;
    if s != "" && s[0] != '/' {
      rest := UpToSlashSplits(s[1..]);
      assert s == [s[0]] + s[1..];
    }
  }

  lemma TypeIff(purl: string, name: string)
    requires name != ""
    ensures PurlType(purl) == Some(name) <==> HasType(purl, name)
  {
    hide UpToSlash, LowerAscii, SameButCase;
    if PurlType(purl) == Some(name) {
      var rest := UpToSlashSplits(purl[4..]);
      var kind := UpToSlash(purl[4..]);
      LowerIff(kind, name);
      assert purl == purl[..4] + purl[4..];
      assert purl == "pkg:" + kind + rest;
      assert TypeIs(purl, kind, rest);
    }
    if HasType(purl, name) {
      var kind, rest :| TypeIs(purl, kind, rest) && SameButCase(kind, name);
      LowerIff(kind, name);
      SameLength(kind, name);
      TypeOf(kind, rest);
      assert PurlType(purl) == Some(LowerAscii(kind));
    }
  }

  lemma TypeOf(kind: string, rest: string)
    requires kind != "" && '/' !in kind && (rest == "" || rest[0] == '/')
    ensures PurlType("pkg:" + kind + rest) == Some(LowerAscii(kind))
  {
    var purl := "pkg:" + kind + rest;
    UpToSlashIs(kind, rest);
    assert kind[0] in kind;
    assert purl[4..] == kind + rest && purl[..4] == "pkg:" && purl[4] == kind[0];
  }

  lemma SameLength(s: string, lower: string)
    requires SameButCase(s, lower)
    ensures |s| == |lower|
  {
  }

  /** A package URL has the ecosystem whose type it names, and none otherwise. */
  lemma EcosystemIff(purl: string, ecosystem: Ecosystem)
    ensures EcosystemFromPurl(purl) == Some(ecosystem) <==> HasType(purl, TypeName(ecosystem))
  {
    hide HasType, PurlType;
    TypeIff(purl, TypeName(ecosystem));
  }

  // ---------- one component ----------

  /** The text without the white space around it, which is not all of it. */
  ghost predicate Shows(value: Option<string>, text: string) {
    value.Some? && text != "" && IsStripped(IsSpace, value.value, text)
  }

  ghost predicate IsMissing(value: Option<string>) {
    value.None? || IsBlank(value.value)
  }

  lemma PresentIff(value: Option<string>)
    ensures forall text :: Present(value) == Some(text) <==> Shows(value, text)
    ensures Present(value).None? <==> IsMissing(value)
  {
    hide IsStripped;
    if value.Some? {
      var s := value.value;
      forall text ensures Trim(s) == text <==> IsStripped(IsSpace, s, text) {
        StripIff(IsSpace, s, text);
      }
      BlankIff(s);
    }
  }

  lemma BlankIff(s: string)
    ensures Trim(s) == "" <==> IsBlank(s)
  {
    StripIff(IsSpace, s, "");
    if IsBlank(s) {
      assert s == "" + "" + s && AllSpace(IsSpace, "") && AllSpace(IsSpace, s);
    }
  }

  ghost predicate HasName(value: Option<string>, text: string) {
    value.Some? && '\0' !in value.value && Shows(value, text)
  }

  lemma NameIff(value: Option<string>)
    ensures forall text :: RequiredString(value) == Some(text) <==> HasName(value, text)
    ensures RequiredString(value).None? <==> IsMissing(value) || '\0' in value.value
  {
    hide Present, Shows;
    PresentIff(value);
  }

  ghost predicate IsRead(value: Option<string>, text: Option<string>) {
    if text.Some? then Shows(value, text.value) else IsMissing(value)
  }

  /** The purl has the full shape. */
  ghost predicate IsWhole(purl: string) {
    exists kind, path, version :: IsWritten(purl, kind, path, version)
  }

  /** The ref of an entry is its own, or else its purl. */
  predicate HasRef(b: BomComponent, purl: string, ref: string) {
    if b.bomRef.Some? && b.bomRef.value != "" then ref == b.bomRef.value else ref == purl
  }

  ghost predicate IsComponentOf(b: BomComponent, graph: Graph, c: Component) {
    && HasName(b.name, c.name) && Shows(b.version, c.version) && Shows(b.purl, c.purl)
    && IsWhole(c.purl) && HasType(c.purl, TypeName(c.ecosystem))
    && (exists ref :: HasRef(b, c.purl, ref) && c.relationship == RelationshipFor(c.ecosystem, ref, graph))
    && (c.direct <==> c.relationship == Direct)
    && IsRead(b.scope, c.inventoryScope)
    && c.license == ComponentLicense(b)
  }

  ghost predicate IsUnresolvedOf(b: BomComponent, u: Unresolved) {
    && HasName(b.name, u.name) && IsRead(b.purl, u.purl) && IsRead(b.version, u.version)
    && match u.reason
       case MissingPurl => u.purl.None?
       case MissingVersion => u.purl.Some? && u.version.None?
       case UnsupportedEcosystem =>
         u.purl.Some? && u.version.Some? && IsWhole(u.purl.value) && forall e :: !HasType(u.purl.value, TypeName(e))
  }

  ghost predicate IsMistakeOf(item: Option<BomComponent>, e: InventoryError) {
    match e
    case NotCycloneDx15 => false
    case MalformedComponent => item.None?
    case InvalidName => item.Some? && (IsMissing(item.value.name) || '\0' in item.value.name.value)
    case InvalidPurl =>
      && item.Some? && !IsMissing(item.value.name) && '\0' !in item.value.name.value && !IsMissing(item.value.version)
      && exists purl :: Shows(item.value.purl, purl) && !IsWhole(purl)
  }

  lemma ReadsField(value: Option<string>)
    ensures forall text :: Present(value) == text <==> IsRead(value, text)
  {
    hide Present, Shows, IsMissing;
    PresentIff(value);
    forall text ensures Present(value) == text <==> IsRead(value, text) {
      if text.Some? {
        assert Present(value) == Some(text.value) <==> Shows(value, text.value);
      }
    }
  }

  /** What every entry of the document counts as. */
  lemma EntryIff(item: Option<BomComponent>, graph: Graph)
    ensures forall c :: ReadEntry(item, graph) == Kept(c) <==> item.Some? && IsComponentOf(item.value, graph, c)
    ensures forall u :: ReadEntry(item, graph) == Skipped(u) <==> item.Some? && IsUnresolvedOf(item.value, u)
    ensures forall e :: ReadEntry(item, graph) == Bad(e) <==> IsMistakeOf(item, e)
  {
    hide ReadEntry, IsComponentOf, IsUnresolvedOf, IsMistakeOf;
    forall c ensures ReadEntry(item, graph) == Kept(c) <==> item.Some? && IsComponentOf(item.value, graph, c) {
      KeptIff(item, graph, c);
    }
    forall u ensures ReadEntry(item, graph) == Skipped(u) <==> item.Some? && IsUnresolvedOf(item.value, u) {
      SkippedIff(item, graph, u);
    }
    forall e ensures ReadEntry(item, graph) == Bad(e) <==> IsMistakeOf(item, e) {
      BadIff(item, graph, e);
    }
  }

  lemma ReadsFields(b: BomComponent)
    ensures forall text :: RequiredString(b.name) == Some(text) <==> HasName(b.name, text)
    ensures RequiredString(b.name).None? <==> IsMissing(b.name) || '\0' in b.name.value
    ensures forall text :: Present(b.purl) == text <==> IsRead(b.purl, text)
    ensures forall text :: Present(b.version) == text <==> IsRead(b.version, text)
    ensures forall text :: Present(b.scope) == text <==> IsRead(b.scope, text)
    ensures forall purl :: IsPurl(purl) <==> IsWhole(purl)
    ensures forall purl, e :: EcosystemFromPurl(purl) == Some(e) <==> HasType(purl, TypeName(e))
  {
    hide *;
    NameIff(b.name);
    ReadsField(b.purl);
    ReadsField(b.version);
    ReadsField(b.scope);
    forall purl ensures IsPurl(purl) <==> IsWhole(purl) { WholeIff(purl); }
    forall purl, e ensures EcosystemFromPurl(purl) == Some(e) <==> HasType(purl, TypeName(e)) {
      EcosystemIff(purl, e);
    }
  }

  lemma WholeIff(purl: string)
    ensures IsPurl(purl) <==> IsWhole(purl)
  {
    hide IsPurl, IsWritten;
    PurlIff(purl);
  }

  lemma KeptIff(item: Option<BomComponent>, graph: Graph, c: Component)
    ensures ReadEntry(item, graph) == Kept(c) <==> item.Some? && IsComponentOf(item.value, graph, c)
  {
    hide Present, RequiredString, Shows, IsMissing, IsPurl, IsWhole, EcosystemFromPurl, HasType, HasName,
      ComponentLicense, RelationshipFor, TypeName;
    if item.Some? {
      ReadsFields(item.value);
      assert IsRead(item.value.version, Some(c.version)) && IsRead(item.value.purl, Some(c.purl))
             <==> Shows(item.value.version, c.version) && Shows(item.value.purl, c.purl);
      hide IsRead;
    }
  }

  lemma SkippedIff(item: Option<BomComponent>, graph: Graph, u: Unresolved)
    ensures ReadEntry(item, graph) == Skipped(u) <==> item.Some? && IsUnresolvedOf(item.value, u)
  {
    hide Present, RequiredString, IsRead, IsPurl, IsWhole, EcosystemFromPurl, HasType, HasName, ComponentLicense,
      RelationshipFor, TypeName;
    if item.Some? {
      ReadsFields(item.value);
    }
  }

  lemma BadIff(item: Option<BomComponent>, graph: Graph, e: InventoryError)
    ensures ReadEntry(item, graph) == Bad(e) <==> IsMistakeOf(item, e)
  {
    hide Present, RequiredString, Shows, IsPurl, IsWhole, EcosystemFromPurl, HasType, HasName, IsMissing, IsRead,
      ComponentLicense, RelationshipFor, TypeName;
    if item.Some? {
      ReadsFields(item.value);
      MissingIff(item.value.version);
      MissingIff(item.value.purl);
    }
  }

  lemma MissingIff(value: Option<string>)
    ensures Present(value).None? <==> IsMissing(value)
    ensures forall text :: Shows(value, text) <==> Present(value) == Some(text)
  {
    hide *;
    PresentIff(value);
  }

  // ---------- relationships ----------

  predicate IsSystem(e: Ecosystem) {
    e in {Apk, Deb, Rpm}
  }

  /** The refs that the root of the document depends on. */
  ghost function RootRefs(document: Document): set<string> {
    if HasGraph(document)
    then set x | x in EdgesOf(document.dependencies.value)[document.rootRef.value]
    else {}
  }

  ghost predicate HasGraph(document: Document) {
    && document.rootRef.Some? && document.dependencies.Some?
    && document.rootRef.value in EdgesOf(document.dependencies.value)
  }

  ghost predicate IsReached(document: Document, ref: string) {
    HasGraph(document) && Reaches(EdgesOf(document.dependencies.value), RootRefs(document), ref)
  }

  ghost function GraphIn(document: Document): Graph {
    GraphOf(document.rootRef, document.dependencies)
  }

  lemma GraphIs(document: Document)
    ensures GraphIn(document).available <==> HasGraph(document)
    ensures GraphIn(document).direct == RootRefs(document)
    ensures forall ref :: ref in GraphIn(document).reachable <==> IsReached(document, ref)
  {
    hide EdgesOf, ReachableRefs, Reaches;
    if HasGraph(document) {
      forall ref ensures ref in GraphIn(document).reachable <==> IsReached(document, ref) {
        ReachesIsReachable(EdgesOf(document.dependencies.value), RootRefs(document), ref);
      }
    }
  }

  /** System packages are os; others are direct when the root depends on them, transitive when only a
      longer path leads to them, and unknown when none does or the root has no entry. */
  lemma RelationshipIs(document: Document, ecosystem: Ecosystem, ref: string)
    ensures var r := RelationshipFor(ecosystem, ref, GraphIn(document));
            && (r == Os <==> IsSystem(ecosystem))
            && (r == Direct <==> !IsSystem(ecosystem) && ref in RootRefs(document))
            && (r == Transitive <==> !IsSystem(ecosystem) && ref !in RootRefs(document) && IsReached(document, ref))
  {
    hide GraphIn, IsReached, HasGraph;
    GraphIs(document);
    NoRootNoRefs(document);
  }

  lemma NoRootNoRefs(document: Document)
    ensures !HasGraph(document) ==> RootRefs(document) == {} && forall ref :: !IsReached(document, ref)
  {
  }

  /** Over all entries of a purl: direct when one of them is, else os, else transitive. */
  lemma StrongestIs(document: Document, purl: string)
    requires Read(document).Ok? && purl in Read(document).value.components
    ensures var c, items := Read(document).value.components[purl], document.components.value;
            var graph := GraphIn(document);
            var direct, os := Claimed(items, graph, purl, Direct), Claimed(items, graph, purl, Os);
            var transitive := Claimed(items, graph, purl, Transitive);
            && (c.relationship == Direct <==> direct)
            && (c.relationship == Os <==> os && !direct)
            && (c.relationship == Transitive <==> transitive && !direct && !os)
  {
    hide Read, Claimed;
    KeepsStrongest(document, purl);
  }

  /** The counts are the numbers of components with each relationship. */
  lemma CoverageIs(document: Document)
    requires Read(document).Ok?
    ensures var inv := Read(document).value;
            && inv.coverage.direct == |set p | p in inv.components && inv.components[p].relationship == Direct|
            && inv.coverage.transitive == |set p | p in inv.components && inv.components[p].relationship == Transitive|
            && inv.coverage.os == |set p | p in inv.components && inv.components[p].relationship == Os|
            && inv.coverage.unknown == |set p | p in inv.components && inv.components[p].relationship == Unknown|
            && (inv.coverage.graphAvailable <==> HasGraph(document))
  {
    hide Collect, GraphOf;
    GraphIs(document);
  }

  // ---------- licenses ----------

  /** What one license entry contributes: its expression, and its id or, without one, its name. */
  ghost predicate Gives(entry: LicenseEntry, value: string) {
    || Shows(entry.expression, value)
    || Shows(entry.id, value)
    || (IsMissing(entry.id) && Shows(entry.name, value))
  }

  lemma EntryValuesIff(entry: LicenseEntry, value: string)
    ensures value in EntryValues(entry) <==> Gives(entry, value)
  {
    MissingIff(entry.expression);
    MissingIff(entry.id);
    MissingIff(entry.name);
    hide Present, Shows, IsMissing;
  }

  lemma {:induction false} ValuesIff(entries: seq<LicenseEntry>, value: string)
    ensures value in LicenseValues(entries) <==> exists entry :: entry in entries && Gives(entry, value)
  {
    hide Gives, EntryValues;
    if entries != [] {
      ValuesIff(entries[1..], value);
      EntryValuesIff(entries[0], value);
      assert entries == [entries[0]] + entries[1..];
    }
  }

  /** The values come in the order of the entries. */
  lemma {:induction false} ValuesInOrder(a: seq<LicenseEntry>, b: seq<LicenseEntry>)
    ensures LicenseValues(a + b) == LicenseValues(a) + LicenseValues(b)
  {
    if a == [] {
      assert a + b == b;
    } else {
      hide *;
      var head, tail := a[0], a[1..];
      assert a == [head] + tail;
      ValuesInOrder(tail, b);
      ValuesStep(head, tail);
      ValuesStep(head, tail + b);
      Associative([head], tail, b);
      Associative(EntryValues(head), LicenseValues(tail), LicenseValues(b));
    }
  }

  lemma ValuesStep(entry: LicenseEntry, rest: seq<LicenseEntry>)
    ensures LicenseValues([entry] + rest) == EntryValues(entry) + LicenseValues(rest)
  {
    hide EntryValues;
    assert ([entry] + rest)[1..] == rest;
  }

  /** Within an entry the expression comes first. */
  lemma ExpressionFirst(entry: LicenseEntry, expression: string, id: string)
    requires Shows(entry.expression, expression)
    requires Shows(entry.id, id) || (IsMissing(entry.id) && Shows(entry.name, id))
    ensures EntryValues(entry) == [expression, id]
  {
    MissingIff(entry.expression);
    MissingIff(entry.id);
    MissingIff(entry.name);
    hide Present, Shows, IsMissing;
  }

  /** The license of a component is its own text, or else the different values of its list, joined. */
  lemma LicenseIs(c: BomComponent)
    ensures forall own :: Shows(c.license, own) ==> ComponentLicense(c) == Some(own)
    ensures IsMissing(c.license) ==>
              var values := Unique(LicenseValues(c.licenses));
              && ComponentLicense(c) == (if values == [] then None else Some(JoinAnd(values)))
              && (values == [] <==> forall entry, value :: entry in c.licenses ==> !Gives(entry, value))
  {
    MissingIff(c.license);
    hide Present, Shows, IsMissing, Gives, LicenseValues, JoinAnd, EntryValues;
    NoValuesIff(c.licenses);
  }

  lemma NoValuesIff(entries: seq<LicenseEntry>)
    ensures Unique(LicenseValues(entries)) == [] <==> forall entry, value :: entry in entries ==> !Gives(entry, value)
  {
    hide Gives, LicenseValues;
    var values := Unique(LicenseValues(entries));
    if values != [] {
      assert values[0] in values;
      ValuesIff(entries, values[0]);
    }
    if entry, value :| entry in entries && Gives(entry, value) {
      ValuesIff(entries, value);
      assert value in values;
    }
  }

  /** Joining two lists puts AND between them. */
  lemma {:induction false} JoinedWithAnd(a: seq<string>, b: seq<string>)
    requires a != [] && b != []
    ensures JoinAnd(a + b) == JoinAnd(a) + " AND " + JoinAnd(b)
    ensures forall s :: JoinAnd([s]) == s
  {
    if |a| == 1 {
      assert (a + b)[1..] == b;
    } else {
      JoinedWithAnd(a[1..], b);
      assert (a + b)[1..] == a[1..] + b;
    }
  }

  // ---------- the native counterpart ----------

  /** The last native component that satisfies the test. */
  ghost predicate IsLast(native: seq<NativeComponent>, matches: NativeComponent -> bool, n: NativeComponent) {
    exists k: nat :: IsLastAt(native, matches, n, k)
  }

  lemma {:induction false} LastIff(native: seq<NativeComponent>, matches: NativeComponent -> bool)
    ensures forall n :: LastWith(native, matches) == Some(n) <==> IsLast(native, matches, n)
    ensures LastWith(native, matches).None? <==> forall n :: n in native ==> !matches(n)
  {
    if native != [] {
      var front, last := native[..|native| - 1], native[|native| - 1];
      LastIff(front, matches);
      assert native == front + [last];
      forall n ensures LastWith(native, matches) == Some(n) <==> IsLast(native, matches, n) {
        LastStep(front, last, matches, n);
      }
    }
  }

  lemma LastStep(front: seq<NativeComponent>, last: NativeComponent, matches: NativeComponent -> bool,
                 n: NativeComponent)
    ensures IsLast(front + [last], matches, n) <==> if matches(last) then n == last else IsLast(front, matches, n)
  {
    var native := front + [last];
    assert native[|front|] == last;
    if !matches(last) {
      forall k | 0 <= k < |native|
        ensures IsLastAt(native, matches, n, k) <==> k < |front| && IsLastAt(front, matches, n, k)
      {
        assert forall l :: 0 <= l < |front| ==> native[l] == front[l];
      }
    } else if n == last {
      assert IsLastAt(native, matches, n, |front|);
    }
  }

  predicate IsLastAt(native: seq<NativeComponent>, matches: NativeComponent -> bool, n: NativeComponent, k: nat) {
    k < |native| && native[k] == n && matches(n) && forall l :: k < l < |native| ==> !matches(native[l])
  }

  /** The same package by name and version, the case of the name aside. */
  predicate IsSamePackage(n: NativeComponent, c: Component) {
    n.ecosystem == c.ecosystem && n.version == c.version && LowerAscii(n.name) == LowerAscii(c.name)
  }

  /** The last native component with the purl. */
  ghost predicate IsLastWithPurl(native: seq<NativeComponent>, purl: string, n: NativeComponent) {
    exists k: nat :: k < |native| && native[k] == n && n.purl == purl
                     && forall l :: k < l < |native| ==> native[l].purl != purl
  }

  ghost predicate IsLastSame(native: seq<NativeComponent>, c: Component, n: NativeComponent) {
    exists k: nat :: k < |native| && native[k] == n && IsSamePackage(n, c)
                     && forall l :: k < l < |native| ==> !IsSamePackage(native[l], c)
  }

  /** The counterpart is the last native component with the purl, or else the last same package. */
  lemma CounterpartIff(c: Component, native: seq<NativeComponent>)
    ensures forall n :: Matched(c, native) == Some(n)
                        <==> || IsLastWithPurl(native, c.purl, n)
                             || (IsLastSame(native, c, n) && forall m :: m in native ==> m.purl != c.purl)
    ensures Matched(c, native).None? <==> forall n :: n in native ==> n.purl != c.purl && !IsSamePackage(n, c)
  {
    hide LastWith;
    LastIff(native, WithPurl(c.purl));
    LastIff(native, WithIdentity(c));
    forall n
      ensures IsLastWithPurl(native, c.purl, n) <==> IsLast(native, WithPurl(c.purl), n)
      ensures IsLastSame(native, c, n) <==> IsLast(native, WithIdentity(c), n)
    {
      LastTests(native, c, n);
    }
    forall n ensures WithPurl(c.purl)(n) <==> n.purl == c.purl {}
    forall n ensures WithIdentity(c)(n) <==> IsSamePackage(n, c) {}
    hide *;
  }

  lemma LastTests(native: seq<NativeComponent>, c: Component, n: NativeComponent)
    ensures IsLastWithPurl(native, c.purl, n) <==> IsLast(native, WithPurl(c.purl), n)
    ensures IsLastSame(native, c, n) <==> IsLast(native, WithIdentity(c), n)
  {
    forall k: nat
      ensures IsLastAt(native, WithPurl(c.purl), n, k)
              <==> k < |native| && native[k] == n && n.purl == c.purl
                   && forall l :: k < l < |native| ==> native[l].purl != c.purl
    {
    }
    forall k: nat
      ensures IsLastAt(native, WithIdentity(c), n, k)
              <==> k < |native| && native[k] == n && IsSamePackage(n, c)
                   && forall l :: k < l < |native| ==> !IsSamePackage(native[l], c)
    {
    }
  }
}
