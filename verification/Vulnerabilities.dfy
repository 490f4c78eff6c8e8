/** Merging Grype matches into one finding per vulnerability, package URL and version
    (findingsFromGrype in src/scanners/supply-chain/adapters.ts). */
module Vulnerabilities {
  import opened Wrappers
  import opened Text
  import opened Sorting
  import opened CoreTypes
  import opened Listings
  import Inventory

  /** Names outside the five levels count as info. */
  function SeverityOf(text: string): Severity {
    var t := LowerAscii(Trim(text));
    if t == "low" then Low else if t == "medium" then Medium else if t == "high" then High
    else if t == "critical" then Critical else Info
  }

  /** A match; None stands for a member that is missing or not a string. `fixes` are the strings
      of the fix list. */
  datatype Match = Match(
    id: Option<string>, purl: Option<string>, name: Option<string>, version: Option<string>,
    nativeSeverity: string, fixes: seq<string>)

  /** Vulnerability id, package URL and version. */
  type Key = (string, string, string)

  datatype Finding = Finding(severity: Severity, fixedVersions: seq<string>)

  datatype GrypeError = InvalidField(name: string)

  function RequiredField(value: Option<string>, name: string): Result<string, GrypeError> {
    match Inventory.RequiredString(value)
    case None => Err(InvalidField(name))
    case Some(text) => Ok(text)
  }

  function KeyOf(m: Match): Result<Key, GrypeError> {
    var id :- RequiredField(m.id, "vulnerability id");
    var purl :- RequiredField(m.purl, "artifact purl");
    var _ :- RequiredField(m.name, "artifact name");
    var version :- RequiredField(m.version, "artifact version");
    Ok((id, purl, version))
  }

  function TrimmedFixes(fixes: seq<string>): (r: seq<string>)
    ensures forall x :: x in r <==> x != "" && exists f :: f in fixes && Trim(f) == x
  {
    if fixes == [] then []
    else
      assert fixes == [fixes[0]] + fixes[1..];
      (if Trim(fixes[0]) != "" then [Trim(fixes[0])] else []) + TrimmedFixes(fixes[1..])
  }

  /** [...new Set(values)].sort() */
  function SortedSet(values: seq<string>): seq<string> {
    Sort(StringLeq, Unique(values))
  }

  function MergeFinding(previous: Option<Finding>, m: Match): Finding {
    var severity, fixes := SeverityOf(m.nativeSeverity), TrimmedFixes(m.fixes);
    match previous
    case None => Finding(severity, SortedSet(fixes))
    case Some(p) =>
      Finding(if SeverityRank(severity) > SeverityRank(p.severity) then severity else p.severity,
              SortedSet(p.fixedVersions + fixes))
  }

  function Lookup(found: map<Key, Finding>, key: Key): Option<Finding> {
    if key in found then Some(found[key]) else None
  }

  function Collect(matches: seq<Match>, found: map<Key, Finding>): Result<map<Key, Finding>, GrypeError> {
    if matches == [] then Ok(found)
    else
      var key :- KeyOf(matches[0]);
      Collect(matches[1..], found[key := MergeFinding(Lookup(found, key), matches[0])])
  }

  /** The comparison of two findings: their vulnerability ids and purls, joined. */
  function ByName(collate: (string, string) -> bool): (Key, Key) -> bool {
    (a: Key, b: Key) => collate(a.0 + "|" + a.1, b.0 + "|" + b.1)
  }

  function KeyIn(m: Match): Option<Key> {
    if KeyOf(m).Ok? then Some(KeyOf(m).value) else None
  }

  /** The keys of the findings in the order in which they are returned. */
  function Order(collate: (string, string) -> bool, matches: seq<Match>): seq<Key> {
    Listed(ByName(collate), KeyIn, matches)
  }

  /** The merged findings, and the order in which they are returned. */
  method FindingsFromGrype(matches: seq<Match>, collate: (string, string) -> bool)
    returns (r: Result<map<Key, Finding>, GrypeError>, order: seq<Key>)
    ensures r == Collect(matches, map[])
    ensures r.Ok? ==> order == Order(collate, matches)
  {
    hide KeyOf, MergeFinding, KeysOf, Unique, Sort;
    var normalized: map<Key, Finding> := map[];
    order := [];
    var i := 0;
    assert matches[0..] == matches;
    NothingSeen();
    while i < |matches|
      invariant 0 <= i <= |matches|
      invariant Collect(matches, map[]) == Collect(matches[i..], normalized)
      invariant order == Unique(KeysOf(KeyIn, matches[..i]))
      invariant forall k :: k in order <==> k in normalized
    {
      FirstSeenStep(KeyIn, matches[..i], matches[i]);
      assert matches[..i + 1] == matches[..i] + [matches[i]];
      assert matches[i..][0] == matches[i] && matches[i..][1..] == matches[i + 1..];
      var key := KeyOf(matches[i]);
      if key.Err? {
        return Err(key.error), [];
      }
      if key.value !in normalized {
        order := order + [key.value];
      }
      var previous := if key.value in normalized then Some(normalized[key.value]) else None;
      normalized := normalized[key.value := MergeFinding(previous, matches[i])];
      i := i + 1;
    }
    assert matches[..|matches|] == matches;
    return Ok(normalized), Sort(ByName(collate), order);
  }

  lemma NothingSeen()
    ensures Unique(KeysOf(KeyIn, [])) == []
  {
  }

  // ---------- the merged finding ----------

  predicate IsFor(m: Match, key: Key) { KeyOf(m) == Ok(key) }

  lemma SortedSetFacts(values: seq<string>)
    ensures var r := SortedSet(values);
            Sorted(StringLeq, r) && Distinct(r) && forall x :: x in r <==> x in values
  {
    StringIsTotalOrder([]);
    SortSorted(StringLeq, Unique(values));
    SortMembers(StringLeq, Unique(values));
    PermutedDistinct(Unique(values), SortedSet(values));
  }

  /** A sorted repetition-free list is determined by its members. */
  lemma SortedSetUnique(a: seq<string>, b: seq<string>)
    requires Sorted(StringLeq, a) && Distinct(a) && Sorted(StringLeq, b) && Distinct(b)
    requires forall x :: x in a <==> x in b
    ensures a == b
  {
    StringIsTotalOrder(a);
    DistinctSameMultiset(a, b);
    SortedUnique(StringLeq, a, b);
  }

  ghost predicate Reports(matches: seq<Match>, key: Key, severity: Severity) {
    exists m :: m in matches && IsFor(m, key) && SeverityOf(m.nativeSeverity) == severity
  }

  ghost predicate Fixes(matches: seq<Match>, key: Key, version: string) {
    exists m :: m in matches && IsFor(m, key) && version in TrimmedFixes(m.fixes)
  }

  lemma Cons(matches: seq<Match>, key: Key)
    requires matches != []
    ensures forall s :: Reports(matches, key, s)
                <==> || (IsFor(matches[0], key) && SeverityOf(matches[0].nativeSeverity) == s)
                     || Reports(matches[1..], key, s)
    ensures forall v :: Fixes(matches, key, v)
                <==> (IsFor(matches[0], key) && v in TrimmedFixes(matches[0].fixes)) || Fixes(matches[1..], key, v)
  {
    hide IsFor, SeverityOf, TrimmedFixes;
    assert matches == [matches[0]] + matches[1..];
  }

  /** The finding f is the merge of the earlier one and of the matches for its key. */
  ghost predicate Merged(before: Option<Finding>, matches: seq<Match>, key: Key, f: Finding) {
    && ((before.Some? && before.value.severity == f.severity) || Reports(matches, key, f.severity))
    && (before.Some? ==> SeverityRank(before.value.severity) <= SeverityRank(f.severity))
    && (forall s :: Reports(matches, key, s) ==> SeverityRank(s) <= SeverityRank(f.severity))
    && (forall v ::
          v in f.fixedVersions <==> (before.Some? && v in before.value.fixedVersions) || Fixes(matches, key, v))
  }

  ghost predicate Tidy(before: Option<Finding>) {
    before.Some? ==> Sorted(StringLeq, before.value.fixedVersions) && Distinct(before.value.fixedVersions)
  }

  lemma MergedFixes(before: Option<Finding>, m: Match)
    ensures var fixed := MergeFinding(before, m).fixedVersions;
            && Sorted(StringLeq, fixed) && Distinct(fixed)
            && forall v :: v in fixed
                           <==> (before.Some? && v in before.value.fixedVersions) || v in TrimmedFixes(m.fixes)
  {
    hide SortedSet, SeverityOf, SeverityRank, TrimmedFixes, Sorted, Distinct, StringLeq;
    var fixes := TrimmedFixes(m.fixes);
    SortedSetFacts(if before.Some? then before.value.fixedVersions + fixes else fixes);
  }

  lemma MergedSeverity(before: Option<Finding>, m: Match)
    ensures var merged, own := MergeFinding(before, m).severity, SeverityOf(m.nativeSeverity);
            && (merged == own || (before.Some? && merged == before.value.severity))
            && SeverityRank(own) <= SeverityRank(merged)
            && (before.Some? ==> SeverityRank(before.value.severity) <= SeverityRank(merged))
  {
    hide SortedSet, SeverityOf, SeverityRank, TrimmedFixes;
  }

  lemma MergeStep(before: Option<Finding>, m: Match, key: Key)
    requires IsFor(m, key)
    ensures Tidy(Some(MergeFinding(before, m))) && Merged(before, [m], key, MergeFinding(before, m))
  {
    hide MergeFinding, IsFor, SeverityOf, SeverityRank, TrimmedFixes, Reports, Fixes, Sorted, Distinct, StringLeq;
    MergedFixes(before, m);
    MergedSeverity(before, m);
    Alone(m, key);
  }

  lemma Alone(m: Match, key: Key)
    requires IsFor(m, key)
    ensures forall s :: Reports([m], key, s) <==> SeverityOf(m.nativeSeverity) == s
    ensures forall v :: Fixes([m], key, v) <==> v in TrimmedFixes(m.fixes)
  {
    hide IsFor, SeverityOf, TrimmedFixes;
    Cons([m], key);
    assert [m][1..] == [];
  }

  lemma MergedThen(before: Option<Finding>, m: Match, rest: seq<Match>, key: Key, mid: Finding, f: Finding)
    requires IsFor(m, key) && Merged(before, [m], key, mid) && Merged(Some(mid), rest, key, f)
    ensures Merged(before, [m] + rest, key, f)
  {
    Cons([m] + rest, key);
    Alone(m, key);
    assert ([m] + rest)[1..] == rest;
    hide IsFor, SeverityOf, TrimmedFixes, Reports, Fixes;
  }

  lemma OtherKey(before: Option<Finding>, m: Match, rest: seq<Match>, key: Key, f: Finding)
    requires !IsFor(m, key) && Merged(before, rest, key, f)
    ensures Merged(before, [m] + rest, key, f)
  {
    Cons([m] + rest, key);
    assert ([m] + rest)[1..] == rest;
    hide IsFor, SeverityOf, TrimmedFixes, Reports, Fixes;
  }

  lemma {:induction false} CollectMerges(matches: seq<Match>, found: map<Key, Finding>, key: Key)
    requires Collect(matches, found).Ok? && Tidy(Lookup(found, key))
    ensures var r := Lookup(Collect(matches, found).value, key);
            Tidy(r) && (r.Some? ==> Merged(Lookup(found, key), matches, key, r.value))
  {
    if matches != [] {
      var m := matches[0];
      var k := KeyOf(m).value;
      var merged := MergeFinding(Lookup(found, k), m);
      var found' := found[k := merged];
      assert IsFor(m, key) <==> k == key;
      assert Collect(matches, found) == Collect(matches[1..], found');
      assert matches == [m] + matches[1..];
      assert Lookup(found', key) == if k == key then Some(merged) else Lookup(found, key);
      if k == key {
        MergeStep(Lookup(found, key), m, key);
      }
      CollectMerges(matches[1..], found', key);
      hide KeyOf, IsFor, Collect, MergeFinding, Merged, Tidy;
      var r := Lookup(Collect(matches, found).value, key);
      if r.Some? {
        if k == key {
          MergedThen(Lookup(found, key), m, matches[1..], key, merged, r.value);
        } else {
          OtherKey(Lookup(found, key), m, matches[1..], key, r.value);
        }
      }
    }
  }

  lemma {:induction false} CollectHas(matches: seq<Match>, found: map<Key, Finding>, key: Key)
    requires Collect(matches, found).Ok?
    ensures key in Collect(matches, found).value <==> key in found || exists s :: Reports(matches, key, s)
  {
    if matches != [] {
      hide KeyOf, MergeFinding, SeverityOf, TrimmedFixes;
      var m := matches[0];
      var k := KeyOf(m).value;
      Cons(matches, key);
      CollectHas(matches[1..], found[k := MergeFinding(Lookup(found, k), m)], key);
      hide Reports;
      assert IsFor(m, key) ==> Reports(matches, key, SeverityOf(m.nativeSeverity));
    }
  }

  lemma {:induction false} CollectFailsIff(matches: seq<Match>, found: map<Key, Finding>)
    ensures Collect(matches, found).Err? <==> exists m :: m in matches && KeyOf(m).Err?
  {
    if matches != [] {
      hide KeyOf, MergeFinding;
      assert matches == [matches[0]] + matches[1..];
      if KeyOf(matches[0]).Ok? {
        var key := KeyOf(matches[0]).value;
        CollectFailsIff(matches[1..], found[key := MergeFinding(Lookup(found, key), matches[0])]);
      }
    }
  }

  /** Per key the finding keeps the highest severity that any match reports and exactly the union
      of their fixed versions, sorted without repetitions. */
  lemma KeepsWorstAndAllFixes(matches: seq<Match>, key: Key)
    requires Collect(matches, map[]).Ok?
    ensures var r := Collect(matches, map[]).value;
            && (key in r <==> exists s :: Reports(matches, key, s))
            && (key in r ==>
                  && Reports(matches, key, r[key].severity)
                  && (forall s :: Reports(matches, key, s) ==> SeverityRank(s) <= SeverityRank(r[key].severity))
                  && (forall v :: v in r[key].fixedVersions <==> Fixes(matches, key, v))
                  && Sorted(StringLeq, r[key].fixedVersions) && Distinct(r[key].fixedVersions))
  {
    CollectMerges(matches, map[], key);
    CollectHas(matches, map[], key);
  }

  /** The order of the matches does not show in any finding. */
  lemma OrderIndependent(a: seq<Match>, b: seq<Match>)
    requires multiset(a) == multiset(b)
    ensures Collect(a, map[]).Ok? <==> Collect(b, map[]).Ok?
    ensures Collect(a, map[]).Ok? ==> Collect(a, map[]) == Collect(b, map[])
  {
    SameMembers(a, b);
    CollectFailsIff(a, map[]);
    CollectFailsIff(b, map[]);
    hide KeyOf, Collect;
    if Collect(a, map[]).Ok? {
      var x, y := Collect(a, map[]).value, Collect(b, map[]).value;
      forall key ensures Lookup(x, key) == Lookup(y, key) {
        KeepsWorstAndAllFixes(a, key);
        KeepsWorstAndAllFixes(b, key);
        SameReports(a, b, key);
        hide Reports, Fixes;
        if key in x && key in y {
          SortedSetUnique(x[key].fixedVersions, y[key].fixedVersions);
        }
      }
      SameLookups(x, y);
    }
  }

  lemma SameReports(a: seq<Match>, b: seq<Match>, key: Key)
    requires forall m :: m in a <==> m in b
    ensures forall s :: Reports(a, key, s) <==> Reports(b, key, s)
    ensures forall v :: Fixes(a, key, v) <==> Fixes(b, key, v)
  {
    hide IsFor, SeverityOf, TrimmedFixes;
  }

  lemma SameLookups(x: map<Key, Finding>, y: map<Key, Finding>)
    requires forall key :: Lookup(x, key) == Lookup(y, key)
    ensures x == y
  {
    forall key ensures key in x <==> key in y {
      assert Lookup(x, key) == Lookup(y, key);
    }
    forall key | key in x ensures x[key] == y[key] {
      assert Lookup(x, key) == Lookup(y, key);
    }
  }

  // ---------- the fields of a finding ----------

  /** The name of a level, in any case and with white space around it. */
  ghost predicate Names(text: string, level: string) {
    exists word :: IsStripped(IsSpace, text, word) && SameButCase(word, level)
  }

  /** A severity is the level that the text names, and info when it names none of the others. */
  lemma SeverityIff(text: string)
    ensures SeverityOf(text) == Low <==> Names(text, "low")
    ensures SeverityOf(text) == Medium <==> Names(text, "medium")
    ensures SeverityOf(text) == High <==> Names(text, "high")
    ensures SeverityOf(text) == Critical <==> Names(text, "critical")
  {
    NamesIff(text, "low");
    NamesIff(text, "medium");
    NamesIff(text, "high");
    NamesIff(text, "critical");
    hide Names;
  }

  lemma NamesIff(text: string, level: string)
    ensures LowerAscii(Trim(text)) == level <==> Names(text, level)
  {
    hide IsStripped, LowerAscii, SameButCase;
    forall word ensures Trim(text) == word <==> IsStripped(IsSpace, text, word) {
      StripIff(IsSpace, text, word);
    }
    LowerIff(Trim(text), level);
  }

  /** The kept severity is the worst one reported. */
  lemma KeepsTheWorst(matches: seq<Match>, key: Key)
    requires Collect(matches, map[]).Ok? && key in Collect(matches, map[]).value
    ensures var s := Collect(matches, map[]).value[key].severity;
            var critical, high := Reports(matches, key, Critical), Reports(matches, key, High);
            var medium, low := Reports(matches, key, Medium), Reports(matches, key, Low);
            && (s == Critical <==> critical)
            && (s == High <==> high && !critical)
            && (s == Medium <==> medium && !high && !critical)
            && (s == Low <==> low && !medium && !high && !critical)
  {
    hide Collect, Reports;
    KeepsWorstAndAllFixes(matches, key);
  }

  /** A required field is present, not blank and without NUL, and is taken without the space around it. */
  ghost predicate IsField(value: Option<string>, text: string) {
    value.Some? && '\0' !in value.value && text != "" && IsStripped(IsSpace, value.value, text)
  }

  lemma FieldIff(value: Option<string>, name: string)
    ensures forall text :: RequiredField(value, name) == Ok(text) <==> IsField(value, text)
    ensures RequiredField(value, name).Err? ==> RequiredField(value, name) == Err(InvalidField(name))
  {
    if value.Some? {
      forall text ensures Trim(value.value) == text <==> IsStripped(IsSpace, value.value, text) {
        StripIff(IsSpace, value.value, text);
      }
    }
    hide IsStripped;
  }

  /** A match needs the four fields and is filed under three of them. */
  lemma KeyIff(m: Match, key: Key)
    ensures KeyOf(m) == Ok(key)
            <==> && IsField(m.id, key.0) && IsField(m.purl, key.1) && IsField(m.version, key.2)
                 && exists name :: IsField(m.name, name)
  {
    FieldIff(m.id, "vulnerability id");
    FieldIff(m.purl, "artifact purl");
    FieldIff(m.name, "artifact name");
    FieldIff(m.version, "artifact version");
    hide RequiredField, IsField;
  }

  /** The error names the first field that is missing. */
  lemma FirstMissingField(m: Match)
    requires KeyOf(m).Err?
    ensures var error := KeyOf(m).error.name;
            var id, purl := exists text :: IsField(m.id, text), exists text :: IsField(m.purl, text);
            var name := exists text :: IsField(m.name, text);
            && (error == "vulnerability id" <==> !id)
            && (error == "artifact purl" <==> id && !purl)
            && (error == "artifact name" <==> id && purl && !name)
            && (error == "artifact version" <==> id && purl && name)
  {
    FieldIff(m.id, "vulnerability id");
    FieldIff(m.purl, "artifact purl");
    FieldIff(m.name, "artifact name");
    FieldIff(m.version, "artifact version");
    hide RequiredField, IsField;
    assert |"vulnerability id"| != |"artifact purl"| == |"artifact name"|;
    assert "artifact purl"[9] != "artifact name"[9];
  }

  // ---------- the order of the findings ----------

  lemma ByNameIsPreorder(collate: (string, string) -> bool)
    requires TotalPreorder(collate)
    ensures TotalPreorder(ByName(collate))
  {
    var order := ByName(collate);
    forall a, b ensures order(a, b) || order(b, a) {
      assert collate(a.0 + "|" + a.1, b.0 + "|" + b.1) || collate(b.0 + "|" + b.1, a.0 + "|" + a.1);
    }
    forall a, b, c | order(a, b) && order(b, c) ensures order(a, c) {
      assert collate(a.0 + "|" + a.1, b.0 + "|" + b.1) && collate(b.0 + "|" + b.1, c.0 + "|" + c.1);
    }
  }

  /** Each finding is returned once. */
  lemma OrderListsAll(collate: (string, string) -> bool, matches: seq<Match>)
    requires Collect(matches, map[]).Ok?
    ensures Distinct(Order(collate, matches))
    ensures forall k :: k in Order(collate, matches) <==> k in Collect(matches, map[]).value
  {
    ListedKeys(ByName(collate), KeyIn, matches);
    forall k ensures k in Order(collate, matches) <==> k in Collect(matches, map[]).value {
      CollectHas(matches, map[], k);
      ReportedIff(matches, k);
    }
  }

  lemma ReportedIff(matches: seq<Match>, key: Key)
    ensures (exists s :: Reports(matches, key, s)) <==> exists m :: m in matches && KeyIn(m) == Some(key)
  {
    hide KeyOf, SeverityOf;
    if m :| m in matches && KeyIn(m) == Some(key) {
      assert IsFor(m, key);
      assert Reports(matches, key, SeverityOf(m.nativeSeverity));
    }
    if s :| Reports(matches, key, s) {
      var m :| m in matches && IsFor(m, key) && SeverityOf(m.nativeSeverity) == s;
      assert KeyIn(m) == Some(key);
    }
  }

  /** The order of the matches shows in that of the findings exactly when two of them collate alike by
      vulnerability id and purl. */
  lemma OrderForgetsMatchesIff(collate: (string, string) -> bool, matches: seq<Match>)
    requires TotalPreorder(collate)
    ensures (forall other :: multiset(other) == multiset(matches) ==> Order(collate, other) == Order(collate, matches))
            <==> NoTies(ByName(collate), Order(collate, matches))
  {
    hide NoTies, Listed, Collect, ByName, KeyIn;
    ByNameIsPreorder(collate);
    ListedForgetsOrderIff(ByName(collate), KeyIn, matches);
    forall other: seq<Match> ensures Order(collate, other) == Listed(ByName(collate), KeyIn, other) {}
  }

  /** A match for the package p at the given version. */
  function AtVersion(version: string): Match {
    Match(Some("v"), Some("p"), Some("n"), Some(version), "high", [])
  }

  /** Two versions of one package tie under every collation. */
  lemma TwoVersionsTie(collate: (string, string) -> bool)
    requires TotalPreorder(collate)
    ensures var a, b := AtVersion("1"), AtVersion("2");
            Collect([a, b], map[]).Ok? && Order(collate, [a, b]) != Order(collate, [b, a])
  {
    hide KeyOf, KeyIn, AtVersion, Collect, Listed;
    var a, b := AtVersion("1"), AtVersion("2");
    VersionKey("1");
    VersionKey("2");
    assert "1"[0] != "2"[0];
    CollectFailsIff([a, b], map[]);
    ByNameIsPreorder(collate);
    assert collate("v" + "|" + "p", "v" + "|" + "p");
    TieIsListedInOrder(ByName(collate), KeyIn, a, b, []);
    assert [a, b] + [] == [a, b] && [b, a] + [] == [b, a];
  }

  lemma VersionKey(version: string)
    requires |version| == 1 && !IsSpace(version[0]) && version[0] != '\0'
    ensures KeyOf(AtVersion(version)) == Ok(("v", "p", version))
    ensures KeyIn(AtVersion(version)) == Some(("v", "p", version))
  {
    OneUnit("v");
    OneUnit("p");
    OneUnit("n");
    OneUnit(version);
    hide RequiredField;
  }

  lemma OneUnit(s: string)
    requires |s| == 1 && !IsSpace(s[0]) && s[0] != '\0'
    ensures RequiredField(Some(s), "vulnerability id") == Ok(s) && RequiredField(Some(s), "artifact purl") == Ok(s)
    ensures RequiredField(Some(s), "artifact name") == Ok(s) && RequiredField(Some(s), "artifact version") == Ok(s)
  {
    StripEnds(IsSpace, s);
  }
}
