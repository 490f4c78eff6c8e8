/** Publication of a run's record, step by step, and reading it back (src/compliance/store.ts and the
    integrity manifest of src/enterprise/evidence-integrity.ts). */
module ComplianceStore {
  import opened Wrappers
  import opened Text
  import opened Sorting
  import opened CanonicalJson
  import opened ComplianceScope

  /** The summary's own tenant, project and run id stand beside its JSON. */
  datatype Publication = Publication(
    tenant: Text, project: Text, runId: string, summary: Json, evidence: Json, report: Json, events: Json)

  // ---------- the environment ----------

  datatype Item = Item(path: string, sha256: string)

  /** JSON texts. Reading back what was written gives what JSON can hold of it. */
  datatype Codec = Codec(
    stringify: Json -> string, parse: string -> Option<Json>,
    printManifest: (string, seq<Item>) -> string, itemsOf: string -> Option<seq<Item>>)

  ghost predicate ReadsBack(c: Codec) {
    && (forall v: Json :: Valid(v) && !v.JUndefined? ==> c.parse(c.stringify(v)) == Some(Stored(v)))
    && (forall at, items :: c.itemsOf(c.printManifest(at, items)) == Some(items))
  }

  /** sha256 of a file; the directory name for the encoded text of an identity; the suffix of a temporary
      file's name; the time; the signature file for a manifest text, when there is a private key; what can be
      read, from the directory that is read, under a path that is not a plain name. */
  datatype Env = Env(
    codec: Codec, hash: string -> string, scopeOf: Text -> string,
    stamp: string -> string, now: string, sign: Option<string -> string>, elsewhere: string -> Option<string>)

  // ---------- files ----------

  /** The directories of a store: one per scope, in it the one that holds the runs, and the runs. */
  datatype Place = ScopeRoot | RunsRoot | Run(id: string)

  datatype Dir = Dir(scope: string, place: Place)

  type Folder = map<string, string>

  type Disk = map<Dir, Folder>

  /** The directories above one. */
  function Parents(dir: Dir): set<Dir> {
    match dir.place
    case ScopeRoot => {}
    case RunsRoot => {Dir(dir.scope, ScopeRoot)}
    case Run(_) => {Dir(dir.scope, ScopeRoot), Dir(dir.scope, RunsRoot)}
  }

  datatype Op =
    | MakeParents(dir: Dir)
    | MakeDirectory(dir: Dir)
    | Write(dir: Dir, name: string, text: string)
    | Rename(dir: Dir, from: string, to: string)

  function FolderAt(disk: Disk, dir: Dir): Folder {
    if dir in disk then disk[dir] else map[]
  }

  function Step(disk: Disk, op: Op): Disk {
    match op
    case MakeParents(dir) => (map d | d in Parents(dir) :: map[]) + disk
    case MakeDirectory(dir) => disk[dir := map[]]
    case Write(dir, name, text) => disk[dir := FolderAt(disk, dir)[name := text]]
    case Rename(dir, from, to) =>
      var folder := FolderAt(disk, dir);
      if from in folder then disk[dir := (folder - {from})[to := folder[from]]] else disk
  }

  function After(disk: Disk, ops: seq<Op>): Disk {
    if ops == [] then disk else Step(After(disk, ops[..|ops| - 1]), ops[|ops| - 1])
  }

  /** A crash after n operations; a write that was under way has left a prefix of its text. */
  function CrashDisk(disk: Disk, ops: seq<Op>, n: nat, k: nat): Disk
    requires n <= |ops|
  {
    var before := After(disk, ops[..n]);
    if n < |ops| && ops[n].Write? && k <= |ops[n].text| then Step(before, ops[n].(text := ops[n].text[..k])) else before
  }

  const SUMMARY := "summary.json"
  const EVIDENCE := "evidence.json"
  const REPORT := "report.json"
  const EVENTS := "events.json"
  const MANIFEST := "integrity.json"
  const SIGNATURE := "integrity.json.sig"

  /** The four files in the order the manifest lists them. */
  const NAMES := [EVENTS, EVIDENCE, REPORT, SUMMARY]

  // ---------- publishing ----------

  predicate IsRunIdChar(c: char) {
    'A' <= c <= 'Z' || 'a' <= c <= 'z' || '0' <= c <= '9' || c == '.' || c == '_' || c == '-'
  }

  predicate SafeRunId(id: string) {
    id != "" && forall i :: 0 <= i < |id| ==> IsRunIdChar(id[i])
  }

  /** Run ids are letters, digits, dots, hyphens and underscores of ASCII. */
  lemma SafeRunIdIff(id: string)
    ensures SafeRunId(id)
            <==> id != "" && forall i :: 0 <= i < |id| ==>
                   var c := id[i] as int; 48 <= c <= 57 || 65 <= c <= 90 || 97 <= c <= 122 || c in {45, 46, 95}
  {
  }

  /** The run ids "." and ".." name the directories above the runs. */
  function PlaceOf(runId: string): Place {
    if runId == "." then RunsRoot else if runId == ".." then ScopeRoot else Run(runId)
  }

  function RunDir(env: Env, id: Identity, runId: string): Dir {
    Dir(env.scopeOf(ScopeText(id)), PlaceOf(runId))
  }

  function Tmp(env: Env, name: string): string {
    name + "." + env.stamp(name) + ".tmp"
  }

  function AtomicOps(env: Env, dir: Dir, name: string, text: string): seq<Op> {
    [Write(dir, Tmp(env, name), text), Rename(dir, Tmp(env, name), name)]
  }

  function Files(env: Env, p: Publication): (r: Folder)
    ensures forall n :: n in NAMES ==> n in r
  {
    map[SUMMARY := env.codec.stringify(p.summary), EVIDENCE := env.codec.stringify(p.evidence),
        REPORT := env.codec.stringify(p.report), EVENTS := env.codec.stringify(p.events)]
  }

  function ItemsFor(env: Env, folder: Folder, names: seq<string>): (r: seq<Item>)
    requires forall n :: n in names ==> n in folder
    ensures |r| == |names|
    ensures forall i :: 0 <= i < |r| ==> r[i] == Item(names[i], env.hash(folder[names[i]]))
  {
    seq(|names|, i requires 0 <= i < |names| => Item(names[i], env.hash(folder[names[i]])))
  }

  function ManifestText(env: Env, p: Publication): string {
    env.codec.printManifest(env.now, ItemsFor(env, Files(env, p), NAMES))
  }

  function DataOps(env: Env, dir: Dir, p: Publication): seq<Op> {
    AtomicOps(env, dir, SUMMARY, env.codec.stringify(p.summary))
    + AtomicOps(env, dir, EVIDENCE, env.codec.stringify(p.evidence))
    + AtomicOps(env, dir, REPORT, env.codec.stringify(p.report))
    + AtomicOps(env, dir, EVENTS, env.codec.stringify(p.events))
  }

  function SealOps(env: Env, dir: Dir, p: Publication): seq<Op> {
    [Write(dir, MANIFEST, ManifestText(env, p))]
    + if env.sign.Some? then [Write(dir, SIGNATURE, env.sign.value(ManifestText(env, p)))] else []
  }

  function Start(dir: Dir): seq<Op> { [MakeParents(dir), MakeDirectory(dir)] }

  /** Everything a publication does to the disk, in order. */
  function PublishOps(env: Env, dir: Dir, p: Publication): seq<Op> {
    Start(dir) + DataOps(env, dir, p) + SealOps(env, dir, p)
  }

  datatype PublishError = ScopeMismatch | InvalidRunId | AlreadyExists

  /** A file stands in the place of a directory. */
  predicate IsFile(disk: Disk, dir: Dir) {
    dir !in disk && dir.place.Run? && dir.place.id in FolderAt(disk, Dir(dir.scope, RunsRoot))
  }

  predicate Exists(disk: Disk, dir: Dir) { dir in disk || IsFile(disk, dir) }

  function Refusal(env: Env, disk: Disk, id: Identity, p: Publication): Option<PublishError> {
    if p.tenant != id.tenant || p.project != id.project then Some(ScopeMismatch)
    else if !SafeRunId(p.runId) then Some(InvalidRunId)
    else if Exists(disk, RunDir(env, id, p.runId)) then Some(AlreadyExists)
    else None
  }

  /** What a call does to the disk; the directories above the run are made before it is refused as existing. */
  function Does(env: Env, disk: Disk, id: Identity, p: Publication): seq<Op> {
    var dir := RunDir(env, id, p.runId);
    match Refusal(env, disk, id, p)
    case None => PublishOps(env, dir, p)
    case Some(AlreadyExists) => [MakeParents(dir)]
    case _ => []
  }

  // ---------- reading ----------

  datatype ReadError = InvalidId | Unreadable | Mismatched(paths: seq<string>) | BadSignature

  datatype ReadResult =
    | Absent
    | Failed(error: ReadError)
    | Found(summary: Json, evidence: Json, report: Json, events: Json)

  /** Accepts a manifest text with a signature file; None when no public key is set. */
  type Check = Option<(string, string) -> bool>

  predicate IsName(path: string) { path != "" && path != "." && path != ".." && '/' !in path && '\0' !in path }

  function ContentAt(env: Env, folder: Folder, path: string): Option<string> {
    if !IsName(path) then env.elsewhere(path) else if path in folder then Some(folder[path]) else None
  }

  predicate Matches(env: Env, folder: Folder, item: Item) {
    var content := ContentAt(env, folder, item.path);
    content.Some? && env.hash(content.value) == item.sha256
  }

  function Mismatches(env: Env, folder: Folder, items: seq<Item>): seq<string> {
    if items == [] then []
    else
      var last := items[|items| - 1];
      Mismatches(env, folder, items[..|items| - 1]) + if Matches(env, folder, last) then [] else [last.path]
  }

  /** The name is that of a directory inside dir. */
  predicate IsSubdirectory(disk: Disk, dir: Dir, name: string) {
    match dir.place
    case ScopeRoot => name == "runs" && Dir(dir.scope, RunsRoot) in disk
    case RunsRoot => Dir(dir.scope, Run(name)) in disk
    case Run(_) => false
  }

  function Subdirectories(disk: Disk, dir: Dir): string -> bool {
    (name: string) => IsSubdirectory(disk, dir, name)
  }

  /** A file that is not there: nothing is found, unless a directory has its name. */
  function NoFile(name: string, isDir: string -> bool): ReadResult {
    if isDir(name) then Failed(Unreadable) else Absent
  }

  /** The first file that is missing decides, then the first that is not JSON. */
  function ReadParts(env: Env, folder: Folder, isDir: string -> bool): ReadResult {
    if SUMMARY !in folder then NoFile(SUMMARY, isDir)
    else if EVIDENCE !in folder then NoFile(EVIDENCE, isDir)
    else if REPORT !in folder then NoFile(REPORT, isDir)
    else if EVENTS !in folder then NoFile(EVENTS, isDir)
    else
      var s, e := env.codec.parse(folder[SUMMARY]), env.codec.parse(folder[EVIDENCE]);
      var r, v := env.codec.parse(folder[REPORT]), env.codec.parse(folder[EVENTS]);
      if s.Some? && e.Some? && r.Some? && v.Some? then Found(s.value, e.value, r.value, v.value) else Failed(Unreadable)
  }

  predicate SignatureHolds(check: Check, folder: Folder)
    requires MANIFEST in folder
  {
    check.Some? ==> SIGNATURE in folder && check.value(folder[MANIFEST], folder[SIGNATURE])
  }

  function ReadFolder(env: Env, check: Check, folder: Folder, isDir: string -> bool): ReadResult {
    if MANIFEST !in folder then NoFile(MANIFEST, isDir)
    else
      match env.codec.itemsOf(folder[MANIFEST])
      case None => Failed(Unreadable)
      case Some(items) =>
        if Mismatches(env, folder, items) != [] then Failed(Mismatched(Mismatches(env, folder, items)))
        else if !SignatureHolds(check, folder) then Failed(BadSignature)
        else ReadParts(env, folder, isDir)
  }

  function Read(env: Env, check: Check, disk: Disk, id: Identity, runId: string): ReadResult {
    var dir := RunDir(env, id, runId);
    if !SafeRunId(runId) then Failed(InvalidId)
    else if IsFile(disk, dir) then Failed(Unreadable)
    else ReadFolder(env, check, FolderAt(disk, dir), Subdirectories(disk, dir))
  }

  /** Without a manifest there is nothing to read. The one exception: the id "." reads the directory of the runs, where
      a run may be called like the manifest. */
  lemma NoManifest(env: Env, check: Check, disk: Disk, id: Identity, runId: string)
    requires SafeRunId(runId) && !IsFile(disk, RunDir(env, id, runId))
    requires MANIFEST !in FolderAt(disk, RunDir(env, id, runId))
    ensures Read(env, check, disk, id, runId)
            == if runId == "." && RunDir(env, id, MANIFEST) in disk then Failed(Unreadable) else Absent
  {
    hide SafeRunId;
    assert MANIFEST != "runs" by {
      assert |MANIFEST| != |"runs"|;
    }
    assert |MANIFEST| > 2;
  }

  /** A read refuses exactly the ids that a publication refuses, and a file in the place of the run. */
  lemma UnsafeIsRefused(env: Env, check: Check, disk: Disk, id: Identity, runId: string)
    ensures Read(env, check, disk, id, runId) == Failed(InvalidId) <==> !SafeRunId(runId)
    ensures SafeRunId(runId) && IsFile(disk, RunDir(env, id, runId))
            ==> Read(env, check, disk, id, runId) == Failed(Unreadable)
  {
    hide SafeRunId, RunDir, Mismatches, FolderAt;
  }

  /** Manifest entries with plain names are about files of the directory. */
  lemma NamesAreInside(env: Env, folder: Folder, path: string)
    ensures ContentAt(env, folder, path)
            == if path in {"", ".", ".."} || exists i :: 0 <= i < |path| && path[i] as int in {0, 47}
               then env.elsewhere(path)
               else if path in folder then Some(folder[path]) else None
  {
    assert '/' in path <==> exists i :: 0 <= i < |path| && path[i] as int == 47;
    assert '\0' in path <==> exists i :: 0 <= i < |path| && path[i] as int == 0;
  }

  /** What a reader gets of a publication. */
  function Published(p: Publication): ReadResult {
    Found(Stored(p.summary), Stored(p.evidence), Stored(p.report), Stored(p.events))
  }

  predicate IsStorable(v: Json) { Valid(v) && !v.JUndefined? }

  predicate IsRecord(p: Publication) {
    IsStorable(p.summary) && IsStorable(p.evidence) && IsStorable(p.report) && IsStorable(p.events)
  }

  // ---------- the steps ----------

  lemma {:induction false} AfterConcat(disk: Disk, a: seq<Op>, b: seq<Op>)
    ensures After(disk, a + b) == After(After(disk, a), b)
  {
    hide Step;
    if b == [] {
      assert a + b == a;
    } else {
      AfterConcat(disk, a, b[..|b| - 1]);
      assert (a + b)[..|a + b| - 1] == a + b[..|b| - 1];
    }
  }

  lemma NothingDone(disk: Disk)
    ensures After(disk, []) == disk
  {
  }

  lemma AfterOne(disk: Disk, op: Op)
    ensures After(disk, [op]) == Step(disk, op)
  {
    assert [op][..0] == [];
  }

  /** Temporary names end unlike every other name. */
  lemma TmpIsOther(env: Env, name: string)
    ensures Tmp(env, name) !in NAMES && Tmp(env, name) != MANIFEST && Tmp(env, name) != SIGNATURE
            && Tmp(env, name) != name
  {
    var t := Tmp(env, name);
    assert t[|t| - 1] == 'p' && t[|t| - 2] == 'm';
    assert SIGNATURE[|SIGNATURE| - 1] == 'g';
    assert forall n :: n in NAMES || n == MANIFEST ==> n[|n| - 1] == 'n';
    assert |t| > |name|;
  }

  /** The name of the run is taken by a directory, or by a file beside the other runs. */
  ghost predicate IsTaken(disk: Disk, dir: Dir) {
    || dir in disk
    || (dir.place.Run? && exists d :: d in disk && d == Dir(dir.scope, RunsRoot) && dir.place.id in disk[d])
  }

  /** A publication is refused exactly when it belongs to another tenant or project, its run id is not safe or its
      name is taken; a refused one leaves every directory as it was. */
  lemma RefusedIff(env: Env, disk: Disk, id: Identity, p: Publication)
    ensures var r, own := Refusal(env, disk, id, p), p.tenant == id.tenant && p.project == id.project;
            var taken := IsTaken(disk, RunDir(env, id, p.runId));
            && (r == Some(ScopeMismatch) <==> !own)
            && (r == Some(InvalidRunId) <==> own && !SafeRunId(p.runId))
            && (r == Some(AlreadyExists) <==> own && SafeRunId(p.runId) && taken)
            && (r.Some? ==> var after := After(disk, Does(env, disk, id, p));
                            forall d :: d in disk ==> d in after && after[d] == disk[d])
  {
    hide RunDir, SafeRunId;
    var dir := RunDir(env, id, p.runId);
    NothingDone(disk);
    AfterOne(disk, MakeParents(dir));
  }

  /** A file written under a temporary name and renamed is just there afterwards. */
  lemma AtomicIsWrite(env: Env, disk: Disk, dir: Dir, name: string, text: string)
    requires Tmp(env, name) !in FolderAt(disk, dir)
    ensures After(disk, AtomicOps(env, dir, name, text)) == disk[dir := FolderAt(disk, dir)[name := text]]
  {
    TmpIsOther(env, name);
    var ops := AtomicOps(env, dir, name, text);
    assert ops[..1] == [ops[0]];
    AfterOne(disk, ops[0]);
    hide Tmp;
    var folder := FolderAt(disk, dir);
    assert (folder[Tmp(env, name) := text] - {Tmp(env, name)}) == folder;
  }

  lemma {:induction false} FirstDifferenceDecides(a: string, b: string, k: nat)
    requires k < |a| && k < |b| && a[..k] == b[..k] && a[k] < b[k]
    ensures StringLeq(a, b)
    decreases k
  {
    if k > 0 {
      assert a[0] == a[..k][0] == b[..k][0] == b[0];
      assert a[1..][..k - 1] == a[..k][1..] && b[1..][..k - 1] == b[..k][1..];
      FirstDifferenceDecides(a[1..], b[1..], k - 1);
    }
  }

  /** The names of the four files are listed in the order of sorting. */
  lemma NamesAreSorted()
    ensures Sorted(StringLeq, NAMES) && Distinct(NAMES)
  {
    hide LexLeqBy, StringLeq;
    assert EVENTS[..2] == EVIDENCE[..2] == "ev";
    FirstDifferenceDecides(EVENTS, EVIDENCE, 2);
    FirstDifferenceDecides(EVENTS, REPORT, 0);
    FirstDifferenceDecides(EVENTS, SUMMARY, 0);
    FirstDifferenceDecides(EVIDENCE, REPORT, 0);
    FirstDifferenceDecides(EVIDENCE, SUMMARY, 0);
    FirstDifferenceDecides(REPORT, SUMMARY, 0);
    assert EVENTS[2] != EVIDENCE[2];
    assert EVENTS[0] == EVIDENCE[0] == 'e' && REPORT[0] == 'r' && SUMMARY[0] == 's';
  }

  /** There is one way to list the four files in order. */
  lemma OnlyThisOrder(names: seq<string>)
    requires Distinct(names) && Sorted(StringLeq, names)
    requires forall n :: n in names <==> n in NAMES
    ensures names == NAMES
  {
    NamesAreSorted();
    StringIsTotalOrder(NAMES);
    hide *;
    DistinctSameMultiset(NAMES, names);
    SortedUnique(StringLeq, NAMES, names);
  }

  function Without(listing: seq<string>): (r: seq<string>)
    ensures forall n :: n in r <==> n in listing && n != MANIFEST && n != SIGNATURE
    ensures Distinct(listing) ==> Distinct(r)
  {
    if listing == [] then []
    else
      var front, last := listing[..|listing| - 1], listing[|listing| - 1];
      assert listing == front + [last];
      if last == MANIFEST || last == SIGNATURE then Without(front)
      else
        assert Distinct(listing) ==> last !in front;
        Without(front) + [last]
  }

  lemma ManifestNames(listing: seq<string>)
    requires Distinct(listing)
    ensures var names := Sort(StringLeq, Without(listing));
            && Sorted(StringLeq, names) && Distinct(names)
            && forall n :: n in names <==> n in listing && n != MANIFEST && n != SIGNATURE
  {
    var kept := Without(listing);
    StringIsTotalOrder(kept);
    SortSorted(StringLeq, kept);
    SortMembers(StringLeq, kept);
    PermutedDistinct(kept, Sort(StringLeq, kept));
    hide *;
  }

  // ---------- what each stretch of a publication leaves ----------

  lemma DirectoryMade(disk: Disk, dir: Dir)
    ensures After(disk, Start(dir)) == Step(disk, MakeParents(dir))[dir := map[]]
  {
    assert Start(dir)[..1] == [MakeParents(dir)];
    AfterOne(disk, MakeParents(dir));
  }

  function Set(disk: Disk, dir: Dir, name: string, text: string): Disk {
    disk[dir := FolderAt(disk, dir)[name := text]]
  }

  lemma NextFile(env: Env, disk: Disk, dir: Dir, name: string, text: string)
    requires FolderAt(disk, dir).Keys <= {SUMMARY, EVIDENCE, REPORT, EVENTS}
    ensures After(disk, AtomicOps(env, dir, name, text)) == Set(disk, dir, name, text)
  {
    TmpIsOther(env, name);
    AtomicIsWrite(env, disk, dir, name, text);
    hide Tmp;
  }

  lemma SetOn(disk: Disk, dir: Dir, folder: Folder, name: string, text: string)
    ensures Set(disk[dir := folder], dir, name, text) == disk[dir := folder[name := text]]
  {
  }

  lemma FourFiles(env: Env, disk: Disk, dir: Dir, p: Publication)
    ensures Set(Set(Set(Set(disk[dir := map[]], dir, SUMMARY, env.codec.stringify(p.summary)),
                        dir, EVIDENCE, env.codec.stringify(p.evidence)), dir, REPORT, env.codec.stringify(p.report)),
                dir, EVENTS, env.codec.stringify(p.events))
            == disk[dir := Files(env, p)]
  {
    hide Set;
    var f1: Folder := map[SUMMARY := env.codec.stringify(p.summary)];
    var f2 := f1[EVIDENCE := env.codec.stringify(p.evidence)];
    var f3 := f2[REPORT := env.codec.stringify(p.report)];
    SetOn(disk, dir, map[], SUMMARY, env.codec.stringify(p.summary));
    assert map[][SUMMARY := env.codec.stringify(p.summary)] == f1;
    SetOn(disk, dir, f1, EVIDENCE, env.codec.stringify(p.evidence));
    SetOn(disk, dir, f2, REPORT, env.codec.stringify(p.report));
    SetOn(disk, dir, f3, EVENTS, env.codec.stringify(p.events));
    assert f3[EVENTS := env.codec.stringify(p.events)] == Files(env, p);
  }

  lemma Chained<T>(j: seq<T>, a0: seq<T>, a1: seq<T>, a2: seq<T>, a3: seq<T>, a4: seq<T>)
    ensures j + a0 + a1 + a2 + a3 + a4 == j + (a0 + (a1 + a2 + a3 + a4))
  {
  }

  /** Making the directory and writing the four files leaves exactly them. */
  lemma DataWritten(env: Env, disk: Disk, dir: Dir, p: Publication)
    ensures After(disk, Start(dir) + DataOps(env, dir, p)) == Step(disk, MakeParents(dir))[dir := Files(env, p)]
  {
    hide After, AtomicOps, Start, Step;
    var a0, below := Start(dir), Step(disk, MakeParents(dir));
    var a1 := AtomicOps(env, dir, SUMMARY, env.codec.stringify(p.summary));
    var a2 := AtomicOps(env, dir, EVIDENCE, env.codec.stringify(p.evidence));
    var a3 := AtomicOps(env, dir, REPORT, env.codec.stringify(p.report));
    var a4 := AtomicOps(env, dir, EVENTS, env.codec.stringify(p.events));
    assert a0 + DataOps(env, dir, p) == a0 + a1 + a2 + a3 + a4;
    DirectoryMade(disk, dir);
    var d0 := below[dir := map[]];
    var d1 := Set(d0, dir, SUMMARY, env.codec.stringify(p.summary));
    var d2 := Set(d1, dir, EVIDENCE, env.codec.stringify(p.evidence));
    var d3 := Set(d2, dir, REPORT, env.codec.stringify(p.report));
    var d4 := Set(d3, dir, EVENTS, env.codec.stringify(p.events));
    FourFiles(env, below, dir, p);
    NextFile(env, d0, dir, SUMMARY, env.codec.stringify(p.summary));
    NextFile(env, d1, dir, EVIDENCE, env.codec.stringify(p.evidence));
    NextFile(env, d2, dir, REPORT, env.codec.stringify(p.report));
    NextFile(env, d3, dir, EVENTS, env.codec.stringify(p.events));
    hide Set;
    AfterConcat(disk, a0, a1);
    AfterConcat(disk, a0 + a1, a2);
    AfterConcat(disk, a0 + a1 + a2, a3);
    AfterConcat(disk, a0 + a1 + a2 + a3, a4);
  }

  /** The directories above every directory are there. */
  ghost predicate Rooted(disk: Disk) {
    forall d, above :: d in disk && above in Parents(d) ==> above in disk
  }

  ghost predicate NoSubdirectories(disk: Disk, dir: Dir) {
    forall n :: !IsSubdirectory(disk, dir, n)
  }

  /** Every entry that a manifest of dir would hash, and the manifest itself, is a file. */
  ghost predicate OnlyFiles(disk: Disk, dir: Dir) {
    dir in disk && forall n :: IsSubdirectory(disk, dir, n) ==> n == SIGNATURE
  }

  /** Directory d stands in dir where a file should. */
  predicate IsInTheWay(d: Dir, dir: Dir) {
    && d.scope == dir.scope
    && match (dir.place, d.place)
       case (ScopeRoot, RunsRoot) => true
       case (RunsRoot, Run(id)) => id != SIGNATURE
       case _ => false
  }

  predicate HoldsDirectory(disk: Disk, dir: Dir) {
    exists d :: d in disk && IsInTheWay(d, dir)
  }

  lemma DirectoriesInside(disk: Disk, dir: Dir)
    ensures HoldsDirectory(disk, dir) <==> exists n :: IsSubdirectory(disk, dir, n) && n != SIGNATURE
  {
    if n :| IsSubdirectory(disk, dir, n) && n != SIGNATURE {
      var d := Dir(dir.scope, if dir.place.ScopeRoot? then RunsRoot else Run(n));
      assert d in disk && IsInTheWay(d, dir);
    }
    if HoldsDirectory(disk, dir) {
      var d :| d in disk && IsInTheWay(d, dir);
      assert "runs" != SIGNATURE;
      assert IsSubdirectory(disk, dir, if d.place.Run? then d.place.id else "runs");
    }
  }

  lemma NothingListed()
    ensures Distinct<string>([]) && Sorted(StringLeq, [])
  {
  }

  lemma ParentsMade(disk: Disk, dir: Dir)
    requires Rooted(disk)
    ensures Rooted(Step(disk, MakeParents(dir)))
  {
  }

  /** Making a directory and those above it keeps the disk rooted, and a directory made anew is empty. */
  lemma KeysMade(disk: Disk, dir: Dir, folder: Folder)
    requires Rooted(disk) && dir !in disk
    ensures var made := Step(disk, MakeParents(dir))[dir := folder]; Rooted(made) && NoSubdirectories(made, dir)
  {
  }

  // ---------- the store ----------

  class LocalComplianceStore {
    const env: Env
    const check: Check
    var disk: Disk
    /** Every operation done so far; a crash leaves the disk after a prefix of them. */
    ghost var journal: seq<Op>

    constructor (env: Env, check: Check)
      ensures this.env == env && this.check == check && disk == map[] && journal == [] && Rooted(disk)
    {
      this.env, this.check, disk, journal := env, check, map[], [];
    }

    method Perform(op: Op)
      modifies this
      ensures disk == Step(old(disk), op) && journal == old(journal) + [op]
    {
      disk := Step(disk, op);
      journal := journal + [op];
    }

    method AtomicJson(dir: Dir, name: string, value: Json)
      requires FolderAt(disk, dir).Keys <= {SUMMARY, EVIDENCE, REPORT, EVENTS}
      modifies this
      ensures journal == old(journal) + AtomicOps(env, dir, name, env.codec.stringify(value))
      ensures disk == Set(old(disk), dir, name, env.codec.stringify(value))
    {
      NextFile(env, disk, dir, name, env.codec.stringify(value));
      ghost var ops := AtomicOps(env, dir, name, env.codec.stringify(value));
      AfterOne(disk, ops[0]);
      assert ops[..1] == [ops[0]];
      Perform(Write(dir, Tmp(env, name), env.codec.stringify(value)));
      Perform(Rename(dir, Tmp(env, name), name));
    }

    method ReadDirectory(dir: Dir) returns (names: seq<string>)
      ensures Distinct(names) && forall n :: n in names <==> n in FolderAt(disk, dir)
    {
      var rest := FolderAt(disk, dir).Keys;
      names := [];
      while rest != {}
        invariant Distinct(names) && forall n :: n in names <==> n in FolderAt(disk, dir) && n !in rest
        invariant rest <= FolderAt(disk, dir).Keys
        decreases |rest|
      {
        var n :| n in rest;
        DistinctConcat(names, [n]);
        names := names + [n];
        rest := rest - {n};
      }
    }

    method HashFiles(folder: Folder, names: seq<string>) returns (files: seq<Item>)
      requires forall n :: n in names ==> n in folder
      ensures files == ItemsFor(env, folder, names)
    {
      files := [];
      for i := 0 to |names|
        invariant files == ItemsFor(env, folder, names)[..i]
      {
        files := files + [Item(names[i], env.hash(folder[names[i]]))];
      }
    }

    /** Fails, with nothing written, when there is no directory or a directory in it stands where a file should. */
    method WriteIntegrityManifest(dir: Dir) returns (written: bool, names: seq<string>)
      modifies this
      ensures written <==> OnlyFiles(old(disk), dir)
      ensures !written ==> journal == old(journal) && disk == old(disk)
      ensures Distinct(names) && Sorted(StringLeq, names)
      ensures written ==> forall n :: n in names <==> n in FolderAt(old(disk), dir) && n != MANIFEST && n != SIGNATURE
      ensures written ==>
                var items := ItemsFor(env, FolderAt(old(disk), dir), names);
                var op := Write(dir, MANIFEST, env.codec.printManifest(env.now, items));
                journal == old(journal) + [op] && disk == Step(old(disk), op)
    {
      NothingListed();
      DirectoriesInside(disk, dir);
      if dir !in disk || HoldsDirectory(disk, dir) {
        return false, [];
      }
      written := true;
      hide Sort, Sorted, Distinct, StringLeq, Without, ItemsFor, FolderAt, Step, OnlyFiles, HoldsDirectory;
      var listing := ReadDirectory(dir);
      names := Sort(StringLeq, Without(listing));
      ManifestNames(listing);
      var files := HashFiles(FolderAt(disk, dir), names);
      Perform(Write(dir, MANIFEST, env.codec.printManifest(env.now, files)));
    }

    /** The result says why nothing was published, if so. */
    method Publish(id: Identity, p: Publication) returns (refusal: Option<PublishError>)
      requires Rooted(disk)
      modifies this
      ensures Rooted(disk)
      ensures refusal == Refusal(env, old(disk), id, p)
      ensures var ops := Does(env, old(disk), id, p); journal == old(journal) + ops && disk == After(old(disk), ops)
    {
      NothingDone(disk);
      if p.tenant != id.tenant || p.project != id.project {
        return Some(ScopeMismatch);
      }
      if !SafeRunId(p.runId) {
        return Some(InvalidRunId);
      }
      var dir := RunDir(env, id, p.runId);
      hide After, Step, Rooted, SafeRunId, RunDir, PublishOps;
      if Exists(disk, dir) {
        AfterOne(disk, MakeParents(dir));
        ParentsMade(disk, dir);
        Perform(MakeParents(dir));
        return Some(AlreadyExists);
      }
      PublishRun(dir, p);
      return None;
    }

    method PublishRun(dir: Dir, p: Publication)
      requires Rooted(disk) && dir !in disk
      modifies this
      ensures Rooted(disk)
      ensures journal == old(journal) + PublishOps(env, dir, p) && disk == After(old(disk), PublishOps(env, dir, p))
    {
      hide After, Rooted, NoSubdirectories, Start, DataOps, SealOps, Files;
      WriteData(dir, p);
      Seal(dir, p);
      AfterConcat(old(disk), Start(dir) + DataOps(env, dir, p), SealOps(env, dir, p));
    }

    method WriteData(dir: Dir, p: Publication)
      requires Rooted(disk) && dir !in disk
      modifies this
      ensures journal == old(journal) + (Start(dir) + DataOps(env, dir, p))
      ensures disk == After(old(disk), Start(dir) + DataOps(env, dir, p))
      ensures dir in disk && FolderAt(disk, dir) == Files(env, p)
      ensures Rooted(disk) && NoSubdirectories(disk, dir)
    {
      DataWritten(env, disk, dir, p);
      KeysMade(disk, dir, Files(env, p));
      FourFiles(env, Step(disk, MakeParents(dir)), dir, p);
      Chained(journal, Start(dir), AtomicOps(env, dir, SUMMARY, env.codec.stringify(p.summary)),
              AtomicOps(env, dir, EVIDENCE, env.codec.stringify(p.evidence)),
              AtomicOps(env, dir, REPORT, env.codec.stringify(p.report)),
              AtomicOps(env, dir, EVENTS, env.codec.stringify(p.events)));
      MakeRunDirectory(dir);
      hide After, AtomicOps, Start, Rooted, NoSubdirectories, Parents;
      AtomicJson(dir, SUMMARY, p.summary);
      AtomicJson(dir, EVIDENCE, p.evidence);
      AtomicJson(dir, REPORT, p.report);
      AtomicJson(dir, EVENTS, p.events);
    }

    method MakeRunDirectory(dir: Dir)
      modifies this
      ensures journal == old(journal) + Start(dir)
      ensures disk == Step(old(disk), MakeParents(dir))[dir := map[]]
    {
      Perform(MakeParents(dir));
      Perform(MakeDirectory(dir));
    }

    method Seal(dir: Dir, p: Publication)
      requires FolderAt(disk, dir) == Files(env, p) && dir in disk
      requires Rooted(disk) && NoSubdirectories(disk, dir)
      modifies this
      ensures journal == old(journal) + SealOps(env, dir, p)
      ensures disk == After(old(disk), SealOps(env, dir, p))
      ensures Rooted(disk)
    {
      ghost var ops := SealOps(env, dir, p);
      AfterOne(disk, ops[0]);
      assert ops[..1] == [ops[0]];
      var written, names := WriteIntegrityManifest(dir);
      OnlyThisOrder(names);
      hide Sorted, Distinct, StringLeq;
      if env.sign.Some? {
        Perform(Write(dir, SIGNATURE, env.sign.value(FolderAt(disk, dir)[MANIFEST])));
      }
      assert disk.Keys == old(disk).Keys;
    }

    method VerifyIntegrityManifest(folder: Folder, items: seq<Item>) returns (mismatches: seq<string>)
      ensures mismatches == Mismatches(env, folder, items)
    {
      mismatches := [];
      for i := 0 to |items|
        invariant mismatches == Mismatches(env, folder, items[..i])
      {
        assert items[..i + 1][..i] == items[..i];
        var item := items[i];
        var content := ContentAt(env, folder, item.path);
        if content.None? || env.hash(content.value) != item.sha256 {
          mismatches := mismatches + [item.path];
        }
      }
      assert items[..|items|] == items;
    }

    method GetPublication(id: Identity, runId: string) returns (r: ReadResult)
      ensures r == Read(env, check, disk, id, runId)
    {
      if !SafeRunId(runId) {
        return Failed(InvalidId);
      }
      var dir := RunDir(env, id, runId);
      if IsFile(disk, dir) {
        return Failed(Unreadable);
      }
      var folder := FolderAt(disk, dir);
      if MANIFEST !in folder {
        return NoFile(MANIFEST, Subdirectories(disk, dir));
      }
      var items := env.codec.itemsOf(folder[MANIFEST]);
      if items.None? {
        return Failed(Unreadable);
      }
      var mismatches := VerifyIntegrityManifest(folder, items.value);
      if mismatches != [] {
        return Failed(Mismatched(mismatches));
      }
      if !SignatureHolds(check, folder) {
        return Failed(BadSignature);
      }
      return ReadParts(env, folder, Subdirectories(disk, dir));
    }
  }

  // ---------- reading what is there ----------

  lemma {:induction false} NoMismatchIff(env: Env, folder: Folder, items: seq<Item>)
    ensures Mismatches(env, folder, items) == [] <==> forall item :: item in items ==> Matches(env, folder, item)
  {
    if items != [] {
      var front, last := items[..|items| - 1], items[|items| - 1];
      NoMismatchIff(env, folder, front);
      hide Matches;
      assert items == front + [last];
    }
  }

  /** The four files are those of the publication. */
  ghost predicate HasFiles(env: Env, p: Publication, folder: Folder) {
    forall n :: n in NAMES ==> n in folder && folder[n] == Files(env, p)[n]
  }

  lemma PartsAreRead(env: Env, p: Publication, folder: Folder, isDir: string -> bool)
    requires ReadsBack(env.codec) && IsRecord(p) && HasFiles(env, p, folder)
    ensures ReadParts(env, folder, isDir) == Published(p)
  {
    assert SUMMARY in NAMES && EVIDENCE in NAMES && REPORT in NAMES && EVENTS in NAMES;
  }

  /** With the four files in place a read gives nothing but an error or the record, whatever stands beside them. */
  lemma FilesDecide(env: Env, check: Check, p: Publication, folder: Folder, isDir: string -> bool)
    requires ReadsBack(env.codec) && IsRecord(p) && HasFiles(env, p, folder)
    ensures var r := ReadFolder(env, check, folder, isDir);
            if MANIFEST !in folder then r == NoFile(MANIFEST, isDir) else r.Failed? || r == Published(p)
  {
    PartsAreRead(env, p, folder, isDir);
    hide ReadParts, HasFiles;
  }

  lemma NamesArePlain(env: Env, folder: Folder, name: string)
    requires name in NAMES
    ensures ContentAt(env, folder, name) == if name in folder then Some(folder[name]) else None
  {
    assert SafeRunId(name);
  }

  lemma NamedItem(env: Env, folder: Folder, name: string, text: string)
    requires name in NAMES
    ensures name in folder && folder[name] == text ==> Matches(env, folder, Item(name, env.hash(text)))
    ensures Injective(env.hash) && Matches(env, folder, Item(name, env.hash(text)))
            ==> name in folder && folder[name] == text
  {
    hide ContentAt;
    NamesArePlain(env, folder, name);
  }

  lemma ItemOf(env: Env, p: Publication, item: Item)
    ensures item in ItemsFor(env, Files(env, p), NAMES)
            <==> item.path in NAMES && item.sha256 == env.hash(Files(env, p)[item.path])
  {
    hide Files;
    var items := ItemsFor(env, Files(env, p), NAMES);
    if item in items {
      var i :| 0 <= i < |items| && items[i] == item;
    }
    if item.path in NAMES && item.sha256 == env.hash(Files(env, p)[item.path]) {
      var i :| 0 <= i < |NAMES| && NAMES[i] == item.path;
      assert items[i] == item;
    }
  }

  lemma UnchangedMatches(env: Env, p: Publication, folder: Folder)
    requires HasFiles(env, p, folder)
    ensures Mismatches(env, folder, ItemsFor(env, Files(env, p), NAMES)) == []
  {
    hide Files, Mismatches, Matches, ItemsFor;
    var items := ItemsFor(env, Files(env, p), NAMES);
    NoMismatchIff(env, folder, items);
    forall item | item in items ensures Matches(env, folder, item) {
      ItemOf(env, p, item);
      NamedItem(env, folder, item.path, Files(env, p)[item.path]);
    }
  }

  lemma ManifestMatchesIff(env: Env, p: Publication, folder: Folder)
    requires Injective(env.hash)
    ensures Mismatches(env, folder, ItemsFor(env, Files(env, p), NAMES)) == [] <==> HasFiles(env, p, folder)
  {
    hide Files, Mismatches, Matches, ItemsFor, Injective;
    var items := ItemsFor(env, Files(env, p), NAMES);
    NoMismatchIff(env, folder, items);
    if HasFiles(env, p, folder) { UnchangedMatches(env, p, folder); }
    if Mismatches(env, folder, items) == [] {
      forall n | n in NAMES ensures n in folder && folder[n] == Files(env, p)[n] {
        ItemOf(env, p, Item(n, env.hash(Files(env, p)[n])));
        NamedItem(env, folder, n, Files(env, p)[n]);
      }
    }
  }

  /** With the four files and a manifest of theirs in place a read gives the record. */
  lemma UnchangedIsRead(env: Env, check: Check, p: Publication, folder: Folder, isDir: string -> bool)
    requires ReadsBack(env.codec) && IsRecord(p) && HasFiles(env, p, folder)
    requires MANIFEST in folder && SignatureHolds(check, folder)
    requires env.codec.itemsOf(folder[MANIFEST]) == Some(ItemsFor(env, Files(env, p), NAMES))
    ensures ReadFolder(env, check, folder, isDir) == Published(p)
  {
    UnchangedMatches(env, p, folder);
    PartsAreRead(env, p, folder, isDir);
    hide ReadParts, HasFiles, Mismatches, Files;
  }

  /** Against the manifest of a publication a read succeeds exactly when the four files are unchanged,
      and then gives the record; otherwise it is an error. */
  lemma ChangedFileIsAnError(env: Env, check: Check, p: Publication, folder: Folder, isDir: string -> bool)
    requires ReadsBack(env.codec) && IsRecord(p) && Injective(env.hash)
    requires MANIFEST in folder && folder[MANIFEST] == ManifestText(env, p) && SignatureHolds(check, folder)
    ensures ReadFolder(env, check, folder, isDir).Failed? <==> !HasFiles(env, p, folder)
    ensures HasFiles(env, p, folder) ==> ReadFolder(env, check, folder, isDir) == Published(p)
  {
    ManifestMatchesIff(env, p, folder);
    if HasFiles(env, p, folder) { PartsAreRead(env, p, folder, isDir); }
    hide ReadParts, HasFiles, Mismatches, Files;
  }

  /** No signature is valid but for a manifest that lists the publication's files, however it is written out. */
  ghost predicate SignsOnly(env: Env, check: Check, p: Publication) {
    check.Some? && forall m, s ::
      check.value(m, s) ==> env.codec.itemsOf(m) == Some(ItemsFor(env, Files(env, p), NAMES))
  }

  /** Then a read gives the publication's record or nothing, even if every file including the manifest was
      replaced, and gives the record exactly when the manifest is signed and the four files are unchanged. */
  lemma SignedRecordIsGenuine(env: Env, check: Check, p: Publication, folder: Folder, isDir: string -> bool)
    requires ReadsBack(env.codec) && IsRecord(p) && Injective(env.hash) && SignsOnly(env, check, p)
    ensures var r := ReadFolder(env, check, folder, isDir);
            && (r.Absent? || r.Failed? || r == Published(p))
            && (r == Published(p) <==>
                MANIFEST in folder && SignatureHolds(check, folder) && HasFiles(env, p, folder))
  {
    if MANIFEST in folder && SignatureHolds(check, folder) {
      assert env.codec.itemsOf(folder[MANIFEST]) == Some(ItemsFor(env, Files(env, p), NAMES));
      ManifestMatchesIff(env, p, folder);
      if HasFiles(env, p, folder) { PartsAreRead(env, p, folder, isDir); }
    }
    hide Mismatches, HasFiles, Files, ReadParts;
  }

  /** The check of the source: the signature is verified for the manifest parsed and written out anew. */
  function CheckOf(canonical: string -> Option<string>, verify: (string, string) -> bool): Check {
    Some((m: string, s: string) => canonical(m).Some? && verify(canonical(m).value, s))
  }

  /** When only the canonical text of the publication's manifest is signed, the check lets only its files
      through, in every way of writing the manifest that has this canonical text. */
  lemma CanonicalCheckSignsOnly(env: Env, p: Publication, canonical: string -> Option<string>,
                                verify: (string, string) -> bool)
    requires ReadsBack(env.codec)
    requires forall m, n :: canonical(m).Some? && canonical(m) == canonical(n)
                            ==> env.codec.itemsOf(m) == env.codec.itemsOf(n)
    requires forall text, s :: verify(text, s) ==> canonical(ManifestText(env, p)) == Some(text)
    ensures SignsOnly(env, CheckOf(canonical, verify), p)
    ensures forall m, s :: canonical(m).Some? && canonical(m) == canonical(ManifestText(env, p))
                           ==> (CheckOf(canonical, verify).value(m, s)
                                <==> CheckOf(canonical, verify).value(ManifestText(env, p), s))
  {
    assert env.codec.itemsOf(ManifestText(env, p)) == Some(ItemsFor(env, Files(env, p), NAMES));
  }

  // ---------- crashes ----------

  predicate Touches(op: Op, dir: Dir, name: string) {
    match op
    case MakeParents(_) => false
    case MakeDirectory(_) => false
    case Write(d, n, _) => d == dir && n == name
    case Rename(d, _, n) => d == dir && n == name
  }

  lemma StepTouches(disk: Disk, op: Op, dir: Dir, name: string)
    requires name !in FolderAt(disk, dir) && !Touches(op, dir, name)
    ensures name !in FolderAt(Step(disk, op), dir)
  {
  }

  lemma {:induction false} NotTouched(disk: Disk, ops: seq<Op>, dir: Dir, name: string)
    requires name !in FolderAt(disk, dir) && forall op :: op in ops ==> !Touches(op, dir, name)
    ensures name !in FolderAt(After(disk, ops), dir)
  {
    hide FolderAt, Step, Touches;
    if ops != [] {
      NotTouched(disk, ops[..|ops| - 1], dir, name);
      StepTouches(After(disk, ops[..|ops| - 1]), ops[|ops| - 1], dir, name);
    }
  }

  lemma AtomicTouches(env: Env, dir: Dir, name: string, text: string)
    requires name in NAMES
    ensures forall op :: op in AtomicOps(env, dir, name, text) ==> !Touches(op, dir, MANIFEST)
  {
    TmpIsOther(env, name);
  }

  lemma DataLeavesManifest(env: Env, dir: Dir, p: Publication)
    ensures forall op :: op in Start(dir) + DataOps(env, dir, p) ==> !Touches(op, dir, MANIFEST)
    ensures |DataOps(env, dir, p)| == 8
  {
    AtomicTouches(env, dir, SUMMARY, env.codec.stringify(p.summary));
    AtomicTouches(env, dir, EVIDENCE, env.codec.stringify(p.evidence));
    AtomicTouches(env, dir, REPORT, env.codec.stringify(p.report));
    AtomicTouches(env, dir, EVENTS, env.codec.stringify(p.events));
    hide Touches, Tmp;
  }

  /** Before the manifest is written nothing can be read. */
  lemma NothingBeforeManifest(env: Env, disk: Disk, dir: Dir, p: Publication, n: nat, k: nat)
    requires dir !in disk && n < 10
    ensures n < |PublishOps(env, dir, p)|
    ensures MANIFEST !in FolderAt(CrashDisk(disk, PublishOps(env, dir, p), n, k), dir)
  {
    var start := Start(dir) + DataOps(env, dir, p);
    var ops := PublishOps(env, dir, p);
    DataLeavesManifest(env, dir, p);
    hide DataOps, SealOps, After, Step;
    assert ops[..n] == start[..n] && ops[n] == start[n];
    NotTouched(disk, start[..n], dir, MANIFEST);
    assert ops[n] in start;
    if ops[n].Write? && k <= |ops[n].text| {
      StepTouches(After(disk, start[..n]), ops[n].(text := ops[n].text[..k]), dir, MANIFEST);
    }
  }

  /** From the manifest on the four files stay as they are. */
  lemma FilesStay(env: Env, disk: Disk, dir: Dir, p: Publication, n: nat, k: nat)
    requires 10 <= n <= |PublishOps(env, dir, p)|
    ensures HasFiles(env, p, FolderAt(CrashDisk(disk, PublishOps(env, dir, p), n, k), dir))
  {
    var start := Start(dir) + DataOps(env, dir, p);
    var seal := SealOps(env, dir, p);
    var ops := PublishOps(env, dir, p);
    DataLeavesManifest(env, dir, p);
    DataWritten(env, disk, dir, p);
    var d := Step(disk, MakeParents(dir))[dir := Files(env, p)];
    assert ops[..n] == start + seal[..n - 10];
    AfterConcat(disk, start, seal[..n - 10]);
    SealKeepsFiles(env, d, dir, p, seal[..n - 10]);
    if n < |ops| {
      assert ops[n] == seal[n - 10];
      var torn := if ops[n].Write? && k <= |ops[n].text| then ops[n].text[..k] else "";
      SealStepKeepsFiles(env, After(d, seal[..n - 10]), dir, p, ops[n], torn);
    }
    hide DataOps, SealOps, After, Step, Files, HasFiles;
  }

  lemma SealStepKeepsFiles(env: Env, disk: Disk, dir: Dir, p: Publication, op: Op, text: string)
    requires HasFiles(env, p, FolderAt(disk, dir)) && op in SealOps(env, dir, p)
    ensures HasFiles(env, p, FolderAt(Step(disk, op), dir))
            && HasFiles(env, p, FolderAt(Step(disk, op.(text := text)), dir))
  {
    assert MANIFEST !in NAMES && SIGNATURE !in NAMES;
    hide Files, ManifestText;
  }

  lemma {:induction false} SealKeepsFiles(env: Env, disk: Disk, dir: Dir, p: Publication, ops: seq<Op>)
    requires HasFiles(env, p, FolderAt(disk, dir)) && forall op :: op in ops ==> op in SealOps(env, dir, p)
    ensures HasFiles(env, p, FolderAt(After(disk, ops), dir))
  {
    hide HasFiles, SealOps, FolderAt, Step;
    if ops != [] {
      SealKeepsFiles(env, disk, dir, p, ops[..|ops| - 1]);
      SealStepKeepsFiles(env, After(disk, ops[..|ops| - 1]), dir, p, ops[|ops| - 1], "");
    }
  }

  /** After a crash anywhere in a publication a read finds nothing, fails, or gives exactly the record. */
  lemma CrashSafe(env: Env, check: Check, disk: Disk, dir: Dir, p: Publication, n: nat, k: nat, isDir: string -> bool)
    requires ReadsBack(env.codec) && IsRecord(p) && dir !in disk && n <= |PublishOps(env, dir, p)|
    ensures var r := ReadFolder(env, check, FolderAt(CrashDisk(disk, PublishOps(env, dir, p), n, k), dir), isDir);
            r.Absent? || r.Failed? || r == Published(p)
  {
    var folder := FolderAt(CrashDisk(disk, PublishOps(env, dir, p), n, k), dir);
    if n < 10 {
      NothingBeforeManifest(env, disk, dir, p, n, k);
    } else {
      FilesStay(env, disk, dir, p, n, k);
      FilesDecide(env, check, p, folder, isDir);
    }
    hide CrashDisk, PublishOps, HasFiles;
  }

  // ---------- whole runs ----------

  /** A publication that was cut short after n operations, or went through when n is large enough.
      Time stamps, keys and the rest of the environment may differ from one to the next. */
  datatype Attempt = Attempt(env: Env, id: Identity, p: Publication, n: nat, k: nat)

  function Target(a: Attempt): Dir { RunDir(a.env, a.id, a.p.runId) }

  function Attempted(disk: Disk, a: Attempt): Disk {
    var ops := Does(a.env, disk, a.id, a.p);
    CrashDisk(disk, ops, if a.n < |ops| then a.n else |ops|, a.k)
  }

  function AllAttempted(disk: Disk, attempts: seq<Attempt>): Disk {
    if attempts == [] then disk
    else Attempted(AllAttempted(disk, attempts[..|attempts| - 1]), attempts[|attempts| - 1])
  }

  /** Attempts happen one after the other; one that goes through does all its operations. */
  lemma {:induction false} AttemptsFollow(disk: Disk, a: seq<Attempt>, b: seq<Attempt>)
    ensures AllAttempted(disk, a + b) == AllAttempted(AllAttempted(disk, a), b)
    ensures forall x :: AllAttempted(disk, [x]) == Attempted(disk, x)
    ensures forall x: Attempt :: x.n >= |Does(x.env, disk, x.id, x.p)|
                                 ==> Attempted(disk, x) == After(disk, Does(x.env, disk, x.id, x.p))
    decreases |b|
  {
    hide Does, After;
    AttemptsAlone(disk);
    if b == [] {
      assert a + b == a;
    } else {
      AttemptsFollow(disk, a, b[..|b| - 1]);
      assert (a + b)[..|a + b| - 1] == a + b[..|b| - 1];
      hide Attempted;
    }
  }

  lemma AttemptsAlone(disk: Disk)
    ensures forall x :: AllAttempted(disk, [x]) == Attempted(disk, x)
    ensures forall x: Attempt :: x.n >= |Does(x.env, disk, x.id, x.p)|
                                 ==> Attempted(disk, x) == After(disk, Does(x.env, disk, x.id, x.p))
  {
    hide Does, After;
    forall x: Attempt ensures AllAttempted(disk, [x]) == Attempted(disk, x) {
      assert [x][..0] == [];
      hide Attempted;
    }
    forall x: Attempt | x.n >= |Does(x.env, disk, x.id, x.p)|
      ensures Attempted(disk, x) == After(disk, Does(x.env, disk, x.id, x.p))
    {
      var ops := Does(x.env, disk, x.id, x.p);
      assert ops[..|ops|] == ops;
    }
  }

  predicate OnlyIn(ops: seq<Op>, dir: Dir) {
    forall op :: op in ops ==> op.dir == dir
  }

  lemma PublishesInDir(env: Env, dir: Dir, p: Publication)
    ensures OnlyIn(PublishOps(env, dir, p), dir)
  {
    hide SealOps, DataOps;
    SealsInDir(env, dir, p);
    DataInDir(env, dir, p);
    assert OnlyIn(Start(dir), dir);
    hide Start;
  }

  lemma DataInDir(env: Env, dir: Dir, p: Publication)
    ensures OnlyIn(DataOps(env, dir, p), dir)
  {
    hide Tmp;
  }

  lemma SealsInDir(env: Env, dir: Dir, p: Publication)
    ensures OnlyIn(SealOps(env, dir, p), dir)
  {
    hide ManifestText;
  }

  lemma {:induction false} StaysMade(disk: Disk, ops: seq<Op>, dir: Dir)
    requires dir in disk
    ensures dir in After(disk, ops)
  {
    if ops != [] {
      StaysMade(disk, ops[..|ops| - 1], dir);
    }
  }

  /** Operations in one directory leave every other one alone. */
  lemma {:induction false} Elsewhere(disk: Disk, ops: seq<Op>, dir: Dir, other: Dir)
    requires OnlyIn(ops, dir) && other != dir
    ensures other in disk ==> other in After(disk, ops) && After(disk, ops)[other] == disk[other]
  {
    if ops != [] {
      Elsewhere(disk, ops[..|ops| - 1], dir, other);
      assert ops[|ops| - 1] in ops;
    }
  }

  lemma CrashElsewhere(disk: Disk, ops: seq<Op>, dir: Dir, other: Dir, n: nat, k: nat)
    requires OnlyIn(ops, dir) && other != dir && n <= |ops|
    ensures other in disk ==> other in CrashDisk(disk, ops, n, k) && CrashDisk(disk, ops, n, k)[other] == disk[other]
  {
    Elsewhere(disk, ops[..n], dir, other);
    assert n < |ops| ==> ops[n] in ops;
    hide After;
  }

  /** Nothing that is published later changes a run that is there. */
  lemma {:induction false} RunsAreImmutable(disk: Disk, attempts: seq<Attempt>, dir: Dir)
    requires dir in disk
    ensures dir in AllAttempted(disk, attempts) && AllAttempted(disk, attempts)[dir] == disk[dir]
  {
    hide CrashDisk, PublishOps, OnlyIn;
    if attempts != [] {
      var before, a := AllAttempted(disk, attempts[..|attempts| - 1]), attempts[|attempts| - 1];
      RunsAreImmutable(disk, attempts[..|attempts| - 1], dir);
      var ops := Does(a.env, before, a.id, a.p);
      DoesInTarget(before, a);
      if Target(a) != dir {
        CrashElsewhere(before, ops, Target(a), dir, if a.n < |ops| then a.n else |ops|, a.k);
      } else {
        ParentsKeep(before, dir, ops, if a.n < |ops| then a.n else |ops|, a.k);
      }
    }
  }

  lemma DoesInTarget(disk: Disk, a: Attempt)
    ensures OnlyIn(Does(a.env, disk, a.id, a.p), Target(a))
    ensures Target(a) in disk
            ==> Does(a.env, disk, a.id, a.p) == [] || Does(a.env, disk, a.id, a.p) == [MakeParents(Target(a))]
  {
    PublishesInDir(a.env, Target(a), a.p);
    hide PublishOps;
  }

  lemma ParentsKeep(disk: Disk, dir: Dir, ops: seq<Op>, n: nat, k: nat)
    requires dir in disk && (ops == [] || ops == [MakeParents(dir)]) && n <= |ops|
    ensures dir in CrashDisk(disk, ops, n, k) && CrashDisk(disk, ops, n, k)[dir] == disk[dir]
  {
    AfterOne(disk, MakeParents(dir));
    assert ops[..|ops|] == ops;
  }

  lemma MadeStays(disk: Disk, env: Env, dir: Dir, p: Publication, n: nat, k: nat)
    requires 2 <= n <= |PublishOps(env, dir, p)|
    ensures dir in CrashDisk(disk, PublishOps(env, dir, p), n, k)
  {
    var ops := PublishOps(env, dir, p);
    assert ops[..n] == Start(dir) + ops[2..n];
    AfterConcat(disk, Start(dir), ops[2..n]);
    DirectoryMade(disk, dir);
    StaysMade(Step(disk, MakeParents(dir))[dir := map[]], ops[2..n], dir);
    hide PublishOps, After;
  }

  /** Once a publication has got as far as its directory, no later one of the same run succeeds, whatever
      happens in between. */
  lemma NoSecondPublication(disk: Disk, a: Attempt, between: seq<Attempt>, b: Attempt)
    requires Refusal(a.env, disk, a.id, a.p).None? && a.n >= 2
    requires Target(b) == Target(a) && b.p.tenant == b.id.tenant && b.p.project == b.id.project
    ensures Refusal(b.env, AllAttempted(Attempted(disk, a), between), b.id, b.p) == Some(AlreadyExists)
  {
    var ops := PublishOps(a.env, Target(a), a.p);
    MadeStays(disk, a.env, Target(a), a.p, if a.n < |ops| then a.n else |ops|, a.k);
    hide PublishOps, CrashDisk;
    RunsAreImmutable(Attempted(disk, a), between, Target(a));
    hide AllAttempted;
  }

  /** The run ids "." and ".." name the directories above the runs: a fresh store takes them, and a store
      with a proper run in the scope refuses them. */
  lemma DotsAreTakenByRuns(env: Env, disk: Disk, id: Identity, p: Publication, runId: string)
    requires Rooted(disk) && p.tenant == id.tenant && p.project == id.project && p.runId in {".", ".."}
    requires runId !in {".", ".."} && RunDir(env, id, runId) in disk
    ensures Refusal(env, map[], id, p).None?
    ensures Refusal(env, disk, id, p) == Some(AlreadyExists)
  {
    assert RunDir(env, id, p.runId) in Parents(RunDir(env, id, runId));
    assert p.runId == "." || p.runId == "..";
  }

  /** The reader's check accepts what the writer signs, when it checks at all. */
  ghost predicate Accepts(check: Check, env: Env) {
    check.Some? ==> env.sign.Some? && forall m :: check.value(m, env.sign.value(m))
  }

  lemma Complete(env: Env, disk: Disk, dir: Dir, p: Publication)
    ensures var folder := FolderAt(After(disk, PublishOps(env, dir, p)), dir);
            && HasFiles(env, p, folder)
            && MANIFEST in folder && folder[MANIFEST] == ManifestText(env, p)
            && (env.sign.Some? ==> SIGNATURE in folder && folder[SIGNATURE] == env.sign.value(ManifestText(env, p)))
  {
    var start := Start(dir) + DataOps(env, dir, p);
    var seal := SealOps(env, dir, p);
    AfterConcat(disk, start, seal);
    DataWritten(env, disk, dir, p);
    var d := Step(disk, MakeParents(dir))[dir := Files(env, p)];
    assert MANIFEST !in NAMES;
    SealKeepsFiles(env, d, dir, p, seal);
    AfterOne(d, seal[0]);
    assert seal[..1] == [seal[0]];
    hide Files, DataOps, HasFiles, ManifestText;
  }

  /** A completed publication is read back as it was, no matter what is published afterwards. */
  lemma PublishedIsRead(check: Check, disk: Disk, a: Attempt, later: seq<Attempt>)
    requires ReadsBack(a.env.codec) && IsRecord(a.p) && Accepts(check, a.env)
    requires Refusal(a.env, disk, a.id, a.p).None? && a.n >= |PublishOps(a.env, Target(a), a.p)|
    ensures Read(a.env, check, AllAttempted(Attempted(disk, a), later), a.id, a.p.runId) == Published(a.p)
  {
    var ops := PublishOps(a.env, Target(a), a.p);
    assert ops[..|ops|] == ops;
    MadeStays(disk, a.env, Target(a), a.p, |ops|, a.k);
    Complete(a.env, disk, Target(a), a.p);
    RunsAreImmutable(Attempted(disk, a), later, Target(a));
    var last := AllAttempted(Attempted(disk, a), later);
    UnchangedIsRead(a.env, check, a.p, FolderAt(After(disk, ops), Target(a)), Subdirectories(last, Target(a)));
    hide AllAttempted, PublishOps, After, HasFiles, ReadFolder, ManifestText;
  }

  // ---------- scopes ----------

  /** Without NULs in the tenants, two runs share a directory exactly when they have the same id and their
      tenants and projects are encoded alike. */
  lemma ScopesAreSeparate(env: Env, a: Identity, b: Identity, runA: string, runB: string)
    requires Injective(env.scopeOf) && NUL !in a.tenant && NUL !in b.tenant
    ensures RunDir(env, a, runA) == RunDir(env, b, runB)
            <==> Encoded(a.tenant) == Encoded(b.tenant) && Encoded(a.project) == Encoded(b.project) && runA == runB
  {
    SameTextIff(a, b);
    hide ScopeText, Encoded;
  }

  /** A clean identity has a store of its own exactly when no other NUL splits its joined text into clean parts
      and there is no U+FFFD in it, nor a lone surrogate that would become one. */
  lemma OwnStoreIff(env: Env, id: Identity, runId: string)
    requires Injective(env.scopeOf) && CleanIdentity(id)
    ensures (forall other ::
               CleanIdentity(other) && RunDir(env, other, runId) == RunDir(env, id, runId) ==> other == id)
            <==> !SplitsOtherwise(id) && REPLACEMENT !in ScopeText(id)
  {
    OwnTextIff(id);
    hide CleanIdentity, ScopeText, SplitsOtherwise;
    forall other ensures RunDir(env, other, runId) == RunDir(env, id, runId) <==> ScopeText(other) == ScopeText(id) {
    }
  }

  /** Two identities that share a store because of a NUL. */
  lemma NulJoinsScopes(env: Env, runId: string)
    ensures var a, b := Identity([A, NUL, B], [C]), Identity([A], [B, NUL, C]);
            CleanIdentity(a) && CleanIdentity(b) && a != b && RunDir(env, a, runId) == RunDir(env, b, runId)
  {
    NulSplitsTwice();
    hide CleanIdentity, ScopeText;
  }

  /** Two identities without a NUL that share a store. */
  lemma LoneSurrogateJoinsScopes(env: Env, runId: string)
    ensures var a, b := Identity([0xd800], [C]), Identity([REPLACEMENT], [C]);
            CleanIdentity(a) && CleanIdentity(b) && a != b && RunDir(env, a, runId) == RunDir(env, b, runId)
  {
    LoneIsReplaced();
    hide CleanIdentity, ScopeText;
  }
}
