/** A repository read into a runner's input and written out again: src/execution/snapshot.ts
    against src/execution/runner-server.ts. */
module SnapshotRoundTrip {
  import opened Wrappers
  import opened Sorting
  import opened InputDigest
  import opened Snapshot
  import opened RunnerInput

  /** Decoding undoes encoding. */
  ghost predicate Decodes(c: Codec) {
    forall b :: c.decode(c.encode(b)) == b
  }

  function FileOf(c: Codec, f: Found): InputFile {
    InputFile(Slashes(f.relative), |f.content|, c.sha256(f.content), c.encode(f.content))
  }

  lemma DotsStay(s: string)
    ensures Slashes(s) == ".." ==> s == ".."
  {
    if Slashes(s) == ".." {
      assert forall i :: 0 <= i < |s| ==> Slashes(s)[i] == '.';
    }
  }

  lemma ReadOneIs(c: Codec, limits: Limits, scanLimit: nat, f: Found)
    requires ReadOne(c, limits, scanLimit, f).Ok?
    ensures ReadOne(c, limits, scanLimit, f).value == FileOf(c, f) && !Unsafe(Slashes(f.relative))
  {
    DotsStay(f.relative);
  }

  lemma {:induction false} GatherIs(c: Codec, limits: Limits, scanLimit: nat, discovered: seq<Found>)
    requires Gather(c, limits, scanLimit, discovered).Ok?
    ensures var g := Gather(c, limits, scanLimit, discovered).value;
            && |g.files| == |discovered| && TotalSize(g.files) == g.totalBytes
            && forall i :: 0 <= i < |discovered| ==> g.files[i] == FileOf(c, discovered[i]) && !Unsafe(g.files[i].path)
  {
    hide ReadOne, Unsafe;
    if discovered != [] {
      var front, last := discovered[..|discovered| - 1], discovered[|discovered| - 1];
      ReadOneIs(c, limits, scanLimit, last);
      assert FileOf(c, last).size == |last.content| && FileOf(c, last).path == Slashes(last.relative);
      hide FileOf;
      GatherLast(c, limits, scanLimit, discovered);
      hide Gather;
      GatherIs(c, limits, scanLimit, front);
      OneMoreFile(Gather(c, limits, scanLimit, front).value.files, FileOf(c, last));
    }
  }

  lemma GatherLast(c: Codec, limits: Limits, scanLimit: nat, discovered: seq<Found>)
    requires discovered != [] && Gather(c, limits, scanLimit, discovered).Ok?
    ensures var front, last := discovered[..|discovered| - 1], discovered[|discovered| - 1];
            var before, file := Gather(c, limits, scanLimit, front), ReadOne(c, limits, scanLimit, last);
            && before.Ok? && file.Ok?
            && Gather(c, limits, scanLimit, discovered).value
               == Gathered(before.value.files + [file.value], before.value.totalBytes + |last.content|)
  {
    hide ReadOne;
  }

  lemma FileIsGenuine(c: Codec, f: Found)
    requires Decodes(c) && !Unsafe(Slashes(f.relative))
    ensures Genuine(c, FileOf(c, f))
  {
    assert Slashes(Slashes(f.relative)) == Slashes(f.relative);
    hide Unsafe;
  }

  lemma {:induction false} SizesAdd(a: seq<InputFile>, b: seq<InputFile>)
    ensures TotalSize(a + b) == TotalSize(a) + TotalSize(b)
  {
    if b == [] {
      assert a + b == a;
    } else {
      SizesAdd(a, b[..|b| - 1]);
      assert (a + b)[..|a + b| - 1] == a + b[..|b| - 1];
    }
  }

  lemma {:induction false} InsertSize(leq: (InputFile, InputFile) -> bool, x: InputFile, s: seq<InputFile>)
    ensures TotalSize(Insert(leq, x, s)) == x.size + TotalSize(s)
  {
    SizesAdd([x], s);
    assert TotalSize([x]) == x.size by { assert [x][..0] == []; }
    if s != [] {
      assert s == [s[0]] + s[1..];
      SizesAdd([s[0]], s[1..]);
      SizesAdd([s[0]], Insert(leq, x, s[1..]));
      InsertSize(leq, x, s[1..]);
    }
  }

  lemma {:induction false} SortSize(leq: (InputFile, InputFile) -> bool, s: seq<InputFile>)
    ensures TotalSize(Sort(leq, s)) == TotalSize(s)
  {
    if s != [] {
      SortSize(leq, s[1..]);
      InsertSize(leq, s[0], Sort(leq, s[1..]));
      SizesAdd([s[0]], s[1..]);
      assert s == [s[0]] + s[1..];
      assert TotalSize([s[0]]) == s[0].size by { assert [s[0]][..0] == []; }
    }
  }

  lemma PayloadIsGenuine(c: Codec, leq: (string, string) -> bool, limits: Limits, scanLimit: nat,
                         discovered: seq<Found>)
    requires Decodes(c) && Captured(c, leq, limits, scanLimit, discovered).Ok?
    ensures var input := Captured(c, leq, limits, scanLimit, discovered).value;
            && (forall f :: f in input.files ==> Genuine(c, f))
            && (forall f :: f in input.files <==> exists d :: d in discovered && f == FileOf(c, d))
            && input.totalBytes == TotalSize(input.files)
            && input.digest == CanonicalInputDigest(c.hash, leq, Descriptors(input.files))
            && multiset(input.files) == multiset(Gather(c, limits, scanLimit, discovered).value.files)
  {
    hide Gather, Sort, Unsafe, Genuine, FileOf, TotalSize, CanonicalInputDigest;
    var g := Gather(c, limits, scanLimit, discovered).value;
    GatherIs(c, limits, scanLimit, discovered);
    SortMembers(FileOrder(leq), g.files);
    SortSize(FileOrder(leq), g.files);
    forall f | f in g.files ensures Genuine(c, f) && exists d :: d in discovered && f == FileOf(c, d) {
      var i :| 0 <= i < |g.files| && g.files[i] == f;
      FileIsGenuineAt(c, discovered[i], f);
    }
    forall d | d in discovered ensures FileOf(c, d) in g.files {
      var i :| 0 <= i < |discovered| && discovered[i] == d;
      assert g.files[i] == FileOf(c, d);
    }
  }

  lemma FileIsGenuineAt(c: Codec, d: Found, f: InputFile)
    requires Decodes(c) && f == FileOf(c, d) && !Unsafe(f.path)
    ensures Genuine(c, f)
  {
    FileIsGenuine(c, d);
    hide Unsafe, Genuine;
  }

  /** An input made by a snapshot, if the runner's limits allow it, is written out exactly when its paths
      lead to places apart from each other; then the files on disk are the ones that were read. */
  lemma MaterializesIff(c: Codec, leq: (string, string) -> bool, limits: Limits, scanLimit: nat,
                        discovered: seq<Found>, o: Options)
    requires Decodes(c) && Captured(c, leq, limits, scanLimit, discovered).Ok?
    requires InLimits(o, Captured(c, leq, limits, scanLimit, discovered).value.files)
    ensures var input := Captured(c, leq, limits, scanLimit, discovered).value;
            var pr := Materialized(c, leq, o, EMPTY, input);
            && (pr.error.None? <==> Placeable(input.files))
            && (pr.error.None? ==> Holds(c, input.files, pr.tree))
            && (pr.error.Some? ==> pr.error.value == PathTaken)
  {
    var input := Captured(c, leq, limits, scanLimit, discovered).value;
    PayloadIsGenuine(c, leq, limits, scanLimit, discovered);
    hide Captured, Genuine, Placeable, Holds, AllNext, CanonicalInputDigest;
    AllNextIsRun(c, o, input.files);
  }

  // ---------- repositories ----------

  predicate CleanName(s: string) {
    s != "" && s != "." && s != ".." && '/' !in s && '\\' !in s && '\0' !in s
  }

  predicate CleanPath(p: Path) {
    p != [] && forall i :: 0 <= i < |p| ==> CleanName(p[i])
  }

  function Join(p: Path): string
    requires p != []
  {
    if |p| == 1 then p[0] else p[0] + "/" + Join(p[1..])
  }

  /** Files by path; a file has nothing below it. */
  ghost predicate IsRepository(tree: map<Path, Bytes>) {
    && (forall p :: p in tree ==> CleanPath(p))
    && (forall p, q :: p in tree && q in tree && p <= q ==> p == q)
  }

  /** The discovered files are those of the tree, each once. */
  ghost predicate Lists(discovered: seq<Found>, tree: map<Path, Bytes>) {
    && (forall f :: f in discovered ==> Segments(f.relative) in tree && f.relative == Join(Segments(f.relative))
                                        && f.content == tree[Segments(f.relative)])
    && (forall p :: p in tree ==> exists f :: f in discovered && Segments(f.relative) == p)
    && (forall i, j :: 0 <= i < j < |discovered| ==> discovered[i].relative != discovered[j].relative)
  }

  lemma {:induction false} HeadOfJoin(name: string, rest: string)
    requires '/' !in name
    ensures Head(name) == name && Head(name + "/" + rest) == name
  {
    if name != "" {
      HeadOfJoin(name[1..], rest);
      assert (name + "/" + rest)[1..] == name[1..] + "/" + rest;
    }
  }

  lemma {:induction false} SegmentsOfJoin(p: Path)
    requires CleanPath(p)
    ensures Segments(Join(p)) == p && '\\' !in Join(p)
  {
    hide Head, Segments;
    var s := Join(p);
    if |p| == 1 {
      HeadOfJoin(p[0], "");
      LastSegment(s);
    } else {
      SegmentsOfJoin(p[1..]);
      HeadOfJoin(p[0], Join(p[1..]));
      SegmentsUnfold(s);
      assert s[|p[0]| + 1..] == Join(p[1..]);
      assert p == [p[0]] + p[1..];
    }
  }

  lemma {:induction false} CleanWalk(at: Path, p: Path)
    requires forall i :: 0 <= i < |p| ==> CleanName(p[i])
    ensures Walk(at, p) == Inside(at + p)
    decreases |p|
  {
    if p == [] {
      assert at + p == at;
    } else {
      CleanWalk(at + [p[0]], p[1..]);
      assert at + [p[0]] + p[1..] == at + p;
    }
  }

  lemma CleanFile(c: Codec, tree: map<Path, Bytes>, d: Found)
    requires IsRepository(tree) && Segments(d.relative) in tree && d.relative == Join(Segments(d.relative))
    ensures FileOf(c, d).path == d.relative && PlaceOf(d.relative) == Inside(Segments(d.relative))
            && Segments(d.relative) != []
  {
    var p := Segments(d.relative);
    SegmentsOfJoin(p);
    assert Slashes(d.relative) == d.relative;
    CleanWalk([], p);
    assert [] + p == p;
  }

  /** The files of a repository lead to places of their own. */
  lemma CleanIsPlaceable(c: Codec, tree: map<Path, Bytes>, discovered: seq<Found>, files: seq<InputFile>)
    requires IsRepository(tree) && Lists(discovered, tree) && Distinct(files)
    requires forall f :: f in files <==> exists d :: d in discovered && f == FileOf(c, d)
    ensures Placeable(files)
  {
    forall i | 0 <= i < |files| ensures IsBelowRoot(PlaceOf(files[i].path)) {
      var d := Origin(c, tree, discovered, files, i);
    }
    hide PlaceOf, Segments, FileOf, Lists, IsRepository, IsBelowRoot;
    forall i, j | 0 <= i < j < |files| ensures Apart(PlaceOf(files[i].path), PlaceOf(files[j].path)) {
      var d := Origin(c, tree, discovered, files, i);
      var e := Origin(c, tree, discovered, files, j);
      SameRelative(tree, discovered, d, e);
    }
  }

  lemma Origin(c: Codec, tree: map<Path, Bytes>, discovered: seq<Found>, files: seq<InputFile>, i: nat)
    returns (d: Found)
    requires IsRepository(tree) && Lists(discovered, tree) && i < |files|
    requires forall f :: f in files <==> exists d :: d in discovered && f == FileOf(c, d)
    ensures d in discovered && files[i] == FileOf(c, d)
    ensures PlaceOf(files[i].path) == Inside(Segments(d.relative)) && Segments(d.relative) != []
  {
    assert files[i] in files;
    d :| d in discovered && files[i] == FileOf(c, d);
    CleanFile(c, tree, d);
  }

  lemma SameRelative(tree: map<Path, Bytes>, discovered: seq<Found>, d: Found, e: Found)
    requires Lists(discovered, tree) && d in discovered && e in discovered && d != e
    ensures Segments(d.relative) != Segments(e.relative)
  {
    hide Segments, Join;
    var i :| 0 <= i < |discovered| && discovered[i] == d;
    var j :| 0 <= j < |discovered| && discovered[j] == e;
    assert d.relative != e.relative by { assert i < j || j < i; }
  }

  lemma GatheredDistinct(c: Codec, tree: map<Path, Bytes>, limits: Limits, scanLimit: nat, discovered: seq<Found>)
    requires IsRepository(tree) && Lists(discovered, tree) && Gather(c, limits, scanLimit, discovered).Ok?
    ensures Distinct(Gather(c, limits, scanLimit, discovered).value.files)
  {
    var files := Gather(c, limits, scanLimit, discovered).value.files;
    GatherIs(c, limits, scanLimit, discovered);
    hide Gather, Unsafe;
    forall i, j | 0 <= i < j < |files| ensures files[i] != files[j] {
      assert discovered[i] in discovered && discovered[j] in discovered;
      CleanFile(c, tree, discovered[i]);
      CleanFile(c, tree, discovered[j]);
    }
  }

  /** Every repository without backslashes in its names comes out of the runner as it went in. */
  lemma RecreatesRepository(c: Codec, leq: (string, string) -> bool, limits: Limits, scanLimit: nat,
                            discovered: seq<Found>, o: Options, tree: map<Path, Bytes>)
    requires IsRepository(tree) && Lists(discovered, tree)
    requires Decodes(c) && Captured(c, leq, limits, scanLimit, discovered).Ok?
    requires InLimits(o, Captured(c, leq, limits, scanLimit, discovered).value.files)
    ensures var pr := Materialized(c, leq, o, EMPTY, Captured(c, leq, limits, scanLimit, discovered).value);
            pr.error.None? && pr.tree.files == tree
  {
    var input := Captured(c, leq, limits, scanLimit, discovered).value;
    var pr := Materialized(c, leq, o, EMPTY, input);
    PayloadIsGenuine(c, leq, limits, scanLimit, discovered);
    GatheredDistinct(c, tree, limits, scanLimit, discovered);
    PermutedDistinct(Gather(c, limits, scanLimit, discovered).value.files, input.files);
    CleanIsPlaceable(c, tree, discovered, input.files);
    MaterializesIff(c, leq, limits, scanLimit, discovered, o);
    HoldsTree(c, tree, discovered, input.files, pr.tree);
  }

  lemma HoldsTree(c: Codec, tree: map<Path, Bytes>, discovered: seq<Found>, files: seq<InputFile>, written: Tree)
    requires IsRepository(tree) && Lists(discovered, tree) && Decodes(c) && Holds(c, files, written)
    requires forall f :: f in files <==> exists d :: d in discovered && f == FileOf(c, d)
    ensures written.files == tree
  {
    hide PlaceOf, Segments, Join, IsRepository;
    forall d | d in discovered
      ensures FileOf(c, d) in files && PlaceOf(FileOf(c, d).path) == Inside(Segments(d.relative))
      ensures Segments(d.relative) in written.files && written.files[Segments(d.relative)] == tree[Segments(d.relative)]
    {
      CleanFile(c, tree, d);
    }
    hide FileOf, Decodes;
    forall p | p in written.files ensures p in tree {
      var f :| f in files && PlaceOf(f.path) == Inside(p);
      var d :| d in discovered && f == FileOf(c, d);
    }
  }

  predicate StartsUp(s: string) { |s| >= 3 && s[0] == '.' && s[1] == '.' && s[2] == '/' }

  predicate HasUpAt(s: string, i: nat) { i < |s| && s[i] == '/' && StartsUp(s[i + 1..]) }

  lemma SpelledOut(s: string, i: nat)
    requires i <= |s|
    ensures "../" <= s <==> StartsUp(s)
    ensures "/../" <= s[i..] <==> HasUpAt(s, i)
  {
    assert "../" == ['.', '.', '/'] && "/../" == ['/', '.', '.', '/'];
  }

  lemma {:induction false} JoinHasNoUp(p: Path, i: nat)
    requires CleanPath(p)
    ensures !HasUpAt(Join(p), i) && !StartsUp(Join(p))
    decreases |p|
  {
    var s := Join(p);
    assert forall k :: 0 <= k < |p[0]| ==> s[k] == p[0][k];
    if |p| > 1 {
      var rest := Join(p[1..]);
      assert s[|p[0]|] == '/' && s[|p[0]| + 1..] == rest;
      JoinHasNoUp(p[1..], if i > |p[0]| then i - |p[0]| - 1 else 0);
      assert |p[0]| < i < |s| ==> s[i + 1..] == rest[i - |p[0]|..];
    }
    NoUpAtStart(p[0], s);
    hide Join;
  }

  lemma NoUpAtStart(name: string, s: string)
    requires CleanName(name) && |name| <= |s| && s[..|name|] == name && (|name| < |s| ==> s[|name|] == '/')
    ensures !StartsUp(s)
  {
    assert forall k :: 0 <= k < |name| ==> s[k] == name[k];
    if |name| == 2 { assert name == [name[0], name[1]]; }
  }

  /** A snapshot never refuses a repository's path. */
  lemma CleanIsSafe(p: Path)
    requires CleanPath(p)
    ensures SafeRelative(Join(p)) == Ok(Join(p)) && Join(p) != ".." && !Unsafe(Join(p))
  {
    var s := Join(p);
    SegmentsOfJoin(p);
    assert Slashes(s) == s;
    forall i | 0 <= i <= |s| ensures !("/../" <= s[i..]) {
      JoinHasNoUp(p, i);
      SpelledOut(s, i);
    }
    JoinHasNoUp(p, 0);
    SpelledOut(s, 0);
    JoinIsNotBare(p);
    hide Join, Slashes;
  }

  lemma {:induction false} JoinIsNotBare(p: Path)
    requires CleanPath(p)
    ensures var s := Join(p); s != "" && s != "." && s != ".." && !("/" <= s) && '\0' !in s
  {
    var s := Join(p);
    assert s[0] == p[0][0];
    if |p| > 1 {
      JoinIsNotBare(p[1..]);
      assert s[|p[0]|] == '/';
    }
  }

  /** Two names that normalise to the same path cannot both be written: "a\\b" and "a/b", say. */
  lemma TwoNamesOnePlace(c: Codec, leq: (string, string) -> bool, limits: Limits, scanLimit: nat,
                         discovered: seq<Found>, o: Options, i: nat, j: nat)
    requires Decodes(c) && Captured(c, leq, limits, scanLimit, discovered).Ok?
    requires InLimits(o, Captured(c, leq, limits, scanLimit, discovered).value.files)
    requires i < j < |discovered| && Slashes(discovered[i].relative) == Slashes(discovered[j].relative)
    ensures Materialized(c, leq, o, EMPTY, Captured(c, leq, limits, scanLimit, discovered).value).error
            == Some(PathTaken)
  {
    var input := Captured(c, leq, limits, scanLimit, discovered).value;
    var gathered := Gather(c, limits, scanLimit, discovered).value.files;
    MaterializesIff(c, leq, limits, scanLimit, discovered, o);
    PayloadIsGenuine(c, leq, limits, scanLimit, discovered);
    GatherIs(c, limits, scanLimit, discovered);
    hide Gather, Captured, Materialized, Genuine, Unsafe, PlaceOf, Holds;
    if Placeable(input.files) {
      forall k, l | 0 <= k < l < |input.files| ensures input.files[k].path != input.files[l].path {
        assert Apart(PlaceOf(input.files[k].path), PlaceOf(input.files[l].path));
      }
      PermutedDistinct(input.files, gathered);
      SameMembers(input.files, gathered);
      assert false;
    }
  }

  /** An empty file that stayed as it was. */
  function Empty(relative: string): Found { Found(relative, true, Stat(0, 0, 0), [], Stat(0, 0, 0)) }

  lemma SlashIsSafe()
    ensures SafeRelative("a/b") == Ok("a/b") && SafeRelative("a\\b") == Ok("a/b")
  {
    assert Slashes("a/b") == "a/b" && Slashes("a\\b") == "a/b";
    ShortIsSafe("a/b");
    hide Suspicious, Slashes;
  }

  lemma ShortIsSafe(s: string)
    requires |s| == 3 && s[0] != '/' && s[0] != '.' && '\0' !in s
    ensures !Suspicious(s) && s != "."
  {
    assert "../"[0] == '.' && "/"[0] == '/' && |"/../"| == 4;
  }

  lemma EmptyIsRead(c: Codec, limits: Limits, relative: string)
    requires relative in {"a/b", "a\\b"}
    ensures ReadOne(c, limits, 0, Empty(relative)) == Ok(FileOf(c, Empty(relative)))
    ensures FileOf(c, Empty(relative)).size == 0 && Empty(relative).content == []
  {
    SlashIsSafe();
    SpelledOut(relative, 0);
    hide SafeRelative;
    assert relative[0] == 'a';
    assert Slashes(relative) == "a/b";
  }

  /** Two empty files with the names a\b and a/b: the snapshot is taken, and the runner refuses it. */
  lemma BackslashClashes(c: Codec, leq: (string, string) -> bool)
    requires Decodes(c)
    ensures var input := Captured(c, leq, Limits(2, 0, 0), 0, [Empty("a\\b"), Empty("a/b")]);
            && input.Ok? && InLimits(Options(2, 0, 0), input.value.files)
            && Materialized(c, leq, Options(2, 0, 0), EMPTY, input.value).error == Some(PathTaken)
  {
    var limits, discovered := Limits(2, 0, 0), [Empty("a\\b"), Empty("a/b")];
    BothAreCaptured(c, leq, limits);
    assert Slashes("a\\b") == Slashes("a/b");
    hide Captured, Materialized, InLimits;
    TwoNamesOnePlace(c, leq, limits, 0, discovered, Options(2, 0, 0), 0, 1);
  }

  lemma BothAreCaptured(c: Codec, leq: (string, string) -> bool, limits: Limits)
    requires limits == Limits(2, 0, 0)
    ensures var input := Captured(c, leq, limits, 0, [Empty("a\\b"), Empty("a/b")]);
            input.Ok? && InLimits(Options(2, 0, 0), input.value.files)
  {
    hide ReadOne, FileOf, Gather, Captured, InLimits, Empty;
    var a, b := Empty("a\\b"), Empty("a/b");
    EmptyIsRead(c, limits, "a\\b");
    EmptyIsRead(c, limits, "a/b");
    BothAreGathered(c, limits, a, b, FileOf(c, a), FileOf(c, b));
    GatheredFits(c, leq, limits, [a, b], FileOf(c, a), FileOf(c, b));
  }

  lemma BothAreGathered(c: Codec, limits: Limits, a: Found, b: Found, f: InputFile, g: InputFile)
    requires a.content == [] && b.content == []
    requires ReadOne(c, limits, 0, a) == Ok(f) && ReadOne(c, limits, 0, b) == Ok(g)
    ensures Gather(c, limits, 0, [a, b]) == Ok(Gathered([f, g], 0))
  {
    hide ReadOne, Gather;
    NothingGathered(c, limits);
    OneMoreEmpty(c, limits, [], [], a, f);
    assert [] + [a] == [a] && [] + [f] == [f];
    OneMoreEmpty(c, limits, [a], [f], b, g);
    assert [a] + [b] == [a, b] && [f] + [g] == [f, g];
  }

  lemma GatheredFits(c: Codec, leq: (string, string) -> bool, limits: Limits, discovered: seq<Found>, f: InputFile,
                     g: InputFile)
    requires limits.maxFiles == 2 && |discovered| == 2 && f.size == 0 && g.size == 0
    requires Gather(c, limits, 0, discovered) == Ok(Gathered([f, g], 0))
    ensures var input := Captured(c, leq, limits, 0, discovered);
            input.Ok? && InLimits(Options(2, 0, 0), input.value.files)
  {
    hide Gather, CanonicalInputDigest, Sort, TotalSize;
    SortMembers(FileOrder(leq), [f, g]);
    SortSize(FileOrder(leq), [f, g]);
    TwoSizes(f, g);
  }

  lemma TwoSizes(f: InputFile, g: InputFile)
    ensures TotalSize([f, g]) == f.size + g.size
  {
    assert [f, g][..1] == [f] && [f][..0] == [];
    assert TotalSize([f]) == f.size;
  }

  lemma NothingGathered(c: Codec, limits: Limits)
    ensures Gather(c, limits, 0, []) == Ok(Gathered([], 0))
  {
  }

  lemma OneMoreEmpty(c: Codec, limits: Limits, front: seq<Found>, files: seq<InputFile>, e: Found, file: InputFile)
    requires Gather(c, limits, 0, front) == Ok(Gathered(files, 0))
    requires ReadOne(c, limits, 0, e) == Ok(file) && e.content == []
    ensures Gather(c, limits, 0, front + [e]) == Ok(Gathered(files + [file], 0))
  {
    hide ReadOne;
    assert (front + [e])[..|front|] == front;
  }
}
