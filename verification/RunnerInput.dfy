/** Writing a runner's input to files: safeRelative and materializeInput in
    src/execution/runner-server.ts, and which inputs they accept. */
module RunnerInput {
  import opened Wrappers
  import opened InputDigest
  import opened Snapshot

  // ---------- paths ----------

  /** Up to the first slash. */
  function Head(path: string): (h: string)
    ensures |h| <= |path| && h == path[..|h|]
    ensures '/' !in h && (|h| < |path| ==> path[|h|] == '/')
  {
    if path == "" || path[0] == '/' then "" else [path[0]] + Head(path[1..])
  }

  function Segments(path: string): seq<string>
    decreases |path|
  {
    var h := Head(path);
    if |h| == |path| then [h] else [h] + Segments(path[|h| + 1..])
  }

  type Path = seq<string>

  /** Where a path leads from the runner's root; Outside is above it. */
  datatype Place = Inside(path: Path) | Outside

  function Walk(at: Path, segments: seq<string>): Place
    decreases |segments|
  {
    if segments == [] then Inside(at)
    else if segments[0] == "" || segments[0] == "." then Walk(at, segments[1..])
    else if segments[0] == ".." then (if at == [] then Outside else Walk(at[..|at| - 1], segments[1..]))
    else Walk(at + [segments[0]], segments[1..])
  }

  function PlaceOf(path: string): Place { Walk([], Segments(path)) }

  /** The runner refuses these; ".." alone is refused here only. */
  predicate Unsafe(path: string) { Suspicious(path) || path == ".." }

  lemma UpIsTheEnd(path: string, k: nat)
    requires !Unsafe(path) && k <= |path| && (k == 0 || path[k - 1] == '/')
    ensures Head(path[k..]) == ".." ==> |path[k..]| == 2
  {
    assert k > 0 ==> path[k - 1..] == "/" + path[k..];
    assert k == 0 ==> path[k..] == path;
  }

  lemma SegmentsUnfold(s: string)
    requires |Head(s)| < |s|
    ensures Segments(s) == [Head(s)] + Segments(s[|Head(s)| + 1..]) && s[|Head(s)|] == '/'
  {
  }

  lemma LastSegment(s: string)
    requires |Head(s)| == |s|
    ensures Segments(s) == [s]
  {
    assert Head(s) == s[..|s|] == s;
  }

  predicate IsUp(segment: string) { segment == ".." }

  ghost predicate UpOnlyAtEnd(segments: seq<string>) {
    forall i :: 0 <= i < |segments| - 1 ==> !IsUp(segments[i])
  }

  lemma OneMoreSegment(h: string, rest: seq<string>)
    requires UpOnlyAtEnd(rest) && !IsUp(h)
    ensures UpOnlyAtEnd([h] + rest)
  {
    hide IsUp;
  }

  /** In a path that is not refused, ".." can only come last: Outside then is the root's parent. */
  lemma {:induction false} UpOnlyLast(path: string, k: nat)
    requires !Unsafe(path) && k <= |path| && (k == 0 || path[k - 1] == '/')
    ensures UpOnlyAtEnd(Segments(path[k..]))
    decreases |path| - k
  {
    hide Unsafe, Segments, Head;
    var s := path[k..];
    var h := Head(s);
    UpIsTheEnd(path, k);
    if |h| < |s| {
      assert !IsUp(h);
      hide IsUp, UpOnlyAtEnd;
      SegmentsUnfold(s);
      assert s[|h| + 1..] == path[k + |h| + 1..];
      UpOnlyLast(path, k + |h| + 1);
      OneMoreSegment(h, Segments(path[k + |h| + 1..]));
    } else {
      LastSegment(s);
    }
  }

  // ---------- the runner's root ----------

  datatype Tree = Tree(files: map<Path, Bytes>, dirs: set<Path>)

  const EMPTY := Tree(map[], {[]})

  function Ancestors(path: Path): (r: set<Path>)
    ensures forall q :: q in r <==> q <= path && |q| < |path|
  {
    assert forall q: Path :: q <= path && |q| < |path| ==> q == path[..|q|];
    set k | 0 <= k < |path| :: path[..k]
  }

  /** A new file with the directories above it; nothing when the place is taken or lies below a file. */
  function Put(tree: Tree, place: Place, content: Bytes): Option<Tree> {
    if place.Outside? || place.path in tree.dirs || (exists q :: q in tree.files && q <= place.path) then None
    else Some(Tree(tree.files[place.path := content], tree.dirs + Ancestors(place.path)))
  }

  /** The directories above every file and directory are there, and the root is one. */
  ghost predicate Closed(tree: Tree) {
    && [] in tree.dirs
    && (forall p, q :: (p in tree.files || p in tree.dirs) && q <= p && |q| < |p| ==> q in tree.dirs)
    && (forall p :: p in tree.files ==> p !in tree.dirs)
  }

  datatype Options = Options(maxFiles: nat, maxInputBytes: nat, maxFileBytes: nat)

  datatype InputError = LimitExceeded | UnsafeInputPath | IntegrityFailure | PathTaken | DigestMismatch

  datatype Progress = Progress(tree: Tree, total: nat, descriptors: seq<Descriptor>, error: Option<InputError>)

  function Next(c: Codec, o: Options, pr: Progress, f: InputFile): Progress {
    var path, content := Slashes(f.path), c.decode(f.contentBase64);
    if Unsafe(path) then pr.(error := Some(UnsafeInputPath))
    else if |content| != f.size || |content| > o.maxFileBytes || c.sha256(content) != f.sha256 then
      pr.(error := Some(IntegrityFailure))
    else if pr.total + |content| > o.maxInputBytes then pr.(error := Some(LimitExceeded))
    else
      match Put(pr.tree, PlaceOf(path), content)
      case None => pr.(error := Some(PathTaken))
      case Some(tree) =>
        Progress(tree, pr.total + |content|, pr.descriptors + [Descriptor(path, |content|, f.sha256)], None)
  }

  function AllNext(c: Codec, o: Options, tree: Tree, files: seq<InputFile>): Progress {
    if files == [] then Progress(tree, 0, [], None)
    else
      var pr := AllNext(c, o, tree, files[..|files| - 1]);
      if pr.error.Some? then pr else Next(c, o, pr, files[|files| - 1])
  }

  /** The tree left behind, and the error if the input is refused. */
  function Materialized(c: Codec, leq: (string, string) -> bool, o: Options, tree: Tree, input: Payload): Progress {
    if |input.files| > o.maxFiles || input.totalBytes > o.maxInputBytes then Progress(tree, 0, [], Some(LimitExceeded))
    else
      var pr := AllNext(c, o, tree, input.files);
      if pr.error.None?
        && (pr.total != input.totalBytes || CanonicalInputDigest(c.hash, leq, pr.descriptors) != input.digest)
      then pr.(error := Some(DigestMismatch))
      else pr
  }

  lemma NoAncestors(tree: Tree, path: Path)
    ensures tree == tree.(dirs := tree.dirs + Ancestors(path[..0]))
  {
    assert path[..0] == [];
  }

  lemma OneMoreAncestor(dirs: set<Path>, before: set<Path>, path: Path, k: nat)
    requires k < |path| && dirs == before + Ancestors(path[..k])
    ensures dirs + {path[..k]} == before + Ancestors(path[..k + 1])
  {
    assert forall q: Path :: q <= path[..k + 1] && |q| == k ==> q == path[..k];
    assert forall q: Path :: q <= path[..k + 1] && |q| < k ==> q <= path[..k];
    assert path[..k + 1] == path[..k] + [path[k]];
  }

  /** A file at the path or above it is one of the path's beginnings. */
  lemma TakenAbove(tree: Tree, path: Path)
    ensures (exists q :: q in tree.files && q <= path)
            <==> path in tree.files || exists k :: 0 <= k < |path| && path[..k] in tree.files
  {
    if q :| q in tree.files && q <= path {
      assert q == path[..|q|];
      assert |q| == |path| ==> q == path;
    }
    assert path <= path;
    assert forall k :: 0 <= k < |path| ==> path[..k] <= path;
  }

  class RunnerRoot {
    var tree: Tree

    constructor ()
      ensures tree == EMPTY && Closed(tree)
    {
      tree := EMPTY;
    }

    /** Makes the directories above a path; false when one of them is a file. */
    method MakeParents(path: Path) returns (made: bool)
      requires Closed(tree)
      modifies this
      ensures made <==> forall k :: 0 <= k < |path| ==> path[..k] !in old(tree).files
      ensures tree == if made then old(tree).(dirs := old(tree).dirs + Ancestors(path)) else old(tree)
    {
      NoAncestors(tree, path);
      hide Ancestors;
      for k := 0 to |path|
        invariant tree == old(tree).(dirs := old(tree).dirs + Ancestors(path[..k]))
        invariant forall j :: 0 <= j < k ==> path[..j] !in old(tree).files
      {
        if path[..k] in tree.files {
          ParentsAreThere(old(tree), path[..k]);
          return false;
        }
        OneMoreAncestor(tree.dirs, old(tree).dirs, path, k);
        tree := tree.(dirs := tree.dirs + {path[..k]});
      }
      assert path[..|path|] == path;
      return true;
    }

    method WriteNew(place: Place, content: Bytes) returns (written: bool)
      requires Closed(tree)
      modifies this
      ensures written == Put(old(tree), place, content).Some?
      ensures tree == if written then Put(old(tree), place, content).value else old(tree)
      ensures Closed(tree)
    {
      PutKeepsClosed(tree, place, content);
      if place.Outside? {
        return false;
      }
      var path := place.path;
      TakenAbove(tree, path);
      if path in tree.files || path in tree.dirs {
        ParentsAreThere(tree, path);
      }
      var made := MakeParents(path);
      if !made || path in tree.files || path in tree.dirs {
        return false;
      }
      tree := tree.(files := tree.files[path := content]);
      return true;
    }

    /** The loop body: one file, with the running total and the descriptors so far. */
    method MaterializeFile(c: Codec, o: Options, f: InputFile, total: nat, descriptors: seq<Descriptor>)
      returns (error: Option<InputError>, newTotal: nat, newDescriptors: seq<Descriptor>)
      requires Closed(tree)
      modifies this
      ensures Progress(tree, newTotal, newDescriptors, error)
              == Next(c, o, Progress(old(tree), total, descriptors, None), f)
      ensures Closed(tree)
    {
      hide Put, Closed, PlaceOf, Unsafe, Slashes;
      var path := Slashes(f.path);
      if Unsafe(path) {
        return Some(UnsafeInputPath), total, descriptors;
      }
      var content := c.decode(f.contentBase64);
      if |content| != f.size || |content| > o.maxFileBytes || c.sha256(content) != f.sha256 {
        return Some(IntegrityFailure), total, descriptors;
      }
      if total + |content| > o.maxInputBytes {
        return Some(LimitExceeded), total, descriptors;
      }
      var written := WriteNew(PlaceOf(path), content);
      if !written {
        return Some(PathTaken), total, descriptors;
      }
      return None, total + |content|, descriptors + [Descriptor(path, |content|, f.sha256)];
    }

    method MaterializeInput(c: Codec, leq: (string, string) -> bool, o: Options, input: Payload)
      returns (error: Option<InputError>)
      requires Closed(tree)
      modifies this
      ensures var pr := Materialized(c, leq, o, old(tree), input); tree == pr.tree && error == pr.error
      ensures Closed(tree)
    {
      if |input.files| > o.maxFiles || input.totalBytes > o.maxInputBytes {
        return Some(LimitExceeded);
      }
      var total: nat := 0;
      var descriptors: seq<Descriptor> := [];
      assert AllNext(c, o, tree, []) == Progress(tree, 0, [], None);
      hide Next, Closed, CanonicalInputDigest, AllNext;
      for i := 0 to |input.files|
        invariant AllNext(c, o, old(tree), input.files[..i]) == Progress(tree, total, descriptors, None)
        invariant Closed(tree)
      {
        AllNextStep(c, o, old(tree), input.files, i);
        ErrorStays(c, o, old(tree), input.files, i + 1);
        error, total, descriptors := MaterializeFile(c, o, input.files[i], total, descriptors);
        if error.Some? {
          return;
        }
      }
      assert input.files[..|input.files|] == input.files;
      if total != input.totalBytes || CanonicalInputDigest(c.hash, leq, descriptors) != input.digest {
        return Some(DigestMismatch);
      }
      return None;
    }
  }

  lemma ParentsAreThere(tree: Tree, path: Path)
    requires Closed(tree) && (path in tree.files || path in tree.dirs)
    ensures tree.dirs + Ancestors(path) == tree.dirs
    ensures forall q :: q in tree.files && q <= path ==> q == path
  {
  }

  lemma PutKeepsClosed(tree: Tree, place: Place, content: Bytes)
    requires Closed(tree)
    ensures Put(tree, place, content).Some? ==> Closed(Put(tree, place, content).value)
  {
  }

  lemma AllNextStep(c: Codec, o: Options, tree: Tree, files: seq<InputFile>, i: nat)
    requires i < |files|
    ensures var pr := AllNext(c, o, tree, files[..i]);
            AllNext(c, o, tree, files[..i + 1]) == if pr.error.Some? then pr else Next(c, o, pr, files[i])
  {
    hide Next;
    assert files[..i + 1][..i] == files[..i];
  }

  lemma {:induction false} ErrorStays(c: Codec, o: Options, tree: Tree, files: seq<InputFile>, i: nat)
    requires i <= |files|
    ensures AllNext(c, o, tree, files[..i]).error.Some?
            ==> AllNext(c, o, tree, files) == AllNext(c, o, tree, files[..i])
    decreases |files|
  {
    hide Next;
    if i == |files| {
      assert files[..i] == files;
    } else {
      var front := files[..|files| - 1];
      assert front[..i] == files[..i];
      ErrorStays(c, o, tree, front, i);
    }
  }

  // ---------- which inputs are written out ----------

  /** What a snapshot says of a file is true of its content, and its path is not refused. */
  predicate Genuine(c: Codec, f: InputFile) {
    && !Unsafe(f.path) && Slashes(f.path) == f.path
    && |c.decode(f.contentBase64)| == f.size && c.sha256(c.decode(f.contentBase64)) == f.sha256
  }

  function TotalSize(files: seq<InputFile>): nat {
    if files == [] then 0 else TotalSize(files[..|files| - 1]) + files[|files| - 1].size
  }

  /** Every file fits, alone and together. */
  ghost predicate InLimits(o: Options, files: seq<InputFile>) {
    |files| <= o.maxFiles && TotalSize(files) <= o.maxInputBytes && forall f :: f in files ==> f.size <= o.maxFileBytes
  }

  /** Neither place is the other or lies below it. */
  predicate Apart(p: Place, q: Place) {
    p.Inside? && q.Inside? && !(p.path <= q.path) && !(q.path <= p.path)
  }

  predicate IsBelowRoot(p: Place) { p.Inside? && p.path != [] }

  /** The files lead below the root and to places that are apart from each other. */
  ghost predicate Placeable(files: seq<InputFile>) {
    && (forall i :: 0 <= i < |files| ==> IsBelowRoot(PlaceOf(files[i].path)))
    && (forall i, j :: 0 <= i < j < |files| ==> Apart(PlaceOf(files[i].path), PlaceOf(files[j].path)))
  }

  /** The tree holds the files with their contents, and no others. */
  ghost predicate HoldsFiles(c: Codec, files: seq<InputFile>, tree: Tree) {
    && (forall f :: f in files ==> PlaceOf(f.path).Inside? && PlaceOf(f.path).path in tree.files
                                   && tree.files[PlaceOf(f.path).path] == c.decode(f.contentBase64))
    && (forall p :: p in tree.files ==> exists f :: f in files && PlaceOf(f.path) == Inside(p))
  }

  predicate Above(p: Path, place: Place) {
    place.Inside? && p <= place.path && |p| < |place.path|
  }

  /** The directories are the root and those above the files. */
  ghost predicate HoldsDirs(files: seq<InputFile>, tree: Tree) {
    forall p :: p in tree.dirs <==> p == [] || exists f :: f in files && Above(p, PlaceOf(f.path))
  }

  ghost predicate Holds(c: Codec, files: seq<InputFile>, tree: Tree) {
    HoldsFiles(c, files, tree) && HoldsDirs(files, tree)
  }

  lemma PutIffApart(c: Codec, front: seq<InputFile>, tree: Tree, place: Place, content: Bytes)
    requires Holds(c, front, tree)
    ensures Put(tree, place, content).Some?
            <==> IsBelowRoot(place) && forall f :: f in front ==> Apart(PlaceOf(f.path), place)
  {
    hide PlaceOf;
    if place.Inside? {
      var p := place.path;
      if f :| f in front && PlaceOf(f.path).Inside? && p <= PlaceOf(f.path).path {
        var q := PlaceOf(f.path).path;
        assert |p| == |q| ==> p == q && q <= p;
        assert |p| < |q| ==> Above(p, PlaceOf(f.path));
      }
      if f :| f in front && PlaceOf(f.path).path <= p {
        assert PlaceOf(f.path).path in tree.files;
      }
    }
  }

  lemma PutHoldsFiles(c: Codec, front: seq<InputFile>, tree: Tree, last: InputFile)
    requires HoldsFiles(c, front, tree) && Put(tree, PlaceOf(last.path), c.decode(last.contentBase64)).Some?
    ensures HoldsFiles(c, front + [last], Put(tree, PlaceOf(last.path), c.decode(last.contentBase64)).value)
  {
    hide PlaceOf;
    var files := front + [last];
    var p := PlaceOf(last.path).path;
    assert p <= p;
    assert forall f :: f in files <==> f in front || f == last;
  }

  lemma PutHoldsDirs(front: seq<InputFile>, tree: Tree, last: InputFile, content: Bytes)
    requires HoldsDirs(front, tree) && Put(tree, PlaceOf(last.path), content).Some?
    ensures HoldsDirs(front + [last], Put(tree, PlaceOf(last.path), content).value)
  {
    hide PlaceOf;
    var files := front + [last];
    assert last in files && forall f :: f in files <==> f in front || f == last;
    forall p ensures p in Ancestors(PlaceOf(last.path).path) <==> Above(p, PlaceOf(last.path)) {
    }
    hide Above;
  }

  lemma NothingHeld(c: Codec)
    ensures Holds(c, [], EMPTY) && Placeable([])
  {
  }

  lemma PlaceableStep(front: seq<InputFile>, last: InputFile)
    ensures Placeable(front + [last])
            <==> && Placeable(front) && IsBelowRoot(PlaceOf(last.path))
                 && forall f :: f in front ==> Apart(PlaceOf(f.path), PlaceOf(last.path))
  {
    hide PlaceOf, Apart, IsBelowRoot;
    var files := front + [last];
    assert files[..|front|] == front && files[|front|] == last;
    if Placeable(files) {
      forall i | 0 <= i < |front|
        ensures IsBelowRoot(PlaceOf(front[i].path)) && Apart(PlaceOf(front[i].path), PlaceOf(last.path))
      {
        assert files[i] == front[i];
      }
      forall i, j | 0 <= i < j < |front| ensures Apart(PlaceOf(front[i].path), PlaceOf(front[j].path)) {
        assert files[i] == front[i] && files[j] == front[j];
      }
    }
  }

  /** What has become of the files so far. */
  ghost predicate IsRun(c: Codec, files: seq<InputFile>, pr: Progress) {
    && (pr.error.None? <==> Placeable(files))
    && (pr.error.None? ==>
          pr.total == TotalSize(files) && pr.descriptors == Descriptors(files) && Holds(c, files, pr.tree))
    && (pr.error.Some? ==> pr.error.value == PathTaken)
  }

  lemma NextIsPut(c: Codec, o: Options, last: InputFile, pr: Progress)
    requires Genuine(c, last) && pr.total + last.size <= o.maxInputBytes && last.size <= o.maxFileBytes
             && pr.error.None?
    ensures Next(c, o, pr, last)
            == match Put(pr.tree, PlaceOf(last.path), c.decode(last.contentBase64))
               case None => pr.(error := Some(PathTaken))
               case Some(tree) => Progress(tree, pr.total + last.size, pr.descriptors + [DescriptorOf(last)], None)
  {
    hide Put, PlaceOf, Unsafe, Slashes;
  }

  lemma OneMoreFile(front: seq<InputFile>, last: InputFile)
    ensures TotalSize(front + [last]) == TotalSize(front) + last.size
    ensures Descriptors(front + [last]) == Descriptors(front) + [DescriptorOf(last)]
  {
    assert (front + [last])[..|front|] == front;
  }

  lemma NextIsRun(c: Codec, o: Options, front: seq<InputFile>, last: InputFile, pr: Progress)
    requires IsRun(c, front, pr) && pr.error.None? && Genuine(c, last)
    requires TotalSize(front) + last.size <= o.maxInputBytes && last.size <= o.maxFileBytes
    ensures IsRun(c, front + [last], Next(c, o, pr, last))
  {
    hide Next, Put, PlaceOf, HoldsFiles, HoldsDirs, Placeable, Genuine, Apart, IsBelowRoot, DescriptorOf, TotalSize,
      Descriptors;
    var place, content := PlaceOf(last.path), c.decode(last.contentBase64);
    OneMoreFile(front, last);
    NextIsPut(c, o, last, pr);
    PutIffApart(c, front, pr.tree, place, content);
    PlaceableStep(front, last);
    if Put(pr.tree, place, content).Some? {
      PutHoldsFiles(c, front, pr.tree, last);
      PutHoldsDirs(front, pr.tree, last, content);
    }
  }

  lemma {:induction false} AllNextIsRun(c: Codec, o: Options, files: seq<InputFile>)
    requires forall f :: f in files ==> Genuine(c, f)
    requires InLimits(o, files)
    ensures IsRun(c, files, AllNext(c, o, EMPTY, files))
  {
    hide Genuine, Next, Placeable;
    if files == [] {
      NothingHeld(c);
    } else {
      var front, last := files[..|files| - 1], files[|files| - 1];
      AllNextIsRun(c, o, front);
      assert files == front + [last];
      if AllNext(c, o, EMPTY, front).error.None? {
        NextIsRun(c, o, front, last, AllNext(c, o, EMPTY, front));
      } else {
        PlaceableStep(front, last);
      }
    }
  }
}
