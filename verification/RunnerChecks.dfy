/** Which files a snapshot takes and which inputs the runner accepts, check by check (src/execution/snapshot.ts and
    src/execution/runner-server.ts). */
module RunnerChecks {
  import opened Wrappers
  import opened Sorting
  import opened InputDigest
  import opened Snapshot
  import opened RunnerInput

  // ---------- paths ----------

  /** Not empty, not absolute, without NUL, and with .. in last place at most. */
  ghost predicate IsPlainPath(path: string) {
    && path != "" && path[0] != '/' && '\0' !in path
    && forall i :: 0 <= i < |Segments(path)| - 1 ==> Segments(path)[i] != ".."
  }

  lemma UpStarts(s: string)
    ensures "../" <= s <==> |Head(s)| < |s| && Head(s) == ".."
  {
    if "../" <= s {
      assert s[0] == '.' && s[1] == '.' && s[2] == '/';
      HeadIs(s, 2);
    }
    if |Head(s)| < |s| && Head(s) == ".." {
      assert s[..2] == ".." && s[2] == '/';
      assert s[..3] == "../";
    }
  }

  lemma {:induction false} HeadIs(s: string, n: nat)
    requires n < |s| && s[n] == '/' && forall i :: 0 <= i < n ==> s[i] != '/'
    ensures Head(s) == s[..n]
  {
    if n > 0 {
      HeadIs(s[1..], n - 1);
      assert s[..n] == [s[0]] + s[1..][..n - 1];
    } else {
      assert s[..0] == "";
    }
  }

  /** Some segment but the last, from the one that starts at k on, is two dots. */
  ghost predicate UpFrom(path: string, k: nat)
    requires k <= |path|
  {
    exists i :: 0 <= i < |Segments(path[k..])| - 1 && Segments(path[k..])[i] == ".."
  }

  lemma UpFromUnfolds(path: string, k: nat)
    requires k <= |path|
    ensures var h := |Head(path[k..])|;
            UpFrom(path, k) <==> k + h < |path| && ("../" <= path[k..] || UpFrom(path, k + h + 1))
  {
    hide Head, Segments;
    var s := path[k..];
    var h := |Head(s)|;
    UpStarts(s);
    if h < |s| {
      SegmentsUnfold(s);
      SomeSegment(s[h + 1..]);
      assert s[h + 1..] == path[k + h + 1..];
      UpInRest(Head(s), Segments(s[h + 1..]));
    } else {
      LastSegment(s);
    }
  }

  lemma UpInRest(head: string, rest: seq<string>)
    requires rest != []
    ensures (exists i :: 0 <= i < |[head] + rest| - 1 && ([head] + rest)[i] == "..")
            <==> head == ".." || exists i :: 0 <= i < |rest| - 1 && rest[i] == ".."
  {
    var all := [head] + rest;
    if i :| 0 <= i < |all| - 1 && all[i] == ".." {
      assert i > 0 ==> rest[i - 1] == "..";
    }
    if i :| 0 <= i < |rest| - 1 && rest[i] == ".." {
      assert all[i + 1] == "..";
    }
    assert all[0] == head;
  }

  lemma SomeSegment(s: string)
    ensures |Segments(s)| >= 1
  {
  }

  /** A slash, two dots and a slash at or after the end of the segment that starts at k. */
  ghost predicate HasUp(path: string, k: nat) {
    exists j :: k <= j < |path| && "/../" <= path[j..]
  }

  lemma {:induction false} UpFromIff(path: string, k: nat)
    requires k <= |path|
    ensures UpFrom(path, k) <==> "../" <= path[k..] || HasUp(path, k)
    decreases |path| - k
  {
    hide *;
    UpFromUnfolds(path, k);
    var h := HeadEnds(path, k);
    if k + h < |path| {
      UpFromIff(path, k + h + 1);
      UpAfterSlash(path, k + h);
      HasUpUnfolds(path, k, h);
    } else {
      NoSlashNoUp(path, k);
    }
  }

  lemma HeadEnds(path: string, k: nat) returns (h: nat)
    requires k <= |path|
    ensures h == |Head(path[k..])| && k + h <= |path|
    ensures (forall j :: k <= j < k + h ==> path[j] != '/') && (k + h < |path| ==> path[k + h] == '/')
  {
    h := |Head(path[k..])|;
    assert forall j :: k <= j < k + h ==> path[j] == Head(path[k..])[j - k];
    assert k + h < |path| ==> path[k + h] == path[k..][h];
  }

  lemma HasUpUnfolds(path: string, k: nat, h: nat)
    requires k + h < |path| && forall j :: k <= j < k + h ==> path[j] != '/'
    ensures HasUp(path, k) <==> "/../" <= path[k + h..] || HasUp(path, k + h + 1)
  {
    if HasUp(path, k) {
      var j :| k <= j < |path| && "/../" <= path[j..];
      assert path[j] == path[j..][0] == '/';
      assert j >= k + h;
    }
  }

  lemma UpAfterSlash(path: string, j: nat)
    requires j < |path| && path[j] == '/'
    ensures "/../" <= path[j..] <==> "../" <= path[j + 1..]
  {
    var s, t := path[j..], path[j + 1..];
    assert s == [path[j]] + t;
    if "/../" <= s {
      assert s[..4] == "/../";
      assert t[..3] == s[..4][1..];
    }
    if "../" <= t {
      assert s[..4] == ['/'] + t[..3];
    }
  }

  lemma NoSlashNoUp(path: string, k: nat)
    requires k <= |path| && forall j :: k <= j < |path| ==> path[j] != '/'
    ensures !("../" <= path[k..]) && !HasUp(path, k)
  {
    assert |path[k..]| > 2 ==> path[k..][2] == path[k + 2];
    forall j | k <= j < |path| ensures !("/../" <= path[j..]) {
      assert path[j..][0] == path[j];
    }
  }

  /** The checks that snapshot and runner share let through exactly the plain paths. */
  lemma SuspiciousIff(path: string)
    ensures Suspicious(path) <==> !IsPlainPath(path)
  {
    assert path[0..] == path;
    UpFromIff(path, 0);
    assert "/" <= path <==> path != "" && path[0] == '/';
    if Includes(path, "/../") {
      var i :| 0 <= i <= |path| && "/../" <= path[i..];
      assert i < |path|;
      assert HasUp(path, 0);
    }
    hide Segments;
  }

  // ---------- what a snapshot takes ----------

  predicate IsEscape(relative: string) { relative == "" || relative == ".." || "../" <= relative }

  /** The path under which a discovered file is taken is plain and not the root itself. */
  ghost predicate HasPlainPath(f: Found) { IsPlainPath(Slashes(f.relative)) && Slashes(f.relative) != "." }

  ghost predicate IsSmall(limits: Limits, scanLimit: nat, f: Found) {
    f.before.size <= limits.maxFileBytes && f.before.size <= scanLimit
  }

  /** Size, modification time and, where both are known, inode are the same before and after reading. */
  ghost predicate StayedTheSame(f: Found) {
    && f.after.size == f.before.size && f.after.mtime == f.before.mtime
    && (f.before.ino == 0 || f.after.ino in {0, f.before.ino})
  }

  /** The first check that the file fails. */
  ghost predicate IsComplaint(limits: Limits, scanLimit: nat, f: Found, e: SnapshotError) {
    match e
    case TooManyFiles => false
    case NotRegular => !f.regular
    case Escapes => f.regular && IsEscape(f.relative)
    case UnsafePath => f.regular && !IsEscape(f.relative) && !HasPlainPath(f)
    case FileTooLarge => f.regular && !IsEscape(f.relative) && HasPlainPath(f) && !IsSmall(limits, scanLimit, f)
    case Changed =>
      f.regular && !IsEscape(f.relative) && HasPlainPath(f) && IsSmall(limits, scanLimit, f) && !StayedTheSame(f)
    case TooManyBytes => false
  }

  ghost predicate CanBeRead(limits: Limits, scanLimit: nat, f: Found) {
    && f.regular && !IsEscape(f.relative) && HasPlainPath(f) && IsSmall(limits, scanLimit, f) && StayedTheSame(f)
  }

  lemma ReadOneIff(c: Codec, limits: Limits, scanLimit: nat, f: Found)
    ensures var r := ReadOne(c, limits, scanLimit, f);
            && (r.Ok? <==> CanBeRead(limits, scanLimit, f))
            && (r.Err? ==> IsComplaint(limits, scanLimit, f, r.error))
  {
    SuspiciousIff(Slashes(f.relative));
    hide Suspicious, IsPlainPath, Slashes;
  }

  function ContentSize(found: seq<Found>): nat {
    if found == [] then 0 else ContentSize(found[..|found| - 1]) + |found[|found| - 1].content|
  }

  /** The files before can be taken, and this one cannot, for the given reason. */
  ghost predicate StopsAt(c: Codec, limits: Limits, scanLimit: nat, found: seq<Found>, i: nat, e: SnapshotError) {
    && i < |found| && Gather(c, limits, scanLimit, found[..i]).Ok?
    && (|| IsComplaint(limits, scanLimit, found[i], e)
        || (e == TooManyBytes && CanBeRead(limits, scanLimit, found[i])
            && ContentSize(found[..i + 1]) > limits.maxTotalBytes))
  }

  lemma {:induction false} GatherIff(c: Codec, limits: Limits, scanLimit: nat, found: seq<Found>)
    ensures var r := Gather(c, limits, scanLimit, found);
            && (r.Ok? <==> (forall f :: f in found ==> CanBeRead(limits, scanLimit, f))
                           && (found == [] || ContentSize(found) <= limits.maxTotalBytes))
            && (r.Ok? ==> r.value.totalBytes == ContentSize(found))
            && (r.Err? ==> exists i: nat :: StopsAt(c, limits, scanLimit, found, i, r.error))
  {
    hide ReadOne, CanBeRead, IsComplaint;
    if found != [] {
      var n := |found| - 1;
      var front, last := found[..n], found[n];
      GatherIff(c, limits, scanLimit, front);
      ReadOneIff(c, limits, scanLimit, last);
      assert found == front + [last];
      var before, r := Gather(c, limits, scanLimit, front), Gather(c, limits, scanLimit, found);
      if before.Err? {
        var i: nat :| StopsAt(c, limits, scanLimit, front, i, before.error);
        assert found[..i] == front[..i] && found[..i + 1] == front[..i + 1];
        assert StopsAt(c, limits, scanLimit, found, i, r.error);
      } else if r.Err? {
        assert found[..n + 1] == found;
        assert StopsAt(c, limits, scanLimit, found, n, r.error);
      }
    }
  }

  /** A snapshot is taken exactly when there are not too many files, every one of them can be read, and their
      contents are not too large together. Otherwise the error is that there are too many files or that of the first
      file that cannot be taken. */
  lemma CapturedIff(c: Codec, leq: (string, string) -> bool, limits: Limits, scanLimit: nat, found: seq<Found>)
    ensures var r := Captured(c, leq, limits, scanLimit, found);
            && (r.Ok? <==> |found| <= limits.maxFiles && (forall f :: f in found ==> CanBeRead(limits, scanLimit, f))
                           && (found == [] || ContentSize(found) <= limits.maxTotalBytes))
            && (r.Ok? ==> r.value.totalBytes == ContentSize(found))
            && (r.Err? && r.error == TooManyFiles <==> |found| > limits.maxFiles)
            && (r.Err? && r.error != TooManyFiles ==>
                  exists i: nat :: StopsAt(c, limits, scanLimit, found, i, r.error))
  {
    GatherIff(c, limits, scanLimit, found);
    hide Gather, CanBeRead, ContentSize, CanonicalInputDigest, Sort, IsComplaint;
    if Gather(c, limits, scanLimit, found).Err? {
      var i: nat :| StopsAt(c, limits, scanLimit, found, i, Gather(c, limits, scanLimit, found).error);
      NeverTooManyFiles(limits, scanLimit, found[i]);
    }
  }

  // ---------- what the runner accepts ----------

  /** The same input with slashes in its paths. */
  function Slashed(files: seq<InputFile>): (r: seq<InputFile>)
    ensures |r| == |files| && forall i :: 0 <= i < |r| ==> r[i] == files[i].(path := Slashes(files[i].path))
  {
    seq(|files|, i requires 0 <= i < |files| => files[i].(path := Slashes(files[i].path)))
  }

  /** The path is plain and not .. alone, and the content has the declared length, which is allowed, and hash. */
  ghost predicate IsSound(c: Codec, o: Options, f: InputFile) {
    && IsPlainPath(Slashes(f.path)) && Slashes(f.path) != ".."
    && |c.decode(f.contentBase64)| == f.size && f.size <= o.maxFileBytes
    && c.sha256(c.decode(f.contentBase64)) == f.sha256
  }

  lemma SlashedTwice(s: string)
    ensures Slashes(Slashes(s)) == Slashes(s)
  {
  }

  lemma NextSlashed(c: Codec, o: Options, pr: Progress, f: InputFile)
    ensures Next(c, o, pr, f) == Next(c, o, pr, f.(path := Slashes(f.path)))
  {
    SlashedTwice(f.path);
    hide Slashes, Unsafe, PlaceOf, Put;
  }

  lemma NextFails(c: Codec, o: Options, pr: Progress, f: InputFile)
    requires pr.error.None?
    ensures var r := Next(c, o, pr, f);
            && (r.error.None? ==>
                  IsSound(c, o, f) && pr.total + f.size <= o.maxInputBytes && r.total == pr.total + f.size)
            && (r.error == Some(UnsafeInputPath) <==> !IsPlainPath(Slashes(f.path)) || Slashes(f.path) == "..")
            && (r.error == Some(IntegrityFailure) <==>
                  && IsPlainPath(Slashes(f.path)) && Slashes(f.path) != ".." && !IsSound(c, o, f))
            && (r.error == Some(LimitExceeded) <==> IsSound(c, o, f) && pr.total + f.size > o.maxInputBytes)
            && (r.error == Some(PathTaken) ==> IsSound(c, o, f))
            && r.error != Some(DigestMismatch)
  {
    SuspiciousIff(Slashes(f.path));
    hide Suspicious, IsPlainPath, Slashes, PlaceOf, Put;
  }

  lemma SoundIsGenuine(c: Codec, o: Options, f: InputFile)
    ensures IsSound(c, o, f) <==> Genuine(c, f.(path := Slashes(f.path))) && f.size <= o.maxFileBytes
  {
    SuspiciousIff(Slashes(f.path));
    SlashedTwice(f.path);
    hide Suspicious, IsPlainPath, Slashes;
  }

  lemma {:induction false} AllNextSlashed(c: Codec, o: Options, tree: Tree, files: seq<InputFile>)
    ensures AllNext(c, o, tree, files) == AllNext(c, o, tree, Slashed(files))
  {
    hide Next;
    if files != [] {
      var n := |files| - 1;
      AllNextSlashed(c, o, tree, files[..n]);
      assert Slashed(files)[..n] == Slashed(files[..n]);
      NextSlashed(c, o, AllNext(c, o, tree, files[..n]), files[n]);
    }
  }

  lemma {:induction false} SlashedSize(files: seq<InputFile>)
    ensures TotalSize(Slashed(files)) == TotalSize(files)
  {
    if files != [] {
      var n := |files| - 1;
      SlashedSize(files[..n]);
      assert Slashed(files)[..n] == Slashed(files[..n]);
    }
  }

  /** Files that are all taken in are sound and fit together. */
  lemma {:induction false} TakenAreSound(c: Codec, o: Options, tree: Tree, files: seq<InputFile>)
    requires AllNext(c, o, tree, files).error.None?
    ensures forall f :: f in files ==> IsSound(c, o, f)
    ensures files == [] || TotalSize(files) <= o.maxInputBytes
    ensures AllNext(c, o, tree, files).total == TotalSize(files)
  {
    hide Next, IsSound;
    if files != [] {
      var n := |files| - 1;
      TakenAreSound(c, o, tree, files[..n]);
      NextFails(c, o, AllNext(c, o, tree, files[..n]), files[n]);
      assert files == files[..n] + [files[n]];
    }
  }

  /** The runner accepts an input exactly when there are not too many files and bytes, every file is sound, their paths
      lead below the root to places of which none is or lies below another, and the declared total and digest are
      those of the files; the files are then there with their contents, and nothing else. */
  lemma AcceptedIff(c: Codec, leq: (string, string) -> bool, o: Options, input: Payload)
    ensures var pr, files := Materialized(c, leq, o, EMPTY, input), Slashed(input.files);
            && (pr.error.None? <==>
                  && |input.files| <= o.maxFiles && input.totalBytes <= o.maxInputBytes
                  && (forall f :: f in input.files ==> IsSound(c, o, f))
                  && Placeable(files) && TotalSize(input.files) == input.totalBytes
                  && CanonicalInputDigest(c.hash, leq, Descriptors(files)) == input.digest)
            && (pr.error.None? ==> Holds(c, files, pr.tree))
  {
    var files := Slashed(input.files);
    hide IsSound, Placeable, Holds, CanonicalInputDigest, AllNext, Genuine;
    AllNextSlashed(c, o, EMPTY, input.files);
    SlashedSize(input.files);
    if AllNext(c, o, EMPTY, input.files).error.None? {
      TakenAreSound(c, o, EMPTY, input.files);
    }
    if (forall f :: f in input.files ==> IsSound(c, o, f)) && |input.files| <= o.maxFiles
       && TotalSize(input.files) <= o.maxInputBytes
    {
      SoundAreGenuine(c, o, input.files);
      AllNextIsRun(c, o, files);
    }
    hide Slashed, TotalSize;
  }

  lemma SoundAreGenuine(c: Codec, o: Options, files: seq<InputFile>)
    requires (forall f :: f in files ==> IsSound(c, o, f)) && |files| <= o.maxFiles
    requires TotalSize(files) <= o.maxInputBytes
    ensures (forall f :: f in Slashed(files) ==> Genuine(c, f)) && InLimits(o, Slashed(files))
  {
    SlashedSize(files);
    hide IsSound, Genuine, TotalSize;
    forall f | f in Slashed(files) ensures Genuine(c, f) && f.size <= o.maxFileBytes {
      var i :| 0 <= i < |files| && Slashed(files)[i] == f;
      assert files[i] in files;
      SoundIsGenuine(c, o, files[i]);
    }
  }

  /** What the error says: that of the first file that is not taken in, or of the whole input. */
  lemma {:induction false} FirstFailureDecides(c: Codec, o: Options, tree: Tree, files: seq<InputFile>)
    requires AllNext(c, o, tree, files).error.Some?
    ensures exists i :: 0 <= i < |files| && FailsAt(c, o, tree, files, i, AllNext(c, o, tree, files).error.value)
  {
    hide Next, IsSound, FailsAt;
    var n := |files| - 1;
    var before := AllNext(c, o, tree, files[..n]);
    if before.error.Some? {
      FirstFailureDecides(c, o, tree, files[..n]);
      var i :| 0 <= i < n && FailsAt(c, o, tree, files[..n], i, before.error.value);
      FailsAtPrefix(c, o, tree, files, n, i, before.error.value);
    } else {
      TakenAreSound(c, o, tree, files[..n]);
      NextFails(c, o, before, files[n]);
      OneFails(c, o, tree, files);
    }
  }

  /** An input that declares too much is refused before anything is written. Otherwise the first file that is not
      taken in decides, and without one a total or a digest that does not agree. */
  lemma RefusalIs(c: Codec, leq: (string, string) -> bool, o: Options, tree: Tree, input: Payload)
    requires Materialized(c, leq, o, tree, input).error.Some?
    ensures var pr, files := Materialized(c, leq, o, tree, input), input.files;
            if |files| > o.maxFiles || input.totalBytes > o.maxInputBytes
            then pr.error == Some(LimitExceeded) && pr.tree == tree
            else
              || (exists i :: 0 <= i < |files| && FailsAt(c, o, tree, files, i, pr.error.value))
              || (&& pr.error == Some(DigestMismatch) && (forall f :: f in files ==> IsSound(c, o, f))
                  && (TotalSize(files) != input.totalBytes
                      || CanonicalInputDigest(c.hash, leq, Descriptors(Slashed(files))) != input.digest))
  {
    hide IsSound, FailsAt, Placeable, Holds, CanonicalInputDigest, AllNext;
    var r := AllNext(c, o, tree, input.files);
    if r.error.Some? {
      FirstFailureDecides(c, o, tree, input.files);
    } else {
      TakenAreSound(c, o, tree, input.files);
      TakenAreDescribed(c, o, tree, input.files);
    }
  }

  lemma {:induction false} TakenAreDescribed(c: Codec, o: Options, tree: Tree, files: seq<InputFile>)
    requires AllNext(c, o, tree, files).error.None?
    ensures AllNext(c, o, tree, files).descriptors == Descriptors(Slashed(files))
  {
    hide Next, DescriptorOf, Slashes;
    if files != [] {
      var n := |files| - 1;
      TakenAreDescribed(c, o, tree, files[..n]);
      NextDescribes(c, o, AllNext(c, o, tree, files[..n]), files[n]);
      hide AllNext;
      assert Slashed(files) == Slashed(files[..n]) + [files[n].(path := Slashes(files[n].path))];
      assert Descriptors(Slashed(files)) == Descriptors(Slashed(files[..n])) + [DescriptorOf(Slashed(files)[n])];
    }
  }

  lemma NextDescribes(c: Codec, o: Options, pr: Progress, f: InputFile)
    requires Next(c, o, pr, f).error.None?
    ensures Next(c, o, pr, f).descriptors == pr.descriptors + [DescriptorOf(f.(path := Slashes(f.path)))]
  {
    hide Put, PlaceOf, Unsafe;
  }

  /** The files before are taken in, and this one fails for the given reason. */
  ghost predicate FailsAt(c: Codec, o: Options, tree: Tree, files: seq<InputFile>, i: nat, e: InputError)
    requires i < |files|
  {
    var f := files[i];
    && AllNext(c, o, tree, files[..i]).error.None?
    && match e
       case UnsafeInputPath => !IsPlainPath(Slashes(f.path)) || Slashes(f.path) == ".."
       case IntegrityFailure => IsPlainPath(Slashes(f.path)) && Slashes(f.path) != ".." && !IsSound(c, o, f)
       case LimitExceeded => IsSound(c, o, f) && TotalSize(files[..i]) + f.size > o.maxInputBytes
       case PathTaken => IsSound(c, o, f)
       case DigestMismatch => false
  }

  lemma FailsAtPrefix(c: Codec, o: Options, tree: Tree, files: seq<InputFile>, n: nat, i: nat, e: InputError)
    requires i < n <= |files| && FailsAt(c, o, tree, files[..n], i, e)
    ensures FailsAt(c, o, tree, files, i, e)
  {
    assert files[..n][..i] == files[..i];
    hide AllNext, IsSound;
  }

  lemma OneFails(c: Codec, o: Options, tree: Tree, files: seq<InputFile>)
    requires files != []
    requires var n := |files| - 1; AllNext(c, o, tree, files[..n]).error.None?
    requires AllNext(c, o, tree, files).error.Some?
    ensures FailsAt(c, o, tree, files, |files| - 1, AllNext(c, o, tree, files).error.value)
  {
    var n := |files| - 1;
    TakenAreSound(c, o, tree, files[..n]);
    NextFails(c, o, AllNext(c, o, tree, files[..n]), files[n]);
    hide Next, IsSound;
  }

  lemma NeverTooManyFiles(limits: Limits, scanLimit: nat, f: Found)
    ensures !IsComplaint(limits, scanLimit, f, TooManyFiles)
  {
  }

  // ---------- where a path leads ----------

  /** The segments that count: not empty and not a dot. */
  function Steps(segments: seq<string>): seq<string> {
    if segments == [] then []
    else (if segments[0] in {"", "."} then [] else [segments[0]]) + Steps(segments[1..])
  }

  lemma {:induction false} WalkSteps(at: Path, segments: seq<string>)
    ensures Walk(at, segments) == Walk(at, Steps(segments))
    decreases |segments|
  {
    if segments != [] {
      var head, rest := segments[0], segments[1..];
      if head in {"", "."} {
        WalkSteps(at, rest);
        assert [] + Steps(rest) == Steps(rest);
      } else {
        assert ([head] + Steps(rest))[1..] == Steps(rest);
        if head == ".." {
          if at != [] {
            WalkSteps(at[..|at| - 1], rest);
          }
        } else {
          WalkSteps(at + [head], rest);
        }
      }
    }
  }

  lemma {:induction false} WalkDown(at: Path, steps: seq<string>)
    requires forall i :: 0 <= i < |steps| ==> steps[i] !in {"", ".", ".."}
    ensures Walk(at, steps) == Inside(at + steps)
    ensures Walk(at, steps + [".."]) == if at + steps == [] then Outside else Inside((at + steps)[..|at + steps| - 1])
    decreases |steps|
  {
    if steps == [] {
      assert at + steps == at && steps + [".."] == [".."] && [".."][1..] == [];
    } else {
      WalkDown(at + [steps[0]], steps[1..]);
      assert at + [steps[0]] + steps[1..] == at + steps;
      assert (steps + [".."])[1..] == steps[1..] + [".."];
    }
  }

  /** A path without .. leads down its steps; .. in last place takes the last of them back, or leads out of the root
      when there is none. */
  lemma PlaceIsSteps(path: string, steps: seq<string>)
    requires forall i :: 0 <= i < |steps| ==> steps[i] !in {"", ".", ".."}
    ensures Steps(Segments(path)) == steps ==> PlaceOf(path) == Inside(steps)
    ensures Steps(Segments(path)) == steps + [".."] ==>
              PlaceOf(path) == if steps == [] then Outside else Inside(steps[..|steps| - 1])
  {
    WalkSteps([], Segments(path));
    WalkDown([], steps);
    assert [] + steps == steps;
    hide Segments, Walk, Steps;
  }
}
