/** Reading a repository into a runner's input (snapshotRepository in src/execution/snapshot.ts). */
module Snapshot {
  import opened Wrappers
  import opened Text
  import opened Numbers
  import opened Sorting
  import opened InputDigest

  type Bytes = seq<bv8>

  /** File contents to text and back, and their hash. */
  datatype Codec = Codec(
    encode: Bytes -> string, decode: string -> Bytes, sha256: Bytes -> string, hash: string -> string)

  datatype InputFile = InputFile(path: string, size: nat, sha256: string, contentBase64: string)

  datatype Payload = Payload(digest: string, files: seq<InputFile>, totalBytes: nat)

  datatype Limits = Limits(maxFiles: nat, maxTotalBytes: nat, maxFileBytes: nat)

  datatype Stat = Stat(size: nat, mtime: int, ino: nat)

  /** A discovered file: its real path relative to the repository's real path, and what reading it saw. */
  datatype Found = Found(relative: string, regular: bool, before: Stat, content: Bytes, after: Stat)

  datatype SnapshotError = TooManyFiles | NotRegular | Escapes | UnsafePath | FileTooLarge | Changed | TooManyBytes

  /** Backslashes read as slashes. */
  function Slashes(s: string): string { Replaced(s, '\\', '/') }

  predicate Includes(s: string, part: string) {
    exists i :: 0 <= i <= |s| && part <= s[i..]
  }

  /** The checks that snapshot and runner have in common. */
  predicate Suspicious(path: string) {
    path == "" || "../" <= path || Includes(path, "/../") || "/" <= path || '\0' in path
  }

  function SafeRelative(relative: string): Result<string, SnapshotError> {
    var rel := Slashes(relative);
    if Suspicious(rel) || rel == "." then Err(UnsafePath) else Ok(rel)
  }

  predicate WasChanged(f: Found) {
    || f.after.size != f.before.size || f.after.mtime != f.before.mtime
    || (f.before.ino != 0 && f.after.ino != 0 && f.before.ino != f.after.ino)
  }

  function ReadOne(c: Codec, limits: Limits, scanLimit: nat, f: Found): Result<InputFile, SnapshotError> {
    if !f.regular then Err(NotRegular)
    else if f.relative == ".." || "../" <= f.relative || f.relative == "" then Err(Escapes)
    else
      var path :- SafeRelative(f.relative);
      if f.before.size > Min(limits.maxFileBytes, scanLimit) then Err(FileTooLarge)
      else if WasChanged(f) then Err(Changed)
      else Ok(InputFile(path, |f.content|, c.sha256(f.content), c.encode(f.content)))
  }

  datatype Gathered = Gathered(files: seq<InputFile>, totalBytes: nat)

  function Gather(c: Codec, limits: Limits, scanLimit: nat, discovered: seq<Found>): Result<Gathered, SnapshotError> {
    if discovered == [] then Ok(Gathered([], 0))
    else
      var last := discovered[|discovered| - 1];
      var g :- Gather(c, limits, scanLimit, discovered[..|discovered| - 1]);
      var file :- ReadOne(c, limits, scanLimit, last);
      var total := g.totalBytes + |last.content|;
      if total > limits.maxTotalBytes then Err(TooManyBytes) else Ok(Gathered(g.files + [file], total))
  }

  function DescriptorOf(f: InputFile): Descriptor { Descriptor(f.path, f.size, f.sha256) }

  function Descriptors(files: seq<InputFile>): (r: seq<Descriptor>)
    ensures |r| == |files|
    ensures forall i :: 0 <= i < |r| ==> r[i] == DescriptorOf(files[i])
  {
    seq(|files|, i requires 0 <= i < |files| => DescriptorOf(files[i]))
  }

  function FileOrder(leq: (string, string) -> bool): (InputFile, InputFile) -> bool {
    (a: InputFile, b: InputFile) => leq(a.path, b.path)
  }

  function PayloadOf(c: Codec, leq: (string, string) -> bool, g: Gathered): Payload {
    var files := Sort(FileOrder(leq), g.files);
    Payload(CanonicalInputDigest(c.hash, leq, Descriptors(files)), files, g.totalBytes)
  }

  function Captured(c: Codec, leq: (string, string) -> bool, limits: Limits, scanLimit: nat,
                    discovered: seq<Found>): Result<Payload, SnapshotError> {
    if |discovered| > limits.maxFiles then Err(TooManyFiles)
    else
      var g :- Gather(c, limits, scanLimit, discovered);
      Ok(PayloadOf(c, leq, g))
  }

  method SnapshotRepository(c: Codec, leq: (string, string) -> bool, limits: Limits, scanLimit: nat,
                            discovered: seq<Found>)
    returns (r: Result<Payload, SnapshotError>)
    ensures r == Captured(c, leq, limits, scanLimit, discovered)
  {
    hide ReadOne;
    if |discovered| > limits.maxFiles {
      return Err(TooManyFiles);
    }
    var files: seq<InputFile> := [];
    var totalBytes: nat := 0;
    for i := 0 to |discovered|
      invariant Gather(c, limits, scanLimit, discovered[..i]) == Ok(Gathered(files, totalBytes))
    {
      GatherStep(c, limits, scanLimit, discovered, i);
      var file := ReadOne(c, limits, scanLimit, discovered[i]);
      if file.Err? {
        GatherFails(c, limits, scanLimit, discovered, i + 1);
        return Err(file.error);
      }
      totalBytes := totalBytes + |discovered[i].content|;
      if totalBytes > limits.maxTotalBytes {
        GatherFails(c, limits, scanLimit, discovered, i + 1);
        return Err(TooManyBytes);
      }
      files := files + [file.value];
    }
    assert discovered[..|discovered|] == discovered;
    r := Ok(PayloadOf(c, leq, Gathered(files, totalBytes)));
  }

  lemma GatherStep(c: Codec, limits: Limits, scanLimit: nat, discovered: seq<Found>, i: nat)
    requires i < |discovered|
    ensures discovered[..i + 1][..i] == discovered[..i]
  {
  }

  /** An error on a part of the files is the error on all of them. */
  lemma {:induction false} GatherFails(c: Codec, limits: Limits, scanLimit: nat, discovered: seq<Found>, i: nat)
    requires i <= |discovered| && Gather(c, limits, scanLimit, discovered[..i]).Err?
    ensures Gather(c, limits, scanLimit, discovered) == Gather(c, limits, scanLimit, discovered[..i])
    decreases |discovered|
  {
    hide ReadOne;
    if i == |discovered| {
      assert discovered[..i] == discovered;
    } else {
      var front := discovered[..|discovered| - 1];
      assert front[..i] == discovered[..i];
      GatherFails(c, limits, scanLimit, front, i);
    }
  }
}
