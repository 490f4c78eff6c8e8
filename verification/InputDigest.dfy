/** The digest that identifies a runner's input (canonicalInputDigest in src/execution/snapshot.ts). */
module InputDigest {
  import opened Text
  import opened Sorting
  import opened Numbers

  datatype Descriptor = Descriptor(path: string, size: nat, sha256: string)

  function Record(d: Descriptor): string {
    d.path + "\0" + (Decimal(d.size) + "\0" + (d.sha256 + "\0"))
  }

  function Preimage(files: seq<Descriptor>): string {
    if files == [] then "" else Record(files[0]) + Preimage(files[1..])
  }

  /** Descriptors compared by a collation of their paths. */
  function ByPath(leq: (string, string) -> bool): (Descriptor, Descriptor) -> bool {
    (a: Descriptor, b: Descriptor) => leq(a.path, b.path)
  }

  function CanonicalInputDigest(hash: string -> string, leq: (string, string) -> bool, files: seq<Descriptor>): string {
    hash(Preimage(Sort(ByPath(leq), files)))
  }

  // ---------- what the digest tells apart ----------

  predicate NulFree(d: Descriptor) { '\0' !in d.path && '\0' !in d.sha256 }

  ghost predicate AllNulFree(files: seq<Descriptor>) {
    forall d :: d in files ==> NulFree(d)
  }

  lemma RecordSplits(a: Descriptor, x: string, b: Descriptor, y: string)
    requires NulFree(a) && NulFree(b) && Record(a) + x == Record(b) + y
    ensures a == b && x == y
  {
    var a2, b2 := Decimal(a.size) + "\0" + (a.sha256 + "\0" + x), Decimal(b.size) + "\0" + (b.sha256 + "\0" + y);
    assert Record(a) + x == a.path + "\0" + a2;
    assert Record(b) + y == b.path + "\0" + b2;
    NulSplits(a.path, a2, b.path, b2);
    DecimalReads(a.size);
    DecimalReads(b.size);
    NulSplits(Decimal(a.size), a.sha256 + "\0" + x, Decimal(b.size), b.sha256 + "\0" + y);
    NulSplits(a.sha256, x, b.sha256, y);
  }

  lemma {:induction false} PreimageInjective(a: seq<Descriptor>, b: seq<Descriptor>)
    requires AllNulFree(a) && AllNulFree(b) && Preimage(a) == Preimage(b)
    ensures a == b
  {
    hide Record, NulFree;
    if a != [] && b != [] {
      RecordSplits(a[0], Preimage(a[1..]), b[0], Preimage(b[1..]));
      PreimageInjective(a[1..], b[1..]);
      assert a == [a[0]] + a[1..] && b == [b[0]] + b[1..];
    } else {
      RecordsAreNotEmpty(a);
      RecordsAreNotEmpty(b);
    }
  }

  lemma RecordsAreNotEmpty(files: seq<Descriptor>)
    ensures Preimage(files) == "" <==> files == []
  {
  }

  /** The same digest means the same canonical order, and so the same descriptors. */
  lemma DigestTellsApart(hash: string -> string, leq: (string, string) -> bool, a: seq<Descriptor>, b: seq<Descriptor>)
    requires Injective(hash) && AllNulFree(a) && AllNulFree(b)
    requires CanonicalInputDigest(hash, leq, a) == CanonicalInputDigest(hash, leq, b)
    ensures Sort(ByPath(leq), a) == Sort(ByPath(leq), b) && multiset(a) == multiset(b)
  {
    SortMembers(ByPath(leq), a);
    SortMembers(ByPath(leq), b);
    hide Sort, NulFree;
    PreimageInjective(Sort(ByPath(leq), a), Sort(ByPath(leq), b));
  }

  /** When no two descriptors' paths collate alike, digests agree exactly for permutations. */
  lemma DigestIff(hash: string -> string, leq: (string, string) -> bool, a: seq<Descriptor>, b: seq<Descriptor>)
    requires Injective(hash) && AllNulFree(a) && AllNulFree(b) && TotalPreorder(leq) && NoTies(ByPath(leq), a)
    ensures CanonicalInputDigest(hash, leq, a) == CanonicalInputDigest(hash, leq, b) <==> multiset(a) == multiset(b)
  {
    if multiset(a) == multiset(b) {
      PathOrderIsTotal(leq);
      SortForgetsOrder(ByPath(leq), a, b);
    }
    if CanonicalInputDigest(hash, leq, a) == CanonicalInputDigest(hash, leq, b) {
      DigestTellsApart(hash, leq, a, b);
    }
  }

  lemma PathOrderIsTotal(leq: (string, string) -> bool)
    requires TotalPreorder(leq)
    ensures TotalPreorder(ByPath(leq))
  {
    var order := ByPath(leq);
    forall a, b ensures order(a, b) || order(b, a) {
      assert leq(a.path, b.path) || leq(b.path, a.path);
    }
    forall a, b, c | order(a, b) && order(b, c) ensures order(a, c) {
      assert leq(a.path, b.path) && leq(b.path, c.path);
    }
  }

  /** Two different descriptors whose paths collate alike make the digest depend on the order. */
  lemma TieShows(hash: string -> string, leq: (string, string) -> bool, a: Descriptor, b: Descriptor,
                 rest: seq<Descriptor>)
    requires Injective(hash) && TotalPreorder(leq) && AllNulFree([a, b] + rest)
    requires a != b && leq(a.path, b.path) && leq(b.path, a.path)
    ensures CanonicalInputDigest(hash, leq, [a, b] + rest) != CanonicalInputDigest(hash, leq, [b, a] + rest)
  {
    PathOrderIsTotal(leq);
    TiedInsertsDiffer(ByPath(leq), a, b, Sort(ByPath(leq), rest));
    assert a in [a, b] + rest && b in [a, b] + rest;
    assert forall d :: d in rest ==> d in [a, b] + rest;
    SortPair(ByPath(leq), a, b, rest);
    SortPair(ByPath(leq), b, a, rest);
    if CanonicalInputDigest(hash, leq, [a, b] + rest) == CanonicalInputDigest(hash, leq, [b, a] + rest) {
      DigestTellsApart(hash, leq, [a, b] + rest, [b, a] + rest);
    }
    hide Sort, Insert, NulFree;
  }

  /** The digest is the same for every order of the descriptors. */
  ghost predicate IgnoresOrder(hash: string -> string, leq: (string, string) -> bool, files: seq<Descriptor>) {
    forall other :: multiset(other) == multiset(files)
                    ==> CanonicalInputDigest(hash, leq, other) == CanonicalInputDigest(hash, leq, files)
  }

  /** The order of the descriptors is irrelevant exactly when no two paths collate alike. */
  lemma IgnoresOrderIff(hash: string -> string, leq: (string, string) -> bool, files: seq<Descriptor>)
    requires Injective(hash) && AllNulFree(files) && TotalPreorder(leq)
    ensures IgnoresOrder(hash, leq, files) <==> NoTies(ByPath(leq), files)
  {
    hide NulFree, CanonicalInputDigest;
    if NoTies(ByPath(leq), files) {
      forall other | multiset(other) == multiset(files)
        ensures CanonicalInputDigest(hash, leq, other) == CanonicalInputDigest(hash, leq, files)
      {
        SameMembers(other, files);
        DigestIff(hash, leq, files, other);
      }
    } else {
      var a, b :| a in files && b in files && ByPath(leq)(a, b) && ByPath(leq)(b, a) && a != b;
      var rest := BringForward(files, a, b);
      SameMembers([a, b] + rest, files);
      TieShows(hash, leq, a, b, rest);
    }
  }
}
