/** Stable insertion sort over an arbitrary comparison, and the facts about sorted sequences
    that make a sorted result independent of the order of its input. */
module Sorting {

  /** The comparison is defined on every pair and may be chained; ties are allowed. */
  ghost predicate TotalPreorder<T(!new)>(leq: (T, T) -> bool) {
    && (forall a, b :: leq(a, b) || leq(b, a))
    && (forall a, b, c :: leq(a, b) && leq(b, c) ==> leq(a, c))
  }

  /** No two different elements of s compare as equal. */
  ghost predicate NoTies<T>(leq: (T, T) -> bool, s: seq<T>) {
    forall a, b :: a in s && b in s && leq(a, b) && leq(b, a) ==> a == b
  }

  ghost predicate Sorted<T>(leq: (T, T) -> bool, s: seq<T>) {
    forall i, j :: 0 <= i < j < |s| ==> leq(s[i], s[j])
  }

  function Insert<T>(leq: (T, T) -> bool, x: T, s: seq<T>): (r: seq<T>)
    ensures multiset(r) == multiset{x} + multiset(s)
    ensures |r| == |s| + 1
  {
    if s == [] then [x]
    else if leq(x, s[0]) then [x] + s
    else
      assert s == [s[0]] + s[1..];
      [s[0]] + Insert(leq, x, s[1..])
  }

  /** Elements that compare as equal keep their input order. */
  function Sort<T>(leq: (T, T) -> bool, s: seq<T>): (r: seq<T>)
    ensures multiset(r) == multiset(s)
    ensures |r| == |s|
  {
    if s == [] then []
    else
      assert s == [s[0]] + s[1..];
      Insert(leq, s[0], Sort(leq, s[1..]))
  }

  lemma Associative<T>(a: seq<T>, b: seq<T>, c: seq<T>)
    ensures a + b + c == a + (b + c)
  {
  }

  lemma SameMembers<T>(a: seq<T>, b: seq<T>)
    requires multiset(a) == multiset(b)
    ensures forall x :: x in a <==> x in b
  {
    forall x ensures x in a <==> x in b {
      assert x in a <==> x in multiset(a);
      assert x in b <==> x in multiset(b);
    }
  }

  lemma SortMembers<T>(leq: (T, T) -> bool, s: seq<T>)
    ensures forall x :: x in Sort(leq, s) <==> x in s
  {
    SameMembers(Sort(leq, s), s);
  }

  lemma {:induction false} InsertSorted<T(!new)>(leq: (T, T) -> bool, x: T, s: seq<T>)
    requires TotalPreorder(leq) && Sorted(leq, s)
    ensures Sorted(leq, Insert(leq, x, s))
  {
    if s == [] {
    } else if leq(x, s[0]) {
      forall j | 0 <= j < |s| ensures leq(x, s[j]) {
        assert j == 0 || leq(s[0], s[j]);
      }
    } else {
      InsertSorted(leq, x, s[1..]);
      var tail := Insert(leq, x, s[1..]);
      SameMembers(tail, [x] + s[1..]);
      forall j | 0 <= j < |tail| ensures leq(s[0], tail[j]) {
        assert tail[j] in [x] + s[1..];
      }
    }
  }

  lemma {:induction false} SortSorted<T(!new)>(leq: (T, T) -> bool, s: seq<T>)
    requires TotalPreorder(leq)
    ensures Sorted(leq, Sort(leq, s))
  {
    if s != [] {
      SortSorted(leq, s[1..]);
      InsertSorted(leq, s[0], Sort(leq, s[1..]));
    }
  }

  lemma LeastFirst<T(!new)>(leq: (T, T) -> bool, s: seq<T>, x: T)
    requires TotalPreorder(leq) && Sorted(leq, s) && x in s
    ensures leq(s[0], x)
  {
    var i :| 0 <= i < |s| && s[i] == x;
    assert i == 0 || leq(s[0], s[i]);
    assert leq(x, x);
  }

  lemma TailMultiset<T>(s: seq<T>)
    requires s != []
    ensures multiset(s[1..]) == multiset(s) - multiset{s[0]}
  {
    assert s == [s[0]] + s[1..];
  }

  lemma SortedTail<T>(leq: (T, T) -> bool, s: seq<T>)
    requires s != [] && Sorted(leq, s)
    ensures Sorted(leq, s[1..])
  {
  }

  lemma SameHead<T(!new)>(leq: (T, T) -> bool, a: seq<T>, b: seq<T>)
    requires TotalPreorder(leq) && Sorted(leq, a) && Sorted(leq, b)
    requires a != [] && b != [] && multiset(a) == multiset(b) && NoTies(leq, a)
    ensures a[0] == b[0] && NoTies(leq, a[1..])
  {
    SameMembers(a, b);
    LeastFirst(leq, a, b[0]);
    LeastFirst(leq, b, a[0]);
  }

  lemma SameLength<T>(a: seq<T>, b: seq<T>)
    requires multiset(a) == multiset(b)
    ensures |a| == |b|
  {
    assert |a| == |multiset(a)| == |multiset(b)| == |b|;
  }

  lemma Rebuilt<T>(a: seq<T>, b: seq<T>)
    requires a != [] && b != [] && a[0] == b[0] && a[1..] == b[1..]
    ensures a == b
  {
    assert a == [a[0]] + a[1..] && b == [b[0]] + b[1..];
  }

  /** A sorted arrangement of a tie-free collection is unique. */
  lemma {:induction false} SortedUnique<T(!new)>(leq: (T, T) -> bool, a: seq<T>, b: seq<T>)
    requires TotalPreorder(leq)
    requires Sorted(leq, a) && Sorted(leq, b)
    requires multiset(a) == multiset(b)
    requires NoTies(leq, a)
    ensures a == b
    decreases |a|
  {
    hide *;
    SameLength(a, b);
    if a != [] {
      SameHead(leq, a, b);
      SortedTail(leq, a);
      SortedTail(leq, b);
      TailMultiset(a);
      TailMultiset(b);
      SortedUnique(leq, a[1..], b[1..]);
      Rebuilt(a, b);
    }
  }

  /** Sorting forgets the input order exactly when no two elements tie. */
  lemma SortForgetsOrder<T(!new)>(leq: (T, T) -> bool, a: seq<T>, b: seq<T>)
    requires TotalPreorder(leq)
    requires multiset(a) == multiset(b)
    requires NoTies(leq, a)
    ensures Sort(leq, a) == Sort(leq, b)
  {
    SortSorted(leq, a);
    SortSorted(leq, b);
    SortMembers(leq, a);
    SortedUnique(leq, Sort(leq, a), Sort(leq, b));
  }

  /** The elements of s that tie with x, in order. */
  function TiedWith<T>(leq: (T, T) -> bool, x: T, s: seq<T>): seq<T> {
    if s == [] then [] else IfTied(leq, x, s[0]) + TiedWith(leq, x, s[1..])
  }

  function IfTied<T>(leq: (T, T) -> bool, x: T, y: T): seq<T> {
    if leq(x, y) && leq(y, x) then [y] else []
  }

  lemma TiedStep<T>(leq: (T, T) -> bool, x: T, y: T, s: seq<T>)
    ensures TiedWith(leq, x, [y] + s) == IfTied(leq, x, y) + TiedWith(leq, x, s)
  {
    assert ([y] + s)[1..] == s;
  }

  lemma InsertCases<T>(leq: (T, T) -> bool, y: T, s: seq<T>)
    ensures Insert(leq, y, s)
            == if s == [] || leq(y, s[0]) then [y] + s else [s[0]] + Insert(leq, y, s[1..])
  {
  }

  lemma TiedOnce<T(!new)>(leq: (T, T) -> bool, x: T, y: T, z: T)
    requires TotalPreorder(leq) && !leq(y, z)
    ensures IfTied(leq, x, y) == [] || IfTied(leq, x, z) == []
  {
  }

  lemma {:induction false} InsertStable<T(!new)>(leq: (T, T) -> bool, x: T, y: T, s: seq<T>)
    requires TotalPreorder(leq)
    ensures TiedWith(leq, x, Insert(leq, y, s)) == TiedWith(leq, x, [y] + s)
  {
    hide *;
    InsertCases(leq, y, s);
    if s != [] && !leq(y, s[0]) {
      var z, rest := s[0], s[1..];
      InsertStable(leq, x, y, rest);
      TiedOnce(leq, x, y, z);
      TiedStep(leq, x, z, rest);
      TiedStep(leq, x, y, s);
      TiedStep(leq, x, y, rest);
      TiedStep(leq, x, z, Insert(leq, y, rest));
      assert s == [z] + rest;
    }
  }

  /** Together with its order this settles the sort: elements that tie keep the order they came in. */
  lemma {:induction false} SortStable<T(!new)>(leq: (T, T) -> bool, x: T, s: seq<T>)
    requires TotalPreorder(leq)
    ensures TiedWith(leq, x, Sort(leq, s)) == TiedWith(leq, x, s)
  {
    if s != [] {
      SortStable(leq, x, s[1..]);
      InsertStable(leq, x, s[0], Sort(leq, s[1..]));
      var sorted := Sort(leq, s[1..]);
      assert ([s[0]] + sorted)[1..] == sorted;
    }
  }

  /** Elements that tie are kept in input order, so swapping them swaps the result. */
  lemma {:induction false} TiedInsertsDiffer<T(!new)>(leq: (T, T) -> bool, a: T, b: T, s: seq<T>)
    requires TotalPreorder(leq) && a != b && leq(a, b) && leq(b, a)
    ensures Insert(leq, a, Insert(leq, b, s)) != Insert(leq, b, Insert(leq, a, s))
  {
    assert leq(a, a) && leq(b, b);
    if s == [] || leq(b, s[0]) {
      assert s == [] || leq(a, s[0]);
      assert Insert(leq, a, Insert(leq, b, s))[0] == a;
      assert Insert(leq, b, Insert(leq, a, s))[0] == b;
    } else {
      assert !leq(a, s[0]);
      TiedInsertsDiffer(leq, a, b, s[1..]);
      var ab, ba := Insert(leq, a, Insert(leq, b, s[1..])), Insert(leq, b, Insert(leq, a, s[1..]));
      assert Insert(leq, b, s)[1..] == Insert(leq, b, s[1..]) && Insert(leq, a, s)[1..] == Insert(leq, a, s[1..]);
      assert Insert(leq, a, Insert(leq, b, s))[1..] == ab;
      assert Insert(leq, b, Insert(leq, a, s))[1..] == ba;
    }
  }

  lemma SortPair<T>(leq: (T, T) -> bool, a: T, b: T, rest: seq<T>)
    ensures Sort(leq, [a, b] + rest) == Insert(leq, a, Insert(leq, b, Sort(leq, rest)))
  {
    assert ([a, b] + rest)[1..] == [b] + rest && ([b] + rest)[1..] == rest;
  }

  lemma PullOut<T>(s: seq<T>, x: T) returns (rest: seq<T>)
    requires x in s
    ensures multiset(s) == multiset{x} + multiset(rest)
    ensures forall y :: y in s && y != x ==> y in rest
  {
    var i :| 0 <= i < |s| && s[i] == x;
    rest := s[..i] + s[i + 1..];
    assert s == s[..i] + [x] + s[i + 1..];
  }

  lemma BringForward<T>(s: seq<T>, a: T, b: T) returns (rest: seq<T>)
    requires a in s && b in s && a != b
    ensures multiset([a, b] + rest) == multiset(s) && multiset([b, a] + rest) == multiset(s)
  {
    var without := PullOut(s, a);
    rest := PullOut(without, b);
    assert multiset([a, b]) == multiset{a, b} && multiset([b, a]) == multiset{a, b};
  }

  ghost predicate Distinct<T>(s: seq<T>) {
    forall i, j :: 0 <= i < j < |s| ==> s[i] != s[j]
  }

  lemma {:induction false} DistinctMultiplicity<T>(s: seq<T>, x: T)
    requires Distinct(s)
    ensures multiset(s)[x] == if x in s then 1 else 0
  {
    if s != [] {
      assert s == [s[0]] + s[1..];
      DistinctMultiplicity(s[1..], x);
    }
  }

  /** Two repetition-free sequences with the same elements are permutations of each other. */
  lemma DistinctSameMultiset<T>(a: seq<T>, b: seq<T>)
    requires Distinct(a) && Distinct(b)
    requires forall x :: x in a <==> x in b
    ensures multiset(a) == multiset(b)
  {
    forall x ensures multiset(a)[x] == multiset(b)[x] {
      DistinctMultiplicity(a, x);
      DistinctMultiplicity(b, x);
    }
  }

  lemma TwiceInMultiset<T>(s: seq<T>, i: nat, j: nat)
    requires i < j < |s| && s[i] == s[j]
    ensures multiset(s)[s[i]] >= 2
  {
    assert s == s[..i] + [s[i]] + s[i + 1..j] + [s[j]] + s[j + 1..];
  }

  lemma PermutedDistinct<T>(a: seq<T>, b: seq<T>)
    requires Distinct(a) && multiset(a) == multiset(b)
    ensures Distinct(b)
  {
    forall i, j | 0 <= i < j < |b| ensures b[i] != b[j] {
      if b[i] == b[j] {
        TwiceInMultiset(b, i, j);
        DistinctMultiplicity(a, b[i]);
      }
    }
  }

  lemma DistinctConcat<T>(a: seq<T>, b: seq<T>)
    requires Distinct(a) && Distinct(b) && forall x :: x in a ==> x !in b
    ensures Distinct(a + b)
  {
    forall i, j | 0 <= i < j < |a + b| ensures (a + b)[i] != (a + b)[j] {
      if i < |a| <= j {
        assert a[i] in a && b[j - |a|] in b;
      }
    }
  }

  /** The elements of s in order of first occurrence: [...new Set(s)]. */
  function Unique<T(==,!new)>(s: seq<T>): (r: seq<T>)
    ensures Distinct(r)
    ensures forall x :: x in r <==> x in s
  {
    if s == [] then []
    else
      var front, last := s[..|s| - 1], s[|s| - 1];
      assert s == front + [last];
      var r := Unique(front);
      if last in r then r
      else
        DistinctConcat(r, [last]);
        r + [last]
  }

  /** Of two listed elements the first one occurs before any occurrence of the second one. */
  lemma {:induction false} UniqueInOrder<T(!new)>(s: seq<T>, i: nat, j: nat, k: nat)
    requires i < j < |Unique(s)| && k < |s| && s[k] == Unique(s)[j]
    ensures exists l :: 0 <= l < k && s[l] == Unique(s)[i]
  {
    var n := |s| - 1;
    var r := Unique(s[..n]);
    assert k < n ==> s[..n][k] == s[k] && s[k] in s[..n];
    if j < |r| && k < n {
      UniqueInOrder(s[..n], i, j, k);
      var l :| 0 <= l < k && s[..n][l] == r[i];
      assert s[l] == Unique(s)[i];
    } else {
      assert r[i] in s[..n];
      var l :| 0 <= l < n && s[..n][l] == r[i];
      assert s[l] == Unique(s)[i];
    }
  }

  /** In a sorted sequence an element stands before every element it is strictly below. */
  lemma StrictlyBefore<T(!new)>(leq: (T, T) -> bool, s: seq<T>, i: nat, j: nat)
    requires TotalPreorder(leq) && i < |s| && j < |s|
    requires !leq(Sort(leq, s)[j], Sort(leq, s)[i])
    ensures i < j
  {
    hide *;
    SortSorted(leq, s);
    InOrder(leq, Sort(leq, s), i, j);
  }

  lemma InOrder<T(!new)>(leq: (T, T) -> bool, s: seq<T>, i: nat, j: nat)
    requires TotalPreorder(leq) && Sorted(leq, s) && i < |s| && j < |s| && !leq(s[j], s[i])
    ensures i < j
  {
    assert leq(s[i], s[i]);
  }
}
