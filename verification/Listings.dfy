/** Maps that are filled item by item and then listed in the order of a comparison of their keys. */
module Listings {
  import opened Wrappers
  import opened Sorting

  /** The keys of the items that have one, in order. */
  function KeysOf<T, K>(keyOf: T -> Option<K>, items: seq<T>): seq<K> {
    if items == [] then []
    else
      var key := keyOf(items[|items| - 1]);
      KeysOf(keyOf, items[..|items| - 1]) + if key.Some? then [key.value] else []
  }

  /** A Map keeps its keys in the order of their first setting; sort() is stable. */
  function Listed<T, K(==,!new)>(leq: (K, K) -> bool, keyOf: T -> Option<K>, items: seq<T>): seq<K> {
    Sort(leq, Unique(KeysOf(keyOf, items)))
  }

  lemma KeysStep<T, K>(keyOf: T -> Option<K>, front: seq<T>, item: T)
    ensures KeysOf(keyOf, front + [item])
            == KeysOf(keyOf, front) + if keyOf(item).Some? then [keyOf(item).value] else []
  {
    assert (front + [item])[..|front|] == front;
  }

  lemma UniqueStep<K(!new)>(keys: seq<K>, key: K)
    ensures Unique(keys + [key]) == Unique(keys) + if key in Unique(keys) then [] else [key]
  {
    assert (keys + [key])[..|keys|] == keys;
  }

  /** One more item adds its key unless it is there. */
  lemma FirstSeenStep<T, K(!new)>(keyOf: T -> Option<K>, front: seq<T>, item: T)
    ensures var seen, key := Unique(KeysOf(keyOf, front)), keyOf(item);
            Unique(KeysOf(keyOf, front + [item]))
            == seen + if key.Some? && key.value !in seen then [key.value] else []
  {
    KeysStep(keyOf, front, item);
    if keyOf(item).Some? {
      UniqueStep(KeysOf(keyOf, front), keyOf(item).value);
    } else {
      assert KeysOf(keyOf, front) + [] == KeysOf(keyOf, front);
    }
  }

  lemma {:induction false} KeysAre<T(!new), K(!new)>(keyOf: T -> Option<K>, items: seq<T>)
    ensures forall k :: k in KeysOf(keyOf, items) <==> exists item :: item in items && keyOf(item) == Some(k)
  {
    if items != [] {
      KeysAre(keyOf, items[..|items| - 1]);
      assert items == items[..|items| - 1] + [items[|items| - 1]];
    }
  }

  /** Every key is listed once. */
  lemma ListedKeys<T(!new), K(!new)>(leq: (K, K) -> bool, keyOf: T -> Option<K>, items: seq<T>)
    ensures Distinct(Listed(leq, keyOf, items))
    ensures forall k :: k in Listed(leq, keyOf, items) <==> exists item :: item in items && keyOf(item) == Some(k)
  {
    hide Sort, KeysOf;
    KeysAre(keyOf, items);
    var keys := Unique(KeysOf(keyOf, items));
    SortMembers(leq, keys);
    PermutedDistinct(keys, Sort(leq, keys));
  }

  /** The listing is the same for every order of the items. */
  ghost predicate IgnoresOrder<T(!new), K(!new)>(leq: (K, K) -> bool, keyOf: T -> Option<K>, items: seq<T>) {
    forall other :: multiset(other) == multiset(items) ==> Listed(leq, keyOf, other) == Listed(leq, keyOf, items)
  }

  lemma {:induction false} UniqueAfterTwo<K(!new)>(a: K, b: K, keys: seq<K>) returns (rest: seq<K>)
    requires a != b
    ensures Unique([a, b] + keys) == [a, b] + rest && Unique([b, a] + keys) == [b, a] + rest
  {
    hide Unique;
    if keys == [] {
      rest := [];
      UniquePair(a, b);
      UniquePair(b, a);
      assert [a, b] + keys == [a, b] && [b, a] + keys == [b, a];
    } else {
      var front, last := keys[..|keys| - 1], keys[|keys| - 1];
      var before := UniqueAfterTwo(a, b, front);
      UniqueStep([a, b] + front, last);
      UniqueStep([b, a] + front, last);
      Regrouped([a, b], keys);
      Regrouped([b, a], keys);
      rest := before + if last in [a, b] + before then [] else [last];
    }
  }

  lemma Regrouped<K>(s: seq<K>, keys: seq<K>)
    requires keys != []
    ensures s + keys == (s + keys[..|keys| - 1]) + [keys[|keys| - 1]]
  {
  }

  lemma UniquePair<K(!new)>(a: K, b: K)
    requires a != b
    ensures Unique([a, b]) == [a, b]
  {
    assert Unique<K>([]) == [];
    hide Unique;
    UniqueStep([], a);
    UniqueStep([a], b);
    assert [] + [a] == [a] && [a] + [b] == [a, b];
  }

  lemma {:induction false} KeysConcat<T, K>(keyOf: T -> Option<K>, s: seq<T>, t: seq<T>)
    ensures KeysOf(keyOf, s + t) == KeysOf(keyOf, s) + KeysOf(keyOf, t)
  {
    assert KeysOf(keyOf, []) == [];
    hide KeysOf;
    if t == [] {
      assert s + t == s;
    } else {
      var front, last := t[..|t| - 1], t[|t| - 1];
      KeysConcat(keyOf, s, front);
      KeysStep(keyOf, s + front, last);
      KeysStep(keyOf, front, last);
      Regrouped(s, t);
      Regrouped([], t);
      assert [] + t == t && [] + front == front;
    }
  }

  lemma KeysOfTwo<T, K>(keyOf: T -> Option<K>, x: T, y: T)
    requires keyOf(x).Some? && keyOf(y).Some?
    ensures KeysOf(keyOf, [x, y]) == [keyOf(x).value, keyOf(y).value]
  {
    KeysStep(keyOf, [x], y);
    KeysStep(keyOf, [], x);
    assert [] + [x] == [x] && [x] + [y] == [x, y];
  }

  /** Swapping two items whose keys tie swaps them in the listing. */
  lemma TieIsListedInOrder<T(!new), K(!new)>(leq: (K, K) -> bool, keyOf: T -> Option<K>, x: T, y: T, rest: seq<T>)
    requires TotalPreorder(leq) && keyOf(x).Some? && keyOf(y).Some? && keyOf(x) != keyOf(y)
    requires leq(keyOf(x).value, keyOf(y).value) && leq(keyOf(y).value, keyOf(x).value)
    ensures Listed(leq, keyOf, [x, y] + rest) != Listed(leq, keyOf, [y, x] + rest)
  {
    var a, b := keyOf(x).value, keyOf(y).value;
    KeysConcat(keyOf, [x, y], rest);
    KeysConcat(keyOf, [y, x], rest);
    KeysOfTwo(keyOf, x, y);
    KeysOfTwo(keyOf, y, x);
    hide KeysOf, Sort, Insert, Unique;
    var others := UniqueAfterTwo(a, b, KeysOf(keyOf, rest));
    SortPair(leq, a, b, others);
    SortPair(leq, b, a, others);
    TiedInsertsDiffer(leq, a, b, Sort(leq, others));
  }

  /** The order of the items shows in the listing exactly when two of their keys tie. */
  lemma ListedForgetsOrderIff<T(!new), K(!new)>(leq: (K, K) -> bool, keyOf: T -> Option<K>, items: seq<T>)
    requires TotalPreorder(leq)
    ensures IgnoresOrder(leq, keyOf, items) <==> NoTies(leq, Listed(leq, keyOf, items))
  {
    hide KeysOf, Listed;
    KeysAre(keyOf, items);
    ListedKeys(leq, keyOf, items);
    assert NoTies(leq, Listed(leq, keyOf, items)) <==> NoTies(leq, KeysOf(keyOf, items));
    if NoTies(leq, KeysOf(keyOf, items)) {
      forall other | multiset(other) == multiset(items)
        ensures Listed(leq, keyOf, other) == Listed(leq, keyOf, items)
      {
        SameListed(leq, keyOf, items, other);
      }
    } else {
      var a, b :| a in KeysOf(keyOf, items) && b in KeysOf(keyOf, items) && leq(a, b) && leq(b, a) && a != b;
      var x :| x in items && keyOf(x) == Some(a);
      var y :| y in items && keyOf(y) == Some(b);
      var rest := BringForward(items, x, y);
      TieIsListedInOrder(leq, keyOf, x, y, rest);
    }
  }

  lemma SameListed<T(!new), K(!new)>(leq: (K, K) -> bool, keyOf: T -> Option<K>, items: seq<T>, other: seq<T>)
    requires TotalPreorder(leq) && NoTies(leq, KeysOf(keyOf, items)) && multiset(other) == multiset(items)
    ensures Listed(leq, keyOf, other) == Listed(leq, keyOf, items)
  {
    hide KeysOf, Sort;
    SameMembers(other, items);
    KeysAre(keyOf, items);
    KeysAre(keyOf, other);
    var a, b := Unique(KeysOf(keyOf, items)), Unique(KeysOf(keyOf, other));
    DistinctSameMultiset(a, b);
    SortForgetsOrder(leq, a, b);
  }
}
