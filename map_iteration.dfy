/**
 * Go's `for k, v := range m`: every key is visited exactly once, in an order
 * the language leaves unspecified. A loop over a map is modelled by picking
 * any key not yet visited; the order it produced is a ghost sequence that
 * enumerates the keys.
 */
module MapIteration {

  /** `order` lists each key of `keys` exactly once. */
  ghost predicate Enumerates<K(!new)>(order: seq<K>, keys: set<K>) {
    && (forall i, j :: 0 <= i < j < |order| ==> order[i] != order[j])
    && (forall k :: k in keys <==> k in order)
  }

  /** Visiting one more key extends the enumeration. */
  lemma EnumeratesStep<K(!new)>(order: seq<K>, done: set<K>, k: K)
    requires Enumerates(order, done) && k !in done
    ensures Enumerates(order + [k], done + {k})
  {
  }

  /** An enumeration is as long as the key set is large. */
  lemma {:induction false} EnumerationLength<K(!new)>(order: seq<K>, keys: set<K>)
    requires Enumerates(order, keys)
    ensures |order| == |keys|
  {
    if order != [] {
      var init := order[..|order| - 1];
      var last := order[|order| - 1];
      assert Enumerates(init, keys - {last}) by {
        forall k ensures k in keys - {last} <==> k in init {
          if k in order && k != last {
            var i :| 0 <= i < |order| && order[i] == k;
            assert i < |order| - 1;
            assert init[i] == k;
          }
        }
      }
      EnumerationLength(init, keys - {last});
    } else {
      assert keys == {};
    }
  }

  /** The values of `m` at the keys of `order`, in that order. */
  function ValuesAt<K, V>(m: map<K, V>, order: seq<K>): (vs: seq<V>)
    requires forall i :: 0 <= i < |order| ==> order[i] in m
    ensures |vs| == |order|
    ensures forall i :: 0 <= i < |order| ==> vs[i] == m[order[i]]
  {
    if order == [] then [] else ValuesAt(m, order[..|order| - 1]) + [m[order[|order| - 1]]]
  }

  predicate Distinct<T(==)>(s: seq<T>) {
    forall i, j :: 0 <= i < j < |s| ==> s[i] != s[j]
  }

  /** A sequence without repetitions holds each of its elements once. */
  lemma {:induction false} DistinctMultiset<T>(s: seq<T>)
    requires Distinct(s)
    ensures multiset(s) == multiset(set x | x in s)
  {
    if s != [] {
      var init := s[..|s| - 1];
      var last := s[|s| - 1];
      assert s == init + [last];
      DistinctMultiset(init);
      assert last !in init;
      assert (set x | x in s) == (set x | x in init) + {last};
      assert multiset((set x | x in init) + {last}) == multiset(set x | x in init) + multiset{last};
    }
  }

  /** Two sequences without repetitions that hold the same elements are permutations of each other. */
  lemma SameElementsMultiset<T>(a: seq<T>, b: seq<T>)
    requires Distinct(a) && Distinct(b)
    requires forall x :: x in a <==> x in b
    ensures multiset(a) == multiset(b)
  {
    DistinctMultiset(a);
    DistinctMultiset(b);
    assert (set x | x in a) == (set x | x in b);
  }
}
