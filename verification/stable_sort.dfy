/** A stable ascending sort by a real-valued key, standing in for
    `Array.prototype.sort` with the comparator `(a, b) => key(a) - key(b)`
    (the ECMAScript sort is stable). */
module StableSort {

  /** `s` is in ascending key order. */
  ghost predicate SortedBy<T>(s: seq<T>, key: T -> real)
  {
    forall i, j :: 0 <= i < j < |s| ==> key(s[i]) <= key(s[j])
  }

  /** The elements of `s` whose key is `k`, in their order in `s`. */
  function WithKey<T>(s: seq<T>, key: T -> real, k: real): (r: seq<T>)
    ensures |r| <= |s|
    decreases |s|
  {
    if s == [] then []
    else WithKey(s[..|s| - 1], key, k) + (if key(s[|s| - 1]) == k then [s[|s| - 1]] else [])
  }

  /** Places `x` just after the last element of `s` whose key is at most
      `key(x)`, scanning from the back. */
  function Insert<T>(x: T, s: seq<T>, key: T -> real): (r: seq<T>)
    ensures |r| == |s| + 1
    ensures multiset(r) == multiset(s) + multiset{x}
    decreases |s|
  {
    if s == [] || key(s[|s| - 1]) <= key(x) then s + [x]
    else
      assert s == s[..|s| - 1] + [s[|s| - 1]];
      Insert(x, s[..|s| - 1], key) + [s[|s| - 1]]
  }

  /** Inserting into a sorted sequence keeps it sorted. */
  lemma {:induction false} InsertKeepsSorted<T>(x: T, s: seq<T>, key: T -> real)
    requires SortedBy(s, key)
    ensures SortedBy(Insert(x, s, key), key)
    decreases |s|
  {
    if s != [] && key(x) < key(s[|s| - 1]) {
      var init := s[..|s| - 1];
      var last := s[|s| - 1];
      var moved := Insert(x, init, key);
      InsertKeepsSorted(x, init, key);
      assert forall i :: 0 <= i < |moved| ==> key(moved[i]) <= key(last) by {
        forall i | 0 <= i < |moved|
          ensures key(moved[i]) <= key(last)
        {
          assert moved[i] in multiset(init) + multiset{x};
          if moved[i] != x {
            var m :| 0 <= m < |init| && init[m] == moved[i];
            assert s[m] == init[m];
          }
        }
      }
    }
  }

  /** Appending one element adds it to the elements of its own key only. */
  lemma WithKeySnoc<T>(a: seq<T>, y: T, key: T -> real, k: real)
    ensures WithKey(a + [y], key, k) == WithKey(a, key, k) + (if key(y) == k then [y] else [])
  {
    assert (a + [y])[..|a|] == a;
  }

  /** Inserting `x` appends it to the elements of its own key and leaves
      every other key's elements where they were. */
  lemma {:induction false} InsertKeepsKeyOrder<T>(x: T, s: seq<T>, key: T -> real, k: real)
    ensures WithKey(Insert(x, s, key), key, k) == WithKey(s, key, k) + (if key(x) == k then [x] else [])
    decreases |s|
  {
    if s == [] || key(s[|s| - 1]) <= key(x) {
      assert Insert(x, s, key) == s + [x];
      WithKeySnoc(s, x, key, k);
    } else {
      var init := s[..|s| - 1];
      var last := s[|s| - 1];
      InsertPassesLarger(x, s, key);
      InsertKeepsKeyOrder(x, init, key, k);
      WithKeySnoc(Insert(x, init, key), last, key, k);
    }
  }

  /** When `x` has a smaller key than the last element, insertion happens
      before that element. */
  lemma InsertPassesLarger<T>(x: T, s: seq<T>, key: T -> real)
    requires s != [] && key(x) < key(s[|s| - 1])
    ensures Insert(x, s, key) == Insert(x, s[..|s| - 1], key) + [s[|s| - 1]]
  {
  }

  /** Insertion sort, taking elements from the back. */
  function SortBy<T>(s: seq<T>, key: T -> real): (r: seq<T>)
    ensures |r| == |s|
    ensures SortedBy(r, key)
    ensures multiset(r) == multiset(s)
    decreases |s|
  {
    if s == [] then []
    else
      assert s == s[..|s| - 1] + [s[|s| - 1]];
      InsertKeepsSorted(s[|s| - 1], SortBy(s[..|s| - 1], key), key);
      Insert(s[|s| - 1], SortBy(s[..|s| - 1], key), key)
  }

  /** The sort is stable: for every key, the elements carrying that key come
      out in the order they went in. */
  lemma {:induction false} SortByIsStable<T>(s: seq<T>, key: T -> real, k: real)
    ensures WithKey(SortBy(s, key), key, k) == WithKey(s, key, k)
    decreases |s|
  {
    if s != [] {
      var init := s[..|s| - 1];
      var last := s[|s| - 1];
      SortByIsStable(init, key, k);
      InsertKeepsKeyOrder(last, SortBy(init, key), key, k);
    }
  }
}
