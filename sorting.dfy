/** sort.Slice as the generator uses it: the result is ordered by the given
    less function applied to a key of each element (the element itself, or
    the name of a message) and is a permutation of the input. sort.Slice itself is
    not stable; the insertion sort below is one of the orders it may
    produce, and the callers promise no more than sortedness and
    permutation. */
module Sorting {

  /** less is irreflexive and transitive. */
  ghost predicate StrictOrder<K(!new)>(less: (K, K) -> bool)
  {
    && (forall a :: !less(a, a))
    && (forall a, b, c :: less(a, b) && less(b, c) ==> less(a, c))
  }

  /** No element's key is less than the key of an element before it. */
  predicate SortedBy<T, K>(s: seq<T>, key: T -> K, less: (K, K) -> bool)
  {
    forall i, j :: 0 <= i < j < |s| ==> !less(key(s[j]), key(s[i]))
  }

  /** x inserted into the sorted s before the first element it is less than. */
  function Insert<T, K(!new)>(x: T, s: seq<T>, key: T -> K, less: (K, K) -> bool): (r: seq<T>)
    requires StrictOrder(less) && SortedBy(s, key, less)
    ensures SortedBy(r, key, less)
    ensures multiset(r) == multiset(s) + multiset{x}
  {
    if s == [] then [x]
    else if less(key(x), key(s[0])) then
      InsertFront(x, s, key, less);
      [x] + s
    else
      var rest := Insert(x, s[1..], key, less);
      assert s == [s[0]] + s[1..];
      InsertBehind(x, s, rest, key, less);
      [s[0]] + rest
  }

  lemma InsertFront<T, K(!new)>(x: T, s: seq<T>, key: T -> K, less: (K, K) -> bool)
    requires StrictOrder(less) && SortedBy(s, key, less)
    requires s != [] && less(key(x), key(s[0]))
    ensures SortedBy([x] + s, key, less)
  {
    var r := [x] + s;
    forall i, j | 0 <= i < j < |r|
      ensures !less(key(r[j]), key(r[i]))
    {
      if i == 0 {
        assert r[j] == s[j - 1];
      }
    }
  }

  lemma InsertBehind<T, K>(x: T, s: seq<T>, rest: seq<T>, key: T -> K, less: (K, K) -> bool)
    requires SortedBy(s, key, less) && s != [] && !less(key(x), key(s[0]))
    requires SortedBy(rest, key, less) && multiset(rest) == multiset(s[1..]) + multiset{x}
    ensures SortedBy([s[0]] + rest, key, less)
  {
    var r := [s[0]] + rest;
    forall i, j | 0 <= i < j < |r|
      ensures !less(key(r[j]), key(r[i]))
    {
      if i == 0 {
        assert r[j] == rest[j - 1];
        assert rest[j - 1] in multiset(rest);
        if rest[j - 1] != x {
          assert rest[j - 1] in multiset(s[1..]);
          var k :| 0 <= k < |s[1..]| && s[1..][k] == rest[j - 1];
          assert s[k + 1] == rest[j - 1];
        }
      }
    }
  }

  function Sort<T, K(!new)>(s: seq<T>, key: T -> K, less: (K, K) -> bool): (r: seq<T>)
    requires StrictOrder(less)
    ensures SortedBy(r, key, less)
    ensures multiset(r) == multiset(s)
  {
    if s == [] then []
    else
      assert s == [s[0]] + s[1..];
      Insert(s[0], Sort(s[1..], key, less), key, less)
  }

  /** Removing one element of a sorted sequence leaves it sorted. */
  lemma SortedRemove<T, K>(s: seq<T>, j: nat, key: T -> K, less: (K, K) -> bool)
    requires SortedBy(s, key, less) && j < |s|
    ensures SortedBy(s[..j] + s[j + 1..], key, less)
  {
    var t := s[..j] + s[j + 1..];
    forall a, b | 0 <= a < b < |t|
      ensures !less(key(t[b]), key(t[a]))
    {
      var a' := if a < j then a else a + 1;
      var b' := if b < j then b else b + 1;
      assert t[a] == s[a'] && t[b] == s[b'];
    }
  }
}
