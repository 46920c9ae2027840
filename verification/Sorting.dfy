/** The library sort (`sort_by_key`) as a function, and why its result is unique for distinct keys. */
module Sorting {

  ghost predicate SortedBy<T>(xs: seq<T>, key: T -> nat) {
    forall i, j :: 0 <= i < j < |xs| ==> key(xs[i]) <= key(xs[j])
  }

  ghost predicate StrictlySortedBy<T>(xs: seq<T>, key: T -> nat) {
    forall i, j :: 0 <= i < j < |xs| ==> key(xs[i]) < key(xs[j])
  }

  ghost predicate DistinctKeys<T>(xs: seq<T>, key: T -> nat) {
    forall i, j :: 0 <= i < j < |xs| ==> key(xs[i]) != key(xs[j])
  }

  /** Places `x` behind every element whose key is not larger. */
  function InsertByKey<T>(xs: seq<T>, x: T, key: T -> nat): seq<T> {
    if xs == [] || key(xs[|xs| - 1]) <= key(x) then xs + [x]
    else InsertByKey(xs[..|xs| - 1], x, key) + [xs[|xs| - 1]]
  }

  function SortByKey<T>(xs: seq<T>, key: T -> nat): seq<T> {
    if xs == [] then [] else InsertByKey(SortByKey(xs[..|xs| - 1], key), xs[|xs| - 1], key)
  }

  lemma {:induction false} InsertByKeyElements<T>(xs: seq<T>, x: T, key: T -> nat)
    ensures multiset(InsertByKey(xs, x, key)) == multiset(xs) + multiset{x}
  {
    if xs != [] && key(xs[|xs| - 1]) > key(x) {
      InsertByKeyElements(xs[..|xs| - 1], x, key);
      assert xs == xs[..|xs| - 1] + [xs[|xs| - 1]];
    }
  }

  lemma {:induction false} InsertByKeySorted<T>(xs: seq<T>, x: T, key: T -> nat)
    requires SortedBy(xs, key)
    ensures SortedBy(InsertByKey(xs, x, key), key)
  {
    if xs != [] && key(xs[|xs| - 1]) > key(x) {
      var init, last := xs[..|xs| - 1], xs[|xs| - 1];
      InsertByKeySorted(init, x, key);
      InsertByKeyElements(init, x, key);
      var r := InsertByKey(init, x, key);
      forall i | 0 <= i < |r| ensures key(r[i]) <= key(last) {
        assert r[i] in multiset(r);
        if r[i] in init {
          var k :| 0 <= k < |init| && init[k] == r[i];
          assert xs[k] == r[i];
        }
      }
    }
  }

  /** A sorted permutation. */
  lemma {:induction false} SortByKeySorts<T>(xs: seq<T>, key: T -> nat)
    ensures multiset(SortByKey(xs, key)) == multiset(xs)
    ensures SortedBy(SortByKey(xs, key), key)
  {
    if xs != [] {
      var init, last := xs[..|xs| - 1], xs[|xs| - 1];
      SortByKeySorts(init, key);
      InsertByKeyElements(SortByKey(init, key), last, key);
      InsertByKeySorted(SortByKey(init, key), last, key);
      assert xs == init + [last];
    }
  }

  /** Two strictly sorted sequences with the same elements are the same sequence. */
  lemma {:induction false} StrictlySortedUnique<T>(a: seq<T>, b: seq<T>, key: T -> nat)
    requires StrictlySortedBy(a, key) && StrictlySortedBy(b, key)
    requires forall x :: x in a <==> x in b
    ensures a == b
    decreases |a|
  {
    if a == [] {
      assert forall i :: 0 <= i < |b| ==> b[i] in b;
    } else {
      assert a[0] in b;
      assert b[0] in a;
      assert a[0] == b[0];
      forall x ensures x in a[1..] <==> x in b[1..] {
        assert x in a[1..] <==> x in a && x != a[0];
        assert x in b[1..] <==> x in b && x != b[0];
      }
      StrictlySortedUnique(a[1..], b[1..], key);
    }
  }

  lemma {:induction false} InsertByKeyStrict<T>(xs: seq<T>, x: T, key: T -> nat)
    requires StrictlySortedBy(xs, key)
    requires forall i :: 0 <= i < |xs| ==> key(xs[i]) != key(x)
    ensures StrictlySortedBy(InsertByKey(xs, x, key), key)
  {
    if xs != [] && key(xs[|xs| - 1]) > key(x) {
      var init, last := xs[..|xs| - 1], xs[|xs| - 1];
      InsertByKeyStrict(init, x, key);
      InsertByKeyElements(init, x, key);
      var r := InsertByKey(init, x, key);
      forall i | 0 <= i < |r| ensures key(r[i]) < key(last) {
        assert r[i] in multiset(r);
        if r[i] in init {
          var k :| 0 <= k < |init| && init[k] == r[i];
          assert xs[k] == r[i];
        }
      }
    }
  }

  /** Distinct keys sort strictly. */
  lemma {:induction false} SortDistinct<T>(xs: seq<T>, key: T -> nat)
    requires DistinctKeys(xs, key)
    ensures StrictlySortedBy(SortByKey(xs, key), key)
  {
    if xs != [] {
      var init, last := xs[..|xs| - 1], xs[|xs| - 1];
      SortDistinct(init, key);
      SortByKeySorts(init, key);
      var r := SortByKey(init, key);
      forall i | 0 <= i < |r| ensures key(r[i]) != key(last) {
        assert r[i] in multiset(init);
        var k :| 0 <= k < |init| && init[k] == r[i];
        assert xs[k] == r[i];
      }
      InsertByKeyStrict(r, last, key);
    }
  }

  /** With distinct keys, sorting any arrangement of the same elements gives the same sequence. */
  lemma SortOfPermutation<T>(xs: seq<T>, sorted: seq<T>, key: T -> nat)
    requires DistinctKeys(xs, key) && StrictlySortedBy(sorted, key)
    requires forall x :: x in xs <==> x in sorted
    ensures SortByKey(xs, key) == sorted
  {
    var r := SortByKey(xs, key);
    SortByKeySorts(xs, key);
    SortDistinct(xs, key);
    forall x ensures x in r <==> x in sorted {
      assert x in r <==> x in multiset(r);
      assert x in xs <==> x in multiset(xs);
    }
    StrictlySortedUnique(r, sorted, key);
  }
}
