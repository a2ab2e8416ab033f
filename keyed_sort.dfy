/** A stable sort by an integer key, largest key first: the order Go's
    sort.SliceStable produces with a comparator key(a) > key(b). */
module KeyedSort {

  /** Keys never increase along s. */
  predicate SortedDesc<T>(s: seq<T>, key: T -> int)
  {
    forall i, j :: 0 <= i < j < |s| ==> key(s[i]) >= key(s[j])
  }

  /** The elements of s with key k, in their order in s. */
  function WithKey<T>(s: seq<T>, key: T -> int, k: int): seq<T>
  {
    if s == [] then []
    else WithKey(s[..|s| - 1], key, k) + (if key(s[|s| - 1]) == k then [s[|s| - 1]] else [])
  }

  lemma {:induction false} WithKeyAppend<T>(a: seq<T>, b: seq<T>, key: T -> int, k: int)
    ensures WithKey(a + b, key, k) == WithKey(a, key, k) + WithKey(b, key, k)
    decreases |b|
  {
    if b == [] {
      assert a + b == a;
    } else {
      assert (a + b)[..|a + b| - 1] == a + b[..|b| - 1];
      WithKeyAppend(a, b[..|b| - 1], key, k);
    }
  }

  /** x placed after every element of t whose key is at least key(x). */
  function Insert<T>(t: seq<T>, x: T, key: T -> int): seq<T>
  {
    if t == [] then [x]
    else if key(t[|t| - 1]) >= key(x) then t + [x]
    else Insert(t[..|t| - 1], x, key) + [t[|t| - 1]]
  }

  /** Insertion sort, each element inserted after the ones before it that
      carry a key at least as large. */
  function StableSortDesc<T>(s: seq<T>, key: T -> int): seq<T>
  {
    if s == [] then [] else Insert(StableSortDesc(s[..|s| - 1], key), s[|s| - 1], key)
  }

  lemma {:induction false} InsertMultiset<T>(t: seq<T>, x: T, key: T -> int)
    ensures multiset(Insert(t, x, key)) == multiset(t) + multiset{x}
  {
    if t != [] && key(t[|t| - 1]) < key(x) {
      InsertMultiset(t[..|t| - 1], x, key);
      assert t == t[..|t| - 1] + [t[|t| - 1]];
    }
  }

  lemma {:induction false} InsertSorted<T>(t: seq<T>, x: T, key: T -> int)
    requires SortedDesc(t, key)
    ensures SortedDesc(Insert(t, x, key), key)
  {
    if t != [] && key(t[|t| - 1]) < key(x) {
      var init, last := t[..|t| - 1], t[|t| - 1];
      InsertSorted(init, x, key);
      InsertMultiset(init, x, key);
      var r := Insert(init, x, key);
      forall i | 0 <= i < |r|
        ensures key(r[i]) >= key(last)
      {
        assert r[i] in multiset(r);
        if r[i] != x {
          assert r[i] in multiset(init);
          var j :| 0 <= j < |init| && init[j] == r[i];
          assert t[j] == init[j];
        }
      }
    }
  }

  lemma {:induction false} InsertWithKey<T>(t: seq<T>, x: T, key: T -> int, k: int)
    requires SortedDesc(t, key)
    ensures WithKey(Insert(t, x, key), key, k) == WithKey(t, key, k) + (if key(x) == k then [x] else [])
  {
    if t == [] {
      assert Insert(t, x, key)[..0] == [];
    } else if key(t[|t| - 1]) >= key(x) {
      assert (t + [x])[..|t|] == t;
    } else {
      var init, last := t[..|t| - 1], t[|t| - 1];
      InsertWithKey(init, x, key, k);
      WithKeyAppend(Insert(init, x, key), [last], key, k);
      assert [last][..0] == [];
    }
  }

  /** The stable sort orders by key, keeps every element, and keeps the
      order of the elements sharing a key. */
  lemma {:induction false} StableSortDescCorrect<T>(s: seq<T>, key: T -> int)
    ensures SortedDesc(StableSortDesc(s, key), key)
    ensures multiset(StableSortDesc(s, key)) == multiset(s)
    ensures forall k :: WithKey(StableSortDesc(s, key), key, k) == WithKey(s, key, k)
  {
    if s != [] {
      var init, last := s[..|s| - 1], s[|s| - 1];
      assert s == init + [last];
      StableSortDescCorrect(init, key);
      var t := StableSortDesc(init, key);
      InsertSorted(t, last, key);
      InsertMultiset(t, last, key);
      assert StableSortDesc(s, key) == Insert(t, last, key);
      forall k
        ensures WithKey(StableSortDesc(s, key), key, k) == WithKey(s, key, k)
      {
        InsertWithKey(t, last, key, k);
        assert WithKey(s, key, k) == WithKey(init, key, k) + (if key(last) == k then [last] else []);
      }
    }
  }

  /** The last element of a sequence sorted by descending key has its
      smallest key. */
  lemma LastHasLeastKey<T>(s: seq<T>, key: T -> int, k: int)
    requires SortedDesc(s, key) && s != [] && WithKey(s, key, k) != []
    ensures key(s[|s| - 1]) <= k
  {
    var i := WithKeyIndex(s, key, k);
  }

  /** An element with key k, when WithKey finds one. */
  lemma {:induction false} WithKeyIndex<T>(s: seq<T>, key: T -> int, k: int) returns (i: nat)
    requires WithKey(s, key, k) != []
    ensures i < |s| && key(s[i]) == k
  {
    if key(s[|s| - 1]) == k {
      i := |s| - 1;
    } else {
      i := WithKeyIndex(s[..|s| - 1], key, k);
    }
  }

  lemma WithKeyOfLast<T>(s: seq<T>, key: T -> int)
    ensures s != [] ==> WithKey(s, key, key(s[|s| - 1])) != []
  {
  }

  /** Sequences with the same per-key subsequences are both empty or both
      not. */
  lemma SameEmptiness<T>(a: seq<T>, b: seq<T>, key: T -> int)
    requires forall k :: WithKey(a, key, k) == WithKey(b, key, k)
    ensures a == [] <==> b == []
  {
    WithKeyOfLast(a, key);
    WithKeyOfLast(b, key);
    if a != [] {
      assert WithKey(b, key, key(a[|a| - 1])) != [];
    }
    if b != [] {
      assert WithKey(a, key, key(b[|b| - 1])) != [];
    }
  }

  /** Sorted sequences with the same per-key subsequences end in the same
      element. */
  lemma SameLast<T>(a: seq<T>, b: seq<T>, key: T -> int)
    requires SortedDesc(a, key) && SortedDesc(b, key) && a != [] && b != []
    requires forall k :: WithKey(a, key, k) == WithKey(b, key, k)
    ensures a[|a| - 1] == b[|b| - 1]
  {
    var ka, kb := key(a[|a| - 1]), key(b[|b| - 1]);
    WithKeyOfLast(a, key);
    WithKeyOfLast(b, key);
    LastHasLeastKey(b, key, ka);
    LastHasLeastKey(a, key, kb);
    var w := WithKey(a, key, ka);
    assert a[|a| - 1] == w[|w| - 1];
    assert b[|b| - 1] == w[|w| - 1];
  }

  /** Dropping the same last element from both keeps the per-key
      subsequences equal. */
  lemma DropLast<T>(a: seq<T>, b: seq<T>, a': seq<T>, b': seq<T>, key: T -> int)
    requires a != [] && b != [] && a[|a| - 1] == b[|b| - 1]
    requires a' == a[..|a| - 1] && b' == b[..|b| - 1]
    requires forall k :: WithKey(a, key, k) == WithKey(b, key, k)
    ensures forall k :: WithKey(a', key, k) == WithKey(b', key, k)
  {
    forall k
      ensures WithKey(a', key, k) == WithKey(b', key, k)
    {
      var wa, wb := WithKey(a', key, k), WithKey(b', key, k);
      var tail := if key(a[|a| - 1]) == k then [a[|a| - 1]] else [];
      assert WithKey(a, key, k) == wa + tail;
      assert WithKey(b, key, k) == wb + tail;
      assert wa == (wa + tail)[..|wa|];
      assert wb == (wb + tail)[..|wb|];
    }
  }

  /** A sorted sequence is determined by its per-key subsequences: the
      output of a stable sort does not depend on how it is computed. */
  lemma {:induction false} SortedDescUnique<T>(a: seq<T>, b: seq<T>, key: T -> int)
    requires SortedDesc(a, key) && SortedDesc(b, key)
    requires forall k :: WithKey(a, key, k) == WithKey(b, key, k)
    ensures a == b
    decreases |a|
  {
    SameEmptiness(a, b, key);
    if a != [] {
      SameLast(a, b, key);
      var a', b' := a[..|a| - 1], b[..|b| - 1];
      DropLast(a, b, a', b', key);
      SortedDescUnique(a', b', key);
      assert a == a' + [a[|a| - 1]];
      assert b == b' + [b[|b| - 1]];
    }
  }
}
