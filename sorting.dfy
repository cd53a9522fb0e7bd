/**
 * The semantics of Python's built-in stable sort (`list.sort` and `sorted`)
 * with a key function, together with an order-preserving filter.
 *
 * Every key the model sorts by is a pair of integers compared
 * lexicographically, as Python compares a tuple `(a, b)`.  `SortBy` is an
 * insertion sort used as the reference definition; `SortedStableUnique`
 * shows that any result that is sorted and keeps the input order of equal
 * keys is this one, so the choice of algorithm does not matter.
 */
module Sorting {

  /** A sort key compared lexicographically. */
  datatype Key = Key(primary: int, secondary: int)

  predicate KeyLe(a: Key, b: Key)
  {
    a.primary < b.primary || (a.primary == b.primary && a.secondary <= b.secondary)
  }

  /** Non-decreasing in the key, over all pairs of positions. */
  ghost predicate SortedBy<T>(s: seq<T>, key: T -> Key)
  {
    forall i, j :: 0 <= i < j < |s| ==> KeyLe(key(s[i]), key(s[j]))
  }

  /** The elements of `s` satisfying `p`, in their original order. */
  function Filter<T>(s: seq<T>, p: T -> bool): (r: seq<T>)
    ensures |r| <= |s|
  {
    if |s| == 0 then []
    else (if p(s[0]) then [s[0]] else []) + Filter(s[1..], p)
  }

  /** The elements of `s` whose key is `k`, in their original order. */
  function WithKey<T>(s: seq<T>, key: T -> Key, k: Key): seq<T>
  {
    Filter(s, x => key(x) == k)
  }

  /** Inserts `x` before the first element whose key is not smaller. */
  function Insert<T>(x: T, s: seq<T>, key: T -> Key): (r: seq<T>)
    ensures |r| == |s| + 1
  {
    if |s| == 0 then [x]
    else if KeyLe(key(x), key(s[0])) then [x] + s
    else
      assert s == [s[0]] + s[1..];
      [s[0]] + Insert(x, s[1..], key)
  }

  /** Stable sort of `s` by `key`, ascending. */
  function SortBy<T>(s: seq<T>, key: T -> Key): (r: seq<T>)
    ensures |r| == |s|
  {
    if |s| == 0 then []
    else
      assert s == [s[0]] + s[1..];
      Insert(s[0], SortBy(s[1..], key), key)
  }

  // ---------------------------------------------------------------------------
  // Filter

  lemma {:induction false} FilterAppend<T>(a: seq<T>, b: seq<T>, p: T -> bool)
    ensures Filter(a + b, p) == Filter(a, p) + Filter(b, p)
  {
    if |a| == 0 {
      assert a + b == b;
    } else {
      var h := if p(a[0]) then [a[0]] else [];
      assert (a + b)[0] == a[0];
      assert (a + b)[1..] == a[1..] + b;
      calc {
        Filter(a + b, p);
        h + Filter(a[1..] + b, p);
        { FilterAppend(a[1..], b, p); }
        h + (Filter(a[1..], p) + Filter(b, p));
        (h + Filter(a[1..], p)) + Filter(b, p);
      }
    }
  }

  lemma {:induction false} FilterElements<T>(s: seq<T>, p: T -> bool)
    ensures forall x :: x in Filter(s, p) ==> x in s && p(x)
  {
    if |s| > 0 {
      FilterElements(s[1..], p);
    }
  }

  /** Filtering keeps exactly the multiplicity of each element that satisfies `p`. */
  lemma {:induction false} FilterMultiset<T>(s: seq<T>, p: T -> bool)
    ensures forall x :: multiset(Filter(s, p))[x] == if p(x) then multiset(s)[x] else 0
  {
    if |s| > 0 {
      FilterMultiset(s[1..], p);
      assert s == [s[0]] + s[1..];
    }
  }

  /** Filtering with `p` and with its complement `q` splits `s` exactly. */
  lemma FilterPartition<T>(s: seq<T>, p: T -> bool, q: T -> bool)
    requires forall x :: q(x) == !p(x)
    ensures multiset(Filter(s, p)) + multiset(Filter(s, q)) == multiset(s)
  {
    FilterMultiset(s, p);
    FilterMultiset(s, q);
    var a, b := multiset(Filter(s, p)), multiset(Filter(s, q));
    forall x ensures (a + b)[x] == multiset(s)[x] {
      assert q(x) == !p(x);
    }
    MultisetExt(a + b, multiset(s));
  }

  lemma MultisetExt<T>(a: multiset<T>, b: multiset<T>)
    requires forall x :: a[x] == b[x]
    ensures a == b
  {
  }

  lemma {:induction false} FilterNone<T>(s: seq<T>, p: T -> bool)
    requires forall i :: 0 <= i < |s| ==> !p(s[i])
    ensures Filter(s, p) == []
  {
    if |s| > 0 {
      FilterNone(s[1..], p);
    }
  }

  lemma {:induction false} FilterAll<T>(s: seq<T>, p: T -> bool)
    requires forall i :: 0 <= i < |s| ==> p(s[i])
    ensures Filter(s, p) == s
  {
    if |s| > 0 {
      FilterAll(s[1..], p);
      assert s == [s[0]] + s[1..];
    }
  }

  // ---------------------------------------------------------------------------
  // Sorting

  lemma {:induction false} InsertMultiset<T>(x: T, s: seq<T>, key: T -> Key)
    ensures multiset(Insert(x, s, key)) == multiset(s) + multiset{x}
  {
    if |s| > 0 && !KeyLe(key(x), key(s[0])) {
      InsertMultiset(x, s[1..], key);
      assert s == [s[0]] + s[1..];
    }
  }

  /** Sorting only rearranges: nothing is added, dropped or duplicated. */
  lemma {:induction false} SortByMultiset<T>(s: seq<T>, key: T -> Key)
    ensures multiset(SortBy(s, key)) == multiset(s)
  {
    if |s| > 0 {
      SortByMultiset(s[1..], key);
      InsertMultiset(s[0], SortBy(s[1..], key), key);
      assert s == [s[0]] + s[1..];
    }
  }

  lemma {:induction false} InsertSorted<T>(x: T, s: seq<T>, key: T -> Key)
    requires SortedBy(s, key)
    ensures SortedBy(Insert(x, s, key), key)
  {
    if |s| > 0 && !KeyLe(key(x), key(s[0])) {
      var t := s[1..];
      assert SortedBy(t, key);
      InsertSorted(x, t, key);
      InsertMultiset(x, t, key);
      var r := Insert(x, t, key);
      forall e | e in r
        ensures KeyLe(key(s[0]), key(e))
      {
        assert e in multiset(r);
        if e != x {
          assert e in t;
          var j :| 0 <= j < |t| && t[j] == e;
          assert s[j + 1] == e;
        }
      }
      forall i, j | 0 <= i < j < |[s[0]] + r|
        ensures KeyLe(key(([s[0]] + r)[i]), key(([s[0]] + r)[j]))
      {
        if i == 0 {
          assert ([s[0]] + r)[j] == r[j - 1];
          assert r[j - 1] in r;
        }
      }
    }
  }

  lemma {:induction false} SortBySorted<T>(s: seq<T>, key: T -> Key)
    ensures SortedBy(SortBy(s, key), key)
  {
    if |s| > 0 {
      SortBySorted(s[1..], key);
      InsertSorted(s[0], SortBy(s[1..], key), key);
    }
  }

  lemma {:induction false} InsertWithKey<T>(x: T, s: seq<T>, key: T -> Key, k: Key)
    ensures WithKey(Insert(x, s, key), key, k)
         == (if key(x) == k then [x] else []) + WithKey(s, key, k)
  {
    var r := Insert(x, s, key);
    if |s| == 0 {
      assert r == [x];
      if key(x) == k {
        WithKeyHead(r, key);
      } else {
        WithKeySkip(r, key, k);
      }
    } else if KeyLe(key(x), key(s[0])) {
      assert r[0] == x && r[1..] == s;
      if key(x) == k {
        WithKeyHead(r, key);
      } else {
        WithKeySkip(r, key, k);
      }
    } else {
      var t := s[1..];
      assert r[0] == s[0] && r[1..] == Insert(x, t, key);
      assert key(s[0]) != key(x);
      InsertWithKey(x, t, key, k);
      if key(s[0]) == k {
        WithKeyHead(r, key);
        WithKeyHead(s, key);
      } else {
        WithKeySkip(r, key, k);
        WithKeySkip(s, key, k);
      }
    }
  }

  /** Sorting is stable: the elements of each key keep their input order. */
  lemma {:induction false} SortByStable<T>(s: seq<T>, key: T -> Key, k: Key)
    ensures WithKey(SortBy(s, key), key, k) == WithKey(s, key, k)
  {
    if |s| > 0 {
      SortByStable(s[1..], key, k);
      InsertWithKey(s[0], SortBy(s[1..], key), key, k);
    }
  }

  /** The three properties Python's sort promises: ordered, a permutation, stable. */
  lemma SortByCorrect<T>(s: seq<T>, key: T -> Key)
    ensures SortedBy(SortBy(s, key), key)
    ensures multiset(SortBy(s, key)) == multiset(s)
    ensures forall k :: WithKey(SortBy(s, key), key, k) == WithKey(s, key, k)
  {
    SortBySorted(s, key);
    SortByMultiset(s, key);
    forall k ensures WithKey(SortBy(s, key), key, k) == WithKey(s, key, k) {
      SortByStable(s, key, k);
    }
  }

  lemma WithKeyHead<T>(s: seq<T>, key: T -> Key)
    requires |s| > 0
    ensures WithKey(s, key, key(s[0])) == [s[0]] + WithKey(s[1..], key, key(s[0]))
  {
  }

  lemma WithKeySkip<T>(s: seq<T>, key: T -> Key, k: Key)
    requires |s| > 0 && key(s[0]) != k
    ensures WithKey(s, key, k) == WithKey(s[1..], key, k)
  {
  }

  lemma WithKeyAbsent<T>(s: seq<T>, key: T -> Key, k: Key)
    requires forall i :: 0 <= i < |s| ==> key(s[i]) != k
    ensures WithKey(s, key, k) == []
  {
    FilterNone(s, x => key(x) == k);
  }

  /**
   * Two sequences that are both sorted and have the same elements, in the
   * same order, for every key are equal: a stable sort has one result.
   */
  lemma {:induction false} SortedStableUnique<T>(r: seq<T>, t: seq<T>, key: T -> Key)
    requires SortedBy(r, key) && SortedBy(t, key)
    requires forall k :: WithKey(r, key, k) == WithKey(t, key, k)
    ensures r == t
  {
    if |r| == 0 && |t| == 0 {
    } else if |r| == 0 {
      WithKeyHead(t, key);
      assert false;
    } else if |t| == 0 {
      WithKeyHead(r, key);
      assert false;
    } else {
      var a, b := key(r[0]), key(t[0]);
      WithKeyHead(r, key);
      WithKeyHead(t, key);
      if a != b {
        if KeyLe(a, b) {
          WithKeyAbsent(t, key, a);
          assert false;
        } else {
          WithKeyAbsent(r, key, b);
          assert false;
        }
      }
      assert r[0] == t[0] by {
        assert WithKey(r, key, a)[0] == WithKey(t, key, a)[0];
      }
      forall k ensures WithKey(r[1..], key, k) == WithKey(t[1..], key, k) {
        if k != a {
          WithKeySkip(r, key, k);
          WithKeySkip(t, key, k);
        } else {
          assert WithKey(r, key, a)[1..] == WithKey(t, key, a)[1..];
        }
      }
      assert SortedBy(r[1..], key);
      assert SortedBy(t[1..], key);
      SortedStableUnique(r[1..], t[1..], key);
      assert r == [r[0]] + r[1..] && t == [t[0]] + t[1..];
    }
  }

  /** Any sorted, stable rearrangement of `s` is `SortBy(s, key)`. */
  lemma SortByCharacterized<T>(s: seq<T>, r: seq<T>, key: T -> Key)
    requires SortedBy(r, key)
    requires forall k :: WithKey(r, key, k) == WithKey(s, key, k)
    ensures r == SortBy(s, key)
  {
    SortByCorrect(s, key);
    SortedStableUnique(r, SortBy(s, key), key);
  }

  /** Sorting an already sorted sequence changes nothing. */
  lemma SortBySortedIdentity<T>(s: seq<T>, key: T -> Key)
    requires SortedBy(s, key)
    ensures SortBy(s, key) == s
  {
    SortByCharacterized(s, s, key);
  }

  lemma {:induction false} WithKeyMultiset<T>(s: seq<T>, key: T -> Key, k: Key)
    ensures forall x :: multiset(WithKey(s, key, k))[x] == if key(x) == k then multiset(s)[x] else 0
  {
    if |s| > 0 {
      WithKeyMultiset(s[1..], key, k);
      assert s == [s[0]] + s[1..];
      if key(s[0]) == k {
        WithKeyHead(s, key);
      } else {
        WithKeySkip(s, key, k);
      }
    }
  }

  /** No two positions of `s` share a key. */
  ghost predicate DistinctKeys<T>(s: seq<T>, key: T -> Key)
  {
    forall i, j :: 0 <= i < j < |s| ==> key(s[i]) != key(s[j])
  }

  lemma {:induction false} DistinctKeysWithKey<T>(s: seq<T>, key: T -> Key, k: Key)
    requires DistinctKeys(s, key)
    ensures |WithKey(s, key, k)| <= 1
  {
    if |s| > 0 {
      if key(s[0]) == k {
        WithKeyHead(s, key);
        WithKeyAbsent(s[1..], key, k);
      } else {
        WithKeySkip(s, key, k);
        assert DistinctKeys(s[1..], key);
        DistinctKeysWithKey(s[1..], key, k);
      }
    }
  }

  lemma WithKeyOfPermutation<T>(s: seq<T>, p: seq<T>, key: T -> Key, k: Key)
    requires DistinctKeys(s, key)
    requires multiset(p) == multiset(s)
    ensures WithKey(p, key, k) == WithKey(s, key, k)
  {
    var a, b := WithKey(s, key, k), WithKey(p, key, k);
    assert multiset(a) == multiset(b) by {
      WithKeyMultiset(s, key, k);
      WithKeyMultiset(p, key, k);
      forall x ensures multiset(a)[x] == multiset(b)[x] {
      }
      MultisetExt(multiset(a), multiset(b));
    }
    DistinctKeysWithKey(s, key, k);
    assert |a| == |b| by {
      assert |a| == |multiset(a)| && |b| == |multiset(b)|;
    }
    if |a| == 1 {
      SingletonMultiset(a, b);
    }
  }

  lemma SingletonMultiset<T>(a: seq<T>, b: seq<T>)
    requires |a| == 1 && multiset(a) == multiset(b)
    ensures a == b
  {
    assert |b| == |multiset(b)| == 1;
    assert multiset(a) == multiset{a[0]};
    assert b[0] in multiset(a);
  }

  /** With distinct keys, sorting any rearrangement of a sorted sequence gives it back. */
  lemma SortByPermutationOfSorted<T>(s: seq<T>, p: seq<T>, key: T -> Key)
    requires SortedBy(s, key) && DistinctKeys(s, key)
    requires multiset(p) == multiset(s)
    ensures SortBy(p, key) == s
  {
    forall k ensures WithKey(p, key, k) == WithKey(s, key, k) {
      WithKeyOfPermutation(s, p, key, k);
    }
    SortByCharacterized(p, s, key);
  }
}
