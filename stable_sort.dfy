/** The stable sort that `Array.prototype.sort` performs (section 22.1.3.27 of
    ECMAScript 2019 requires stability): every comparator in the scripts orders
    by one key, largest first, so the sort here is "descending by key, ties in
    input order". The key order is any strict total order `lt`; an ascending sort
    is a descending sort under the reversed order. */
module StableSort {

  ghost predicate StrictTotal<K(!new)>(lt: (K, K) -> bool) {
    && (forall a :: !lt(a, a))
    && (forall a, b, c :: lt(a, b) && lt(b, c) ==> lt(a, c))
    && (forall a, b :: a != b ==> lt(a, b) || lt(b, a))
  }

  /** No element is followed by one with a larger key. */
  ghost predicate SortedDesc<T, K>(s: seq<T>, key: T -> K, lt: (K, K) -> bool) {
    forall i, j :: 0 <= i < j < |s| ==> !lt(key(s[i]), key(s[j]))
  }

  /** The elements of s whose key is k, in their order in s. */
  function WithKey<T, K(==)>(s: seq<T>, key: T -> K, k: K): seq<T> {
    if s == [] then []
    else (if key(s[0]) == k then [s[0]] else []) + WithKey(s[1..], key, k)
  }

  /** Places x in front of the first element whose key is not larger than its own. */
  function Insert<T, K>(x: T, t: seq<T>, key: T -> K, lt: (K, K) -> bool): seq<T> {
    if t == [] || !lt(key(x), key(t[0])) then [x] + t
    else [t[0]] + Insert(x, t[1..], key, lt)
  }

  /** Insertion sort: the head goes in front of the later elements with an equal
      key, which is what makes the sort stable. */
  function Sort<T, K>(s: seq<T>, key: T -> K, lt: (K, K) -> bool): seq<T> {
    if s == [] then [] else Insert(s[0], Sort(s[1..], key, lt), key, lt)
  }

  lemma {:induction false} InsertPermutes<T, K>(x: T, t: seq<T>, key: T -> K, lt: (K, K) -> bool)
    ensures multiset(Insert(x, t, key, lt)) == multiset(t) + multiset{x}
  {
    if t != [] && lt(key(x), key(t[0])) {
      InsertPermutes(x, t[1..], key, lt);
      assert t == [t[0]] + t[1..];
    }
  }

  lemma {:induction false} InsertSorted<T, K(!new)>(x: T, t: seq<T>, key: T -> K, lt: (K, K) -> bool)
    requires StrictTotal(lt) && SortedDesc(t, key, lt)
    ensures SortedDesc(Insert(x, t, key, lt), key, lt)
  {
    if t != [] && lt(key(x), key(t[0])) {
      InsertSorted(x, t[1..], key, lt);
      InsertPermutes(x, t[1..], key, lt);
      var rest := Insert(x, t[1..], key, lt);
      forall j | 0 <= j < |rest| ensures !lt(key(t[0]), key(rest[j])) {
        assert rest[j] in multiset(rest);
        if rest[j] != x {
          assert rest[j] in multiset(t[1..]);
          var m :| 0 <= m < |t[1..]| && t[1..][m] == rest[j];
          assert t[m + 1] == rest[j];
        }
      }
    }
  }

  lemma {:induction false} InsertWithKey<T, K(!new)>(x: T, t: seq<T>, key: T -> K, lt: (K, K) -> bool, k: K)
    requires StrictTotal(lt)
    ensures WithKey(Insert(x, t, key, lt), key, k)
         == (if key(x) == k then [x] else []) + WithKey(t, key, k)
  {
    if t == [] || !lt(key(x), key(t[0])) {
      var r := [x] + t;
      assert r[0] == x && r[1..] == t;
      assert WithKey(r, key, k) == (if key(x) == k then [x] else []) + WithKey(t, key, k);
    } else {
      var rest := Insert(x, t[1..], key, lt);
      var r := [t[0]] + rest;
      InsertWithKey(x, t[1..], key, lt, k);
      assert r[0] == t[0] && r[1..] == rest;
      assert key(t[0]) != key(x);
      assert t == [t[0]] + t[1..];
      assert WithKey(r, key, k) == (if key(t[0]) == k then [t[0]] else []) + WithKey(rest, key, k);
      assert WithKey(t, key, k) == (if key(t[0]) == k then [t[0]] else []) + WithKey(t[1..], key, k);
    }
  }

  /** The result is in descending key order. */
  lemma {:induction false} SortSorted<T, K(!new)>(s: seq<T>, key: T -> K, lt: (K, K) -> bool)
    requires StrictTotal(lt)
    ensures SortedDesc(Sort(s, key, lt), key, lt)
  {
    if s != [] {
      SortSorted(s[1..], key, lt);
      InsertSorted(s[0], Sort(s[1..], key, lt), key, lt);
    }
  }

  /** The result is a permutation of the input. */
  lemma {:induction false} SortPermutes<T, K>(s: seq<T>, key: T -> K, lt: (K, K) -> bool)
    ensures multiset(Sort(s, key, lt)) == multiset(s)
    ensures |Sort(s, key, lt)| == |s|
  {
    if s != [] {
      SortPermutes(s[1..], key, lt);
      InsertPermutes(s[0], Sort(s[1..], key, lt), key, lt);
      assert s == [s[0]] + s[1..];
    }
  }

  /** Stability: the elements sharing any one key keep their input order. */
  lemma {:induction false} SortStable<T, K(!new)>(s: seq<T>, key: T -> K, lt: (K, K) -> bool, k: K)
    requires StrictTotal(lt)
    ensures WithKey(Sort(s, key, lt), key, k) == WithKey(s, key, k)
  {
    if s != [] {
      SortStable(s[1..], key, lt, k);
      InsertWithKey(s[0], Sort(s[1..], key, lt), key, lt, k);
    }
  }

  /** Sorting an already sorted sequence leaves it as it is. */
  lemma {:induction false} SortOfSorted<T, K(!new)>(s: seq<T>, key: T -> K, lt: (K, K) -> bool)
    requires SortedDesc(s, key, lt)
    ensures Sort(s, key, lt) == s
  {
    if s != [] {
      assert SortedDesc(s[1..], key, lt);
      SortOfSorted(s[1..], key, lt);
      if |s| > 1 {
        assert !lt(key(s[0]), key(s[1]));
      }
    }
  }

  /** Two sequences sorted by the same key and holding, key by key, the same
      elements in the same order are equal: a stable sort's result is unique. */
  lemma {:induction false} StableSortUnique<T, K(!new)>(a: seq<T>, b: seq<T>, key: T -> K, lt: (K, K) -> bool)
    requires StrictTotal(lt)
    requires SortedDesc(a, key, lt) && SortedDesc(b, key, lt)
    requires forall k :: WithKey(a, key, k) == WithKey(b, key, k)
    ensures a == b
    decreases |a| + |b|
  {
    if a == [] || b == [] {
      if a != [] {
        WithKeyMember(a, key, key(a[0]), a[0]);
        assert false;
      } else if b != [] {
        WithKeyMember(b, key, key(b[0]), b[0]);
        assert false;
      }
    } else {
      var ka, kb := key(a[0]), key(b[0]);
      if ka != kb {
        if lt(ka, kb) {
          // b[0] must occur in a, behind a[0], but a is sorted
          WithKeyMember(b, key, kb, b[0]);
          WithKeyMember(a, key, kb, b[0]);
          assert false;
        } else {
          WithKeyMember(a, key, ka, a[0]);
          WithKeyMember(b, key, ka, a[0]);
          assert false;
        }
      } else {
        assert WithKey(a, key, ka)[0] == a[0];
        assert WithKey(b, key, ka)[0] == b[0];
        forall k ensures WithKey(a[1..], key, k) == WithKey(b[1..], key, k) {
          assert WithKey(a, key, k) == (if ka == k then [a[0]] else []) + WithKey(a[1..], key, k);
          assert WithKey(b, key, k) == (if ka == k then [b[0]] else []) + WithKey(b[1..], key, k);
          if ka == k {
            assert WithKey(a[1..], key, k) == WithKey(a, key, k)[1..];
          }
        }
        StableSortUnique(a[1..], b[1..], key, lt);
        assert a == [a[0]] + a[1..] && b == [b[0]] + b[1..];
      }
    }
  }

  /** Cutting a sequence short cuts each key's subsequence short. */
  lemma {:induction false} WithKeyPrefix<T, K>(s: seq<T>, n: nat, key: T -> K, k: K)
    requires n <= |s|
    ensures WithKey(s[..n], key, k) <= WithKey(s, key, k)
  {
    if n > 0 {
      WithKeyPrefix(s[1..], n - 1, key, k);
      assert s[..n][1..] == s[1..][..n - 1];
    }
  }

  /** Cutting a sorted sequence in two: no element of the tail has a larger key
      than an element of the head. */
  lemma PrefixHeaviest<T, K>(s: seq<T>, n: nat, key: T -> K, lt: (K, K) -> bool, x: T, y: T)
    requires SortedDesc(s, key, lt) && n <= |s|
    requires x in multiset(s) - multiset(s[..n]) && y in s[..n]
    ensures !lt(key(y), key(x))
  {
    assert s == s[..n] + s[n..];
    assert x in s[n..];
    var i :| 0 <= i < n && s[..n][i] == y;
    var j :| 0 <= j < |s| - n && s[n..][j] == x;
    assert s[i] == y && s[n + j] == x;
  }

  lemma {:induction false} WithKeyMember<T, K>(s: seq<T>, key: T -> K, k: K, x: T)
    ensures x in WithKey(s, key, k) <==> x in s && key(x) == k
  {
    if s != [] {
      WithKeyMember(s[1..], key, k, x);
      assert s == [s[0]] + s[1..];
    }
  }
}
