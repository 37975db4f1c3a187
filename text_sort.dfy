/** JavaScript's default `Array.prototype.sort` on strings, which orders them
    ascending by code unit. It is the stable descending sort of StableSort under
    the reversed order. */
module TextSort {
  import opened Common
  import StableSort

  /** The key of the default string sort: the string itself. */
  function Id(s: string): string { s }

  /** The reversed ordinal order, under which the descending stable sort is
      the ascending default sort. */
  predicate After(a: string, b: string) {
    StrLt(b, a)
  }

  /** `xs.sort()` on strings. */
  function SortAsc(xs: seq<string>): seq<string> {
    StableSort.Sort(xs, Id, After)
  }

  lemma AfterIsStrictTotal()
    ensures StableSort.StrictTotal(After)
  {
    forall a ensures !After(a, a) { StrLtIrreflexive(a); }
    forall a, b, c | After(a, b) && After(b, c) ensures After(a, c) { StrLtTransitive(c, b, a); }
    forall a, b | a != b ensures After(a, b) || After(b, a) { StrLtTotal(a, b); }
  }

  lemma StrLtIsStrictTotal()
    ensures StableSort.StrictTotal(StrLt)
  {
    forall a ensures !StrLt(a, a) { StrLtIrreflexive(a); }
    forall a, b, c | StrLt(a, b) && StrLt(b, c) ensures StrLt(a, c) { StrLtTransitive(a, b, c); }
    forall a, b | a != b ensures StrLt(a, b) || StrLt(b, a) { StrLtTotal(a, b); }
  }

  /** Strictly ascending: sorted and duplicate-free. */
  predicate Ascending(xs: seq<string>) {
    forall i, j :: 0 <= i < j < |xs| ==> StrLt(xs[i], xs[j])
  }

  /** Sorting a duplicate-free list gives a strictly ascending list of the same
      strings. */
  lemma SortAscOfDistinct(u: seq<string>)
    requires NoDup(u)
    ensures Ascending(SortAsc(u))
    ensures NoDup(SortAsc(u))
    ensures forall t :: t in SortAsc(u) <==> t in u
  {
    var m := SortAsc(u);
    StableSort.SortPermutes(u, Id, After);
    NoDupPermutation(u, m);
    forall t ensures t in m <==> t in u {
      assert t in m <==> t in multiset(m);
      assert t in u <==> t in multiset(u);
    }
    AfterIsStrictTotal();
    StableSort.SortSorted(u, Id, After);
    forall i, j | 0 <= i < j < |m| ensures StrLt(m[i], m[j]) {
      StrLtTotal(m[i], m[j]);
    }
  }

  /** A strictly ascending list is its own sort. */
  lemma SortAscOfAscending(xs: seq<string>)
    requires Ascending(xs)
    ensures SortAsc(xs) == xs
  {
    forall i, j | 0 <= i < j < |xs| ensures !After(Id(xs[i]), Id(xs[j])) {
      if StrLt(xs[j], xs[i]) {
        StrLtTransitive(xs[i], xs[j], xs[i]);
        StrLtIrreflexive(xs[i]);
      }
    }
    StableSort.SortOfSorted(xs, Id, After);
  }
}
