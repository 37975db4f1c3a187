/** The article relationships of scripts/build-graph-index.ts
    (`calculateArticleRelationships`): for each article, every other article
    (by slug) that shares a concept or at least two non-`source:` tags becomes a
    weighted candidate; the candidates are sorted by weight, largest first and
    stably, and the first ten are kept. */
module Relationships {
  import opened Common
  import opened GraphModel
  import StableSort

  /** `xs.filter(x => ys.includes(x))`. */
  function InBoth(xs: seq<string>, ys: seq<string>): seq<string> {
    if xs == [] then [] else (if xs[0] in ys then [xs[0]] else []) + InBoth(xs[1..], ys)
  }

  /** Tags that name the site a text was scraped from; they never count as shared. */
  predicate SourceTag(t: string) {
    StartsWith(t, "source:")
  }

  /** `xs.filter(t => ys.includes(t) && !t.startsWith('source:'))`. */
  function SharedTagsOf(xs: seq<string>, ys: seq<string>): seq<string> {
    if xs == [] then []
    else (if xs[0] in ys && !SourceTag(xs[0]) then [xs[0]] else []) + SharedTagsOf(xs[1..], ys)
  }

  /** The shared concepts keep every occurrence in a's list of a concept b also lists, and nothing else. */
  lemma {:induction false} InBothCount(xs: seq<string>, ys: seq<string>, x: string)
    ensures multiset(InBoth(xs, ys))[x] == if x in ys then multiset(xs)[x] else 0
  {
    if xs != [] {
      InBothCount(xs[1..], ys, x);
      assert xs == [xs[0]] + xs[1..];
    }
  }

  /** The shared tags keep every occurrence in a's list of a tag b also carries,
      unless it is a `source:` tag, and nothing else. */
  lemma {:induction false} SharedTagsCount(xs: seq<string>, ys: seq<string>, t: string)
    ensures multiset(SharedTagsOf(xs, ys))[t] == if t in ys && !SourceTag(t) then multiset(xs)[t] else 0
  {
    if xs != [] {
      SharedTagsCount(xs[1..], ys, t);
      assert xs == [xs[0]] + xs[1..];
    }
  }

  function SharedConcepts(a: Article, b: Article): seq<string> {
    InBoth(a.concepts, b.concepts)
  }

  function SharedTags(a: Article, b: Article): seq<string> {
    SharedTagsOf(a.tags, b.tags)
  }

  /** Whether b becomes a candidate of a: another slug, and a shared concept or
      at least two shared tags. */
  predicate Linked(a: Article, b: Article) {
    a.slug != b.slug && (|SharedConcepts(a, b)| > 0 || |SharedTags(a, b)| >= 2)
  }

  /** The relationship record a keeps for b; concepts weigh twice as much as tags. */
  function Link(a: Article, b: Article): Relationship {
    var sc, st := SharedConcepts(a, b), SharedTags(a, b);
    Relationship(b.slug, b.title, 2 * |sc| + |st|, sc, st)
  }

  /** The candidates of a among arts, in the order of arts. */
  function Candidates(arts: seq<Article>, a: Article): seq<Relationship> {
    if arts == [] then []
    else
      var b := arts[|arts| - 1];
      Candidates(arts[..|arts| - 1], a) + (if Linked(a, b) then [Link(a, b)] else [])
  }

  function WeightOf(r: Relationship): int { r.weight }

  predicate Below(x: int, y: int) { x < y }

  /** `related.sort((a, b) => b.weight - a.weight)`: by weight, largest first, stable. */
  function Ranked(rs: seq<Relationship>): seq<Relationship> {
    StableSort.Sort(rs, WeightOf, Below)
  }

  /** The related list of a: the ten heaviest candidates, ties in input order. */
  function TopRelated(arts: seq<Article>, a: Article): seq<Relationship> {
    Take(Ranked(Candidates(arts, a)), 10)
  }

  /** The record after the first n articles have been visited: a later article
      with the same slug overwrites the list of an earlier one. */
  function Relations(arts: seq<Article>, n: nat): map<string, seq<Relationship>>
    requires n <= |arts|
  {
    if n == 0 then map[] else Relations(arts, n - 1)[arts[n - 1].slug := TopRelated(arts, arts[n - 1])]
  }

  lemma CandidatesStep(arts: seq<Article>, a: Article, j: nat)
    requires j < |arts|
    ensures Candidates(arts[..j + 1], a)
         == Candidates(arts[..j], a) + (if Linked(a, arts[j]) then [Link(a, arts[j])] else [])
  {
    assert arts[..j + 1][..j] == arts[..j];
  }

  lemma RelationsStep(arts: seq<Article>, i: nat)
    requires i < |arts|
    ensures Relations(arts, i + 1) == Relations(arts, i)[arts[i].slug := TopRelated(arts, arts[i])]
  {
  }

  /** The inner loop of `calculateArticleRelationships`: every other article,
      in order, that shares a concept or two tags with a. */
  method CollectCandidates(arts: seq<Article>, a: Article) returns (related: seq<Relationship>)
    ensures related == Candidates(arts, a)
  {
    related := [];
    var j := 0;
    while j < |arts|
      invariant 0 <= j <= |arts|
      invariant related == Candidates(arts[..j], a)
    {
      var other := arts[j];
      CandidatesStep(arts, a, j);
      if a.slug != other.slug {
        var sharedConcepts := InBoth(a.concepts, other.concepts);
        var sharedTags := SharedTagsOf(a.tags, other.tags);
        if |sharedConcepts| > 0 || |sharedTags| >= 2 {
          var weight := |sharedConcepts| * 2 + |sharedTags|;
          related := related + [Relationship(other.slug, other.title, weight, sharedConcepts, sharedTags)];
        }
      }
      j := j + 1;
    }
    assert arts[..j] == arts;
  }

  /** `calculateArticleRelationships`: for each article, the candidates are
      collected over all articles in order, sorted and cut to ten. */
  method CalculateRelationships(arts: seq<Article>) returns (rels: map<string, seq<Relationship>>)
    ensures rels == Relations(arts, |arts|)
  {
    rels := map[];
    var i := 0;
    while i < |arts|
      invariant 0 <= i <= |arts|
      invariant rels == Relations(arts, i)
    {
      var related := CollectCandidates(arts, arts[i]);
      related := Ranked(related);
      rels := rels[arts[i].slug := Take(related, 10)];
      RelationsStep(arts, i);
      i := i + 1;
    }
  }

  /** The record has one key per slug, and each key holds the related list of
      the last article with that slug. */
  lemma {:induction false} RelationsLookup(arts: seq<Article>, n: nat, slug: string)
    requires n <= |arts|
    ensures slug in Relations(arts, n) <==> exists i :: 0 <= i < n && arts[i].slug == slug
    ensures slug in Relations(arts, n) ==>
      exists i :: 0 <= i < n && arts[i].slug == slug && Relations(arts, n)[slug] == TopRelated(arts, arts[i])
        && forall j :: i < j < n ==> arts[j].slug != slug
  {
    if n > 0 {
      RelationsLookup(arts, n - 1, slug);
      if arts[n - 1].slug != slug && slug in Relations(arts, n) {
        var i :| 0 <= i < n - 1 && arts[i].slug == slug && Relations(arts, n - 1)[slug] == TopRelated(arts, arts[i])
          && forall j :: i < j < n - 1 ==> arts[j].slug != slug;
        assert Relations(arts, n)[slug] == TopRelated(arts, arts[i]);
      }
    }
  }

  lemma StrictTotalBelow()
    ensures StableSort.StrictTotal(Below)
  {
  }

  /** The candidates of a are exactly the links from a to the articles it is linked to. */
  lemma {:induction false} CandidatesMembers(arts: seq<Article>, a: Article, r: Relationship)
    ensures r in Candidates(arts, a) <==> exists b :: b in arts && Linked(a, b) && r == Link(a, b)
  {
    if arts != [] {
      var init, b := arts[..|arts| - 1], arts[|arts| - 1];
      CandidatesMembers(init, a, r);
      assert arts == init + [b];
      if r in Candidates(arts, a) && r !in Candidates(init, a) {
        assert Linked(a, b) && r == Link(a, b);
      }
    }
  }

  /** A kept relationship links a to another article and has positive weight:
      two per shared concept plus one per shared tag. */
  lemma LinkWeight(a: Article, b: Article)
    requires Linked(a, b)
    ensures Link(a, b).slug != a.slug
    ensures Link(a, b).weight == 2 * |SharedConcepts(a, b)| + |SharedTags(a, b)| >= 1
  {
  }

  /** Each related list holds at most ten relationships, the heaviest first, each
      one a candidate and so a link to another article with positive weight. */
  lemma TopRelatedShape(arts: seq<Article>, a: Article)
    ensures |TopRelated(arts, a)| == if |Candidates(arts, a)| < 10 then |Candidates(arts, a)| else 10
    ensures forall i, j :: 0 <= i < j < |TopRelated(arts, a)| ==> TopRelated(arts, a)[i].weight >= TopRelated(arts, a)[j].weight
    ensures forall r :: r in TopRelated(arts, a) ==>
      exists b :: b in arts && Linked(a, b) && r == Link(a, b) && r.slug != a.slug && r.weight >= 1
  {
    var cands := Candidates(arts, a);
    var sorted := Ranked(cands);
    StrictTotalBelow();
    StableSort.SortSorted(cands, WeightOf, Below);
    StableSort.SortPermutes(cands, WeightOf, Below);
    var top := TopRelated(arts, a);
    forall i, j | 0 <= i < j < |top| ensures top[i].weight >= top[j].weight {
      assert top[i] == sorted[i] && top[j] == sorted[j];
      assert !Below(WeightOf(sorted[i]), WeightOf(sorted[j]));
    }
    forall r | r in top
      ensures exists b :: b in arts && Linked(a, b) && r == Link(a, b) && r.slug != a.slug && r.weight >= 1
    {
      assert r in multiset(sorted);
      CandidatesMembers(arts, a, r);
      var b :| b in arts && Linked(a, b) && r == Link(a, b);
      LinkWeight(a, b);
    }
  }

  /** Top ten: every candidate left out weighs no more than any relationship kept. */
  lemma TopRelatedHeaviest(arts: seq<Article>, a: Article)
    ensures multiset(TopRelated(arts, a)) <= multiset(Candidates(arts, a))
    ensures forall x: Relationship, y: Relationship ::
      (x in multiset(Candidates(arts, a)) - multiset(TopRelated(arts, a)) && y in TopRelated(arts, a) ==> x.weight <= y.weight)
  {
    var cands := Candidates(arts, a);
    var sorted := Ranked(cands);
    var top := TopRelated(arts, a);
    StrictTotalBelow();
    StableSort.SortSorted(cands, WeightOf, Below);
    StableSort.SortPermutes(cands, WeightOf, Below);
    assert top == sorted[..|top|];
    assert sorted == top + sorted[|top|..];
    forall x: Relationship, y: Relationship | x in multiset(cands) - multiset(top) && y in top ensures x.weight <= y.weight {
      StableSort.PrefixHeaviest(sorted, |top|, WeightOf, Below, x, y);
    }
  }

  /** Ties keep input order: the kept relationships of any one weight are the
      first of the candidates of that weight, in candidate order. */
  lemma TopRelatedStable(arts: seq<Article>, a: Article, w: int)
    ensures StableSort.WithKey(TopRelated(arts, a), WeightOf, w) <= StableSort.WithKey(Candidates(arts, a), WeightOf, w)
  {
    var cands := Candidates(arts, a);
    var sorted := Ranked(cands);
    StrictTotalBelow();
    StableSort.SortStable(cands, WeightOf, Below, w);
    StableSort.SortPermutes(cands, WeightOf, Below);
    StableSort.WithKeyPrefix(sorted, |TopRelated(arts, a)|, WeightOf, w);
  }

  /** The shared lists of a pair of articles without repeated concepts or tags
      have the same length in both directions, so such a pair is linked both
      ways with one weight. */
  lemma SymmetricWithoutRepeats(a: Article, b: Article)
    requires NoDup(a.concepts) && NoDup(b.concepts) && NoDup(a.tags) && NoDup(b.tags)
    requires a.slug != b.slug
    ensures Linked(a, b) <==> Linked(b, a)
    ensures Link(a, b).weight == Link(b, a).weight
  {
    InBothSize(a.concepts, b.concepts);
    InBothSize(b.concepts, a.concepts);
    SharedTagsSize(a.tags, b.tags);
    SharedTagsSize(b.tags, a.tags);
    assert (set x | x in a.concepts && x in b.concepts) == (set x | x in b.concepts && x in a.concepts);
    assert (set t | t in a.tags && t in b.tags && !SourceTag(t)) == (set t | t in b.tags && t in a.tags && !SourceTag(t));
  }

  lemma {:induction false} InBothSize(xs: seq<string>, ys: seq<string>)
    requires NoDup(xs)
    ensures |InBoth(xs, ys)| == |set x | x in xs && x in ys|
  {
    if xs != [] {
      InBothSize(xs[1..], ys);
      var tail := set x | x in xs[1..] && x in ys;
      assert xs[0] !in xs[1..];
      if xs[0] in ys {
        assert (set x | x in xs && x in ys) == tail + {xs[0]};
      } else {
        assert (set x | x in xs && x in ys) == tail;
      }
    }
  }

  lemma {:induction false} SharedTagsSize(xs: seq<string>, ys: seq<string>)
    requires NoDup(xs)
    ensures |SharedTagsOf(xs, ys)| == |set t | t in xs && t in ys && !SourceTag(t)|
  {
    if xs != [] {
      SharedTagsSize(xs[1..], ys);
      var tail := set t | t in xs[1..] && t in ys && !SourceTag(t);
      assert xs[0] !in xs[1..];
      if xs[0] in ys && !SourceTag(xs[0]) {
        assert (set t | t in xs && t in ys && !SourceTag(t)) == tail + {xs[0]};
      } else {
        assert (set t | t in xs && t in ys && !SourceTag(t)) == tail;
      }
    }
  }

  /** With a repeated concept the two directions differ: a listing "x" twice
      shares it twice with b, which lists it once, while b shares it once. */
  lemma RepeatsBreakSymmetry()
    ensures exists a: Article, b: Article :: Link(a, b).weight != Link(b, a).weight
  {
    var a := Article("a", "A", None, ["x", "x"], []);
    var b := Article("b", "B", None, ["x"], []);
    assert SharedConcepts(a, b) == ["x", "x"];
    assert SharedConcepts(b, a) == ["x"];
    assert Link(a, b).weight == 4 && Link(b, a).weight == 2;
  }
}
