/** The concept index of scripts/build-graph-index.ts (`buildConceptIndex`):
    a first pass over every listing of a concept on an article (membership
    count, article slugs, topic distribution) and a second pass over every
    pair of listings on one article (symmetric co-occurrence counts). */
module ConceptIndex {
  import opened Common
  import opened GraphModel
  import Tally

  /** One listing of a concept on an article, in the order the first pass
      visits the listings. */
  datatype Mention = Mention(slug: string, topic: Option<string>, concept: string)

  function MentionsOf(a: Article): (r: seq<Mention>)
    ensures |r| == |a.concepts|
    ensures forall k :: 0 <= k < |r| ==> r[k] == Mention(a.slug, a.topic, a.concepts[k])
  {
    seq(|a.concepts|, k requires 0 <= k < |a.concepts| => Mention(a.slug, a.topic, a.concepts[k]))
  }

  /** All listings of all articles, article by article. */
  function Mentions(arts: seq<Article>): seq<Mention> {
    if arts == [] then [] else Mentions(arts[..|arts| - 1]) + MentionsOf(arts[|arts| - 1])
  }

  function Names(ms: seq<Mention>): (r: seq<string>)
    ensures |r| == |ms|
    ensures forall k :: 0 <= k < |ms| ==> r[k] == ms[k].concept
  {
    seq(|ms|, k requires 0 <= k < |ms| => ms[k].concept)
  }

  /** The slugs the first pass appends to concept c's article list: one per
      listing, so as many as c is listed, duplicates on one article included. */
  function SlugsOf(ms: seq<Mention>, c: string): seq<string> {
    if ms == [] then []
    else SlugsOf(ms[..|ms| - 1], c) + (if ms[|ms| - 1].concept == c then [ms[|ms| - 1].slug] else [])
  }

  /** One slug per listing: as many slugs as c has listings. */
  lemma {:induction false} SlugsCount(ms: seq<Mention>, c: string)
    ensures |SlugsOf(ms, c)| == multiset(Names(ms))[c]
  {
    if ms != [] {
      var init := ms[..|ms| - 1];
      SlugsCount(init, c);
      assert ms == init + [ms[|ms| - 1]];
      MentionStep(init, ms[|ms| - 1]);
    }
  }

  /** How many listings of c stand on an article whose topic is t. */
  function TopicCount(ms: seq<Mention>, c: string, t: string): nat {
    if ms == [] then 0
    else
      var last := ms[|ms| - 1];
      TopicCount(ms[..|ms| - 1], c, t)
        + (if last.concept == c && Truthy(last.topic) && last.topic.value == t then 1 else 0)
  }

  /** What the first pass leaves in the entry of concept c. */
  ghost predicate FirstPass(e: ConceptEntry, ms: seq<Mention>, c: string) {
    && e.name == c
    && e.articles == SlugsOf(ms, c)
    && e.count == |e.articles|
    && e.related == Tally.Empty()
    && Tally.Valid(e.topics)
    && (forall t :: Tally.Count(e.topics, t) == TopicCount(ms, c, t))
  }

  lemma MentionStep(ms: seq<Mention>, m: Mention)
    ensures forall c :: SlugsOf(ms + [m], c) == SlugsOf(ms, c) + (if m.concept == c then [m.slug] else [])
    ensures forall c, t :: (TopicCount(ms + [m], c, t)
         == TopicCount(ms, c, t) + (if m.concept == c && Truthy(m.topic) && m.topic.value == t then 1 else 0))
    ensures Names(ms + [m]) == Names(ms) + [m.concept]
  {
    assert (ms + [m])[..|ms|] == ms;
  }

  /** A concept not listed so far gets the entry the first pass creates for it. */
  lemma {:induction false} FreshEntry(ms: seq<Mention>, c: string)
    requires c !in Names(ms)
    ensures FirstPass(ConceptEntry(c, 0, [], Tally.Empty(), Tally.Empty()), ms, c)
  {
    if ms != [] {
      var init := ms[..|ms| - 1];
      MentionStep(init, ms[|ms| - 1]);
      assert ms == init + [ms[|ms| - 1]];
      FreshEntry(init, c);
    }
  }

  lemma ArticleStep(arts: seq<Article>, i: nat)
    requires i < |arts|
    ensures Mentions(arts[..i + 1]) == Mentions(arts[..i]) + MentionsOf(arts[i])
  {
    assert arts[..i + 1][..i] == arts[..i];
  }

  /** What the first pass leaves after visiting the listings ms: the keys, in
      order of first listing, and each key's entry. */
  ghost predicate Collected(index: map<string, ConceptEntry>, order: seq<string>, ms: seq<Mention>) {
    && order == Distinct(Names(ms))
    && (forall c :: c in index <==> c in order)
    && (forall c :: c in index ==> FirstPass(index[c], ms, c))
  }

  /** One step of the first pass, for the listing of concept c on the article
      with the given slug and topic: get-or-create the entry (a created entry
      goes last in the key order), bump its count, append the slug and, when the
      topic is truthy, bump the topic. */
  method RecordMention(index0: map<string, ConceptEntry>, order0: seq<string>, ghost done: seq<Mention>,
                       slug: string, topic: Option<string>, c: string)
    returns (index: map<string, ConceptEntry>, order: seq<string>)
    requires Collected(index0, order0, done)
    ensures Collected(index, order, done + [Mention(slug, topic, c)])
  {
    ghost var m := Mention(slug, topic, c);
    index, order := index0, order0;
    if c !in index {
      FreshEntry(done, c);
      index := index[c := ConceptEntry(c, 0, [], Tally.Empty(), Tally.Empty())];
      order := order + [c];
    }
    ghost var e := index[c];
    assert FirstPass(e, done, c);
    SameMention(e, done, m);
    index := index[c := Listed(index[c], slug, topic)];
    assert index == index0[c := Listed(e, slug, topic)];
    CollectedStep(index0, order0, done, m, Listed(e, slug, topic));
  }

  /** The entry of concept c after one more listing of it, on an article with
      the given slug and topic: the count is bumped, the slug appended and, when
      the topic is truthy, the topic counted. */
  function Listed(e: ConceptEntry, slug: string, topic: Option<string>): ConceptEntry
    requires Tally.Valid(e.topics)
  {
    var e' := e.(count := e.count + 1, articles := e.articles + [slug]);
    if Truthy(topic) then e'.(topics := Tally.Bump(e'.topics, topic.value)) else e'
  }

  lemma SameMention(e: ConceptEntry, ms: seq<Mention>, m: Mention)
    requires FirstPass(e, ms, m.concept)
    ensures FirstPass(Listed(e, m.slug, m.topic), ms + [m], m.concept)
  {
    MentionStep(ms, m);
  }

  lemma CollectedStep(index0: map<string, ConceptEntry>, order0: seq<string>, ms: seq<Mention>, m: Mention, e: ConceptEntry)
    requires Collected(index0, order0, ms)
    requires FirstPass(e, ms + [m], m.concept)
    ensures Collected(index0[m.concept := e], SetAdd(order0, m.concept), ms + [m])
  {
    OrderStep(index0, order0, ms, m, index0[m.concept := e], SetAdd(order0, m.concept));
    EntriesStep(index0, ms, m, index0[m.concept := e]);
  }

  lemma OrderStep(index0: map<string, ConceptEntry>, order0: seq<string>, ms: seq<Mention>, m: Mention,
                  index: map<string, ConceptEntry>, order: seq<string>)
    requires order0 == Distinct(Names(ms))
    requires forall c :: c in index0 <==> c in order0
    requires order == SetAdd(order0, m.concept)
    requires m.concept in index
    requires forall x :: x != m.concept ==> (x in index <==> x in index0)
    ensures order == Distinct(Names(ms + [m]))
    ensures forall c :: c in index <==> c in order
  {
    MentionStep(ms, m);
    DistinctSnoc(Names(ms), m.concept);
  }

  lemma EntriesStep(index0: map<string, ConceptEntry>, ms: seq<Mention>, m: Mention, index: map<string, ConceptEntry>)
    requires forall c :: c in index0 ==> FirstPass(index0[c], ms, c)
    requires m.concept in index && FirstPass(index[m.concept], ms + [m], m.concept)
    requires forall x :: x != m.concept && x in index ==> x in index0 && index[x] == index0[x]
    ensures forall c :: c in index ==> FirstPass(index[c], ms + [m], c)
  {
    forall x | x in index ensures FirstPass(index[x], ms + [m], x) {
      if x != m.concept {
        OtherMention(index0[x], ms, m, x);
      }
    }
  }

  /** A listing of another concept leaves an entry as the first pass wants it. */
  lemma OtherMention(e: ConceptEntry, ms: seq<Mention>, m: Mention, x: string)
    requires FirstPass(e, ms, x) && m.concept != x
    ensures FirstPass(e, ms + [m], x)
  {
    MentionStep(ms, m);
  }

  /** The listings of one article, in list order. */
  method RecordArticle(index0: map<string, ConceptEntry>, order0: seq<string>, ghost done: seq<Mention>, a: Article)
    returns (index: map<string, ConceptEntry>, order: seq<string>)
    requires Collected(index0, order0, done)
    ensures Collected(index, order, done + MentionsOf(a))
  {
    index, order := index0, order0;
    ghost var ms := MentionsOf(a);
    assert done + ms[..0] == done;
    var k := 0;
    while k < |a.concepts|
      invariant 0 <= k <= |a.concepts|
      invariant Collected(index, order, done + ms[..k])
    {
      index, order := RecordMention(index, order, done + ms[..k], a.slug, a.topic, a.concepts[k]);
      SnocPrefix(done, ms, k);
      k := k + 1;
    }
    assert ms[..k] == ms;
  }

  /** First pass: every listing of a concept creates its entry on first sight
      (which also fixes the key order), bumps its count, appends the article's
      slug and, when the article has a topic, bumps that topic. */
  method CollectConcepts(arts: seq<Article>) returns (index: map<string, ConceptEntry>, order: seq<string>)
    ensures Collected(index, order, Mentions(arts))
  {
    index, order := map[], [];
    var i := 0;
    while i < |arts|
      invariant 0 <= i <= |arts|
      invariant Collected(index, order, Mentions(arts[..i]))
    {
      index, order := RecordArticle(index, order, Mentions(arts[..i]), arts[i]);
      ArticleStep(arts, i);
      i := i + 1;
    }
    assert arts[..i] == arts;
  }

  /** One concept's row of pairs: (cs[i], cs[j]) for every j > i, in order. */
  function Row(cs: seq<string>, i: nat): (r: seq<(string, string)>)
    requires i < |cs|
    ensures |r| == |cs| - i - 1
    ensures forall k :: 0 <= k < |r| ==> r[k] == (cs[i], cs[i + 1 + k])
  {
    seq(|cs| - i - 1, k requires 0 <= k < |cs| - i - 1 => (cs[i], cs[i + 1 + k]))
  }

  /** The pairs of the first n rows, in the order of the two nested loops. */
  function Rows(cs: seq<string>, n: nat): seq<(string, string)>
    requires n <= |cs|
  {
    if n == 0 then [] else Rows(cs, n - 1) + Row(cs, n - 1)
  }

  /** The pairs (cs[i], cs[j]), i < j, of one article's concept list. */
  function PairsOf(cs: seq<string>): seq<(string, string)> {
    Rows(cs, |cs|)
  }

  /** The pairs of all articles, article by article. */
  function AllPairs(arts: seq<Article>): seq<(string, string)> {
    if arts == [] then [] else AllPairs(arts[..|arts| - 1]) + PairsOf(arts[|arts| - 1].concepts)
  }

  /** What the second pass adds to `relatedConcepts[x][y]`: one for each visited
      pair (x, y) and one for each visited pair (y, x). */
  function CoCount(ps: seq<(string, string)>, x: string, y: string): nat {
    PairCount(ps, x, y) + PairCount(ps, y, x)
  }

  /** How many of the pairs ps are (x, y). */
  function PairCount(ps: seq<(string, string)>, x: string, y: string): nat {
    if ps == [] then 0 else PairCount(ps[..|ps| - 1], x, y) + (if ps[|ps| - 1] == (x, y) then 1 else 0)
  }

  /** The entry of c after the second pass, given its entry after the first. */
  ghost predicate SecondPass(e: ConceptEntry, e0: ConceptEntry, ps: seq<(string, string)>, c: string) {
    && e == e0.(related := e.related)
    && Tally.Valid(e.related)
    && (forall y :: Tally.Count(e.related, y) == CoCount(ps, c, y))
  }

  lemma AllPairsStep(arts: seq<Article>, i: nat)
    requires i < |arts|
    ensures AllPairs(arts[..i + 1]) == AllPairs(arts[..i]) + PairsOf(arts[i].concepts)
  {
    assert arts[..i + 1][..i] == arts[..i];
  }

  /** What the second pass leaves after visiting the pairs ps: the keys of the
      first pass, each entry with the co-occurrence counts of ps. */
  ghost predicate Paired(index: map<string, ConceptEntry>, index0: map<string, ConceptEntry>, ps: seq<(string, string)>) {
    && index.Keys == index0.Keys
    && forall c :: c in index ==> SecondPass(index[c], index0[c], ps, c)
  }

  /** One step of the second pass, for the pair (c1, c2):
      `relatedConcepts[c2]` of c1 and then `relatedConcepts[c1]` of c2 are bumped
      (the same counter twice when c1 == c2), each only if the entry exists. */
  method RecordPair(index1: map<string, ConceptEntry>, index0: map<string, ConceptEntry>,
                    ghost done: seq<(string, string)>, c1: string, c2: string)
    returns (index: map<string, ConceptEntry>)
    requires Paired(index1, index0, done)
    ensures Paired(index, index0, done + [(c1, c2)])
  {
    index := index1;
    if c1 in index {
      index := index[c1 := BumpRelated(index[c1], c2)];
    }
    ghost var mid := index;
    if c2 in index {
      index := index[c2 := BumpRelated(index[c2], c1)];
    }
    forall c | c in index ensures index[c] == PairStep(index1[c], c, c1, c2) {
      assert mid[c] == if c == c1 then BumpRelated(index1[c], c2) else index1[c];
      assert index[c] == if c == c2 then BumpRelated(mid[c], c1) else mid[c];
    }
    assert index.Keys == index1.Keys;
    PairedStep(index1, index0, done, c1, c2, index);
  }

  lemma PairedStep(index1: map<string, ConceptEntry>, index0: map<string, ConceptEntry>,
                   done: seq<(string, string)>, c1: string, c2: string, index: map<string, ConceptEntry>)
    requires Paired(index1, index0, done)
    requires index.Keys == index1.Keys
    requires forall c :: c in index ==> index[c] == PairStep(index1[c], c, c1, c2)
    ensures Paired(index, index0, done + [(c1, c2)])
  {
    forall c | c in index ensures SecondPass(index[c], index0[c], done + [(c1, c2)], c) {
      SecondPassStep(index1[c], index0[c], done, c, c1, c2);
    }
  }

  /** The entry of c after the pair (c1, c2) is counted. */
  function PairStep(e: ConceptEntry, c: string, c1: string, c2: string): ConceptEntry
    requires Tally.Valid(e.related)
  {
    var e' := if c == c1 then BumpRelated(e, c2) else e;
    if c == c2 then BumpRelated(e', c1) else e'
  }

  lemma SecondPassStep(e: ConceptEntry, e0: ConceptEntry, ps: seq<(string, string)>, c: string, c1: string, c2: string)
    requires SecondPass(e, e0, ps, c)
    ensures SecondPass(PairStep(e, c, c1, c2), e0, ps + [(c1, c2)], c)
  {
    forall y ensures Tally.Count(PairStep(e, c, c1, c2).related, y) == CoCount(ps + [(c1, c2)], c, y) {
      CoCountStep(ps, c1, c2, c, y);
    }
  }

  /** `relatedConcepts[y] = (relatedConcepts[y] || 0) + 1` on one entry. */
  function BumpRelated(e: ConceptEntry, y: string): (r: ConceptEntry)
    requires Tally.Valid(e.related)
    ensures r == e.(related := r.related) && Tally.Valid(r.related)
    ensures Tally.Count(r.related, y) == Tally.Count(e.related, y) + 1
    ensures forall z :: z != y ==> Tally.Count(r.related, z) == Tally.Count(e.related, z)
  {
    e.(related := Tally.Bump(e.related, y))
  }

  lemma CoCountStep(ps: seq<(string, string)>, c1: string, c2: string, x: string, y: string)
    ensures CoCount(ps + [(c1, c2)], x, y)
         == CoCount(ps, x, y) + (if (x, y) == (c1, c2) then 1 else 0) + (if (y, x) == (c1, c2) then 1 else 0)
  {
    assert (ps + [(c1, c2)])[..|ps|] == ps;
  }

  lemma RowsStep(cs: seq<string>, i: nat)
    requires i < |cs|
    ensures Rows(cs, i + 1) == Rows(cs, i) + Row(cs, i)
  {
  }

  /** The inner loop: the pairs (cs[i], cs[j]) for j > i. */
  method CountRow(index1: map<string, ConceptEntry>, index0: map<string, ConceptEntry>,
                  ghost done: seq<(string, string)>, cs: seq<string>, i: nat)
    returns (index: map<string, ConceptEntry>)
    requires i < |cs|
    requires Paired(index1, index0, done)
    ensures Paired(index, index0, done + Row(cs, i))
  {
    index := index1;
    ghost var row := Row(cs, i);
    assert done + row[..0] == done;
    var j := i + 1;
    while j < |cs|
      invariant i + 1 <= j <= |cs|
      invariant Paired(index, index0, done + row[..j - i - 1])
    {
      index := RecordPair(index, index0, done + row[..j - i - 1], cs[i], cs[j]);
      SnocPrefix(done, row, j - i - 1);
      j := j + 1;
    }
    assert row[..j - i - 1] == row;
  }

  /** The pairs (cs[i], cs[j]), i < j, of one article's concept list, in loop order. */
  method CountArticlePairs(index1: map<string, ConceptEntry>, index0: map<string, ConceptEntry>,
                           ghost done: seq<(string, string)>, cs: seq<string>)
    returns (index: map<string, ConceptEntry>)
    requires Paired(index1, index0, done)
    ensures Paired(index, index0, done + PairsOf(cs))
  {
    index := index1;
    assert done + Rows(cs, 0) == done;
    var i := 0;
    while i < |cs|
      invariant 0 <= i <= |cs|
      invariant Paired(index, index0, done + Rows(cs, i))
    {
      index := CountRow(index, index0, done + Rows(cs, i), cs, i);
      RowsStep(cs, i);
      assert done + Rows(cs, i + 1) == done + Rows(cs, i) + Row(cs, i);
      i := i + 1;
    }
  }

  /** Second pass: for every pair i < j of one article's listings,
      `relatedConcepts` is bumped both ways. */
  method CountCoOccurrences(arts: seq<Article>, index0: map<string, ConceptEntry>) returns (index: map<string, ConceptEntry>)
    requires forall c :: c in index0 ==> index0[c].related == Tally.Empty()
    ensures Paired(index, index0, AllPairs(arts))
  {
    index := index0;
    var n := 0;
    while n < |arts|
      invariant 0 <= n <= |arts|
      invariant Paired(index, index0, AllPairs(arts[..n]))
    {
      index := CountArticlePairs(index, index0, AllPairs(arts[..n]), arts[n].concepts);
      AllPairsStep(arts, n);
      n := n + 1;
    }
    assert arts[..n] == arts;
  }

  /** The entry of concept c once both passes have run over arts. */
  ghost predicate Indexed(e: ConceptEntry, arts: seq<Article>, c: string) {
    && e.name == c
    && e.count == |e.articles| == multiset(Names(Mentions(arts)))[c]
    && e.articles == SlugsOf(Mentions(arts), c)
    && Tally.Valid(e.topics) && Tally.Valid(e.related)
    && (forall t :: Tally.Count(e.topics, t) == TopicCount(Mentions(arts), c, t))
    && (forall y :: Tally.Count(e.related, y) == CoCount(AllPairs(arts), c, y))
  }

  lemma BothPasses(e: ConceptEntry, e0: ConceptEntry, arts: seq<Article>, c: string)
    requires FirstPass(e0, Mentions(arts), c)
    requires SecondPass(e, e0, AllPairs(arts), c)
    ensures Indexed(e, arts, c)
  {
    SlugsCount(Mentions(arts), c);
  }

  /** `buildConceptIndex`: both passes. The keys are the listed concepts in
      order of first listing; each entry's count is the length of its article
      list, which holds one slug per listing; the topic distribution and the
      co-occurrence counts are those the two passes accumulate; and
      co-occurrence is symmetric. */
  method BuildConceptIndex(arts: seq<Article>) returns (index: map<string, ConceptEntry>, order: seq<string>)
    ensures order == Distinct(Names(Mentions(arts)))
    ensures forall c :: c in index <==> c in order
    ensures forall c :: c in index ==> Indexed(index[c], arts, c)
    ensures forall x, y :: x in index && y in index ==>
      Tally.Count(index[x].related, y) == Tally.Count(index[y].related, x)
    ensures forall n, k :: 0 <= n < |arts| && 0 <= k < |arts[n].concepts| ==> arts[n].concepts[k] in index
  {
    var first;
    first, order := CollectConcepts(arts);
    forall n, k | 0 <= n < |arts| && 0 <= k < |arts[n].concepts|
      ensures arts[n].concepts[k] in first
    {
      ListedIsMentioned(arts, n, k);
    }
    index := CountCoOccurrences(arts, first);
    forall c | c in index ensures Indexed(index[c], arts, c) {
      BothPasses(index[c], first[c], arts, c);
    }
    Symmetric(index, arts);
  }

  /** Co-occurrence is symmetric: every pair is counted under both of its concepts. */
  lemma Symmetric(index: map<string, ConceptEntry>, arts: seq<Article>)
    requires forall c :: c in index ==> Indexed(index[c], arts, c)
    ensures forall x, y :: x in index && y in index ==>
      Tally.Count(index[x].related, y) == Tally.Count(index[y].related, x)
  {
    forall x, y | x in index && y in index
      ensures Tally.Count(index[x].related, y) == Tally.Count(index[y].related, x)
    {
      assert Indexed(index[x], arts, x) && Indexed(index[y], arts, y);
    }
  }

  /** Every listing is among the mentions the first pass visits. */
  lemma {:induction false} ListedIsMentioned(arts: seq<Article>, n: nat, k: nat)
    requires n < |arts| && k < |arts[n].concepts|
    ensures arts[n].concepts[k] in Names(Mentions(arts))
  {
    var init := arts[..|arts| - 1];
    assert Mentions(arts) == Mentions(init) + MentionsOf(arts[|arts| - 1]);
    if n == |arts| - 1 {
      assert Mentions(arts)[|Mentions(init)| + k].concept == arts[n].concepts[k];
    } else {
      ListedIsMentioned(init, n, k);
      var p :| 0 <= p < |Names(Mentions(init))| && Names(Mentions(init))[p] == arts[n].concepts[k];
      assert Mentions(arts)[p] == Mentions(init)[p];
    }
  }
}
