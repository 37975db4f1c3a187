/** The node and edge lists of scripts/build-graph-index.ts (`buildGraph`):
    one node per article, then one per concept of the concept index in key
    order, then one per distinct topic; a `has-concept` edge per listing and a
    `related-article` edge per relationship of weight at least three. No
    `topic-classification` edge is ever produced. */
module GraphAssembly {
  import opened Common
  import opened GraphModel

  /** `relationships[slug] || []`. */
  function RelatedOf(rels: map<string, seq<Relationship>>, slug: string): seq<Relationship> {
    if slug in rels then rels[slug] else []
  }

  /** An article's node: sized by its related-list length plus its concept count. */
  function ArticleNodeOf(a: Article, rels: map<string, seq<Relationship>>): Node {
    Node(ArticleId(a.slug), ArticleNode, a.title, Some(|RelatedOf(rels, a.slug)| + |a.concepts|), a.topic)
  }

  function ArticleNodes(arts: seq<Article>, rels: map<string, seq<Relationship>>): (r: seq<Node>)
    ensures |r| == |arts|
  {
    if arts == [] then [] else ArticleNodes(arts[..|arts| - 1], rels) + [ArticleNodeOf(arts[|arts| - 1], rels)]
  }

  function ConceptEdge(slug: string, c: string): Edge {
    Edge(ArticleId(slug), ConceptId(c), HasConcept, None)
  }

  /** One `has-concept` edge per concept listing of the article, in list order. */
  function ConceptEdges(slug: string, cs: seq<string>): (r: seq<Edge>)
    ensures |r| == |cs|
  {
    if cs == [] then [] else ConceptEdges(slug, cs[..|cs| - 1]) + [ConceptEdge(slug, cs[|cs| - 1])]
  }

  /** One `related-article` edge, carrying the weight, per relationship of weight at least three. */
  function RelatedEdges(slug: string, rs: seq<Relationship>): seq<Edge> {
    if rs == [] then []
    else
      var r := rs[|rs| - 1];
      RelatedEdges(slug, rs[..|rs| - 1])
        + (if r.weight >= 3 then [Edge(ArticleId(slug), ArticleId(r.slug), RelatedArticle, Some(r.weight))] else [])
  }

  function ArticleEdges(a: Article, rels: map<string, seq<Relationship>>): seq<Edge> {
    ConceptEdges(a.slug, a.concepts) + RelatedEdges(a.slug, RelatedOf(rels, a.slug))
  }

  function GraphEdges(arts: seq<Article>, rels: map<string, seq<Relationship>>): seq<Edge> {
    if arts == [] then [] else GraphEdges(arts[..|arts| - 1], rels) + ArticleEdges(arts[|arts| - 1], rels)
  }

  /** One node per key of the concept index, in key order, sized by its count. */
  function ConceptNodes(order: seq<string>, index: map<string, ConceptEntry>): (r: seq<Node>)
    requires forall c :: c in order ==> c in index
    ensures |r| == |order|
  {
    if order == [] then []
    else
      var c := order[|order| - 1];
      ConceptNodes(order[..|order| - 1], index) + [Node(ConceptId(c), ConceptNode, c, Some(index[c].count), None)]
  }

  /** The truthy topics of the articles, in article order, repeats included. */
  function TopicList(arts: seq<Article>): seq<string> {
    if arts == [] then []
    else
      var a := arts[|arts| - 1];
      TopicList(arts[..|arts| - 1]) + (if Truthy(a.topic) then [a.topic.value] else [])
  }

  /** `new Set(articles.map(a => a.topic).filter(Boolean))`. */
  function Topics(arts: seq<Article>): seq<string> {
    Distinct(TopicList(arts))
  }

  /** `articles.filter(a => a.topic === t).length`. */
  function WithTopic(arts: seq<Article>, t: string): nat {
    if arts == [] then 0
    else WithTopic(arts[..|arts| - 1], t) + (if arts[|arts| - 1].topic == Some(t) then 1 else 0)
  }

  function TopicNodes(ts: seq<string>, arts: seq<Article>): (r: seq<Node>)
    ensures |r| == |ts|
  {
    if ts == [] then []
    else
      var t := ts[|ts| - 1];
      TopicNodes(ts[..|ts| - 1], arts) + [Node(TopicId(t), TopicNode, t, Some(WithTopic(arts, t)), None)]
  }

  lemma ArticleStep(arts: seq<Article>, i: nat, rels: map<string, seq<Relationship>>)
    requires i < |arts|
    ensures ArticleNodes(arts[..i + 1], rels) == ArticleNodes(arts[..i], rels) + [ArticleNodeOf(arts[i], rels)]
    ensures GraphEdges(arts[..i + 1], rels) == GraphEdges(arts[..i], rels) + ArticleEdges(arts[i], rels)
  {
    assert arts[..i + 1][..i] == arts[..i];
  }

  lemma ConceptNodesStep(order: seq<string>, k: nat, index: map<string, ConceptEntry>)
    requires k < |order| && forall c :: c in order ==> c in index
    ensures ConceptNodes(order[..k + 1], index)
         == ConceptNodes(order[..k], index) + [Node(ConceptId(order[k]), ConceptNode, order[k], Some(index[order[k]].count), None)]
  {
    assert order[..k + 1][..k] == order[..k];
  }

  lemma TopicNodesStep(ts: seq<string>, n: nat, arts: seq<Article>)
    requires n < |ts|
    ensures TopicNodes(ts[..n + 1], arts) == TopicNodes(ts[..n], arts) + [Node(TopicId(ts[n]), TopicNode, ts[n], Some(WithTopic(arts, ts[n])), None)]
  {
    assert ts[..n + 1][..n] == ts[..n];
  }

  /** The edges of one article: its listings, then its heavy relationships. */
  method AddArticleEdges(edges0: seq<Edge>, a: Article, rels: map<string, seq<Relationship>>) returns (edges: seq<Edge>)
    ensures edges == edges0 + ArticleEdges(a, rels)
  {
    edges := edges0;
    var k := 0;
    while k < |a.concepts|
      invariant 0 <= k <= |a.concepts|
      invariant edges == edges0 + ConceptEdges(a.slug, a.concepts[..k])
    {
      assert a.concepts[..k + 1][..k] == a.concepts[..k];
      edges := edges + [Edge(ArticleId(a.slug), ConceptId(a.concepts[k]), HasConcept, None)];
      k := k + 1;
    }
    assert a.concepts[..k] == a.concepts;
    var related := if a.slug in rels then rels[a.slug] else [];
    var n := 0;
    while n < |related|
      invariant 0 <= n <= |related|
      invariant edges == edges0 + ConceptEdges(a.slug, a.concepts) + RelatedEdges(a.slug, related[..n])
    {
      assert related[..n + 1][..n] == related[..n];
      var r := related[n];
      if r.weight >= 3 {
        edges := edges + [Edge(ArticleId(a.slug), ArticleId(r.slug), RelatedArticle, Some(r.weight))];
      }
      n := n + 1;
    }
    assert related[..n] == related;
  }

  /** The body of the article loop: the article's node, then its edges. */
  method AddArticle(nodes0: seq<Node>, edges0: seq<Edge>, a: Article, rels: map<string, seq<Relationship>>)
    returns (nodes: seq<Node>, edges: seq<Edge>)
    ensures nodes == nodes0 + [ArticleNodeOf(a, rels)]
    ensures edges == edges0 + ArticleEdges(a, rels)
  {
    var connectionCount := if a.slug in rels then |rels[a.slug]| else 0;
    nodes := nodes0 + [Node(ArticleId(a.slug), ArticleNode, a.title, Some(connectionCount + |a.concepts|), a.topic)];
    edges := AddArticleEdges(edges0, a, rels);
  }

  /** `buildGraph`: article nodes with their edges, then concept nodes in the
      key order of the concept index, then topic nodes. */
  method BuildGraph(arts: seq<Article>, index: map<string, ConceptEntry>, order: seq<string>,
                    rels: map<string, seq<Relationship>>)
    returns (nodes: seq<Node>, edges: seq<Edge>)
    requires forall c :: c in order ==> c in index
    ensures nodes == ArticleNodes(arts, rels) + ConceptNodes(order, index) + TopicNodes(Topics(arts), arts)
    ensures edges == GraphEdges(arts, rels)
  {
    nodes, edges := [], [];
    var i := 0;
    while i < |arts|
      invariant 0 <= i <= |arts|
      invariant nodes == ArticleNodes(arts[..i], rels)
      invariant edges == GraphEdges(arts[..i], rels)
    {
      nodes, edges := AddArticle(nodes, edges, arts[i], rels);
      ArticleStep(arts, i, rels);
      i := i + 1;
    }
    assert arts[..i] == arts;
    nodes := AddConceptNodes(nodes, order, index);
    var topicSet := Topics(arts);
    nodes := AddTopicNodes(nodes, topicSet, arts);
  }

  /** `for (const [conceptKey, conceptData] of Object.entries(concepts))`. */
  method AddConceptNodes(nodes0: seq<Node>, order: seq<string>, index: map<string, ConceptEntry>) returns (nodes: seq<Node>)
    requires forall c :: c in order ==> c in index
    ensures nodes == nodes0 + ConceptNodes(order, index)
  {
    nodes := nodes0;
    var k := 0;
    while k < |order|
      invariant 0 <= k <= |order|
      invariant nodes == nodes0 + ConceptNodes(order[..k], index)
    {
      ConceptNodesStep(order, k, index);
      var c := order[k];
      nodes := nodes + [Node(ConceptId(c), ConceptNode, c, Some(index[c].count), None)];
      k := k + 1;
    }
    assert order[..k] == order;
  }

  /** `for (const topic of topicSet)`. */
  method AddTopicNodes(nodes0: seq<Node>, topicSet: seq<string>, arts: seq<Article>) returns (nodes: seq<Node>)
    ensures nodes == nodes0 + TopicNodes(topicSet, arts)
  {
    nodes := nodes0;
    var n := 0;
    while n < |topicSet|
      invariant 0 <= n <= |topicSet|
      invariant nodes == nodes0 + TopicNodes(topicSet[..n], arts)
    {
      TopicNodesStep(topicSet, n, arts);
      var t := topicSet[n];
      nodes := nodes + [Node(TopicId(t), TopicNode, t, Some(WithTopic(arts, t)), None)];
      n := n + 1;
    }
    assert topicSet[..n] == topicSet;
  }

  /** How many times articles with slug s list concept c. */
  function Listings(arts: seq<Article>, s: string, c: string): nat {
    if arts == [] then 0
    else
      var a := arts[|arts| - 1];
      Listings(arts[..|arts| - 1], s, c) + (if a.slug == s then multiset(a.concepts)[c] else 0)
  }

  lemma PrefixCancel(p: string, x: string, y: string)
    requires p + x == p + y
    ensures x == y
  {
    assert x == (p + x)[|p|..];
    assert y == (p + y)[|p|..];
  }

  lemma {:induction false} ConceptEdgesCount(slug: string, cs: seq<string>, s: string, c: string)
    ensures multiset(ConceptEdges(slug, cs))[ConceptEdge(s, c)] == if slug == s then multiset(cs)[c] else 0
  {
    if cs != [] {
      var init, last := cs[..|cs| - 1], cs[|cs| - 1];
      ConceptEdgesCount(slug, init, s, c);
      assert cs == init + [last];
      if ConceptEdge(slug, last) == ConceptEdge(s, c) {
        PrefixCancel("article:", slug, s);
        PrefixCancel("concept:", last, c);
      }
    }
  }

  lemma {:induction false} RelatedEdgesKind(slug: string, rs: seq<Relationship>)
    ensures forall e :: e in RelatedEdges(slug, rs) ==> e.kind == RelatedArticle
  {
    if rs != [] {
      RelatedEdgesKind(slug, rs[..|rs| - 1]);
    }
  }

  /** Exactly one `has-concept` edge per listing of a concept on an article:
      a concept listed twice gives two equal edges. */
  lemma {:induction false} HasConceptEdges(arts: seq<Article>, rels: map<string, seq<Relationship>>, s: string, c: string)
    ensures multiset(GraphEdges(arts, rels))[ConceptEdge(s, c)] == Listings(arts, s, c)
  {
    if arts != [] {
      var init, a := arts[..|arts| - 1], arts[|arts| - 1];
      HasConceptEdges(init, rels, s, c);
      ConceptEdgesCount(a.slug, a.concepts, s, c);
      RelatedEdgesKind(a.slug, RelatedOf(rels, a.slug));
      assert ConceptEdge(s, c) !in RelatedEdges(a.slug, RelatedOf(rels, a.slug));
    }
  }

  lemma {:induction false} RelatedEdgesMembers(slug: string, rs: seq<Relationship>, e: Edge)
    ensures e in RelatedEdges(slug, rs) <==>
      exists r :: r in rs && r.weight >= 3 && e == Edge(ArticleId(slug), ArticleId(r.slug), RelatedArticle, Some(r.weight))
  {
    if rs != [] {
      var init := rs[..|rs| - 1];
      RelatedEdgesMembers(slug, init, e);
      assert rs == init + [rs[|rs| - 1]];
    }
  }

  lemma {:induction false} ConceptEdgesMembers(slug: string, cs: seq<string>, e: Edge)
    ensures e in ConceptEdges(slug, cs) <==> exists c :: c in cs && e == ConceptEdge(slug, c)
  {
    if cs != [] {
      var init := cs[..|cs| - 1];
      ConceptEdgesMembers(slug, init, e);
      assert cs == init + [cs[|cs| - 1]];
    }
  }

  /** Every edge is a listing of an article or one of its relationships of
      weight at least three, carrying that weight; every such relationship has
      its edge; and no edge is a `topic-classification` edge. */
  lemma {:induction false} EdgesExact(arts: seq<Article>, rels: map<string, seq<Relationship>>, e: Edge)
    ensures e in GraphEdges(arts, rels) <==>
      exists a :: a in arts &&
        ((exists c :: c in a.concepts && e == ConceptEdge(a.slug, c)) ||
         (exists r :: r in RelatedOf(rels, a.slug) && r.weight >= 3
            && e == Edge(ArticleId(a.slug), ArticleId(r.slug), RelatedArticle, Some(r.weight))))
    ensures e in GraphEdges(arts, rels) ==> e.kind != TopicClassification
  {
    if arts != [] {
      var init, a := arts[..|arts| - 1], arts[|arts| - 1];
      EdgesExact(init, rels, e);
      ConceptEdgesMembers(a.slug, a.concepts, e);
      RelatedEdgesMembers(a.slug, RelatedOf(rels, a.slug), e);
      assert arts == init + [a];
    }
  }

  /** The topic nodes: one per distinct truthy topic. */
  lemma TopicsExact(arts: seq<Article>, t: string)
    ensures NoDup(Topics(arts))
    ensures t in Topics(arts) <==> exists a :: a in arts && Truthy(a.topic) && a.topic.value == t
  {
    TopicListMembers(arts, t);
  }

  lemma {:induction false} TopicListMembers(arts: seq<Article>, t: string)
    ensures t in TopicList(arts) <==> exists a :: a in arts && Truthy(a.topic) && a.topic.value == t
  {
    if arts != [] {
      var init := arts[..|arts| - 1];
      TopicListMembers(init, t);
      assert arts == init + [arts[|arts| - 1]];
    }
  }

  /** A truthy topic's node value is its number of occurrences among the topics. */
  lemma {:induction false} WithTopicCount(arts: seq<Article>, t: string)
    requires t != ""
    ensures WithTopic(arts, t) == multiset(TopicList(arts))[t]
  {
    if arts != [] {
      WithTopicCount(arts[..|arts| - 1], t);
    }
  }

  /** The sum of the node values of the given topics. */
  function TopicTotal(ts: seq<string>, arts: seq<Article>): nat {
    if ts == [] then 0 else TopicTotal(ts[..|ts| - 1], arts) + WithTopic(arts, ts[|ts| - 1])
  }

  /** The topic node values add up to the number of articles with a topic. */
  lemma TopicNodesTotal(arts: seq<Article>)
    ensures TopicTotal(Topics(arts), arts) == |TopicList(arts)|
  {
    var ts := Topics(arts);
    forall t | t in ts ensures WithTopic(arts, t) == multiset(TopicList(arts))[t] {
      TopicListEmpty(arts);
      WithTopicCount(arts, t);
    }
    CountsTotal(ts, TopicList(arts), arts);
  }

  lemma {:induction false} TopicListEmpty(arts: seq<Article>)
    ensures "" !in TopicList(arts)
  {
    if arts != [] {
      TopicListEmpty(arts[..|arts| - 1]);
    }
  }

  lemma {:induction false} CountsTotal(ts: seq<string>, xs: seq<string>, arts: seq<Article>)
    requires NoDup(ts) && forall x :: x in xs ==> x in ts
    requires forall t :: t in ts ==> WithTopic(arts, t) == multiset(xs)[t]
    ensures TopicTotal(ts, arts) == |xs|
  {
    OccurrencesTotal(ts, xs);
    TotalsAgree(ts, xs, arts);
  }

  lemma {:induction false} TotalsAgree(ts: seq<string>, xs: seq<string>, arts: seq<Article>)
    requires forall t :: t in ts ==> WithTopic(arts, t) == multiset(xs)[t]
    ensures TopicTotal(ts, arts) == Occurrences(ts, xs)
  {
    if ts != [] {
      TotalsAgree(ts[..|ts| - 1], xs, arts);
    }
  }
}
