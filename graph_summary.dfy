/** The part of `main` in scripts/build-graph-index.ts that gathers the index
    around the graph: the total number of relationships, the per-article
    records, the topic index (topic to article slugs) and the statistics. */
module GraphSummary {
  import opened Common
  import opened GraphModel
  import ConceptIndex
  import Relationships
  import GraphAssembly
  import Tally

  /** The slugs of the articles, in order, repeats included. */
  function Slugs(arts: seq<Article>): (r: seq<string>)
    ensures |r| == |arts|
    ensures forall i :: 0 <= i < |arts| ==> r[i] == arts[i].slug
  {
    seq(|arts|, i requires 0 <= i < |arts| => arts[i].slug)
  }

  /** `Object.values(relationships).reduce((sum, rels) => sum + rels.length, 0)`
      over the keys ks of the record. */
  function Connections(ks: seq<string>, rels: map<string, seq<Relationship>>): nat {
    if ks == [] then 0 else Connections(ks[..|ks| - 1], rels) + |GraphAssembly.RelatedOf(rels, ks[|ks| - 1])|
  }

  /** `articles.reduce((sum, a) => sum + (a.related_concepts?.length || 0), 0)`. */
  function Listed(arts: seq<Article>): nat {
    if arts == [] then 0 else Listed(arts[..|arts| - 1]) + |arts[|arts| - 1].concepts|
  }

  /** `Math.round(num / n * 10)` for n articles, in exact arithmetic: the
      nearest whole number of tenths, halves rounded up; 0 without articles. */
  function Tenths(num: nat, n: nat): (t: nat)
    ensures n == 0 ==> t == 0
    ensures n > 0 ==> 2 * n * t <= 20 * num + n < 2 * n * (t + 1)
  {
    if n == 0 then 0 else (20 * num + n) / (2 * n)
  }

  function ComputeStats(arts: seq<Article>, conceptKeys: seq<string>, topicKeys: seq<string>, totalConnections: nat): Stats {
    Stats(|arts|, |conceptKeys|, |topicKeys|, Tenths(Listed(arts), |arts|), Tenths(totalConnections, |arts|))
  }

  /** The record after the first n articles: a later article with the same slug
      overwrites an earlier one. */
  function ArticleRecords(arts: seq<Article>, rels: map<string, seq<Relationship>>, n: nat): map<string, ArticleGraphData>
    requires n <= |arts|
  {
    if n == 0 then map[]
    else
      var a := arts[n - 1];
      ArticleRecords(arts, rels, n - 1)[a.slug := ArticleGraphData(a.slug, a.title, a.topic, a.concepts, a.tags, GraphAssembly.RelatedOf(rels, a.slug))]
  }

  /** `articleGraphData[article.slug] = {...}` for every article in order. */
  method BuildArticleRecords(arts: seq<Article>, rels: map<string, seq<Relationship>>)
    returns (data: map<string, ArticleGraphData>)
    ensures data == ArticleRecords(arts, rels, |arts|)
  {
    data := map[];
    var i := 0;
    while i < |arts|
      invariant 0 <= i <= |arts|
      invariant data == ArticleRecords(arts, rels, i)
    {
      var a := arts[i];
      data := data[a.slug := ArticleGraphData(a.slug, a.title, a.topic, a.concepts, a.tags,
                                              if a.slug in rels then rels[a.slug] else [])];
      i := i + 1;
    }
  }

  /** The published record of each slug is that of the last article with that slug. */
  lemma {:induction false} ArticleRecordsLookup(arts: seq<Article>, rels: map<string, seq<Relationship>>, n: nat, slug: string)
    requires n <= |arts|
    ensures slug in ArticleRecords(arts, rels, n) <==> slug in Slugs(arts[..n])
    ensures slug in ArticleRecords(arts, rels, n) ==>
      exists i :: 0 <= i < n && arts[i].slug == slug && (forall j :: i < j < n ==> arts[j].slug != slug)
        && ArticleRecords(arts, rels, n)[slug].title == arts[i].title
        && ArticleRecords(arts, rels, n)[slug].concepts == arts[i].concepts
        && ArticleRecords(arts, rels, n)[slug].related == GraphAssembly.RelatedOf(rels, slug)
  {
    if n > 0 {
      ArticleRecordsLookup(arts, rels, n - 1, slug);
      assert Slugs(arts[..n]) == Slugs(arts[..n - 1]) + [arts[n - 1].slug];
    }
  }

  /** The slugs of the articles whose topic is t, in order. */
  function SlugsWithTopic(arts: seq<Article>, t: string): seq<string> {
    if arts == [] then []
    else
      var a := arts[|arts| - 1];
      SlugsWithTopic(arts[..|arts| - 1], t) + (if a.topic == Some(t) then [a.slug] else [])
  }

  /** What the topic loop leaves after the first n articles. */
  ghost predicate TopicsSoFar(topics: map<string, seq<string>>, keys: seq<string>, arts: seq<Article>) {
    && keys == GraphAssembly.Topics(arts)
    && (forall t :: t in topics <==> t in keys)
    && (forall t :: t in topics ==> topics[t] == SlugsWithTopic(arts, t))
  }

  lemma TopicStep(topics: map<string, seq<string>>, keys: seq<string>, arts: seq<Article>, a: Article)
    requires TopicsSoFar(topics, keys, arts)
    requires Truthy(a.topic)
    ensures TopicsSoFar(
      topics[a.topic.value := (if a.topic.value in topics then topics[a.topic.value] else []) + [a.slug]],
      SetAdd(keys, a.topic.value), arts + [a])
  {
    var t := a.topic.value;
    var arts' := arts + [a];
    var topics' := topics[t := (if t in topics then topics[t] else []) + [a.slug]];
    assert arts'[..|arts|] == arts && arts'[|arts|] == a;
    assert GraphAssembly.TopicList(arts') == GraphAssembly.TopicList(arts) + [t];
    DistinctSnoc(GraphAssembly.TopicList(arts), t);
    forall u | u in topics' ensures topics'[u] == SlugsWithTopic(arts', u) {
      assert SlugsWithTopic(arts', u) == SlugsWithTopic(arts, u) + (if u == t then [a.slug] else []);
      if u == t && t !in topics {
        SlugsNone(arts, t);
      }
    }
  }

  lemma TopicSkip(topics: map<string, seq<string>>, keys: seq<string>, arts: seq<Article>, a: Article)
    requires TopicsSoFar(topics, keys, arts)
    requires !Truthy(a.topic)
    ensures TopicsSoFar(topics, keys, arts + [a])
  {
    assert (arts + [a])[..|arts|] == arts;
    assert GraphAssembly.TopicList(arts + [a]) == GraphAssembly.TopicList(arts);
    forall t | t in topics ensures topics[t] == SlugsWithTopic(arts + [a], t) {
      GraphAssembly.TopicListEmpty(arts);
    }
  }

  lemma {:induction false} SlugsNone(arts: seq<Article>, t: string)
    requires t !in GraphAssembly.TopicList(arts) && t != ""
    ensures SlugsWithTopic(arts, t) == []
  {
    if arts != [] {
      SlugsNone(arts[..|arts| - 1], t);
    }
  }

  /** The topic index: every article with a truthy topic has its slug appended to
      that topic's list, which is created on first sight. */
  method BuildTopicIndex(arts: seq<Article>) returns (topics: map<string, seq<string>>, keys: seq<string>)
    ensures TopicsSoFar(topics, keys, arts)
  {
    topics, keys := map[], [];
    var i := 0;
    while i < |arts|
      invariant 0 <= i <= |arts|
      invariant TopicsSoFar(topics, keys, arts[..i])
    {
      var a := arts[i];
      assert arts[..i + 1] == arts[..i] + [a];
      if Truthy(a.topic) {
        var t := a.topic.value;
        TopicStep(topics, keys, arts[..i], a);
        var list := if t in topics then topics[t] else [];
        if t !in topics {
          keys := keys + [t];
        }
        topics := topics[t := list + [a.slug]];
      } else {
        TopicSkip(topics, keys, arts[..i], a);
      }
      i := i + 1;
    }
    assert arts[..i] == arts;
  }

  /** A topic's list in the topic index is as long as its graph node's value,
      and there are as many topics in the index as topic nodes in the graph. */
  lemma {:induction false} TopicIndexMatchesGraph(arts: seq<Article>, topics: map<string, seq<string>>, keys: seq<string>, t: string)
    requires TopicsSoFar(topics, keys, arts)
    requires t in topics
    ensures |topics[t]| == GraphAssembly.WithTopic(arts, t)
    ensures |keys| == |GraphAssembly.Topics(arts)|
  {
    SlugsWithTopicCount(arts, t);
  }

  lemma {:induction false} SlugsWithTopicCount(arts: seq<Article>, t: string)
    ensures |SlugsWithTopic(arts, t)| == GraphAssembly.WithTopic(arts, t)
  {
    if arts != [] {
      SlugsWithTopicCount(arts[..|arts| - 1], t);
    }
  }

  /** The numerator of the concepts-per-article average equals the sum of the
      concept counts over the concept index. */
  lemma ListedIsTotalCount(arts: seq<Article>, index: map<string, ConceptEntry>, order: seq<string>)
    requires order == Distinct(ConceptIndex.Names(ConceptIndex.Mentions(arts)))
    requires forall c :: c in order ==> c in index && ConceptIndex.Indexed(index[c], arts, c)
    ensures CountTotal(order, index) == Listed(arts)
  {
    var names := ConceptIndex.Names(ConceptIndex.Mentions(arts));
    CountTotalIsOccurrences(order, index, arts);
    OccurrencesTotal(order, names);
    MentionsLength(arts);
  }

  /** The sum of the counts of the given keys of the concept index. */
  function CountTotal(order: seq<string>, index: map<string, ConceptEntry>): nat
    requires forall c :: c in order ==> c in index
  {
    if order == [] then 0 else CountTotal(order[..|order| - 1], index) + index[order[|order| - 1]].count
  }

  lemma {:induction false} CountTotalIsOccurrences(order: seq<string>, index: map<string, ConceptEntry>, arts: seq<Article>)
    requires forall c :: c in order ==> c in index && ConceptIndex.Indexed(index[c], arts, c)
    ensures CountTotal(order, index) == Occurrences(order, ConceptIndex.Names(ConceptIndex.Mentions(arts)))
  {
    if order != [] {
      CountTotalIsOccurrences(order[..|order| - 1], index, arts);
    }
  }

  lemma {:induction false} MentionsLength(arts: seq<Article>)
    ensures |ConceptIndex.Mentions(arts)| == Listed(arts)
  {
    if arts != [] {
      MentionsLength(arts[..|arts| - 1]);
    }
  }

  /** Each article's related list has at most ten entries, so the total number
      of relationships is at most ten per distinct slug. */
  lemma {:induction false} ConnectionsBounded(arts: seq<Article>, ks: seq<string>)
    ensures Connections(ks, Relationships.Relations(arts, |arts|)) <= 10 * |ks|
  {
    if ks != [] {
      ConnectionsBounded(arts, ks[..|ks| - 1]);
      var k := ks[|ks| - 1];
      var rels := Relationships.Relations(arts, |arts|);
      if k in rels {
        Relationships.RelationsLookup(arts, |arts|, k);
        var i :| 0 <= i < |arts| && arts[i].slug == k && rels[k] == Relationships.TopRelated(arts, arts[i])
          && forall j :: i < j < |arts| ==> arts[j].slug != k;
        Relationships.TopRelatedShape(arts, arts[i]);
      }
    }
  }

  /** Without articles every statistic is zero, as in the index written when
      there is no content directory. */
  lemma EmptyStats()
    ensures ComputeStats([], [], [], 0) == Stats(0, 0, 0, 0, 0)
  {
  }

  /** The graph index `main` writes: the concept index with its key order, the
      article records, the topic index with its key order, the graph and the
      statistics. */
  datatype GraphIndexData = GraphIndexData(
    concepts: map<string, ConceptEntry>,
    conceptKeys: seq<string>,
    articles: map<string, ArticleGraphData>,
    topics: map<string, seq<string>>,
    topicKeys: seq<string>,
    nodes: seq<Node>,
    edges: seq<Edge>,
    stats: Stats)

  /** The body of `main` once the articles are read. The concept index has one
      entry per listed concept, in first-listing order, each with the counts of
      both passes and symmetric co-occurrences; each article record is that of
      the last article with its slug; the statistics agree with the graph: one
      concept node per concept and one topic node per topic of the topic index. */
  method BuildGraphIndex(arts: seq<Article>) returns (g: GraphIndexData)
    ensures g.conceptKeys == Distinct(ConceptIndex.Names(ConceptIndex.Mentions(arts)))
    ensures forall c :: c in g.concepts <==> c in g.conceptKeys
    ensures forall c :: c in g.concepts ==> ConceptIndex.Indexed(g.concepts[c], arts, c)
    ensures forall x, y :: x in g.concepts && y in g.concepts ==>
      Tally.Count(g.concepts[x].related, y) == Tally.Count(g.concepts[y].related, x)
    ensures g.articles == ArticleRecords(arts, Relationships.Relations(arts, |arts|), |arts|)
    ensures g.stats.totalArticles == |arts|
    ensures g.stats.totalConcepts == |g.conceptKeys| == |GraphAssembly.ConceptNodes(g.conceptKeys, g.concepts)|
    ensures g.stats.totalTopics == |g.topicKeys| == |GraphAssembly.TopicNodes(GraphAssembly.Topics(arts), arts)|
    ensures g.stats.avgConceptsTenths == Tenths(Listed(arts), |arts|)
    ensures g.stats.avgConnectionsTenths == Tenths(Connections(Distinct(Slugs(arts)), Relationships.Relations(arts, |arts|)), |arts|)
    ensures g.nodes == GraphAssembly.ArticleNodes(arts, Relationships.Relations(arts, |arts|))
                       + GraphAssembly.ConceptNodes(g.conceptKeys, g.concepts)
                       + GraphAssembly.TopicNodes(GraphAssembly.Topics(arts), arts)
    ensures g.edges == GraphAssembly.GraphEdges(arts, Relationships.Relations(arts, |arts|))
    ensures TopicsSoFar(g.topics, g.topicKeys, arts)
  {
    var concepts, conceptKeys := ConceptIndex.BuildConceptIndex(arts);
    var rels := Relationships.CalculateRelationships(arts);
    var totalConnections := Connections(Distinct(Slugs(arts)), rels);
    var data := BuildArticleRecords(arts, rels);
    var topics, topicKeys := BuildTopicIndex(arts);
    var nodes, edges := GraphAssembly.BuildGraph(arts, concepts, conceptKeys, rels);
    var stats := ComputeStats(arts, conceptKeys, topicKeys, totalConnections);
    g := GraphIndexData(concepts, conceptKeys, data, topics, topicKeys, nodes, edges, stats);
  }
}
