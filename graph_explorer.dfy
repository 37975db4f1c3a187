/** The filtering step of the graph page (site/src/pages/GraphExplorerPage.tsx):
    from the nodes and edges of the graph index it keeps those the view mode
    and the topic filter select, then at most 100 nodes, the ones with the
    largest values. The layout and the rendering are outside the model. */
module GraphExplorer {
  import opened Common
  import opened GraphModel
  import StableSort

  /** The most nodes the page draws. */
  const MaxNodes: nat := 100

  /** The topic filter's value that selects every topic. */
  const AllTopics := "all"

  datatype ViewMode = AllKinds | ConceptsView | ArticlesView

  datatype View = View(nodes: seq<Node>, edges: seq<Edge>)

  /** `new Set(nodes.map(n => n.id))`. */
  function IdSet(nodes: seq<Node>): set<string> {
    set n | n in nodes :: n.id
  }

  predicate NoArticleEnd(e: Edge) {
    !StartsWith(e.source, "article:") && !StartsWith(e.target, "article:")
  }

  /** The node filter of the view mode. */
  function ModeNodes(nodes: seq<Node>, mode: ViewMode): seq<Node> {
    match mode
    case AllKinds => nodes
    case ConceptsView => Filter(nodes, (n: Node) => n.kind == ConceptNode || n.kind == TopicNode)
    case ArticlesView => Filter(nodes, (n: Node) => n.kind == ArticleNode)
  }

  /** The edge filter of the view mode. */
  function ModeEdges(edges: seq<Edge>, mode: ViewMode): seq<Edge> {
    match mode
    case AllKinds => edges
    case ConceptsView => Filter(edges, NoArticleEnd)
    case ArticlesView => Filter(edges, (e: Edge) => e.kind == RelatedArticle)
  }

  /** The edge joins the node id to one of the articles. */
  predicate LinksTo(e: Edge, articleIds: set<string>, id: string) {
    (e.source in articleIds && e.target == id) || (e.target in articleIds && e.source == id)
  }

  /** An article node stays when it has the topic, a concept node when an edge
      links it to such an article, a topic node always. */
  predicate KeepForTopic(n: Node, topic: string, edges: seq<Edge>, articleIds: set<string>) {
    match n.kind
    case ArticleNode => n.topic == Some(topic)
    case ConceptNode => exists e :: e in edges && LinksTo(e, articleIds, n.id)
    case TopicNode => true
  }

  /** The ids of the article nodes with the topic. */
  function TopicArticleIds(nodes: seq<Node>, topic: string): set<string> {
    IdSet(Filter(nodes, (n: Node) => n.kind == ArticleNode && n.topic == Some(topic)))
  }

  /** The edges with both ends among the ids. */
  function Within(edges: seq<Edge>, ids: set<string>): seq<Edge> {
    Filter(edges, (e: Edge) => e.source in ids && e.target in ids)
  }

  /** The topic filter (lines 119-140). */
  function TopicView(nodes: seq<Node>, edges: seq<Edge>, topic: string): View {
    var articleIds := TopicArticleIds(nodes, topic);
    var kept := Filter(nodes, (n: Node) => KeepForTopic(n, topic, edges, articleIds));
    View(kept, Within(edges, IdSet(kept)))
  }

  /** `n.value || 0`. */
  function ValueOf(n: Node): int {
    if n.value.Some? then n.value.value else 0
  }

  predicate IntLt(a: int, b: int) { a < b }

  /** `[...nodes].sort((a, b) => (b.value || 0) - (a.value || 0))`: largest value
      first, ties in graph order. */
  function ByValue(nodes: seq<Node>): (r: seq<Node>)
    ensures |r| == |nodes|
  {
    StableSort.SortPermutes(nodes, ValueOf, IntLt);
    StableSort.Sort(nodes, ValueOf, IntLt)
  }

  /** The cap (lines 142-151): beyond MaxNodes nodes, the first MaxNodes by value
      and the edges between them. */
  function Capped(v: View): View {
    if |v.nodes| > MaxNodes then
      var top := ByValue(v.nodes)[..MaxNodes];
      View(top, Within(v.edges, IdSet(top)))
    else v
  }

  /** `buildGraph`'s filtering, for a view mode and a topic filter. */
  function BuildView(nodes: seq<Node>, edges: seq<Edge>, mode: ViewMode, topic: string): View {
    var ns, es := ModeNodes(nodes, mode), ModeEdges(edges, mode);
    Capped(if topic != AllTopics then TopicView(ns, es, topic) else View(ns, es))
  }

  // ---------------------------------------------------------------------------
  // Properties

  lemma IntLtIsStrictTotal()
    ensures StableSort.StrictTotal(IntLt)
  {
  }

  /** A view of at most MaxNodes nodes is left as it is. A larger one keeps
      MaxNodes nodes, all from the view, no dropped node having a larger value
      than a kept one, and exactly the edges of the view between kept nodes. */
  lemma CappedShape(v: View)
    ensures |v.nodes| <= MaxNodes ==> Capped(v) == v
    ensures |Capped(v).nodes| <= MaxNodes || Capped(v) == v
    ensures forall n :: n in Capped(v).nodes ==> n in v.nodes
    ensures forall e :: e in Capped(v).edges ==> e in v.edges
    ensures forall e :: e in v.edges && e.source in IdSet(Capped(v).nodes) && e.target in IdSet(Capped(v).nodes)
              ==> e in Capped(v).edges
    ensures |v.nodes| > MaxNodes ==> forall e :: e in Capped(v).edges ==>
              e.source in IdSet(Capped(v).nodes) && e.target in IdSet(Capped(v).nodes)
    ensures |v.nodes| > MaxNodes ==>
      && |Capped(v).nodes| == MaxNodes
      && multiset(ByValue(v.nodes)) == multiset(v.nodes)
      && Capped(v).nodes == ByValue(v.nodes)[..MaxNodes]
      && forall i, j :: 0 <= i < MaxNodes <= j < |v.nodes| ==> ValueOf(ByValue(v.nodes)[i]) >= ValueOf(ByValue(v.nodes)[j])
  {
    if |v.nodes| > MaxNodes {
      var s := ByValue(v.nodes);
      StableSort.SortPermutes(v.nodes, ValueOf, IntLt);
      IntLtIsStrictTotal();
      StableSort.SortSorted(v.nodes, ValueOf, IntLt);
      forall n | n in s[..MaxNodes] ensures n in v.nodes {
        assert n in multiset(s);
      }
    }
  }

  /** Every node and edge of the page comes from the graph index. */
  lemma BuildViewSubset(nodes: seq<Node>, edges: seq<Edge>, mode: ViewMode, topic: string)
    ensures forall n :: n in BuildView(nodes, edges, mode, topic).nodes ==> n in nodes
    ensures forall e :: e in BuildView(nodes, edges, mode, topic).edges ==> e in edges
  {
    var ns, es := ModeNodes(nodes, mode), ModeEdges(edges, mode);
    var v := if topic != AllTopics then TopicView(ns, es, topic) else View(ns, es);
    CappedShape(v);
  }

  /** In the concepts view only concept and topic nodes show, and no edge touches
      an article. */
  lemma ConceptsViewShape(nodes: seq<Node>, edges: seq<Edge>, topic: string)
    ensures forall n :: n in BuildView(nodes, edges, ConceptsView, topic).nodes ==> n.kind == ConceptNode || n.kind == TopicNode
    ensures forall e :: e in BuildView(nodes, edges, ConceptsView, topic).edges ==> NoArticleEnd(e)
  {
    BuildViewSubset(nodes, edges, ConceptsView, topic);
    var ns, es := ModeNodes(nodes, ConceptsView), ModeEdges(edges, ConceptsView);
    var v := if topic != AllTopics then TopicView(ns, es, topic) else View(ns, es);
    CappedShape(v);
  }

  /** In the articles view only article nodes and related-article edges show. */
  lemma ArticlesViewShape(nodes: seq<Node>, edges: seq<Edge>, topic: string)
    ensures forall n :: n in BuildView(nodes, edges, ArticlesView, topic).nodes ==> n.kind == ArticleNode
    ensures forall e :: e in BuildView(nodes, edges, ArticlesView, topic).edges ==> e.kind == RelatedArticle
  {
    var ns, es := ModeNodes(nodes, ArticlesView), ModeEdges(edges, ArticlesView);
    var v := if topic != AllTopics then TopicView(ns, es, topic) else View(ns, es);
    CappedShape(v);
  }

  /** Under a topic filter, before the cap: an article node stays exactly when it
      has the topic, every topic node stays, a concept node stays exactly when
      an edge links it to an article node with the topic, and the edges that
      stay are exactly those with both ends among the nodes that stay. */
  lemma TopicViewShape(nodes: seq<Node>, edges: seq<Edge>, topic: string, n: Node)
    requires n in nodes
    ensures n.kind == ArticleNode ==> (n in TopicView(nodes, edges, topic).nodes <==> n.topic == Some(topic))
    ensures n.kind == TopicNode ==> n in TopicView(nodes, edges, topic).nodes
    ensures n.kind == ConceptNode ==> (n in TopicView(nodes, edges, topic).nodes <==>
      exists e, a :: e in edges && a in nodes && a.kind == ArticleNode && a.topic == Some(topic) && LinksTo(e, {a.id}, n.id))
    ensures forall e :: e in TopicView(nodes, edges, topic).edges <==>
      e in edges && e.source in IdSet(TopicView(nodes, edges, topic).nodes) && e.target in IdSet(TopicView(nodes, edges, topic).nodes)
  {
    var ids := TopicArticleIds(nodes, topic);
    var arts := Filter(nodes, (m: Node) => m.kind == ArticleNode && m.topic == Some(topic));
    if n.kind == ConceptNode {
      if n in TopicView(nodes, edges, topic).nodes {
        var e :| e in edges && LinksTo(e, ids, n.id);
        var aid := if e.source in ids && e.target == n.id then e.source else e.target;
        var a :| a in arts && a.id == aid;
        assert LinksTo(e, {a.id}, n.id);
      }
      if exists e, a :: e in edges && a in nodes && a.kind == ArticleNode && a.topic == Some(topic) && LinksTo(e, {a.id}, n.id) {
        var e, a :| e in edges && a in nodes && a.kind == ArticleNode && a.topic == Some(topic) && LinksTo(e, {a.id}, n.id);
        assert a in arts && a.id in ids;
        assert LinksTo(e, ids, n.id);
        assert KeepForTopic(n, topic, edges, ids);
      }
    }
  }

  /** Whenever the topic filter or the cap applies, every edge left has both
      ends among the nodes left. */
  lemma BuildViewClosed(nodes: seq<Node>, edges: seq<Edge>, mode: ViewMode, topic: string)
    requires topic != AllTopics || |ModeNodes(nodes, mode)| > MaxNodes
    ensures forall e :: e in BuildView(nodes, edges, mode, topic).edges ==>
      e.source in IdSet(BuildView(nodes, edges, mode, topic).nodes) && e.target in IdSet(BuildView(nodes, edges, mode, topic).nodes)
  {
    var ns, es := ModeNodes(nodes, mode), ModeEdges(edges, mode);
    var v := if topic != AllTopics then TopicView(ns, es, topic) else View(ns, es);
    if |v.nodes| <= MaxNodes {
      assert topic != AllTopics;
      if ns != [] {
        TopicViewShape(ns, es, topic, ns[0]);
      } else {
        assert v.edges == Within(es, IdSet(v.nodes));
      }
    }
  }

  /** No edge is lost by the filters: an edge of the view mode whose two ends
      are both shown is shown. */
  lemma BuildViewKeepsEdges(nodes: seq<Node>, edges: seq<Edge>, mode: ViewMode, topic: string, e: Edge)
    requires e in ModeEdges(edges, mode)
    requires e.source in IdSet(BuildView(nodes, edges, mode, topic).nodes)
    requires e.target in IdSet(BuildView(nodes, edges, mode, topic).nodes)
    ensures e in BuildView(nodes, edges, mode, topic).edges
  {
    var ns, es := ModeNodes(nodes, mode), ModeEdges(edges, mode);
    var v := if topic != AllTopics then TopicView(ns, es, topic) else View(ns, es);
    assert BuildView(nodes, edges, mode, topic) == Capped(v);
    CappedShape(v);
    if topic != AllTopics {
      var kept := Capped(v).nodes;
      var a :| a in kept && a.id == e.source;
      var b :| b in kept && b.id == e.target;
      assert a in v.nodes && b in v.nodes;
      TopicViewShape(ns, es, topic, a);
    }
  }

  /** The concepts view with a topic filter shows no concept at all: the view
      has already dropped the article nodes and every edge that touches one, so
      no concept is linked to an article of the topic. */
  lemma ConceptsWithTopicHasNoConcepts(nodes: seq<Node>, edges: seq<Edge>, topic: string)
    requires topic != AllTopics
    ensures forall n :: n in BuildView(nodes, edges, ConceptsView, topic).nodes ==> n.kind == TopicNode
  {
    var ns, es := ModeNodes(nodes, ConceptsView), ModeEdges(edges, ConceptsView);
    var v := TopicView(ns, es, topic);
    var arts := Filter(ns, (m: Node) => m.kind == ArticleNode && m.topic == Some(topic));
    assert forall m :: m in arts ==> m in ns && m.kind == ArticleNode;
    assert forall m :: m in ns ==> m.kind != ArticleNode;
    assert forall m :: m !in arts;
    assert IdSet(arts) == {};
    forall n | n in v.nodes ensures n.kind == TopicNode {
      assert n in ns;
    }
    CappedShape(v);
  }
}
