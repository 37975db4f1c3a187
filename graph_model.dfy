/** The records of the knowledge-graph index (scripts/build-graph-index.ts):
    the article metadata it reads and the concept entries, relationships,
    nodes and edges it produces. The graph page of the site reads the same
    nodes and edges back. */
module GraphModel {
  import opened Common
  import Tally

  /** One content file's metadata. An absent `related_concepts` or `tags` field
      is the empty list; `secondary_topic` and `author` are carried by the
      source but never read by the index builder, so they are not kept here. */
  datatype Article = Article(
    slug: string,
    title: string,
    topic: Option<string>,
    concepts: seq<string>,
    tags: seq<string>)

  /** A concept's entry: how many times articles list it, the slugs of those
      articles in listing order, co-occurrence counts and topic distribution. */
  datatype ConceptEntry = ConceptEntry(
    name: string,
    count: nat,
    articles: seq<string>,
    related: Tally.Tally,
    topics: Tally.Tally)

  /** One directed link from an article to another one. */
  datatype Relationship = Relationship(
    slug: string,
    title: string,
    weight: int,
    sharedConcepts: seq<string>,
    sharedTags: seq<string>)

  /** An article as the index publishes it: its metadata and its related list. */
  datatype ArticleGraphData = ArticleGraphData(
    slug: string,
    title: string,
    topic: Option<string>,
    concepts: seq<string>,
    tags: seq<string>,
    related: seq<Relationship>)

  /** The index's statistics. The two averages are kept in tenths: `avgTenths`
      is the published average times ten. */
  datatype Stats = Stats(
    totalArticles: nat,
    totalConcepts: nat,
    totalTopics: nat,
    avgConceptsTenths: nat,
    avgConnectionsTenths: nat)

  datatype NodeKind = ArticleNode | ConceptNode | TopicNode

  datatype EdgeKind = HasConcept | RelatedArticle | TopicClassification

  datatype Node = Node(id: string, kind: NodeKind, name: string, value: Option<int>, topic: Option<string>)

  datatype Edge = Edge(source: string, target: string, kind: EdgeKind, weight: Option<int>)

  function ArticleId(slug: string): string { "article:" + slug }

  function ConceptId(concept: string): string { "concept:" + concept }

  function TopicId(topic: string): string { "topic:" + topic }
}
