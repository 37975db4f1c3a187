# Timeless Insights content pipeline, modelled in Dafny

Timeless Insights is a static site of "timeless" articles: essays on mental
models, decision making and the like. A handful of Node scripts produce the
content, and a React site reads the indexes the scripts write:

- `convert-urls` turns the queue file `input/urls.txt` into pending entries of
  `input/sources.yaml`.
- `scrape` fetches each pending source and writes a Markdown file with front
  matter. It picks an extractor by domain, makes a slug from the title, applies
  auto-tag rules and estimates the reading time. It then marks the source
  scraped or failed.
- `auto-tag` re-applies the tag rules to every content file and merges the new
  tags into the existing ones.
- `enrich` asks a language model for a summary, highlights, topic and related
  concepts. It validates and clamps the answer, and chooses which articles to
  (re-)enrich from the command-line mode.
- `build-search-index` writes the search index: article records with
  defaults, excerpts and truncated content, tag, source and type counts, and
  the articles newest first.
- `build-graph-index` writes the knowledge graph:
  - a concept index with co-occurrence and topic counts;
  - the top-ten related articles of each article;
  - a topic index;
  - nodes and edges;
  - statistics.
- The graph page filters that graph by view mode and topic, and caps it at the
  hundred heaviest nodes.

The model keeps each script's own form:

- Loops that build records step by step are methods with loop invariants.
  Each method is proved equal to a specification function, and the properties
  are lemmas about those functions. The methods are `BuildConceptIndex`,
  `CalculateRelationships`, `BuildGraph`, the topic index, the search-index
  pass, the scrape batch, the convert merge and the retagging pass.
- Expression code is functions: slugs, excerpts, the specification of
  `validateEnrichment` (`Enrich.Validated`), the selection filters and the
  graph page's filters.
- The two places where a function mutates an object its caller owns are
  classes:
  - `validateEnrichment` overwrites the fields of its argument, modelled as
    `Enrich.Enrichment`;
  - the `.env` loader writes into the process environment, modelled as
    `Enrich.ProcessEnv`.
- The other in-place updates are value updates: the scrape batch's
  `sources[idx]` fields and the concept-index entries' counters, lists and
  tallies are map and sequence updates of the loop methods' state, and the
  front-matter assignments (`parsed.data.tags`, `parsed.data.*`) become
  returned values. The batch's lookup through `findIndex` is modelled as
  written in `Scrape.ScrapePendingAsWritten`.

`Array.prototype.sort` is stable, as section 22.1.3.27 of ECMAScript 2019
requires. It is modelled once, as a stable insertion sort descending by a key
under any strict total order (`StableSort`). A JavaScript `Set` and an object
used as a counter keep keys in insertion order. They are modelled by an
insertion-ordered sequence (`Common.AddAll`, `Common.Distinct`) and by a
keyed counter (`Tally`).

Modules:

- `Common`, `StableSort`, `TextSort` and `Tally` hold the shared pieces.
- `GraphModel`, `ConceptIndex`, `Relationships`, `GraphAssembly` and
  `GraphSummary` model the graph builder.
- `Sources`, `Scrape`, `AutoTag`, `ConvertUrls`, `SearchIndex`, `Enrich` and
  `GraphExplorer` model the other scripts and the graph page.

## Model

| member | source | states |
|---|---|---|
| ConceptIndex.BuildConceptIndex | scripts/build-graph-index.ts:124-177 | The keys are the listed concepts in first-listing order. Each entry's count equals the length of its article list, which is every listing of the concept across all articles (repeats included). Its topic tally counts the listings per truthy topic. Its co-occurrence tally counts the i<j pairs of one article's list. Every listed concept has an entry. |
| ConceptIndex.CollectConcepts | scripts/build-graph-index.ts:127-151 | The first pass leaves exactly the get-or-create entries: keys in listing order, slugs and topic counts of every listing so far. |
| ConceptIndex.CountCoOccurrences | scripts/build-graph-index.ts:153-174 | The second pass adds, to both concepts of each pair (i<j) of each article's list, one co-occurrence, and touches nothing else. |
| ConceptIndex.CountArticlePairs | scripts/build-graph-index.ts:158-173 | The nested i<j loops visit exactly the pairs of one article's list in loop order. |
| ConceptIndex.Symmetric | scripts/build-graph-index.ts:153-174 | Co-occurrence is symmetric: relatedConcepts[x][y] == relatedConcepts[y][x] for all indexed x, y. This follows directly from the pair counts; the proof work is `ConceptIndex.CountCoOccurrences`, whose loop is proved to compute those counts. |
| ConceptIndex.SlugsCount | scripts/build-graph-index.ts:142-143 | A concept's article list has one slug per listing, so count == number of articles listed. |
| ConceptIndex.ListedIsMentioned | scripts/build-graph-index.ts:128-140 | Every concept listed on any article is among the concepts the first pass creates. |
| Relationships.CalculateRelationships | scripts/build-graph-index.ts:82-122 | The record maps each slug to the related list of its last article with that slug; that list is the top ten of its candidates. |
| Relationships.CollectCandidates | scripts/build-graph-index.ts:89-114 | The inner loop collects exactly the linked other articles, in input order. |
| Relationships.CandidatesMembers | scripts/build-graph-index.ts:91-113 | A relationship is a candidate iff it is the link to some article with another slug sharing at least one concept or at least two non-`source:` tags. |
| Relationships.LinkWeight | scripts/build-graph-index.ts:92-104 | A kept relationship points to another slug, and its weight is 2·shared concepts + shared tags, hence at least 1. |
| Relationships.InBothCount | scripts/build-graph-index.ts:94-96 | The shared concepts are a's listings that b also lists: each concept keeps its multiplicity in a if b lists it, else vanishes. |
| Relationships.SharedTagsCount | scripts/build-graph-index.ts:98-100 | The shared tags are a's tags that b carries and that do not start with `source:`, with a's multiplicity. |
| Relationships.TopRelatedShape | scripts/build-graph-index.ts:116-118 | A related list holds min(10, candidates) entries, by non-increasing weight, each a genuine link of weight at least 1 to another article. |
| Relationships.TopRelatedHeaviest | scripts/build-graph-index.ts:116-118 | The list is a sub-multiset of the candidates, and no candidate left out is heavier than one kept. |
| Relationships.TopRelatedStable | scripts/build-graph-index.ts:117-118 | Ties keep input order: the kept relationships of each weight are a prefix of the candidates of that weight. |
| Relationships.RelationsLookup | scripts/build-graph-index.ts:88-118 | A slug has a related list iff some article has it, and the list is that of the last such article. |
| Relationships.SymmetricWithoutRepeats | scripts/build-graph-index.ts:94-104 | Without repeated concepts or tags, a is related to b iff b is related to a, with the same weight. |
| Relationships.RepeatsBreakSymmetry | scripts/build-graph-index.ts:94-104 | With a repeated concept, two articles can weigh each other differently. |
| StableSort.SortSorted | scripts/build-graph-index.ts:117 | The sort leaves its input in descending key order. |
| StableSort.SortPermutes | scripts/build-graph-index.ts:117 | The sort is a permutation of its input. |
| StableSort.SortStable | scripts/build-graph-index.ts:117 | Elements with equal keys keep their input order. |
| StableSort.StableSortUnique | scripts/build-graph-index.ts:117 | Two sorted, key-wise order-equal sequences are equal, so a stable sort's result is unique. |
| GraphAssembly.BuildGraph | scripts/build-graph-index.ts:179-243 | The nodes are article nodes in article order, then one concept node per index key, then one topic node per distinct truthy topic. The edges are each article's concept edges followed by its related edges. |
| GraphAssembly.AddArticleEdges | scripts/build-graph-index.ts:199-218 | One article's loops append its `has-concept` edges and then its `related-article` edges of weight at least 3. |
| GraphAssembly.HasConceptEdges | scripts/build-graph-index.ts:199-206 | There are exactly as many `has-concept` edges from article s to concept c as there are listings of c on articles with slug s. |
| GraphAssembly.ConceptEdgesCount | scripts/build-graph-index.ts:200-206 | One article contributes one `has-concept` edge per listing of a concept. |
| GraphAssembly.RelatedEdgesMembers | scripts/build-graph-index.ts:208-218 | A `related-article` edge exists iff its relationship is in the related list with weight at least 3, and it carries that weight. |
| GraphAssembly.RelatedEdgesKind | scripts/build-graph-index.ts:208-218 | Every edge of the related loop is a `related-article` edge. |
| GraphAssembly.EdgesExact | scripts/build-graph-index.ts:187-219 | An edge is in the graph iff it is a concept edge of a listing or a related edge of weight at least 3. No edge is a topic edge. |
| GraphAssembly.TopicsExact | scripts/build-graph-index.ts:232 | The topic set has no repeats, and holds exactly the truthy topics of the articles. |
| GraphAssembly.WithTopicCount | scripts/build-graph-index.ts:238 | A topic node's value is the number of articles carrying that topic. |
| GraphAssembly.TopicNodesTotal | scripts/build-graph-index.ts:232-239 | The topic nodes' values add up to the number of articles with a truthy topic. |
| GraphSummary.BuildGraphIndex | scripts/build-graph-index.ts:299-360 | The concept keys are the distinct listed concepts in first-listing order, and the concept index has exactly those keys. Each entry carries both passes' counts (ConceptIndex.Indexed), and co-occurrence counts are symmetric. Each article record is that of the last article with its slug. `totalArticles` is the article count. `totalConcepts` equals the number of concept nodes and `totalTopics` the number of topic nodes. The averages are the rounded tenths of the listings and connections per article. The graph edges and topic index are those of the builders. |
| GraphSummary.BuildArticleRecords | scripts/build-graph-index.ts:311-321 | The article records are built from every article, later slugs overwriting earlier ones. |
| GraphSummary.ArticleRecordsLookup | scripts/build-graph-index.ts:311-321 | A slug has a record iff some article has it. The record carries the last such article's metadata and related list (empty if none). |
| GraphSummary.BuildTopicIndex | scripts/build-graph-index.ts:324-332 | The topic index maps each truthy topic, in first-seen order, to the slugs of its articles in article order. |
| GraphSummary.TopicIndexMatchesGraph | scripts/build-graph-index.ts:324-355 | Each topic's slug list is as long as its topic node's value, and there are as many topics as topic nodes. |
| GraphSummary.SlugsWithTopicCount | scripts/build-graph-index.ts:325-331 | A topic's slug list has one slug per article with that topic. |
| GraphSummary.ListedIsTotalCount | scripts/build-graph-index.ts:339-342 | The numerator of the concepts-per-article average equals the sum of the concept counts. |
| GraphSummary.ConnectionsBounded | scripts/build-graph-index.ts:304-307 | Total connections are at most ten per article. |
| GraphSummary.Tenths | scripts/build-graph-index.ts:356-357 | `Math.round(x*10)/10` in tenths: the nearest tenth, halves rounded up, and 0 when there are no articles. |
| GraphSummary.EmptyStats | scripts/build-graph-index.ts:253-271 | With no articles every statistic is 0, as in the index written when the content directory is missing. |
| Sources.PendingCountIsFilter | scripts/scrape.ts:297 | The pending count is the length of the list of sources whose status is `pending`. |
| Scrape.ExtractorFor | scripts/scrape.ts:89-99 | The result is the config of the first domain key contained in the hostname with its first `www.` removed. If there is none, it is the `default` config (absent when there is no default). |
| Scrape.GenerateSlug | scripts/scrape.ts:101-108 | A slug has at most 80 characters, only `a-z`, `0-9` and `-`, and never `--`. |
| Scrape.SlugIdempotent | scripts/scrape.ts:101-108 | Slugifying a slug returns it unchanged. |
| Scrape.SplitSpacesJoin | scripts/scrape.ts:105 | Replacing every whitespace run by a dash equals splitting at whitespace runs and joining with dashes. |
| Scrape.ReadingMinutes | scripts/scrape.ts:134-139 | The minutes are ⌈pieces/200⌉ for the whitespace-split pieces, hence at least 1. |
| Scrape.RecordSingle | scripts/scrape.ts:273-283 | A successful single scrape appends one scraped source exactly when its URL is not yet listed. Existing sources are unchanged. |
| Scrape.RecordSingleKeepsUnique | scripts/scrape.ts:273-283 | After a success the URL is listed, and a queue without duplicate URLs stays without them. |
| Scrape.ScrapePending | scripts/scrape.ts:293-329 | Corrected batch (see ## Findings); the batch as written, which marks `sources[findIndex(url)]`, is `Scrape.ScrapePendingAsWritten`. The batch loop returns the queue with every pending entry marked by its own outcome (scraped with a timestamp, or failed). Its counters are the successes and the failures, adding up to the pending count. |
| Scrape.ProcessedAt | scripts/scrape.ts:310-326 | After the batch no entry is pending. Each pending entry received the outcome of its turn, and every other entry is unchanged. |
| Scrape.FindUrl | scripts/scrape.ts:314 | `findIndex` returns the first index holding the URL, or none if no entry holds it. |
| Scrape.DuplicateUrlStaysPending | scripts/scrape.ts:314-326 | Shows that the batch as written marks an earlier entry with the same URL and leaves the pending one pending. |
| Scrape.AsWrittenWithUniqueUrls | scripts/scrape.ts:314-326 | With unique URLs the batch as written equals the intended batch. |
| AutoTag.ApplyAutoTags | scripts/auto-tag.ts:35-57 | The result is the rule tags in first-insertion order, duplicate-free. A tag is in it iff a URL rule whose pattern is in the URL adds it, or a content rule with a keyword found case-insensitively in the content adds it. |
| AutoTag.UrlTagsMembers | scripts/scrape.ts:115-119 | A URL rule contributes its tags iff its pattern is a substring of the URL. |
| AutoTag.ContentTagsMembers | scripts/scrape.ts:122-129 | A content rule contributes its tags iff one of its keywords, lower-cased, occurs in the lower-cased content. |
| AutoTag.ApplyContentRule | scripts/auto-tag.ts:47-54 | The keyword loop with `break` adds a rule's tags once if any keyword matches and nothing otherwise. |
| AutoTag.MergeTagsShape | scripts/auto-tag.ts:86-90 | The merged list keeps every existing tag and adds every new one, nothing else. It is strictly ascending, so duplicate-free. |
| AutoTag.MergeOfComplete | scripts/auto-tag.ts:87-90 | Tags already ascending that hold every new tag are kept as they are. |
| AutoTag.MergeIdempotent | scripts/auto-tag.ts:87-96 | Merging the merged list again with the same tags gives it back and is not seen as a change. |
| AutoTag.ChangedExactly | scripts/auto-tag.ts:93-96 | When no tag is empty or holds a comma, the joined-string comparison detects exactly the files whose sorted tags differ from the merged ones. |
| AutoTag.RetagFiles | scripts/auto-tag.ts:78-108 | The pass gives each file its merged tags when changed, and its old tags otherwise. `updated` counts exactly the changed files. |
| AutoTag.RetagFile | scripts/auto-tag.ts:83-107 | One file's step computes its new tags and whether it changed. |
| AutoTag.RetaggedAllAt | scripts/auto-tag.ts:96-97 | The j-th file's tags after the pass depend on that file only. |
| AutoTag.SecondPassUnchanged | scripts/auto-tag.ts:78-108 | A second pass over the retagged files changes none. |
| TextSort.SortAscOfDistinct | scripts/auto-tag.ts:90 | The default sort of a duplicate-free list is strictly ascending, with the same members. |
| ConvertUrls.UrlOf | scripts/convert-urls.ts:35-36 | A line yields at most one URL: its trimmed text, non-empty, not starting with `#`. |
| ConvertUrls.KeptLinesMembers | scripts/convert-urls.ts:33-36 | A string is loaded iff it is the trimmed form of some line, non-empty and not starting with `#`. |
| ConvertUrls.KeptLinesAppend | scripts/convert-urls.ts:33-36 | The filter keeps file order: the lines of a concatenation are those of each part, in order. |
| ConvertUrls.LoadUrlsShape | scripts/convert-urls.ts:33-36 | A loaded URL is non-empty, does not start with `#`, has no surrounding whitespace and no newline. |
| ConvertUrls.Convert | scripts/convert-urls.ts:72-94 | The merge loop appends the new entries to the unchanged sources. `added` is the number appended, and `added + skipped` the number of URLs. |
| ConvertUrls.NewEntriesShape | scripts/convert-urls.ts:78-90 | The appended URLs are exactly the unknown URLs in input order. Each entry is pending, with empty tags, no scrape time, and a URL not known before. |
| ConvertUrls.UnknownCount | scripts/convert-urls.ts:73-83 | A known URL is never appended. An unknown one is appended once per occurrence in the batch. |
| ConvertUrls.ListedAfterConvert | scripts/convert-urls.ts:72-94 | After the merge every loaded URL is listed in the sources. |
| ConvertUrls.ConvertAgainAddsNothing | scripts/convert-urls.ts:72-94 | Converting the same URLs again appends nothing. |
| ConvertUrls.AllKnown | scripts/convert-urls.ts:78-83 | When every URL is known, nothing is appended. |
| SearchIndex.Excerpt | scripts/build-search-index.ts:54-55 | Short text is kept. Longer text becomes a prefix of it, cut at maxLength, or just before its last run of white space (that run and the partial word after it are dropped), followed by `...`: between 3 and maxLength+3 characters. |
| SearchIndex.CutLastWordIsRegexCut | scripts/build-search-index.ts:55 | The cut removes exactly the leftmost match of a whitespace run followed by non-space characters up to the end, or nothing when there is no match. |
| SearchIndex.DateOf | scripts/build-search-index.ts:90-100 | The date is `scraped_at` if set, else `created_at`, else empty. A Date value becomes its ISO day. |
| SearchIndex.EntryOf | scripts/build-search-index.ts:85-115 | Missing title, source and type become `Untitled`, `unknown` and `article`, and a missing tag list becomes empty. The content is the first 5000 characters of the body. The excerpt has at most 203 characters. |
| SearchIndex.SlugOfFileName | scripts/build-search-index.ts:85 | Removing the first `.md` from `<slug>.md` gives the slug back when the slug has no dot. |
| SearchIndex.MarkdownFiles | scripts/build-search-index.ts:72 | Exactly the directory's files ending in `.md` are read. |
| SearchIndex.BuildIndex | scripts/build-search-index.ts:66-145 | The articles are the entries of the Markdown files, sorted newest first. The tags are the distinct article tags, sorted. The total is the number of files. The three counters are the per-key counts of the files' tags, sources and types. A missing directory gives an empty index. |
| SearchIndex.AddFile | scripts/build-search-index.ts:80-130 | One file's step appends its entry and extends the tag set and all three counters by it. |
| SearchIndex.CountTags | scripts/build-search-index.ts:118-121 | The tag loop adds each tag to the set and bumps its count once per occurrence. |
| SearchIndex.TagListMembers | scripts/build-search-index.ts:118-121 | A tag is collected iff some article carries it. |
| SearchIndex.IndexTags | scripts/build-search-index.ts:137 | The tag list is strictly ascending and holds exactly the tags some article carries. |
| SearchIndex.IndexCounts | scripts/build-search-index.ts:117-127 | `byTag[t]` is the number of occurrences of t across the tag lists. The `bySource` and `byType` counts each add up to the number of articles, key by key equal to the occurrences. |
| SearchIndex.IndexOrder | scripts/build-search-index.ts:133 | The sorted articles are a permutation of the entries, in non-increasing date order. Entries with equal dates keep file order. |
| Enrich.EnvLineSplitsAtFirst | scripts/enrich.ts:16-21 | A line `k=v` with no `=` in k sets trimmed k to trimmed v, where v is everything after the first `=`. An empty k sets nothing. |
| Enrich.EnvLineWithoutSeparator | scripts/enrich.ts:17-18 | A line with no `=` sets nothing. |
| Enrich.EnvUntouched | scripts/enrich.ts:14-22 | A variable no line sets keeps its value (or stays unset). |
| Enrich.EnvLastWins | scripts/enrich.ts:14-22 | A variable set by some line ends up with the value of the last line that sets it. |
| Enrich.ProcessEnv.LoadDotEnv | scripts/enrich.ts:13-22 | The loop applies every line of the file, in order, to the environment. |
| Enrich.Validated | scripts/enrich.ts:181-203 | A topic outside the list becomes `mental-models`, and a truthy secondary topic outside it becomes null. Highlights become a prefix of at most 3, and related concepts a prefix of at most 4 (missing lists are empty). Scope and anti-pattern become strings, `''` when falsy. The summary is untouched. |
| Enrich.ValidatedIdempotent | scripts/enrich.ts:181-203 | Validating a validated answer changes nothing. |
| Enrich.Enrichment.Validate | scripts/enrich.ts:181-203 | The in-place update leaves the object's fields equal to the validated answer. |
| Enrich.CoverageOf | scripts/enrich.ts:239-240 | Coverage is `full` iff the body is at most the content limit. |
| Enrich.Analyzed | scripts/enrich.ts:241-245 | `content_analyzed` is removed iff coverage is full, and otherwise holds the percentage. |
| Enrich.InfoOf | scripts/enrich.ts:302-317 | `enriched` iff `enriched_at` is truthy. `enrichedToday` iff it equals today. `wasTruncated` iff the body exceeds 6000 characters. |
| Enrich.SelectedMembers | scripts/enrich.ts:322-342 | A path is selected iff one of its files passes the mode's filter. `--files` selects named files not enriched today. `--force-truncated` selects files not enriched or truncated, and not enriched today. Normal selects files not enriched. |
| Enrich.NormalWithinForceTruncated | scripts/enrich.ts:331-342 | Every file the normal mode picks is also picked by `--force-truncated`. |
| Enrich.NeverSkipped | scripts/enrich.ts:387-388 | No selected article is skipped as already enriched, because every mode but normal forces and normal picks only unenriched files. |
| Enrich.CountOutcomes | scripts/enrich.ts:371-402 | `enriched` counts successes and is the sum of the per-provider counts. `failed` counts the failures (skips excluded). Together they are at most the number of articles. |
| GraphExplorer.CappedShape | site/src/pages/GraphExplorerPage.tsx:142-151 | A view of at most 100 nodes is left unchanged. Over 100 nodes, exactly the first 100 of a stable sort by value (missing = 0) are kept, none lighter than a dropped one. The edges kept are exactly the view's edges with both ends among the kept nodes. |
| GraphExplorer.BuildViewSubset | site/src/pages/GraphExplorerPage.tsx:104-151 | The page's nodes and edges are always taken from the graph index. |
| GraphExplorer.ConceptsViewShape | site/src/pages/GraphExplorerPage.tsx:109-113 | Concepts mode shows only concept and topic nodes, and no edge with an `article:` end. |
| GraphExplorer.ArticlesViewShape | site/src/pages/GraphExplorerPage.tsx:114-117 | Articles mode shows only article nodes and `related-article` edges. |
| GraphExplorer.TopicViewShape | site/src/pages/GraphExplorerPage.tsx:120-140 | Under a topic an article node is kept iff its topic matches, and topic nodes are kept. A concept is kept iff an edge links it to an article of that topic. An edge is kept iff both its ends are among the kept nodes. |
| GraphExplorer.BuildViewKeepsEdges | site/src/pages/GraphExplorerPage.tsx:136-150 | After all filters, every edge of the view mode whose two ends are both shown is shown. |
| GraphExplorer.BuildViewClosed | site/src/pages/GraphExplorerPage.tsx:120-151 | Whenever the topic filter or the cap applies, every edge shown has both ends among the nodes shown. |
| GraphExplorer.ConceptsWithTopicHasNoConcepts | site/src/pages/GraphExplorerPage.tsx:109-134 | In concepts mode under a topic only topic nodes remain: the article nodes a concept would need were already filtered out. |

## Left out

- File and process I/O is not modelled: reading and writing files, front matter and YAML parsing, JSON output, console logging, `process.exit`.
  - Parsed records, directory listings and file contents are inputs.
  - The saved sources and written files are the returned values.
- Command-line parsing is not modelled. `--url`, `--force`, `--force-truncated` and `--files` are given as parameters, and `path.basename` results are given with each file.
- The network, providers, clock and delays are not modelled:
  - `fetch` and the HTML extraction in `scrapeUrl`;
  - the Gemini and Groq calls with fallback;
  - the retry loop of `enrichArticle`;
  - `sleep`;
  - timestamps, which are parameters.
  - Scrape outcomes and enrichment outcomes are inputs.
- The `new URL(...)` hostname parsing and the `source` field derivation of `scrapeUrl` are not modelled; the hostname is an input.
- The Markdown-stripping regexes of `extractExcerpt` are not modelled, because they depend on regex-engine semantics. The plain text is an input to `SearchIndex.Excerpt`.
- Floating point is not modelled:
  - The two graph averages are kept as integer tenths (`GraphSummary.Tenths`).
  - The `content_analyzed` percentage is an input string.
  - The token estimate and the graph page's circular layout and stroke widths are not modelled.
- Locale and Unicode are approximated:
  - `localeCompare` and the default `sort()` are ordinal comparison of characters (`Common.StrLt`), not UTF-16 code-unit comparison for characters outside the basic plane.
  - `toLowerCase` lowercases ASCII letters only.
- JavaScript object key order is taken as insertion order. Integer-like keys, which JavaScript lists first, and prototype keys such as `__proto__` are not modelled.
- Front-matter values of unexpected types (tags that are not a list of strings, a non-string title) are not modelled. Date-valued `scraped_at` and `created_at` are modelled as ISO days.
  - Enrich.InfoOf takes `enriched_at` as a string.
  - Enrich.Validated takes null and a missing `secondary_topic` as the same `None`.
- The search entries' pass-through fields (`source_url`, `author`, `reading_time`) are not kept; they are copied unchanged.
- `reading_time` is the minute count; the `" min"` suffix is not modelled.
- The graph index's `secondary_topic` and `author` fields are not kept, because the index builder never reads them.
- The console-only reports are not modelled: the auto-tag `+n tags` count, the enrich `truncatedCount`/`enrichedCount` lines, and the graph builder's top-ten concept listing.
- The convert script's early return on an empty URL list is not modelled separately: merging no URLs gives the same sources.
- The rewrite of `urls.txt` with its header (`clearUrlsFile`) is file output and is not modelled.
- Enrich.NeverSkipped assumes the directory lists each path once, as a directory listing does.
- Relationships.SymmetricWithoutRepeats only states symmetry for articles without repeated concepts or tags. With repeats the source is asymmetric (Relationships.RepeatsBreakSymmetry).
- GraphExplorer.BuildViewClosed only claims edge closure when the topic filter or the cap applies. Otherwise the page keeps the mode-filtered edges as they are, and those can point at nodes it has dropped.
- Aliasing between objects is not modelled: the scrape batch's `pending` list shares its entries with `sources`, and the concept entries are shared by reference. The model updates values, so only the effect of the batch's `findIndex` lookup is captured (`Scrape.ScrapePendingAsWritten`).
- ConceptIndex.Indexed states the `topics` and `relatedConcepts` tallies count by count; the key order of those written objects (first-listing and first-pair order) is kept by `Tally` but not stated.
- Enrich.Analyzed does not compute the rounded percentage (floating point); it only states when the field is present.
- Text lengths and cuts count characters (Unicode scalar values), while JavaScript's `length` and `substring` count UTF-16 code units. For text with characters outside the basic plane the model's thresholds move, and its cuts never split a surrogate pair. This applies to these members:
- SearchIndex.Excerpt: the 200-character limit and cut are in characters, not UTF-16 code units.
- SearchIndex.EntryOf: the 5000-character content cut is in characters, not UTF-16 code units.
- Enrich.CoverageOf: the `full`/`partial` threshold compares character counts, not UTF-16 lengths.
- Enrich.Analyzed: whether `content_analyzed` is present is decided on character length, not UTF-16 length.

## Findings

| source | as written | input that shows it | evidently intended | confidence | as-written member | corrected member |
|---|---|---|---|---|---|---|
| scripts/scrape.ts:314 | The batch marks `sources[findIndex(url)]`, the first entry with the pending source's URL. | Sources `u` (scraped) then `u` (pending). Such a queue arises when `urls.txt` lists an unknown URL twice, since convert-urls appends it once per occurrence (ConvertUrls.UnknownCount). The pending entry stays pending and the scraped one is marked. | Each pending entry receives its own outcome. | high (not executed) | Scrape.DuplicateUrlStaysPending | Scrape.ScrapePending |
