/** The search-index builder (scripts/build-search-index.ts): one record per
    Markdown file of content/, the counters by tag, source and type, the sorted
    tag list, and the articles newest first. The front-matter parser and the
    regular expressions that strip Markdown to plain text are outside the
    model: each file comes with its parsed fields and its plain text. */
module SearchIndex {
  import opened Common
  import StableSort
  import Tally
  import opened TextSort

  // ---------------------------------------------------------------------------
  // The excerpt (scripts/build-search-index.ts:40-56)

  /** The default length of an excerpt. */
  const ExcerptLength: nat := 200

  /** `/\s+\S*$/` matches s from p to its end: a white-space run starts at p and
      only non-space characters follow it. */
  predicate TailMatchAt(s: string, p: int) {
    && 0 <= p < |s|
    && IsSpace(s[p])
    && forall i, j :: p <= i < j < |s| && !IsSpace(s[i]) ==> !IsSpace(s[j])
  }

  /** Drops the trailing run of non-space characters. */
  function DropWord(s: string): (r: string)
    ensures |r| <= |s| && r == s[..|r|]
    ensures r == [] || IsSpace(r[|r| - 1])
    ensures forall i :: |r| <= i < |s| ==> !IsSpace(s[i])
  {
    if s == [] || IsSpace(s[|s| - 1]) then s else DropWord(s[..|s| - 1])
  }

  /** `s.replace(/\s+\S*$/, '')`: the last word and the white space before it. */
  function CutLastWord(s: string): (r: string)
    ensures |r| <= |s| && r == s[..|r|]
  {
    var w := DropWord(s);
    if w == [] then s else TrimEnd(w)
  }

  /** CutLastWord removes exactly the leftmost match of `/\s+\S*$/`, and changes
      nothing when there is no match. */
  lemma CutLastWordIsRegexCut(s: string)
    ensures CutLastWord(s) == s ==> forall p :: !TailMatchAt(s, p)
    ensures CutLastWord(s) != s ==>
      TailMatchAt(s, |CutLastWord(s)|) && forall p :: 0 <= p < |CutLastWord(s)| ==> !TailMatchAt(s, p)
  {
    var w := DropWord(s);
    var r := CutLastWord(s);
    if w == [] {
      forall p | 0 <= p < |s| ensures !IsSpace(s[p]) { }
    } else {
      assert |r| < |w| && IsSpace(s[|r|]);
      forall i, j | |r| <= i < j < |s| && !IsSpace(s[i]) ensures !IsSpace(s[j]) {
        assert i >= |w|;
      }
      forall p | 0 <= p < |r| ensures !TailMatchAt(s, p) {
        if p < |r| - 1 {
          assert !IsSpace(s[|r| - 1]) && IsSpace(s[|r|]);
        }
      }
    }
  }

  /** `extractExcerpt` on text already stripped of Markdown: short text is kept,
      longer text is cut at maxLength, then back to a word boundary, and gets
      `...`. */
  function Excerpt(plain: string, maxLength: nat): (r: string)
    ensures |plain| <= maxLength ==> r == plain
    ensures |plain| > maxLength ==>
      && 3 <= |r| <= maxLength + 3
      && r[|r| - 3..] == "..."
      && r[..|r| - 3] == plain[..|r| - 3]
      && (|r| - 3 == maxLength || IsSpace(plain[|r| - 3]))
  {
    if |plain| <= maxLength then plain else CutLastWord(plain[..maxLength]) + "..."
  }

  // ---------------------------------------------------------------------------
  // Records (scripts/build-search-index.ts:80-115)

  /** The number of characters of an article's body kept for full-text search. */
  const ContentLimit: nat := 5000

  /** A front-matter date: a string, or a YAML timestamp that the parser made a
      `Date`, written here as the day part of its ISO form. */
  datatype DateValue = Text(text: string) | Day(isoDay: string)

  /** The front-matter fields the builder reads. */
  datatype FrontMatter = FrontMatter(
    title: Option<string>,
    source: Option<string>,
    kind: Option<string>,
    tags: Option<seq<string>>,
    scrapedAt: Option<DateValue>,
    createdAt: Option<DateValue>)

  /** A file of the content directory: its name, front matter, Markdown body and
      the body stripped to plain text. */
  datatype ContentFile = ContentFile(name: string, data: FrontMatter, body: string, plain: string)

  /** One article of the search index. */
  datatype Entry = Entry(
    slug: string,
    title: string,
    excerpt: string,
    source: string,
    date: string,
    tags: seq<string>,
    kind: string,
    content: string)

  /** A date field is truthy unless it is missing or the empty string. */
  predicate DateSet(d: Option<DateValue>) {
    d.Some? && (d.value.Day? || d.value.text != "")
  }

  function DateString(d: DateValue): string {
    match d
    case Text(s) => s
    case Day(iso) => iso
  }

  /** The date of an entry: `scraped_at` when set, else `created_at`, else empty. */
  function DateOf(fm: FrontMatter): (r: string)
    ensures DateSet(fm.scrapedAt) ==> r == DateString(fm.scrapedAt.value)
    ensures !DateSet(fm.scrapedAt) && DateSet(fm.createdAt) ==> r == DateString(fm.createdAt.value)
    ensures !DateSet(fm.scrapedAt) && !DateSet(fm.createdAt) ==> r == ""
  {
    if DateSet(fm.scrapedAt) then DateString(fm.scrapedAt.value)
    else if DateSet(fm.createdAt) then DateString(fm.createdAt.value)
    else ""
  }

  /** The record pushed for one file, with the defaults `Untitled`, `unknown`
      and `article`, the slug from the file name, a capped body and the excerpt. */
  function EntryOf(f: ContentFile): (e: Entry)
    ensures e.title == (if Truthy(f.data.title) then f.data.title.value else "Untitled")
    ensures e.source == (if Truthy(f.data.source) then f.data.source.value else "unknown")
    ensures e.kind == (if Truthy(f.data.kind) then f.data.kind.value else "article")
    ensures e.tags == (if f.data.tags.Some? then f.data.tags.value else [])
    ensures |e.content| <= ContentLimit && |e.content| <= |f.body| && e.content == f.body[..|e.content|]
    ensures |f.body| <= ContentLimit ==> e.content == f.body
    ensures |e.excerpt| <= ExcerptLength + 3
  {
    Entry(
      ReplaceFirst(f.name, ".md", ""),
      OrElse(f.data.title, "Untitled"),
      Excerpt(f.plain, ExcerptLength),
      OrElse(f.data.source, "unknown"),
      DateOf(f.data),
      if f.data.tags.Some? then f.data.tags.value else [],
      OrElse(f.data.kind, "article"),
      Take(f.body, ContentLimit))
  }

  /** The slug is the file name with its first `.md` removed; a name made of a
      slug and the `.md` extension gives back the slug when the slug holds no
      dot, as every slug the scraper generates. */
  lemma SlugOfFileName(slug: string)
    requires '.' !in slug
    ensures ReplaceFirst(slug + ".md", ".md", "") == slug
  {
    var name := slug + ".md";
    assert name[|slug|..] == ".md";
    ContainsAt(name, ".md", |slug|);
    var i := IndexOf(name, ".md").value;
    assert i <= |slug|;
    assert name[i] == name[i..i + 3][0] == '.';
    assert forall j :: 0 <= j < |slug| ==> name[j] == slug[j] != '.';
    assert name[..i] == slug;
  }

  // ---------------------------------------------------------------------------
  // The index (scripts/build-search-index.ts:72-145)

  /** `readdirSync(CONTENT_DIR).filter(f => f.endsWith('.md'))`. */
  function MarkdownFiles(dir: seq<ContentFile>): (r: seq<ContentFile>)
    ensures forall f :: f in r <==> f in dir && EndsWithMd(f.name)
  {
    if dir == [] then []
    else
      var last := dir[|dir| - 1];
      MarkdownFiles(dir[..|dir| - 1]) + (if EndsWithMd(last.name) then [last] else [])
  }

  predicate EndsWithMd(name: string) {
    |name| >= 3 && name[|name| - 3..] == ".md"
  }

  function Entries(files: seq<ContentFile>): (r: seq<Entry>)
    ensures |r| == |files|
    ensures forall i :: 0 <= i < |files| ==> r[i] == EntryOf(files[i])
  {
    Map(files, EntryOf)
  }

  lemma EntriesSnoc(files: seq<ContentFile>, i: nat)
    requires i < |files|
    ensures Entries(files[..i + 1]) == Entries(files[..i]) + [EntryOf(files[i])]
  {
    MapSnoc(files, EntryOf, i);
  }

  /** Every tag of every entry, in order, repeats included. */
  function TagList(es: seq<Entry>): seq<string> {
    if es == [] then [] else TagList(es[..|es| - 1]) + es[|es| - 1].tags
  }

  function Sources(es: seq<Entry>): (r: seq<string>)
    ensures |r| == |es| && forall i :: 0 <= i < |es| ==> r[i] == es[i].source
  {
    seq(|es|, i requires 0 <= i < |es| => es[i].source)
  }

  function Kinds(es: seq<Entry>): (r: seq<string>)
    ensures |r| == |es| && forall i :: 0 <= i < |es| ==> r[i] == es[i].kind
  {
    seq(|es|, i requires 0 <= i < |es| => es[i].kind)
  }

  function DateKey(e: Entry): string { e.date }

  /** The sort of the articles by date, compared with `localeCompare` (a
      missing date counts as empty): newest first, ties in file order. */
  function ByDate(es: seq<Entry>): seq<Entry> {
    StableSort.Sort(es, DateKey, StrLt)
  }

  datatype Stats = Stats(total: nat, bySource: Tally.Tally, byTag: Tally.Tally, byType: Tally.Tally)

  datatype Index = Index(articles: seq<Entry>, tags: seq<string>, stats: Stats)

  /** What the loop has gathered after the entries es. */
  ghost predicate Gathered(es: seq<Entry>, allTags: seq<string>, bySource: Tally.Tally, byTag: Tally.Tally, byType: Tally.Tally) {
    && allTags == AddAll([], TagList(es))
    && bySource == Tally.BumpAll(Tally.Empty(), Sources(es))
    && byTag == Tally.BumpAll(Tally.Empty(), TagList(es))
    && byType == Tally.BumpAll(Tally.Empty(), Kinds(es))
  }

  /** `tags.forEach(tag => { allTags.add(tag); byTag[tag] = (byTag[tag] || 0) + 1; })`. */
  method CountTags(allTags0: seq<string>, byTag0: Tally.Tally, tags: seq<string>)
    returns (allTags: seq<string>, byTag: Tally.Tally)
    requires Tally.Valid(byTag0)
    ensures allTags == AddAll(allTags0, tags)
    ensures byTag == Tally.BumpAll(byTag0, tags)
  {
    allTags, byTag := allTags0, byTag0;
    var j := 0;
    while j < |tags|
      invariant 0 <= j <= |tags|
      invariant allTags == AddAll(allTags0, tags[..j])
      invariant byTag == Tally.BumpAll(byTag0, tags[..j])
    {
      AddAllSnoc(allTags0, tags, j);
      Tally.BumpAllSnoc(byTag0, tags, j);
      allTags := SetAdd(allTags, tags[j]);
      byTag := Tally.Bump(byTag, tags[j]);
      j := j + 1;
    }
    assert tags[..j] == tags;
  }

  lemma TagsStep(es: seq<Entry>, e: Entry)
    ensures TagList(es + [e]) == TagList(es) + e.tags
  {
    SplitLast(es + [e]);
    assert (es + [e])[..|es|] == es;
  }

  lemma SourcesStep(es: seq<Entry>, e: Entry)
    ensures Sources(es + [e]) == Sources(es) + [e.source]
    ensures Kinds(es + [e]) == Kinds(es) + [e.kind]
  {
  }

  lemma BumpLast(t: Tally.Tally, ks: seq<string>, k: string)
    requires Tally.Valid(t)
    ensures Tally.BumpAll(t, ks + [k]) == Tally.Bump(Tally.BumpAll(t, ks), k)
  {
    assert (ks + [k])[..|ks|] == ks;
  }

  lemma GatheredStep(es: seq<Entry>, e: Entry, allTags: seq<string>, bySource: Tally.Tally, byTag: Tally.Tally, byType: Tally.Tally)
    requires Gathered(es, allTags, bySource, byTag, byType)
    ensures Gathered(es + [e], AddAll(allTags, e.tags), Tally.Bump(bySource, e.source),
                     Tally.BumpAll(byTag, e.tags), Tally.Bump(byType, e.kind))
  {
    TagsStep(es, e);
    SourcesStep(es, e);
    AddAllAppend([], TagList(es), e.tags);
    Tally.BumpAllAppend(Tally.Empty(), TagList(es), e.tags);
    BumpLast(Tally.Empty(), Sources(es), e.source);
    BumpLast(Tally.Empty(), Kinds(es), e.kind);
  }

  /** One pass of the file loop: the record is pushed and counted. */
  method AddFile(ghost es: seq<Entry>, f: ContentFile, allTags0: seq<string>,
                 bySource0: Tally.Tally, byTag0: Tally.Tally, byType0: Tally.Tally)
    returns (e: Entry, allTags: seq<string>, bySource: Tally.Tally, byTag: Tally.Tally, byType: Tally.Tally)
    requires Gathered(es, allTags0, bySource0, byTag0, byType0)
    ensures e == EntryOf(f)
    ensures Gathered(es + [e], allTags, bySource, byTag, byType)
  {
    e := EntryOf(f);
    GatheredStep(es, e, allTags0, bySource0, byTag0, byType0);
    allTags, byTag := CountTags(allTags0, byTag0, e.tags);
    bySource := Tally.Bump(bySource0, e.source);
    byType := Tally.Bump(byType0, e.kind);
  }

  /** The Markdown files of the content directory; none when it is missing. */
  function FilesOf(dir: Option<seq<ContentFile>>): seq<ContentFile> {
    if dir.Some? then MarkdownFiles(dir.value) else []
  }

  /** The script's `main`: a missing content directory gives the empty index. */
  method BuildIndex(dir: Option<seq<ContentFile>>) returns (index: Index)
    ensures index.articles == ByDate(Entries(FilesOf(dir)))
    ensures index.tags == SortAsc(Distinct(TagList(Entries(FilesOf(dir)))))
    ensures index.stats.total == |FilesOf(dir)|
    ensures Gathered(Entries(FilesOf(dir)), Distinct(TagList(Entries(FilesOf(dir)))),
                     index.stats.bySource, index.stats.byTag, index.stats.byType)
  {
    if dir.None? {
      return Index([], [], Stats(0, Tally.Empty(), Tally.Empty(), Tally.Empty()));
    }
    var files := MarkdownFiles(dir.value);
    var articles: seq<Entry> := [];
    var allTags: seq<string> := [];
    var bySource, byTag, byType := Tally.Empty(), Tally.Empty(), Tally.Empty();
    var i := 0;
    while i < |files|
      invariant 0 <= i <= |files|
      invariant articles == Entries(files[..i])
      invariant Gathered(articles, allTags, bySource, byTag, byType)
    {
      var e;
      e, allTags, bySource, byTag, byType := AddFile(articles, files[i], allTags, bySource, byTag, byType);
      EntriesSnoc(files, i);
      articles := articles + [e];
      i := i + 1;
    }
    assert files[..i] == files;
    index := Index(ByDate(articles), SortAsc(allTags), Stats(|articles|, bySource, byTag, byType));
  }

  // ---------------------------------------------------------------------------
  // Properties of the index

  lemma {:induction false} TagListMembers(es: seq<Entry>, t: string)
    ensures t in TagList(es) <==> exists i :: 0 <= i < |es| && t in es[i].tags
  {
    if es != [] {
      var init := es[..|es| - 1];
      TagListMembers(init, t);
      if t in es[|es| - 1].tags {
        assert t in TagList(es);
      }
      if exists i :: 0 <= i < |es| - 1 && t in es[i].tags {
        var i :| 0 <= i < |es| - 1 && t in es[i].tags;
        assert init[i] == es[i];
      }
    }
  }

  /** `tags` is strictly ascending and holds exactly the tags of the articles. */
  lemma IndexTags(es: seq<Entry>, t: string)
    ensures Ascending(SortAsc(Distinct(TagList(es))))
    ensures t in SortAsc(Distinct(TagList(es))) <==> exists i :: 0 <= i < |es| && t in es[i].tags
  {
    SortAscOfDistinct(Distinct(TagList(es)));
    TagListMembers(es, t);
  }

  /** `byTag[t]` is the number of times t is listed over all articles, and
      `bySource` and `byType` count one per article, so each sums to `total`. */
  lemma IndexCounts(es: seq<Entry>, t: string)
    ensures Tally.Count(Tally.BumpAll(Tally.Empty(), TagList(es)), t) == multiset(TagList(es))[t]
    ensures Tally.Total(Tally.BumpAll(Tally.Empty(), Sources(es))) == |es|
    ensures Tally.Total(Tally.BumpAll(Tally.Empty(), Kinds(es))) == |es|
    ensures Tally.Count(Tally.BumpAll(Tally.Empty(), Sources(es)), t) == multiset(Sources(es))[t]
    ensures Tally.Count(Tally.BumpAll(Tally.Empty(), Kinds(es)), t) == multiset(Kinds(es))[t]
  {
    Tally.BumpAllCount(Tally.Empty(), TagList(es), t);
    Tally.BumpAllCount(Tally.Empty(), Sources(es), t);
    Tally.BumpAllCount(Tally.Empty(), Kinds(es), t);
    Tally.BumpAllTotal(Tally.Empty(), Sources(es));
    Tally.BumpAllTotal(Tally.Empty(), Kinds(es));
  }

  /** The articles are a permutation of the records, newest first, and records
      with equal dates keep their file order. */
  lemma IndexOrder(es: seq<Entry>)
    ensures multiset(ByDate(es)) == multiset(es)
    ensures forall i, j :: 0 <= i < j < |ByDate(es)| ==> !StrLt(ByDate(es)[i].date, ByDate(es)[j].date)
    ensures forall d :: StableSort.WithKey(ByDate(es), DateKey, d) == StableSort.WithKey(es, DateKey, d)
  {
    StrLtIsStrictTotal();
    StableSort.SortPermutes(es, DateKey, StrLt);
    StableSort.SortSorted(es, DateKey, StrLt);
    forall d ensures StableSort.WithKey(ByDate(es), DateKey, d) == StableSort.WithKey(es, DateKey, d) {
      StableSort.SortStable(es, DateKey, StrLt, d);
    }
  }
}
