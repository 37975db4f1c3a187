/** The tag rules of config/auto-tags.yaml and the retagging pass of
    scripts/auto-tag.ts. `applyAutoTags` is the same code in scripts/scrape.ts
    (lines 110-132) and scripts/auto-tag.ts (lines 35-57); it is modelled once. */
module AutoTag {
  import opened Common
  import StableSort
  import opened TextSort

  /** A URL rule adds its tags when its pattern occurs in the URL. */
  datatype UrlRule = UrlRule(pattern: string, addTags: seq<string>)

  /** A content rule adds its tags when one of its keywords occurs in the text. */
  datatype ContentRule = ContentRule(keywords: seq<string>, addTags: seq<string>)

  datatype Rules = Rules(urlRules: seq<UrlRule>, contentRules: seq<ContentRule>)

  /** Some keyword, lower-cased, occurs in the lower-cased text. */
  predicate Fires(rule: ContentRule, lower: string) {
    exists k :: k in rule.keywords && Contains(lower, Lower(k))
  }

  /** The tags of the URL rules that match, rule by rule, repeats kept. */
  function UrlTags(url: string, rules: seq<UrlRule>): seq<string> {
    if rules == [] then []
    else
      var last := rules[|rules| - 1];
      UrlTags(url, rules[..|rules| - 1]) + (if Contains(url, last.pattern) then last.addTags else [])
  }

  /** The tags of the content rules that fire, rule by rule, repeats kept. */
  function ContentTags(lower: string, rules: seq<ContentRule>): seq<string> {
    if rules == [] then []
    else
      var last := rules[|rules| - 1];
      ContentTags(lower, rules[..|rules| - 1]) + (if Fires(last, lower) then last.addTags else [])
  }

  /** Every tag the rules produce for a document, in the order they are added. */
  function RuleTags(url: string, content: string, rules: Rules): seq<string> {
    UrlTags(url, rules.urlRules) + ContentTags(Lower(content), rules.contentRules)
  }

  lemma {:induction false} UrlTagsMembers(url: string, rules: seq<UrlRule>, t: string)
    ensures t in UrlTags(url, rules) <==> exists r :: r in rules && Contains(url, r.pattern) && t in r.addTags
  {
    if rules != [] {
      var init := rules[..|rules| - 1];
      UrlTagsMembers(url, init, t);
      assert rules == init + [rules[|rules| - 1]];
    }
  }

  lemma {:induction false} ContentTagsMembers(lower: string, rules: seq<ContentRule>, t: string)
    ensures t in ContentTags(lower, rules) <==> exists r :: r in rules && Fires(r, lower) && t in r.addTags
  {
    if rules != [] {
      var init := rules[..|rules| - 1];
      ContentTagsMembers(lower, init, t);
      assert rules == init + [rules[|rules| - 1]];
    }
  }

  lemma UrlTagsStep(url: string, us: seq<UrlRule>, i: nat)
    requires i < |us|
    ensures UrlTags(url, us[..i + 1]) == UrlTags(url, us[..i]) + (if Contains(url, us[i].pattern) then us[i].addTags else [])
  {
    assert us[..i + 1][..i] == us[..i];
  }

  lemma ContentTagsStep(lower: string, cs: seq<ContentRule>, i: nat)
    requires i < |cs|
    ensures ContentTags(lower, cs[..i + 1]) == ContentTags(lower, cs[..i]) + (if Fires(cs[i], lower) then cs[i].addTags else [])
    ensures forall front: seq<string> :: (front + ContentTags(lower, cs[..i + 1])
      == (front + ContentTags(lower, cs[..i])) + (if Fires(cs[i], lower) then cs[i].addTags else []))
  {
    assert cs[..i + 1][..i] == cs[..i];
  }

  /** `rule.add_tags.forEach(tag => tags.add(tag))`. */
  method AddTags(tags0: seq<string>, ghost front: seq<string>, add: seq<string>) returns (tags: seq<string>)
    requires tags0 == Distinct(front)
    ensures tags == Distinct(front + add)
  {
    tags := tags0;
    var j := 0;
    assert front + add[..0] == front;
    while j < |add|
      invariant 0 <= j <= |add|
      invariant tags == Distinct(front + add[..j])
    {
      SnocPrefix(front, add, j);
      DistinctSnoc(front + add[..j], add[j]);
      tags := SetAdd(tags, add[j]);
      j := j + 1;
    }
    assert add[..j] == add;
  }

  /** The tags for a document: a URL rule's tags are in exactly when its
      pattern occurs in the URL, a content rule's tags exactly when one of its
      keywords occurs in the text (ignoring ASCII case); no tag twice, each in
      the order of its first addition. */
  method ApplyAutoTags(url: string, content: string, rules: Rules) returns (tags: seq<string>)
    ensures tags == Distinct(RuleTags(url, content, rules))
    ensures NoDup(tags)
    ensures forall t :: t in tags <==>
      (exists r :: r in rules.urlRules && Contains(url, r.pattern) && t in r.addTags)
      || (exists r :: r in rules.contentRules && Fires(r, Lower(content)) && t in r.addTags)
  {
    var lower := Lower(content);
    tags := ApplyUrlRules(url, rules.urlRules);
    tags := ApplyContentRules(tags, UrlTags(url, rules.urlRules), lower, rules.contentRules);
    forall t ensures t in tags <==>
      (exists r :: r in rules.urlRules && Contains(url, r.pattern) && t in r.addTags)
      || (exists r :: r in rules.contentRules && Fires(r, Lower(content)) && t in r.addTags)
    {
      UrlTagsMembers(url, rules.urlRules, t);
      ContentTagsMembers(lower, rules.contentRules, t);
    }
  }

  /** The URL-rule loop, from an empty `Set`. */
  method ApplyUrlRules(url: string, us: seq<UrlRule>) returns (tags: seq<string>)
    ensures tags == Distinct(UrlTags(url, us))
  {
    tags := [];
    var i := 0;
    while i < |us|
      invariant 0 <= i <= |us|
      invariant tags == Distinct(UrlTags(url, us[..i]))
    {
      UrlTagsStep(url, us, i);
      if Contains(url, us[i].pattern) {
        tags := AddTags(tags, UrlTags(url, us[..i]), us[i].addTags);
      } else {
        assert UrlTags(url, us[..i]) + [] == UrlTags(url, us[..i]);
      }
      i := i + 1;
    }
    assert us[..i] == us;
  }

  /** The content-rule loop, on the `Set` the URL rules left. */
  method ApplyContentRules(tags0: seq<string>, ghost front: seq<string>, lower: string, cs: seq<ContentRule>)
    returns (tags: seq<string>)
    requires tags0 == Distinct(front)
    ensures tags == Distinct(front + ContentTags(lower, cs))
  {
    tags := tags0;
    var i := 0;
    assert front + ContentTags(lower, cs[..0]) == front;
    while i < |cs|
      invariant 0 <= i <= |cs|
      invariant tags == Distinct(front + ContentTags(lower, cs[..i]))
    {
      ghost var before := front + ContentTags(lower, cs[..i]);
      tags := ApplyContentRule(tags, before, cs[i], lower);
      ContentTagsStep(lower, cs, i);
      i := i + 1;
    }
    assert cs[..i] == cs;
  }

  /** One content rule: the first keyword found adds the rule's tags, once. */
  method ApplyContentRule(tags0: seq<string>, ghost before: seq<string>, rule: ContentRule, lower: string)
    returns (tags: seq<string>)
    requires tags0 == Distinct(before)
    ensures tags == Distinct(before + (if Fires(rule, lower) then rule.addTags else []))
  {
    tags := tags0;
    var k := 0;
    while k < |rule.keywords|
      invariant 0 <= k <= |rule.keywords|
      invariant forall m :: 0 <= m < k ==> !Contains(lower, Lower(rule.keywords[m]))
    {
      if Contains(lower, Lower(rule.keywords[k])) {
        tags := AddTags(tags, before, rule.addTags);
        return;
      }
      k := k + 1;
    }
    assert before + [] == before;
  }

  // ---------------------------------------------------------------------------
  // The merge (scripts/auto-tag.ts:86-101)

  /** `Array.from(new Set([...prior, ...added])).sort()`. */
  function MergeTags(prior: seq<string>, added: seq<string>): seq<string> {
    SortAsc(AddAll(Distinct(prior), added))
  }

  /** The merged list keeps every old tag, adds every new one and nothing else,
      and is strictly ascending (so duplicate-free). */
  lemma MergeTagsShape(prior: seq<string>, added: seq<string>)
    ensures Ascending(MergeTags(prior, added))
    ensures NoDup(MergeTags(prior, added))
    ensures forall t :: t in MergeTags(prior, added) <==> t in prior || t in added
  {
    var u := AddAll(Distinct(prior), added);
    AddAllContents(Distinct(prior), added);
    SortAscOfDistinct(u);
  }

  /** Tags that are already strictly ascending and hold every new tag are kept
      as they are. */
  lemma MergeOfComplete(prior: seq<string>, added: seq<string>)
    requires Ascending(prior) && forall t :: t in added ==> t in prior
    ensures MergeTags(prior, added) == prior
  {
    forall i, j | 0 <= i < j < |prior| ensures prior[i] != prior[j] {
      StrLtIrreflexive(prior[i]);
    }
    DistinctOfNoDup(prior);
    AddAllPresent(prior, added);
    SortAscOfAscending(prior);
  }

  /** `oldTags !== newTagsStr`: the sorted old list and the merged list, each
      joined with commas, differ. */
  predicate Changed(prior: seq<string>, added: seq<string>) {
    Join(SortAsc(prior), ",") != Join(MergeTags(prior, added), ",")
  }

  /** Merging again with the same new tags changes nothing and is not seen as
      a change. */
  lemma MergeIdempotent(prior: seq<string>, added: seq<string>)
    ensures MergeTags(MergeTags(prior, added), added) == MergeTags(prior, added)
    ensures !Changed(MergeTags(prior, added), added)
  {
    var m := MergeTags(prior, added);
    MergeTagsShape(prior, added);
    MergeOfComplete(m, added);
    SortAscOfAscending(m);
  }

  /** When no tag is empty or holds a comma, the change check is exact: a file
      is rewritten exactly when its sorted tags differ from the merged ones. */
  lemma ChangedExactly(prior: seq<string>, added: seq<string>)
    requires forall t :: t in prior || t in added ==> t != "" && ',' !in t
    ensures Changed(prior, added) <==> SortAsc(prior) != MergeTags(prior, added)
  {
    var s, m := SortAsc(prior), MergeTags(prior, added);
    MergeTagsShape(prior, added);
    StableSort.SortPermutes(prior, Id, After);
    forall k | 0 <= k < |s| ensures s[k] != "" && ',' !in s[k] {
      assert s[k] in multiset(s);
      assert s[k] in multiset(prior);
      assert s[k] in prior;
    }
    forall k | 0 <= k < |m| ensures m[k] != "" && ',' !in m[k] {
      assert m[k] in m;
    }
    if Join(s, ",") == Join(m, ",") {
      JoinInjective(s, m, ',');
    }
  }

  // ---------------------------------------------------------------------------
  // The retagging pass (scripts/auto-tag.ts:78-108)

  /** A content file as the pass reads it: `source_url`, the `tags` list (an
      absent list is the empty one) and the body. */
  datatype TagFile = TagFile(sourceUrl: Option<string>, tags: seq<string>, body: string)

  /** The tags the rules give a file. */
  function NewTags(f: TagFile, rules: Rules): seq<string> {
    Distinct(RuleTags(OrElse(f.sourceUrl, ""), f.body, rules))
  }

  predicate FileChanged(f: TagFile, rules: Rules) {
    Changed(f.tags, NewTags(f, rules))
  }

  /** The file's tags after the pass: the merged list when it changed. */
  function Retagged(f: TagFile, rules: Rules): seq<string> {
    if FileChanged(f, rules) then MergeTags(f.tags, NewTags(f, rules)) else f.tags
  }

  /** How many files the pass rewrites. */
  function ChangedCount(files: seq<TagFile>, rules: Rules): (n: nat)
    ensures n <= |files|
  {
    if files == [] then 0
    else ChangedCount(files[..|files| - 1], rules) + (if FileChanged(files[|files| - 1], rules) then 1 else 0)
  }

  /** The tag lists the pass leaves, file by file. */
  function RetaggedAll(files: seq<TagFile>, rules: Rules): (r: seq<seq<string>>)
    ensures |r| == |files|
  {
    if files == [] then []
    else RetaggedAll(files[..|files| - 1], rules) + [Retagged(files[|files| - 1], rules)]
  }

  lemma {:induction false} RetaggedAllAt(files: seq<TagFile>, rules: Rules, j: nat)
    requires j < |files|
    ensures RetaggedAll(files, rules)[j] == Retagged(files[j], rules)
  {
    if j < |files| - 1 {
      RetaggedAllAt(files[..|files| - 1], rules, j);
    }
  }

  /** The pass over the files: each file's new tag list, and `updated`. */
  method RetagFiles(files: seq<TagFile>, rules: Rules) returns (tags: seq<seq<string>>, updated: nat)
    ensures tags == RetaggedAll(files, rules)
    ensures updated == ChangedCount(files, rules)
  {
    tags, updated := [], 0;
    var i := 0;
    while i < |files|
      invariant 0 <= i <= |files|
      invariant tags == RetaggedAll(files[..i], rules)
      invariant updated == ChangedCount(files[..i], rules)
    {
      var t, changed := RetagFile(files[i], rules);
      PassStep(files, rules, i);
      tags := tags + [t];
      if changed {
        updated := updated + 1;
      }
      i := i + 1;
    }
    assert files[..i] == files;
  }

  lemma PassStep(files: seq<TagFile>, rules: Rules, i: nat)
    requires i < |files|
    ensures RetaggedAll(files[..i + 1], rules) == RetaggedAll(files[..i], rules) + [Retagged(files[i], rules)]
    ensures ChangedCount(files[..i + 1], rules) == ChangedCount(files[..i], rules) + (if FileChanged(files[i], rules) then 1 else 0)
  {
    assert files[..i + 1][..i] == files[..i];
  }

  /** One turn of the pass: the file's tags afterwards, and whether it is rewritten. */
  method RetagFile(f: TagFile, rules: Rules) returns (tags: seq<string>, changed: bool)
    ensures tags == Retagged(f, rules) && changed == FileChanged(f, rules)
  {
    var added := ApplyAutoTags(OrElse(f.sourceUrl, ""), f.body, rules);
    var merged := SortAsc(AddAll(Distinct(f.tags), added));
    changed := Join(SortAsc(f.tags), ",") != Join(merged, ",");
    tags := if changed then merged else f.tags;
  }

  /** A second pass over the files the first pass wrote rewrites nothing. */
  lemma {:induction false} SecondPassUnchanged(files: seq<TagFile>, rules: Rules)
    ensures ChangedCount(seq(|files|, i requires 0 <= i < |files| => files[i].(tags := Retagged(files[i], rules))), rules) == 0
  {
    if files != [] {
      var init := files[..|files| - 1];
      var f := files[|files| - 1];
      SecondPassUnchanged(init, rules);
      var out := seq(|files|, i requires 0 <= i < |files| => files[i].(tags := Retagged(files[i], rules)));
      assert out[..|files| - 1] == seq(|init|, i requires 0 <= i < |init| => init[i].(tags := Retagged(init[i], rules)));
      var g := f.(tags := Retagged(f, rules));
      assert NewTags(g, rules) == NewTags(f, rules);
      if FileChanged(f, rules) {
        MergeIdempotent(f.tags, NewTags(f, rules));
      }
    }
  }
}
