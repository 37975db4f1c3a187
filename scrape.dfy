/** The rule functions of the scraper (scripts/scrape.ts): extractor lookup by
    host name, slug generation, reading time, and the updates it makes to the
    queue of sources. Fetching, HTML extraction and Markdown conversion are
    inputs here: a scrape is reduced to its outcome (success or failure). */
module Scrape {
  import opened Common
  import opened Sources

  // ---------------------------------------------------------------------------
  // Extractor lookup (scripts/scrape.ts:89-99)

  datatype ExtractorConfig = ExtractorConfig(
    content: string,
    title: string,
    author: Option<string>,
    date: Option<string>)

  /** The `extractors` record of config/extractors.yaml: its keys in
      `Object.entries` order and the config stored under each. */
  datatype Extractors = Extractors(domains: seq<string>, configs: map<string, ExtractorConfig>)

  /** Every listed key has a config (the key list comes from the record). A
      JavaScript record also lists each key once and every key it has; the
      model admits these more general inputs as well. */
  predicate Keyed(e: Extractors) {
    forall d :: d in e.domains ==> d in e.configs
  }

  /** The host name with its first `www.` removed, wherever it occurs. */
  function Host(hostname: string): string {
    ReplaceFirst(hostname, "www.", "")
  }

  /** The config of the first key that occurs in the host name; failing that the
      `default` entry, and `undefined` (None) when there is none. */
  method ExtractorFor(hostname: string, e: Extractors) returns (r: Option<ExtractorConfig>)
    requires Keyed(e)
    ensures forall i :: 0 <= i < |e.domains| && Contains(Host(hostname), e.domains[i])
              && (forall j :: 0 <= j < i ==> !Contains(Host(hostname), e.domains[j]))
              ==> r == Some(e.configs[e.domains[i]])
    ensures (forall i :: 0 <= i < |e.domains| ==> !Contains(Host(hostname), e.domains[i]))
              ==> r == (if "default" in e.configs then Some(e.configs["default"]) else None)
  {
    var host := Host(hostname);
    var i := 0;
    while i < |e.domains|
      invariant 0 <= i <= |e.domains|
      invariant forall j :: 0 <= j < i ==> !Contains(host, e.domains[j])
    {
      if Contains(host, e.domains[i]) {
        return Some(e.configs[e.domains[i]]);
      }
      i := i + 1;
    }
    if "default" in e.configs {
      r := Some(e.configs["default"]);
    } else {
      r := None;
    }
  }

  // ---------------------------------------------------------------------------
  // Slugs (scripts/scrape.ts:101-108)

  predicate SlugChar(c: char) {
    'a' <= c <= 'z' || '0' <= c <= '9' || c == '-'
  }

  predicate NoDoubleDash(s: string) {
    forall i :: 0 <= i < |s| - 1 ==> !(s[i] == '-' && s[i + 1] == '-')
  }

  /** `.replace(/[^a-z0-9\s-]/g, '')`: every other character is dropped. */
  function KeepSlugChars(s: string): string {
    if s == [] then []
    else (if SlugChar(s[0]) || IsSpace(s[0]) then [s[0]] else []) + KeepSlugChars(s[1..])
  }

  lemma {:induction false} KeepSlugCharsChars(s: string)
    ensures forall c :: c in KeepSlugChars(s) ==> c in s && (SlugChar(c) || IsSpace(c))
  {
    if s != [] {
      KeepSlugCharsChars(s[1..]);
    }
  }

  lemma {:induction false} KeepSlugCharsKeeps(s: string)
    requires forall c :: c in s ==> SlugChar(c) || IsSpace(c)
    ensures KeepSlugChars(s) == s
  {
    if s != [] {
      KeepSlugCharsKeeps(s[1..]);
    }
  }

  /** `.replace(/\s+/g, c)`: every run of white space becomes one c. */
  function ReplaceRuns(s: string, c: char): string
    decreases |s|
  {
    if s == [] then []
    else if IsSpace(s[0]) then [c] + ReplaceRuns(TrimStart(s), c)
    else [s[0]] + ReplaceRuns(s[1..], c)
  }

  lemma {:induction false} ReplaceRunsChars(s: string, c: char)
    ensures forall x :: x in ReplaceRuns(s, c) ==> x == c || (x in s && !IsSpace(x))
    decreases |s|
  {
    if s != [] {
      if IsSpace(s[0]) {
        var t := TrimStart(s);
        ReplaceRunsChars(t, c);
        assert t == s[|s| - |t|..];
      } else {
        ReplaceRunsChars(s[1..], c);
      }
    }
  }

  lemma {:induction false} ReplaceRunsKeeps(s: string, c: char)
    requires forall x :: x in s ==> !IsSpace(x)
    ensures ReplaceRuns(s, c) == s
  {
    if s != [] {
      ReplaceRunsKeeps(s[1..], c);
    }
  }

  /** The leading dashes removed. */
  function DropDashes(s: string): (r: string)
    ensures |r| <= |s| && r == s[|s| - |r|..]
    ensures r == [] || r[0] != '-'
  {
    if s != [] && s[0] == '-' then DropDashes(s[1..]) else s
  }

  /** `.replace(/-+/g, '-')`: every run of dashes becomes one dash. */
  function CollapseDashes(s: string): (r: string)
    ensures s != [] ==> r != [] && r[0] == s[0]
    decreases |s|
  {
    if s == [] then []
    else if s[0] == '-' then "-" + CollapseDashes(DropDashes(s[1..]))
    else [s[0]] + CollapseDashes(s[1..])
  }

  lemma {:induction false} CollapseDashesChars(s: string)
    ensures forall x :: x in CollapseDashes(s) ==> x in s
    decreases |s|
  {
    if s != [] {
      if s[0] == '-' {
        var t := DropDashes(s[1..]);
        CollapseDashesChars(t);
        assert t == s[1..][|s| - 1 - |t|..];
      } else {
        CollapseDashesChars(s[1..]);
      }
    }
  }

  /** No two dashes are left side by side. */
  lemma {:induction false} CollapseNoDoubleDash(s: string)
    ensures NoDoubleDash(CollapseDashes(s))
    decreases |s|
  {
    if s != [] {
      var rest := if s[0] == '-' then DropDashes(s[1..]) else s[1..];
      CollapseNoDoubleDash(rest);
      var c := CollapseDashes(rest);
      assert CollapseDashes(s) == [s[0]] + c;
      assert forall i :: 0 <= i < |c| ==> ([s[0]] + c)[i + 1] == c[i];
    }
  }

  /** A text without two dashes side by side is left as it is. */
  lemma {:induction false} CollapseKeeps(s: string)
    requires NoDoubleDash(s)
    ensures CollapseDashes(s) == s
    decreases |s|
  {
    if s != [] {
      var t := s[1..];
      assert NoDoubleDash(t) by {
        forall i | 0 <= i < |t| - 1 ensures !(t[i] == '-' && t[i + 1] == '-') {
          assert t[i] == s[i + 1] && t[i + 1] == s[i + 2];
        }
      }
      CollapseKeeps(t);
      if s[0] == '-' {
        if |s| > 1 {
          assert t[0] == s[1] != '-';
        }
        assert DropDashes(t) == t;
        assert CollapseDashes(s) == "-" + CollapseDashes(t);
      } else {
        assert CollapseDashes(s) == [s[0]] + CollapseDashes(t);
      }
      assert s == [s[0]] + t;
    }
  }

  /** The slug of an article title: lower-cased, reduced to letters, digits,
      white space and dashes, runs of white space and of dashes turned into one
      dash, then cut to 80 characters. */
  function GenerateSlug(title: string): (slug: string)
    ensures |slug| <= 80
    ensures forall c :: c in slug ==> SlugChar(c)
    ensures NoDoubleDash(slug)
  {
    var k := KeepSlugChars(Lower(title));
    var d := ReplaceRuns(k, '-');
    var s := CollapseDashes(d);
    KeepSlugCharsChars(Lower(title));
    ReplaceRunsChars(k, '-');
    CollapseDashesChars(d);
    CollapseNoDoubleDash(d);
    Take(s, 80)
  }

  /** A slug is its own slug. */
  lemma SlugIdempotent(title: string)
    ensures GenerateSlug(GenerateSlug(title)) == GenerateSlug(title)
  {
    var s := GenerateSlug(title);
    LowerKeeps(s);
    KeepSlugCharsKeeps(s);
    ReplaceRunsKeeps(s, '-');
    CollapseKeeps(s);
  }

  lemma LowerKeeps(s: string)
    requires forall c :: c in s ==> SlugChar(c)
    ensures Lower(s) == s
  {
    assert forall i :: 0 <= i < |s| ==> SlugChar(s[i]);
  }

  // ---------------------------------------------------------------------------
  // Reading time (scripts/scrape.ts:134-139)

  /** `text.split(/\s+/)`: the pieces between the runs of white space; a run at
      either end leaves an empty piece there. */
  function SplitSpaces(s: string): (r: seq<string>)
    ensures |r| >= 1
    ensures forall k :: 0 <= k < |r| ==> forall x :: x in r[k] ==> !IsSpace(x)
    decreases |s|
  {
    if s == [] then [""]
    else if IsSpace(s[0]) then
      var t := TrimStart(s);
      [""] + SplitSpaces(t)
    else
      var rest := SplitSpaces(s[1..]);
      [[s[0]] + rest[0]] + rest[1..]
  }

  /** Joining the pieces with c gives the text with each run of white space
      replaced by c: the split loses nothing but the runs themselves. */
  lemma {:induction false} SplitSpacesJoin(s: string, c: char)
    ensures Join(SplitSpaces(s), [c]) == ReplaceRuns(s, c)
    decreases |s|
  {
    if s != [] {
      if IsSpace(s[0]) {
        var t := TrimStart(s);
        SplitSpacesJoin(t, c);
        var p := SplitSpaces(t);
        assert ([""] + p)[1..] == p;
      } else {
        SplitSpacesJoin(s[1..], c);
        var p := SplitSpaces(s[1..]);
        var q := [[s[0]] + p[0]] + p[1..];
        if |p| > 1 {
          assert q[1..] == p[1..];
          assert Join(p, [c]) == p[0] + [c] + Join(p[1..], [c]);
        }
      }
    }
  }

  /** `Math.ceil(words / 200)` where words is the number of pieces: at least one
      minute, and exactly enough minutes for the pieces at 200 a minute. */
  function ReadingMinutes(text: string): (m: nat)
    ensures m >= 1
    ensures 200 * (m - 1) < |SplitSpaces(text)| <= 200 * m
  {
    (|SplitSpaces(text)| + 199) / 200
  }

  // ---------------------------------------------------------------------------
  // Queue updates (scripts/scrape.ts:273-283, 293-329)

  /** After a successful single-URL scrape the URL joins the queue as scraped,
      unless some entry already has it; a failure leaves the queue alone. */
  function RecordSingle(ss: seq<Source>, url: string, ok: bool, addedAt: string, scrapedAt: string): (r: seq<Source>)
    ensures |r| == |ss| + (if ok && url !in Urls(ss) then 1 else 0)
    ensures r[..|ss|] == ss
    ensures |r| > |ss| ==> r[|ss|] == Source(url, [], Scraped, addedAt, Some(scrapedAt))
  {
    if ok && url !in Urls(ss) then ss + [Source(url, [], Scraped, addedAt, Some(scrapedAt))] else ss
  }

  /** A successful scrape puts the URL in the queue, and a queue without
      repeated URLs keeps none. */
  lemma RecordSingleKeepsUnique(ss: seq<Source>, url: string, ok: bool, addedAt: string, scrapedAt: string)
    ensures ok ==> url in Urls(RecordSingle(ss, url, ok, addedAt, scrapedAt))
    ensures NoDup(Urls(ss)) ==> NoDup(Urls(RecordSingle(ss, url, ok, addedAt, scrapedAt)))
  {
    var r := RecordSingle(ss, url, ok, addedAt, scrapedAt);
    if ok && url in Urls(ss) {
      assert r == ss;
    }
    if |r| > |ss| {
      assert Urls(r) == Urls(ss) + [url];
    }
  }

  /** A scrape's outcome applied to an entry: success marks it scraped and stamps
      it, failure marks it failed and keeps any earlier stamp. */
  function Mark(s: Source, ok: bool, stamp: string): Source {
    if ok then s.(status := Scraped, scrapedAt := Some(stamp)) else s.(status := Failed)
  }

  /** The URLs of the pending entries, in queue order (the `pending` filter). */
  function PendingUrls(ss: seq<Source>): (r: seq<string>)
    ensures |r| == PendingCount(ss)
  {
    if ss == [] then []
    else PendingUrls(ss[..|ss| - 1]) + (if ss[|ss| - 1].status == Pending then [ss[|ss| - 1].url] else [])
  }

  /** The queue after a batch, each pending entry receiving its own outcome: the
      k-th pending entry gets the k-th outcome and the k-th stamp. */
  function Processed(ss: seq<Source>, oks: seq<bool>, stamps: seq<string>): (r: seq<Source>)
    requires |oks| == |stamps| == PendingCount(ss)
    ensures |r| == |ss|
  {
    if ss == [] then []
    else
      var init, last := ss[..|ss| - 1], ss[|ss| - 1];
      var n := PendingCount(init);
      if last.status == Pending then Processed(init, oks[..n], stamps[..n]) + [Mark(last, oks[n], stamps[n])]
      else Processed(init, oks, stamps) + [last]
  }

  lemma PendingCountPrefix(ss: seq<Source>, i: nat)
    requires i < |ss|
    ensures PendingCount(ss[..i + 1]) == PendingCount(ss[..i]) + (if ss[i].status == Pending then 1 else 0)
    ensures PendingCount(ss[..i + 1]) <= PendingCount(ss)
    decreases |ss| - i
  {
    assert ss[..i + 1][..i] == ss[..i];
    if i + 1 < |ss| {
      PendingCountPrefix(ss, i + 1);
    } else {
      assert ss[..i + 1] == ss;
    }
  }

  /** The batch extended by one more entry. */
  lemma ProcessedStep(ss: seq<Source>, oks: seq<bool>, stamps: seq<string>, i: nat, k: nat)
    requires i < |ss| && k == PendingCount(ss[..i])
    requires |oks| == |stamps| == PendingCount(ss)
    ensures PendingCount(ss[..i + 1]) == k + (if ss[i].status == Pending then 1 else 0)
    ensures PendingCount(ss[..i + 1]) <= |oks|
    ensures ss[i].status == Pending ==>
      Processed(ss[..i + 1], oks[..k + 1], stamps[..k + 1])
        == Processed(ss[..i], oks[..k], stamps[..k]) + [Mark(ss[i], oks[k], stamps[k])]
    ensures ss[i].status != Pending ==>
      Processed(ss[..i + 1], oks[..k], stamps[..k]) == Processed(ss[..i], oks[..k], stamps[..k]) + [ss[i]]
  {
    PendingCountPrefix(ss, i);
    var front := ss[..i + 1];
    PrefixSnoc(ss, i);
    assert |front| - 1 == i;
    if ss[i].status == Pending {
      var o, t := oks[..k + 1], stamps[..k + 1];
      PrefixSnoc(oks, k);
      PrefixSnoc(stamps, k);
      assert Processed(front, o, t) == Processed(front[..i], o[..k], t[..k]) + [Mark(front[i], o[k], t[k])];
    } else {
      assert Processed(front, oks[..k], stamps[..k]) == Processed(front[..i], oks[..k], stamps[..k]) + [front[i]];
    }
  }

  /** The state of the batch loop after the first i entries, k of them pending. */
  ghost predicate BatchSoFar(ss: seq<Source>, oks: seq<bool>, stamps: seq<string>, r: seq<Source>, i: nat, k: nat)
    requires |oks| == |stamps| == PendingCount(ss)
  {
    && i <= |ss| && k == PendingCount(ss[..i]) && k <= |oks|
    && r == Processed(ss[..i], oks[..k], stamps[..k]) + ss[i..]
  }

  lemma BatchStep(ss: seq<Source>, oks: seq<bool>, stamps: seq<string>, r: seq<Source>, i: nat, k: nat)
    requires |oks| == |stamps| == PendingCount(ss)
    requires BatchSoFar(ss, oks, stamps, r, i, k) && i < |ss|
    ensures ss[i].status == Pending ==> (k < |oks| && i < |r|
      && BatchSoFar(ss, oks, stamps, r[i := Mark(ss[i], oks[k], stamps[k])], i + 1, k + 1))
    ensures ss[i].status != Pending ==> BatchSoFar(ss, oks, stamps, r, i + 1, k)
  {
    ProcessedStep(ss, oks, stamps, i, k);
    var done := Processed(ss[..i], oks[..k], stamps[..k]);
    if ss[i].status == Pending {
      ReplaceNext(done, Mark(ss[i], oks[k], stamps[k]), ss[i..]);
    } else {
      ReplaceNext(done, ss[i], ss[i..]);
    }
    assert ss[i..][1..] == ss[i + 1..];
  }

  /** Overwriting the element just behind a prefix. */
  lemma ReplaceNext<T>(done: seq<T>, m: T, rest: seq<T>)
    requires rest != []
    ensures (done + rest)[|done| := m] == done + [m] + rest[1..]
    ensures rest[0] == m ==> done + rest == done + [m] + rest[1..]
  {
  }

  lemma SuccessesStep(oks: seq<bool>, k: nat)
    requires k < |oks|
    ensures Successes(oks[..k + 1]) == Successes(oks[..k]) + (if oks[k] then 1 else 0)
  {
    assert oks[..k + 1][..k] == oks[..k];
  }

  /** The batch mode, each pending entry updated in place with its own outcome;
      `success` and `failed` count the outcomes. */
  method ScrapePending(ss: seq<Source>, oks: seq<bool>, stamps: seq<string>)
    returns (r: seq<Source>, success: nat, failed: nat)
    requires |oks| == |stamps| == PendingCount(ss)
    ensures r == Processed(ss, oks, stamps)
    ensures success == Successes(oks) && success + failed == PendingCount(ss)
  {
    r, success, failed := ss, 0, 0;
    var i: nat, k: nat := 0, 0;
    while i < |ss|
      invariant BatchSoFar(ss, oks, stamps, r, i, k)
      invariant success == Successes(oks[..k]) && success + failed == k
    {
      r, k, success, failed := ScrapeEntry(ss, oks, stamps, r, i, k, success, failed);
      i := i + 1;
    }
    assert ss[..i] == ss && ss[i..] == [];
    assert oks[..k] == oks && stamps[..k] == stamps;
  }

  /** One turn of the batch loop: a pending entry takes the next outcome. */
  method ScrapeEntry(ss: seq<Source>, oks: seq<bool>, stamps: seq<string>, r0: seq<Source>, i: nat, k0: nat,
                     success0: nat, failed0: nat)
    returns (r: seq<Source>, k: nat, success: nat, failed: nat)
    requires |oks| == |stamps| == PendingCount(ss)
    requires BatchSoFar(ss, oks, stamps, r0, i, k0) && i < |ss|
    requires success0 == Successes(oks[..k0]) && success0 + failed0 == k0
    ensures BatchSoFar(ss, oks, stamps, r, i + 1, k)
    ensures success == Successes(oks[..k]) && success + failed == k
  {
    BatchStep(ss, oks, stamps, r0, i, k0);
    r, k, success, failed := r0, k0, success0, failed0;
    if ss[i].status == Pending {
      SuccessesStep(oks, k);
      r := r[i := Mark(ss[i], oks[k], stamps[k])];
      if oks[k] {
        success := success + 1;
      } else {
        failed := failed + 1;
      }
      k := k + 1;
    }
  }

  /** Every entry that was pending received its own outcome, every other entry
      is untouched, and no entry is left pending. */
  lemma {:induction false} ProcessedAt(ss: seq<Source>, oks: seq<bool>, stamps: seq<string>, i: nat)
    requires |oks| == |stamps| == PendingCount(ss)
    requires i < |ss|
    ensures Processed(ss, oks, stamps)[i].status != Pending
    ensures ss[i].status != Pending ==> Processed(ss, oks, stamps)[i] == ss[i]
    ensures ss[i].status == Pending ==>
      PendingCount(ss[..i]) < |oks|
      && Processed(ss, oks, stamps)[i] == Mark(ss[i], oks[PendingCount(ss[..i])], stamps[PendingCount(ss[..i])])
  {
    var init, last := ss[..|ss| - 1], ss[|ss| - 1];
    var n := PendingCount(init);
    if i == |ss| - 1 {
      assert init == ss[..i];
    } else {
      assert init[..i] == ss[..i];
      if last.status == Pending {
        ProcessedAt(init, oks[..n], stamps[..n], i);
        PendingCountPrefix(init, i);
      } else {
        ProcessedAt(init, oks, stamps, i);
      }
    }
  }

  // The batch loop as the script writes it looks each pending URL up again with
  // `findIndex`, so the FIRST entry with that URL receives the outcome.

  /** `findIndex(s => s.url === url)`. */
  function FindUrl(ss: seq<Source>, url: string): (r: Option<nat>)
    ensures r.None? ==> forall j :: 0 <= j < |ss| ==> ss[j].url != url
    ensures r.Some? ==> r.value < |ss| && ss[r.value].url == url
    ensures r.Some? ==> forall j :: 0 <= j < r.value ==> ss[j].url != url
  {
    if ss == [] then None
    else if ss[0].url == url then Some(0)
    else match FindUrl(ss[1..], url)
      case None => None
      case Some(i) => Some(i + 1)
  }

  /** The queue after outcomes for the given URLs are applied as written: each
      to the first entry with that URL. */
  function ApplyByUrl(ss: seq<Source>, urls: seq<string>, oks: seq<bool>, stamps: seq<string>): (r: seq<Source>)
    requires |oks| == |stamps| == |urls|
    ensures |r| == |ss|
    ensures forall j :: 0 <= j < |r| ==> r[j].url == ss[j].url
  {
    if urls == [] then ss
    else
      var n := |urls| - 1;
      var cur := ApplyByUrl(ss, urls[..n], oks[..n], stamps[..n]);
      match FindUrl(cur, urls[n])
      case None => cur
      case Some(i) =>
        cur[i := Mark(cur[i], oks[n], stamps[n])]
  }

  /** The batch mode as written (scripts/scrape.ts:297-326). */
  function ScrapePendingAsWritten(ss: seq<Source>, oks: seq<bool>, stamps: seq<string>): seq<Source>
    requires |oks| == |stamps| == PendingCount(ss)
  {
    ApplyByUrl(ss, PendingUrls(ss), oks, stamps)
  }

  /** With a queue holding a URL twice, the pending entry is never updated and
      the earlier entry is overwritten; the intended batch marks the pending one. */
  lemma DuplicateUrlStaysPending()
    ensures var ss := [Source("u", [], Scraped, "t0", Some("t0")), Source("u", [], Pending, "t1", None)];
      && ScrapePendingAsWritten(ss, [false], ["t2"])
         == [Source("u", [], Failed, "t0", Some("t0")), Source("u", [], Pending, "t1", None)]
      && Processed(ss, [false], ["t2"])
         == [Source("u", [], Scraped, "t0", Some("t0")), Source("u", [], Failed, "t1", None)]
  {
    var ss := [Source("u", [], Scraped, "t0", Some("t0")), Source("u", [], Pending, "t1", None)];
    assert ss[..1] == [ss[0]];
    assert PendingUrls(ss) == ["u"];
    assert FindUrl(ss, "u") == Some(0);
  }

  /** Applying outcomes for URLs that all occur before the last entry leaves
      that entry alone. */
  lemma {:induction false} ApplyByUrlFront(init: seq<Source>, x: Source, urls: seq<string>, oks: seq<bool>, stamps: seq<string>)
    requires |oks| == |stamps| == |urls|
    requires forall u :: u in urls ==> u in Urls(init)
    ensures ApplyByUrl(init + [x], urls, oks, stamps) == ApplyByUrl(init, urls, oks, stamps) + [x]
  {
    if urls != [] {
      var n := |urls| - 1;
      ApplyByUrlFront(init, x, urls[..n], oks[..n], stamps[..n]);
      var cur := ApplyByUrl(init, urls[..n], oks[..n], stamps[..n]);
      assert urls[n] in Urls(init);
      var j :| 0 <= j < |init| && Urls(init)[j] == urls[n];
      assert cur[j].url == urls[n];
      FindUrlFront(cur, x, urls[n], j);
      var i := FindUrl(cur, urls[n]).value;
      UpdateFront(cur, x, i, Mark(cur[i], oks[n], stamps[n]));
    }
  }

  /** A URL found before the end is found at the same place once an entry is
      added at the end. */
  lemma {:induction false} FindUrlFront(ss: seq<Source>, x: Source, url: string, j: nat)
    requires j < |ss| && ss[j].url == url
    ensures FindUrl(ss, url).Some?
    ensures FindUrl(ss + [x], url) == FindUrl(ss, url)
  {
    if ss[0].url != url {
      FindUrlFront(ss[1..], x, url, j - 1);
      assert (ss + [x])[1..] == ss[1..] + [x];
    }
  }

  lemma UpdateFront<T>(s: seq<T>, x: T, i: nat, m: T)
    requires i < |s|
    ensures (s + [x])[i := m] == s[i := m] + [x]
  {
  }

  /** When no URL is queued twice, the batch as written is the intended one. */
  lemma {:induction false} AsWrittenWithUniqueUrls(ss: seq<Source>, oks: seq<bool>, stamps: seq<string>)
    requires |oks| == |stamps| == PendingCount(ss)
    requires NoDup(Urls(ss))
    ensures ScrapePendingAsWritten(ss, oks, stamps) == Processed(ss, oks, stamps)
  {
    if ss != [] {
      var init, last := ss[..|ss| - 1], ss[|ss| - 1];
      var n := PendingCount(init);
      SplitLast(ss);
      LastUrlFresh(ss);
      PendingUrlsListed(init);
      if last.status == Pending {
        AsWrittenWithUniqueUrls(init, oks[..n], stamps[..n]);
        AsWrittenLastPending(init, last, oks, stamps);
      } else {
        AsWrittenWithUniqueUrls(init, oks, stamps);
        AsWrittenLastSkipped(init, last, oks, stamps);
      }
    }
  }

  /** Without repeated URLs, the last entry's URL is not that of an earlier entry. */
  lemma LastUrlFresh(ss: seq<Source>)
    requires ss != [] && NoDup(Urls(ss))
    ensures NoDup(Urls(ss[..|ss| - 1]))
    ensures forall j :: 0 <= j < |ss| - 1 ==> ss[j].url != ss[|ss| - 1].url
  {
    var init := ss[..|ss| - 1];
    assert Urls(init) == Urls(ss)[..|ss| - 1];
    forall j | 0 <= j < |init| ensures init[j].url != ss[|ss| - 1].url {
      assert Urls(ss)[j] == init[j].url && Urls(ss)[|ss| - 1] == ss[|ss| - 1].url;
    }
  }

  lemma AsWrittenLastSkipped(init: seq<Source>, last: Source, oks: seq<bool>, stamps: seq<string>)
    requires |oks| == |stamps| == PendingCount(init)
    requires last.status != Pending
    requires forall u :: u in PendingUrls(init) ==> u in Urls(init)
    ensures PendingCount(init + [last]) == |oks|
    ensures ScrapePendingAsWritten(init + [last], oks, stamps) == ScrapePendingAsWritten(init, oks, stamps) + [last]
  {
    var ss := init + [last];
    assert ss[..|ss| - 1] == init && ss[|ss| - 1] == last;
    assert PendingUrls(ss) == PendingUrls(init);
    ApplyByUrlFront(init, last, PendingUrls(init), oks, stamps);
  }

  lemma AsWrittenLastPending(init: seq<Source>, last: Source, oks: seq<bool>, stamps: seq<string>)
    requires |oks| == |stamps| == PendingCount(init + [last])
    requires last.status == Pending
    requires forall j :: 0 <= j < |init| ==> init[j].url != last.url
    requires forall u :: u in PendingUrls(init) ==> u in Urls(init)
    ensures PendingCount(init) < |oks|
    ensures ScrapePendingAsWritten(init + [last], oks, stamps)
      == ScrapePendingAsWritten(init, oks[..PendingCount(init)], stamps[..PendingCount(init)])
         + [Mark(last, oks[PendingCount(init)], stamps[PendingCount(init)])]
  {
    var ss := init + [last];
    assert ss[..|ss| - 1] == init;
    var n := PendingCount(init);
    var us := PendingUrls(init);
    var urls := PendingUrls(ss);
    assert urls == us + [last.url];
    assert urls[..n] == us;
    ApplyByUrlFront(init, last, us, oks[..n], stamps[..n]);
    var cur := ApplyByUrl(init, us, oks[..n], stamps[..n]);
    FindUrlLast(cur, last);
    UpdateLast(cur, last, Mark(last, oks[n], stamps[n]));
    var cur2 := ApplyByUrl(ss, urls[..n], oks[..n], stamps[..n]);
    assert cur2 == cur + [last];
    assert urls[n] == last.url && |urls| - 1 == n;
    assert FindUrl(cur2, urls[n]) == Some(|cur|);
    assert cur2[|cur|] == last;
    assert ApplyByUrl(ss, urls, oks, stamps) == cur2[|cur| := Mark(cur2[|cur|], oks[n], stamps[n])];
  }

  lemma {:induction false} FindUrlLast(ss: seq<Source>, x: Source)
    requires forall j :: 0 <= j < |ss| ==> ss[j].url != x.url
    ensures FindUrl(ss + [x], x.url) == Some(|ss|)
  {
    if ss != [] {
      FindUrlLast(ss[1..], x);
      assert (ss + [x])[1..] == ss[1..] + [x];
    }
  }

  lemma UpdateLast<T>(s: seq<T>, x: T, m: T)
    ensures (s + [x])[|s| := m] == s + [m]
  {
  }

  lemma {:induction false} PendingUrlsListed(ss: seq<Source>)
    ensures forall u :: u in PendingUrls(ss) ==> u in Urls(ss)
  {
    if ss != [] {
      var init := ss[..|ss| - 1];
      PendingUrlsListed(init);
      assert Urls(ss) == Urls(init) + [ss[|ss| - 1].url];
    }
  }
}
