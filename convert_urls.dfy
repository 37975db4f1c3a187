/** The URL converter (scripts/convert-urls.ts): reads the URL list of
    input/urls.txt and appends the new URLs to the queue of sources as pending
    entries. Reading and writing the files and the clock are inputs here: the
    file's text, the current queue, and one time stamp per listed URL. */
module ConvertUrls {
  import opened Common
  import opened Sources

  /** A trimmed line is a URL when it is non-empty and not a `#` comment. */
  predicate IsUrlLine(t: string) {
    t != "" && !StartsWith(t, "#")
  }

  /** What one line contributes: its trimmed text when that is a URL. */
  function UrlOf(line: string): (r: seq<string>)
    ensures |r| <= 1
    ensures forall u :: u in r ==> IsUrlLine(u) && !IsSpace(u[0]) && !IsSpace(u[|u| - 1])
  {
    var t := Trim(line);
    if IsUrlLine(t) then [t] else []
  }

  /** `lines.map(line => line.trim()).filter(line => line && !line.startsWith('#'))`. */
  function KeptLines(lines: seq<string>): seq<string> {
    FlatMap(lines, UrlOf)
  }

  /** The URLs of a urls.txt file (scripts/convert-urls.ts:33-36). */
  function LoadUrls(content: string): seq<string> {
    KeptLines(Split(content, '\n'))
  }

  /** The filter works line by line: the URLs of two blocks of lines are the
      URLs of the first followed by those of the second, so file order is kept. */
  lemma KeptLinesAppend(a: seq<string>, b: seq<string>)
    ensures KeptLines(a + b) == KeptLines(a) + KeptLines(b)
  {
    FlatMapAppend(a, b, UrlOf);
  }

  lemma SplitPieceFree(content: string, c: char, l: string)
    requires l in Split(content, c)
    ensures c !in l
  {
    var lines := Split(content, c);
    var k :| 0 <= k < |lines| && lines[k] == l;
  }

  lemma UrlOfMembers(l: string, u: string)
    ensures u in UrlOf(l) <==> IsUrlLine(u) && Trim(l) == u
  {
  }

  /** A URL is listed exactly when some line trims to it and it is neither empty
      nor a comment. */
  lemma KeptLinesMembers(lines: seq<string>, u: string)
    ensures u in KeptLines(lines) <==> IsUrlLine(u) && exists l :: l in lines && Trim(l) == u
  {
    FlatMapMembers(lines, UrlOf, u);
    if u in KeptLines(lines) {
      var l :| l in lines && u in UrlOf(l);
      UrlOfMembers(l, u);
    }
    if IsUrlLine(u) && exists l :: l in lines && Trim(l) == u {
      var l :| l in lines && Trim(l) == u;
      UrlOfMembers(l, u);
    }
  }

  /** A URL of a file is neither empty nor a comment, is not padded with white
      space, and does not spread over two lines. */
  lemma LoadUrlsShape(content: string, u: string)
    requires u in LoadUrls(content)
    ensures IsUrlLine(u) && !IsSpace(u[0]) && !IsSpace(u[|u| - 1]) && '\n' !in u
  {
    var lines := Split(content, '\n');
    KeptLinesMembers(lines, u);
    var l :| l in lines && Trim(l) == u;
    SplitPieceFree(content, '\n', l);
    TrimFree(l, '\n');
    assert u in UrlOf(l);
  }

  // ---------------------------------------------------------------------------
  // The merge (scripts/convert-urls.ts:72-94)

  /** The entries the loop appends: one pending entry, with no tags, for every
      listed URL that the queue did not hold before the loop, repeats included. */
  function NewEntries(known: seq<string>, urls: seq<string>, stamps: seq<string>): seq<Source>
    requires |stamps| == |urls|
  {
    if urls == [] then []
    else
      var n := |urls| - 1;
      NewEntries(known, urls[..n], stamps[..n])
        + (if urls[n] in known then [] else [Source(urls[n], [], Pending, stamps[n], None)])
  }

  /** The listed URLs the queue did not hold, in list order, repeats included. */
  function Unknown(known: seq<string>, urls: seq<string>): seq<string> {
    if urls == [] then []
    else Unknown(known, urls[..|urls| - 1]) + (if urls[|urls| - 1] in known then [] else [urls[|urls| - 1]])
  }

  lemma NewEntriesStep(known: seq<string>, urls: seq<string>, stamps: seq<string>, i: nat)
    requires |stamps| == |urls| && i < |urls|
    ensures NewEntries(known, urls[..i + 1], stamps[..i + 1])
      == NewEntries(known, urls[..i], stamps[..i])
         + (if urls[i] in known then [] else [Source(urls[i], [], Pending, stamps[i], None)])
  {
    assert urls[..i + 1][..i] == urls[..i];
    assert stamps[..i + 1][..i] == stamps[..i];
  }

  /** The loop of `main`: `existingUrls` is taken once, before the loop. */
  method Convert(ss: seq<Source>, urls: seq<string>, stamps: seq<string>)
    returns (r: seq<Source>, added: nat, skipped: nat)
    requires |stamps| == |urls|
    ensures r == ss + NewEntries(Urls(ss), urls, stamps)
    ensures added == |r| - |ss| && added + skipped == |urls|
  {
    var existing := set s | s in ss :: s.url;
    assert forall u :: u in existing <==> u in Urls(ss) by {
      forall u ensures u in existing <==> u in Urls(ss) {
        if u in Urls(ss) {
          var k :| 0 <= k < |ss| && Urls(ss)[k] == u;
          assert ss[k] in ss;
        }
      }
    }
    r, added, skipped := ss, 0, 0;
    var i := 0;
    while i < |urls|
      invariant 0 <= i <= |urls|
      invariant r == ss + NewEntries(Urls(ss), urls[..i], stamps[..i])
      invariant added == |r| - |ss| && added + skipped == i
    {
      NewEntriesStep(Urls(ss), urls, stamps, i);
      if urls[i] in existing {
        skipped := skipped + 1;
      } else {
        r := r + [Source(urls[i], [], Pending, stamps[i], None)];
        added := added + 1;
      }
      i := i + 1;
    }
    assert urls[..i] == urls && stamps[..i] == stamps;
  }

  /** The appended entries: all pending, untagged and unscraped, with exactly the
      unknown URLs, in list order. */
  lemma {:induction false} NewEntriesShape(known: seq<string>, urls: seq<string>, stamps: seq<string>)
    requires |stamps| == |urls|
    ensures Urls(NewEntries(known, urls, stamps)) == Unknown(known, urls)
    ensures forall e :: e in NewEntries(known, urls, stamps) ==>
      e.status == Pending && e.tags == [] && e.scrapedAt == None && e.url !in known
  {
    if urls != [] {
      var n := |urls| - 1;
      NewEntriesShape(known, urls[..n], stamps[..n]);
    }
  }

  /** A URL the queue held is never appended; any other URL is appended once for
      every time it is listed. */
  lemma {:induction false} UnknownCount(known: seq<string>, urls: seq<string>, u: string)
    ensures multiset(Unknown(known, urls))[u] == if u in known then 0 else multiset(urls)[u]
  {
    if urls != [] {
      var init := urls[..|urls| - 1];
      UnknownCount(known, init, u);
      SplitLast(urls);
      assert multiset(urls) == multiset(init) + multiset{urls[|urls| - 1]};
    }
  }

  /** After a conversion, every listed URL is in the queue. */
  lemma ListedAfterConvert(ss: seq<Source>, urls: seq<string>, stamps: seq<string>, u: string)
    requires |stamps| == |urls| && u in urls
    ensures u in Urls(ss + NewEntries(Urls(ss), urls, stamps))
  {
    var appended := NewEntries(Urls(ss), urls, stamps);
    var all := ss + appended;
    if u in Urls(ss) {
      var k :| 0 <= k < |ss| && Urls(ss)[k] == u;
      assert all[k] == ss[k];
      assert Urls(all)[k] == u;
    } else {
      UnknownCount(Urls(ss), urls, u);
      assert u in multiset(urls);
      assert u in Unknown(Urls(ss), urls);
      NewEntriesShape(Urls(ss), urls, stamps);
      var k :| 0 <= k < |Urls(appended)| && Urls(appended)[k] == u;
      assert all[|ss| + k] == appended[k];
      assert Urls(all)[|ss| + k] == u;
    }
  }

  /** Converting the same list again appends nothing. */
  lemma ConvertAgainAddsNothing(ss: seq<Source>, urls: seq<string>, stamps: seq<string>)
    requires |stamps| == |urls|
    ensures NewEntries(Urls(ss + NewEntries(Urls(ss), urls, stamps)), urls, stamps) == []
  {
    var r := ss + NewEntries(Urls(ss), urls, stamps);
    forall u | u in urls ensures u in Urls(r) {
      ListedAfterConvert(ss, urls, stamps, u);
    }
    AllKnown(Urls(r), urls, stamps);
  }

  lemma {:induction false} AllKnown(known: seq<string>, urls: seq<string>, stamps: seq<string>)
    requires |stamps| == |urls| && forall u :: u in urls ==> u in known
    ensures NewEntries(known, urls, stamps) == []
  {
    if urls != [] {
      var n := |urls| - 1;
      assert forall u :: u in urls[..n] ==> u in urls;
      AllKnown(known, urls[..n], stamps[..n]);
    }
  }
}
