/** The queue of article URLs kept in `input/sources.yaml`, shared by the URL
    converter (scripts/convert-urls.ts), which appends to it, and the scraper
    (scripts/scrape.ts), which moves entries out of `pending`. */
module Sources {
  import opened Common

  datatype Status = Pending | Scraped | Failed

  /** One queue entry; `scrapedAt` is absent until a scrape succeeds. */
  datatype Source = Source(
    url: string,
    tags: seq<string>,
    status: Status,
    addedAt: string,
    scrapedAt: Option<string>)

  /** The URLs of a list of entries, in order. */
  function Urls(ss: seq<Source>): (r: seq<string>)
    ensures |r| == |ss|
    ensures forall i :: 0 <= i < |ss| ==> r[i] == ss[i].url
  {
    seq(|ss|, i requires 0 <= i < |ss| => ss[i].url)
  }

  /** How many entries are still waiting to be scraped. */
  function PendingCount(ss: seq<Source>): (n: nat)
    ensures n <= |ss|
  {
    if ss == [] then 0
    else PendingCount(ss[..|ss| - 1]) + (if ss[|ss| - 1].status == Pending then 1 else 0)
  }

  predicate IsPending(s: Source) { s.status == Pending }

  /** The count is that of `sources.filter(s => s.status === 'pending')`. */
  lemma {:induction false} PendingCountIsFilter(ss: seq<Source>)
    ensures PendingCount(ss) == |Filter(ss, IsPending)|
  {
    if ss != [] {
      PendingCountIsFilter(ss[..|ss| - 1]);
    }
  }

  /** How many of the outcomes are successes. */
  function Successes(oks: seq<bool>): (n: nat)
    ensures n <= |oks|
  {
    if oks == [] then 0 else Successes(oks[..|oks| - 1]) + (if oks[|oks| - 1] then 1 else 0)
  }
}
