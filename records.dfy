/** The per-item record construction and the driver loop over the feeds
    (scripts/fetch-new.mjs). Fetching is not modelled: each feed arrives with
    the text its fetch returned, or `None` when the fetch threw. Date parsing
    is the parameter `parseDate`, giving epoch milliseconds or `None`. */
module Records {
  import opened Wrappers
  import opened Text
  import opened Rss
  import opened Html
  import opened Keywords

  /** One output record; `date` holds epoch milliseconds. */
  datatype Record = Record(source: string, title: string, url: string, date: Option<int>, excerpt: string)

  /** A configured feed with the outcome of fetching it. */
  datatype FeedInput = FeedInput(id: string, body: Option<string>)

  const MaxExcerpt := 180
  const Ellipsis := '\U{2026}'

  /** `plainDesc.slice(0, 180) + (plainDesc.length > 180 ? "…" : "")`. */
  function Excerpt(plain: string): (r: string)
    ensures |r| <= MaxExcerpt + 1
    ensures |plain| <= MaxExcerpt ==> r == plain
    ensures |plain| > MaxExcerpt ==>
              |r| == MaxExcerpt + 1 && r[..MaxExcerpt] == plain[..MaxExcerpt] && r[MaxExcerpt] == Ellipsis
  {
    (if |plain| <= MaxExcerpt then plain else plain[..MaxExcerpt])
    + (if |plain| > MaxExcerpt then [Ellipsis] else [])
  }

  /** The text the keyword filter sees: `${title} ${plainDesc}`. */
  function Blob(it: RawItem): string {
    it.title + " " + StripHtml(it.description)
  }

  predicate Selected(keywords: seq<string>, it: RawItem) {
    MatchesKeywords(keywords, Blob(it))
  }

  /** The record pushed for an item of feed `feedId`. */
  function MakeRecord(feedId: string, it: RawItem, parseDate: string -> Option<int>): Record {
    Record(feedId, it.title, it.link, parseDate(it.pubDate), Excerpt(StripHtml(it.description)))
  }

  /** `make` applied to the elements of `xs` that satisfy `keep`, in order. */
  function FilterMap<T, U>(xs: seq<T>, keep: T -> bool, make: T -> U): seq<U> {
    if xs == [] then []
    else
      var x := xs[|xs| - 1];
      FilterMap(xs[..|xs| - 1], keep, make) + (if keep(x) then [make(x)] else [])
  }

  /** The concatenation of `g` over the elements of `xs`, in order. */
  function ConcatMap<T, U>(xs: seq<T>, g: T -> seq<U>): seq<U> {
    if xs == [] then [] else ConcatMap(xs[..|xs| - 1], g) + g(xs[|xs| - 1])
  }

  lemma FilterMapSnoc<T, U>(xs: seq<T>, n: nat, keep: T -> bool, make: T -> U)
    requires n < |xs|
    ensures FilterMap(xs[..n + 1], keep, make)
            == FilterMap(xs[..n], keep, make) + (if keep(xs[n]) then [make(xs[n])] else [])
  {
    assert xs[..n + 1][..n] == xs[..n];
  }

  lemma ConcatMapSnoc<T, U>(xs: seq<T>, n: nat, g: T -> seq<U>)
    requires n < |xs|
    ensures ConcatMap(xs[..n + 1], g) == ConcatMap(xs[..n], g) + g(xs[n])
  {
    assert xs[..n + 1][..n] == xs[..n];
  }

  /** An element is in the result exactly when it is `make` of a kept element. */
  lemma {:induction false} FilterMapMembers<T, U>(xs: seq<T>, keep: T -> bool, make: T -> U, y: U)
    ensures y in FilterMap(xs, keep, make) <==> exists x :: x in xs && keep(x) && y == make(x)
  {
    if xs != [] {
      var n := |xs| - 1;
      FilterMapMembers(xs[..n], keep, make, y);
      if exists x :: x in xs && keep(x) && y == make(x) {
        var x :| x in xs && keep(x) && y == make(x);
        if x != xs[n] {
          var m :| 0 <= m < |xs| && xs[m] == x;
          assert xs[..n][m] == x;
        }
      }
    }
  }

  /** An element is in the result exactly when it is in `g` of some element. */
  lemma {:induction false} ConcatMapMembers<T, U>(xs: seq<T>, g: T -> seq<U>, y: U)
    ensures y in ConcatMap(xs, g) <==> exists k :: 0 <= k < |xs| && y in g(xs[k])
  {
    if xs != [] {
      var n := |xs| - 1;
      ConcatMapMembers(xs[..n], g, y);
      if y in ConcatMap(xs[..n], g) {
        var k :| 0 <= k < n && y in g(xs[..n][k]);
        assert xs[..n][k] == xs[k];
      }
      if exists k :: 0 <= k < |xs| && y in g(xs[k]) {
        var k :| 0 <= k < |xs| && y in g(xs[k]);
        if k < n {
          assert xs[..n][k] == xs[k];
        }
      }
    }
  }

  /** The concatenation over a concatenation of lists. */
  lemma {:induction false} ConcatMapAppend<T, U>(a: seq<T>, b: seq<T>, g: T -> seq<U>)
    ensures ConcatMap(a + b, g) == ConcatMap(a, g) + ConcatMap(b, g)
    decreases |b|
  {
    if b != [] {
      var n := |b| - 1;
      assert (a + b)[..|a + b| - 1] == a + b[..n];
      assert (a + b)[|a + b| - 1] == b[n];
      calc {
        ConcatMap(a + b, g);
        ConcatMap(a + b[..n], g) + g(b[n]);
        { ConcatMapAppend(a, b[..n], g); }
        ConcatMap(a, g) + ConcatMap(b[..n], g) + g(b[n]);
        ConcatMap(a, g) + (ConcatMap(b[..n], g) + g(b[n]));
        ConcatMap(a, g) + ConcatMap(b, g);
      }
    } else {
      assert a + b == a;
    }
  }

  /** The keyword filter as a function of the item. */
  function SelectedIn(keywords: seq<string>): RawItem -> bool {
    it => Selected(keywords, it)
  }

  /** The record construction as a function of the item. */
  function RecordOf(feedId: string, parseDate: string -> Option<int>): RawItem -> Record {
    it => MakeRecord(feedId, it, parseDate)
  }

  /** The records one feed's items give, in item order. */
  function FeedRecords(feedId: string, items: seq<RawItem>, keywords: seq<string>,
                       parseDate: string -> Option<int>): seq<Record>
  {
    FilterMap(items, SelectedIn(keywords), RecordOf(feedId, parseDate))
  }

  /** What one feed adds to `all`: nothing when its fetch failed. */
  function Contribution(feed: FeedInput, keywords: seq<string>, parseDate: string -> Option<int>): seq<Record> {
    match feed.body
    case None => []
    case Some(xml) => FeedRecords(feed.id, ItemsOf(xml), keywords, parseDate)
  }

  /** A feed's contribution as a function of the feed. */
  function ContributionOf(keywords: seq<string>, parseDate: string -> Option<int>): FeedInput -> seq<Record> {
    feed => Contribution(feed, keywords, parseDate)
  }

  /** The list `all` after the driver loop over `feeds`. */
  function AllRecords(feeds: seq<FeedInput>, keywords: seq<string>, parseDate: string -> Option<int>): seq<Record> {
    ConcatMap(feeds, ContributionOf(keywords, parseDate))
  }

  /** The inner loop of the driver over one feed's parsed items: push a
      record for every item whose title and stripped description match a
      keyword. */
  method PushSelected(feedId: string, items: seq<RawItem>, keywords: seq<string>,
                      parseDate: string -> Option<int>, all0: seq<Record>)
    returns (all: seq<Record>)
    ensures all == all0 + FeedRecords(feedId, items, keywords, parseDate)
  {
    all := all0;
    for j := 0 to |items|
      invariant all == all0 + FeedRecords(feedId, items[..j], keywords, parseDate)
    {
      var it := items[j];
      FeedRecordsStep(feedId, items, j, keywords, parseDate);
      ghost var done := FeedRecords(feedId, items[..j], keywords, parseDate);
      var plainDesc := StripHtml(it.description);
      var blob := it.title + " " + plainDesc;
      if MatchesKeywords(keywords, blob) {
        var record := Record(feedId, it.title, it.link, parseDate(it.pubDate), Excerpt(plainDesc));
        assert all0 + done + [record] == all0 + (done + [record]);
        all := all + [record];
      }
    }
    assert items[..|items|] == items;
  }

  /** One more item adds its record when its title and stripped
      description match a keyword. */
  lemma FeedRecordsStep(feedId: string, items: seq<RawItem>, j: nat, keywords: seq<string>,
                        parseDate: string -> Option<int>)
    requires j < |items|
    ensures var it := items[j];
            var plainDesc := StripHtml(it.description);
            FeedRecords(feedId, items[..j + 1], keywords, parseDate)
            == FeedRecords(feedId, items[..j], keywords, parseDate)
               + if MatchesKeywords(keywords, it.title + " " + plainDesc)
                 then [Record(feedId, it.title, it.link, parseDate(it.pubDate), Excerpt(plainDesc))]
                 else []
  {
    FilterMapSnoc(items, j, SelectedIn(keywords), RecordOf(feedId, parseDate));
  }

  /** The driver loop: each feed whose fetch succeeded is parsed and its
      selected items pushed; a failed fetch is caught and the feed skipped. */
  method Collect(feeds: seq<FeedInput>, keywords: seq<string>, parseDate: string -> Option<int>)
    returns (all: seq<Record>)
    ensures all == AllRecords(feeds, keywords, parseDate)
  {
    all := [];
    for i := 0 to |feeds|
      invariant all == AllRecords(feeds[..i], keywords, parseDate)
    {
      var feed := feeds[i];
      ConcatMapSnoc(feeds, i, ContributionOf(keywords, parseDate));
      match feed.body {
        case None =>
        case Some(xml) =>
          var items := ParseRss(xml);
          all := PushSelected(feed.id, items, keywords, parseDate, all);
      }
    }
    assert feeds[..|feeds|] == feeds;
  }

  /** The records of a concatenation of feed lists are the records of each
      list, one after the other. */
  lemma AllRecordsAppend(a: seq<FeedInput>, b: seq<FeedInput>, keywords: seq<string>,
                         parseDate: string -> Option<int>)
    ensures AllRecords(a + b, keywords, parseDate) == AllRecords(a, keywords, parseDate) + AllRecords(b, keywords, parseDate)
  {
    ConcatMapAppend(a, b, ContributionOf(keywords, parseDate));
  }

  /** Feeds do not affect one another: a feed's records sit between those of
      the feeds before and after it, whatever it contains. */
  lemma FeedsIndependent(before: seq<FeedInput>, feed: FeedInput, after: seq<FeedInput>, keywords: seq<string>,
                         parseDate: string -> Option<int>)
    ensures AllRecords(before + [feed] + after, keywords, parseDate)
            == AllRecords(before, keywords, parseDate) + Contribution(feed, keywords, parseDate)
               + AllRecords(after, keywords, parseDate)
  {
    AllRecordsAppend(before + [feed], after, keywords, parseDate);
    assert (before + [feed])[..|before|] == before;
  }

  /** A feed whose fetch failed contributes no record, and the others are
      unaffected. */
  lemma FailedFeedContributesNothing(before: seq<FeedInput>, id: string, after: seq<FeedInput>,
                                     keywords: seq<string>, parseDate: string -> Option<int>)
    ensures AllRecords(before + [FeedInput(id, None)] + after, keywords, parseDate)
            == AllRecords(before + after, keywords, parseDate)
  {
    FeedsIndependent(before, FeedInput(id, None), after, keywords, parseDate);
    AllRecordsAppend(before, after, keywords, parseDate);
    var front := AllRecords(before, keywords, parseDate);
    assert front + [] == front;
  }

  /** `r` is the record built from item `it` of `feed`, an item that passed
      the keyword filter. */
  predicate BuiltFrom(r: Record, feed: FeedInput, it: RawItem, keywords: seq<string>, parseDate: string -> Option<int>) {
    && feed.body.Some?
    && it in ItemsOf(feed.body.value)
    && Selected(keywords, it)
    && r == MakeRecord(feed.id, it, parseDate)
  }

  /** A record is emitted exactly for the items, parsed from a feed whose
      fetch succeeded, whose title and stripped description match a
      keyword. */
  lemma AllRecordsMembers(feeds: seq<FeedInput>, keywords: seq<string>,
                          parseDate: string -> Option<int>, r: Record)
    ensures r in AllRecords(feeds, keywords, parseDate) <==>
              exists k, it :: 0 <= k < |feeds| && BuiltFrom(r, feeds[k], it, keywords, parseDate)
  {
    var g := ContributionOf(keywords, parseDate);
    ConcatMapMembers(feeds, g, r);
    if r in AllRecords(feeds, keywords, parseDate) {
      var k :| 0 <= k < |feeds| && r in g(feeds[k]);
      var feed := feeds[k];
      FilterMapMembers(ItemsOf(feed.body.value), SelectedIn(keywords), RecordOf(feed.id, parseDate), r);
      var it :| it in ItemsOf(feed.body.value) && Selected(keywords, it) && r == MakeRecord(feed.id, it, parseDate);
      assert BuiltFrom(r, feeds[k], it, keywords, parseDate);
    }
    if exists k, it :: 0 <= k < |feeds| && BuiltFrom(r, feeds[k], it, keywords, parseDate) {
      var k, it :| 0 <= k < |feeds| && BuiltFrom(r, feeds[k], it, keywords, parseDate);
      var feed := feeds[k];
      FilterMapMembers(ItemsOf(feed.body.value), SelectedIn(keywords), RecordOf(feed.id, parseDate), r);
      assert r in g(feeds[k]);
    }
  }

  /** A non-empty, trimmed title and url, and an excerpt of at most 181
      characters. */
  predicate WellFormed(r: Record) {
    && r.title != [] && r.url != [] && Trimmed(r.title) && Trimmed(r.url)
    && |r.excerpt| <= MaxExcerpt + 1
  }

  /** Every record is well formed and has the id of a configured feed as
      its source. */
  lemma RecordsWellFormed(feeds: seq<FeedInput>, keywords: seq<string>, parseDate: string -> Option<int>)
    ensures forall r :: r in AllRecords(feeds, keywords, parseDate) ==>
              WellFormed(r) && exists k :: 0 <= k < |feeds| && feeds[k].id == r.source
  {
    forall r | r in AllRecords(feeds, keywords, parseDate)
      ensures WellFormed(r) && exists k :: 0 <= k < |feeds| && feeds[k].id == r.source
    {
      AllRecordsMembers(feeds, keywords, parseDate, r);
      var k, it :| 0 <= k < |feeds| && BuiltFrom(r, feeds[k], it, keywords, parseDate);
      ItemsWellFormed(feeds[k].body.value);
    }
  }

  /** When every fetch failed there are no records. */
  lemma AllFailedNoRecords(feeds: seq<FeedInput>, keywords: seq<string>, parseDate: string -> Option<int>)
    requires forall k :: 0 <= k < |feeds| ==> feeds[k].body.None?
    ensures AllRecords(feeds, keywords, parseDate) == []
  {
    var all := AllRecords(feeds, keywords, parseDate);
    if all != [] {
      AllRecordsMembers(feeds, keywords, parseDate, all[0]);
    }
  }
}
