/** The object written to `data/news.json` (scripts/fetch-new.mjs): the
    de-duplicated count and the first 30 records of the ranked list, and the
    whole pipeline from fetched feeds to that object. `generatedAt` is the
    wall clock, passed in as a string. */
module Snapshot {
  import opened Wrappers
  import opened Text
  import opened Records
  import opened Dedup
  import opened DateSort

  /** `dedup.slice(0, 30)`: the limit on the items written. */
  const MaxItems := 30

  /** The snapshot object `out`. */
  datatype News = News(generatedAt: string, count: nat, items: seq<Record>)

  function Min(a: int, b: int): int {
    if a < b then a else b
  }

  /** `{ generatedAt, count: dedup.length, items: dedup.slice(0, 30) }` for
      the sorted `dedup`. */
  function SnapshotOf(ranked: seq<Record>, generatedAt: string): (out: News)
    ensures out.count == |ranked|
    ensures |out.items| == Min(MaxItems, |ranked|) <= MaxItems
    ensures out.items <= ranked
  {
    News(generatedAt, |ranked|, ranked[..Min(MaxItems, |ranked|)])
  }

  /** The snapshot the script writes, as a function of its inputs. */
  function NewsOf(feeds: seq<FeedInput>, keywords: seq<string>, parseDate: string -> Option<int>,
                  generatedAt: string): News
  {
    SnapshotOf(SortByDate(DedupByUrlSpec(AllRecords(feeds, keywords, parseDate))), generatedAt)
  }

  /** The script's main body: collect, de-duplicate, sort in place and
      truncate. */
  method Run(feeds: seq<FeedInput>, keywords: seq<string>, parseDate: string -> Option<int>,
             generatedAt: string)
    returns (out: News)
    ensures out == NewsOf(feeds, keywords, parseDate, generatedAt)
  {
    var all := Collect(feeds, keywords, parseDate);
    var dedup := DedupByUrl(all);
    var ranked := new Record[|dedup|](i requires 0 <= i < |dedup| => dedup[i]);
    assert ranked[..] == dedup;
    SortInPlace(ranked);
    var n := if ranked.Length < MaxItems then ranked.Length else MaxItems;
    out := News(generatedAt, ranked.Length, ranked[..n]);
  }

  /** Sorting keeps the urls, and keeps them distinct. */
  lemma {:induction false} InsertKeepsDistinct(t: seq<Record>, x: Record)
    requires DistinctUrls(t) && x.url !in UrlsOf(t)
    ensures DistinctUrls(Insert(t, x))
    ensures UrlsOf(Insert(t, x)) == UrlsOf(t) + {x.url}
  {
    if t == [] || Key(t[|t| - 1]) >= Key(x) {
      DistinctAppendOne(t, x);
      UrlsOfAppendOne(t, x);
    } else {
      var n := |t| - 1;
      var last := t[n];
      UrlsOfSnoc(t, n);
      assert t[..n + 1] == t;
      assert DistinctUrls(t[..n]);
      InsertKeepsDistinct(t[..n], x);
      var u := Insert(t[..n], x);
      UrlsOfMembers(t[..n], last.url);
      forall i | 0 <= i < n ensures t[..n][i].url != last.url {
        assert t[i].url != t[n].url;
      }
      DistinctAppendOne(u, last);
      UrlsOfAppendOne(u, last);
    }
  }

  lemma {:induction false} SortKeepsDistinct(s: seq<Record>)
    requires DistinctUrls(s)
    ensures DistinctUrls(SortByDate(s))
    ensures UrlsOf(SortByDate(s)) == UrlsOf(s)
  {
    if s != [] {
      var n := |s| - 1;
      assert DistinctUrls(s[..n]);
      SortKeepsDistinct(s[..n]);
      UrlsOfMembers(s[..n], s[n].url);
      forall i | 0 <= i < n ensures s[..n][i].url != s[n].url {
        assert s[i].url != s[n].url;
      }
      InsertKeepsDistinct(SortByDate(s[..n]), s[n]);
      UrlsOfSnoc(s, n);
      assert s[..n + 1] == s;
    }
  }

  /** The snapshot: `count` is the number of distinct urls among the
      collected records, and `items` the first `min(30, count)` records of
      their newest-first stable sort, with distinct urls, in non-increasing
      key order, each one collected from a feed and well formed. */
  lemma NewsProperties(feeds: seq<FeedInput>, keywords: seq<string>, parseDate: string -> Option<int>,
                       generatedAt: string)
    ensures var all := AllRecords(feeds, keywords, parseDate);
            var dedup := DedupByUrlSpec(all);
            var out := NewsOf(feeds, keywords, parseDate, generatedAt);
            && out.count == |dedup| == |UrlsOf(all)|
            && UrlsOf(dedup) == UrlsOf(all)
            && |out.items| == Min(MaxItems, out.count)
            && out.items == SortByDate(dedup)[..|out.items|]
            && multiset(SortByDate(dedup)) == multiset(dedup)
            && DistinctUrls(out.items)
            && SortedDesc(out.items)
            && forall r :: r in out.items ==> r in all && WellFormed(r)
  {
    var all := AllRecords(feeds, keywords, parseDate);
    RecordsWellFormed(feeds, keywords, parseDate);
    SnapshotFrom(all, generatedAt);
  }

  /** The same, for the snapshot built from any list of well-formed
      records. */
  lemma SnapshotFrom(all: seq<Record>, generatedAt: string)
    requires forall r :: r in all ==> WellFormed(r)
    ensures var dedup := DedupByUrlSpec(all);
            var out := SnapshotOf(SortByDate(dedup), generatedAt);
            && out.count == |dedup| == |UrlsOf(all)|
            && UrlsOf(dedup) == UrlsOf(all)
            && |out.items| == Min(MaxItems, out.count)
            && out.items == SortByDate(dedup)[..|out.items|]
            && multiset(SortByDate(dedup)) == multiset(dedup)
            && DistinctUrls(out.items)
            && SortedDesc(out.items)
            && forall r :: r in out.items ==> r in all && WellFormed(r)
  {
    var dedup := DedupByUrlSpec(all);
    DedupKeepsUrls(all);
    DedupDistinct(all);
    DedupSubset(all);
    DedupCount(all);
    RankedPrefix(dedup, generatedAt);
    var items := SnapshotOf(SortByDate(dedup), generatedAt).items;
    forall r | r in items ensures r in all && WellFormed(r) {
      assert r in dedup;
    }
  }

  /** The first `min(30, |s|)` records of the sort of a list with distinct
      urls: a prefix of a permutation of the list, so they keep distinct
      urls, come in non-increasing key order and are all records of it. */
  lemma RankedPrefix(s: seq<Record>, generatedAt: string)
    requires DistinctUrls(s)
    ensures var ranked := SortByDate(s);
            var items := SnapshotOf(ranked, generatedAt).items;
            && multiset(ranked) == multiset(s)
            && |ranked| == |s|
            && items == ranked[..|items|]
            && DistinctUrls(items)
            && SortedDesc(items)
            && forall r :: r in items ==> r in s
  {
    var ranked := SortByDate(s);
    SortKeepsDistinct(s);
    SortByDateSorted(s);
    SortByDatePermutes(s);
    assert |ranked| == |multiset(ranked)| == |multiset(s)| == |s|;
    var items := SnapshotOf(ranked, generatedAt).items;
    assert items == ranked[..|items|];
    forall r | r in items ensures r in s {
      assert r in ranked;
      assert r in multiset(s);
    }
  }

  /** When every fetch failed the snapshot is empty. */
  lemma AllFailedEmptyNews(feeds: seq<FeedInput>, keywords: seq<string>, parseDate: string -> Option<int>,
                           generatedAt: string)
    requires forall k :: 0 <= k < |feeds| ==> feeds[k].body.None?
    ensures NewsOf(feeds, keywords, parseDate, generatedAt) == News(generatedAt, 0, [])
  {
    AllFailedNoRecords(feeds, keywords, parseDate);
  }
}
