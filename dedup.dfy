/** First-seen-wins de-duplication of the collected records by url
    (scripts/fetch-new.mjs, the `seen` loop). */
module Dedup {
  import opened Records

  /** The urls of the records of `s`. */
  function UrlsOf(s: seq<Record>): set<string> {
    if s == [] then {} else UrlsOf(s[..|s| - 1]) + {s[|s| - 1].url}
  }

  /** No two records of `s` share a url. */
  predicate DistinctUrls(s: seq<Record>) {
    forall i, j :: 0 <= i < j < |s| ==> s[i].url != s[j].url
  }

  /** `s[i]` is the first record of `s` with its url. */
  predicate FirstOfUrl(s: seq<Record>, i: nat)
    requires i < |s|
  {
    forall j :: 0 <= j < i ==> s[j].url != s[i].url
  }

  /** The list `dedup` after the loop over `s`: a record is appended when
      its url has not been seen. */
  function DedupByUrlSpec(s: seq<Record>): seq<Record> {
    if s == [] then []
    else
      var d := DedupByUrlSpec(s[..|s| - 1]);
      if s[|s| - 1].url in UrlsOf(d) then d else d + [s[|s| - 1]]
  }

  lemma UrlsOfSnoc(s: seq<Record>, n: nat)
    requires n < |s|
    ensures UrlsOf(s[..n + 1]) == UrlsOf(s[..n]) + {s[n].url}
  {
    assert s[..n + 1][..n] == s[..n];
  }

  lemma UrlsOfAppendOne(d: seq<Record>, r: Record)
    ensures UrlsOf(d + [r]) == UrlsOf(d) + {r.url}
  {
    assert (d + [r])[..|d|] == d;
  }

  lemma DedupSnoc(s: seq<Record>, n: nat)
    requires n < |s|
    ensures DedupByUrlSpec(s[..n + 1])
            == (var d := DedupByUrlSpec(s[..n]); if s[n].url in UrlsOf(d) then d else d + [s[n]])
  {
    assert s[..n + 1][..n] == s[..n];
  }

  /** A url is among `UrlsOf(s)` exactly when some record of `s` has it. */
  lemma {:induction false} UrlsOfMembers(s: seq<Record>, u: string)
    ensures u in UrlsOf(s) <==> exists i :: 0 <= i < |s| && s[i].url == u
  {
    if s != [] {
      var n := |s| - 1;
      UrlsOfMembers(s[..n], u);
      if u in UrlsOf(s[..n]) {
        var i :| 0 <= i < n && s[..n][i].url == u;
        assert s[i].url == u;
      }
      if exists i :: 0 <= i < |s| && s[i].url == u {
        var i :| 0 <= i < |s| && s[i].url == u;
        if i < n {
          assert s[..n][i].url == u;
        }
      }
    }
  }

  /** Appending a record whose url is new keeps the urls distinct. */
  lemma DistinctAppendOne(d: seq<Record>, r: Record)
    requires DistinctUrls(d) && r.url !in UrlsOf(d)
    ensures DistinctUrls(d + [r])
  {
    var e := d + [r];
    forall i, j | 0 <= i < j < |e| ensures e[i].url != e[j].url {
      if j == |d| {
        UrlsOfMembers(d, r.url);
        assert e[i] == d[i];
      }
    }
  }

  /** A list with distinct urls has as many urls as records. */
  lemma {:induction false} DistinctUrlsCount(s: seq<Record>)
    requires DistinctUrls(s)
    ensures |UrlsOf(s)| == |s|
  {
    if s != [] {
      var n := |s| - 1;
      assert DistinctUrls(s[..n]);
      DistinctUrlsCount(s[..n]);
      UrlsOfMembers(s[..n], s[n].url);
      forall i | 0 <= i < n ensures s[..n][i].url != s[n].url {
        assert s[i].url != s[n].url;
      }
    }
  }

  /** The loop over `all`: a record is kept when its url was not seen
      before, and its url is then added to `seen`. */
  method DedupByUrl(all: seq<Record>) returns (dedup: seq<Record>)
    ensures dedup == DedupByUrlSpec(all)
  {
    dedup := [];
    var seen: set<string> := {};
    for i := 0 to |all|
      invariant dedup == DedupByUrlSpec(all[..i])
      invariant seen == UrlsOf(dedup)
    {
      DedupSnoc(all, i);
      var n := all[i];
      if n.url !in seen {
        UrlsOfAppendOne(dedup, n);
        seen := seen + {n.url};
        dedup := dedup + [n];
      }
    }
    assert all[..|all|] == all;
  }

  /** No url is lost: the output has exactly the urls of the input. */
  lemma {:induction false} DedupKeepsUrls(s: seq<Record>)
    ensures UrlsOf(DedupByUrlSpec(s)) == UrlsOf(s)
  {
    if s != [] {
      var n := |s| - 1;
      DedupKeepsUrls(s[..n]);
      var d := DedupByUrlSpec(s[..n]);
      if s[n].url !in UrlsOf(d) {
        UrlsOfAppendOne(d, s[n]);
      }
    }
  }

  /** The output has pairwise-distinct urls. */
  lemma {:induction false} DedupDistinct(s: seq<Record>)
    ensures DistinctUrls(DedupByUrlSpec(s))
  {
    if s != [] {
      var n := |s| - 1;
      DedupDistinct(s[..n]);
      var d := DedupByUrlSpec(s[..n]);
      if s[n].url !in UrlsOf(d) {
        DistinctAppendOne(d, s[n]);
      }
    }
  }

  /** Every record of the output is a record of the input. */
  lemma {:induction false} DedupSubset(s: seq<Record>)
    ensures forall r :: r in DedupByUrlSpec(s) ==> r in s
  {
    if s != [] {
      var n := |s| - 1;
      DedupSubset(s[..n]);
      assert forall r :: r in s[..n] ==> r in s;
    }
  }

  /** The output has one record per distinct url of the input. */
  lemma DedupCount(s: seq<Record>)
    ensures |DedupByUrlSpec(s)| == |UrlsOf(s)|
  {
    DedupDistinct(s);
    DistinctUrlsCount(DedupByUrlSpec(s));
    DedupKeepsUrls(s);
  }

  /** A list that already has distinct urls is left as it is. */
  lemma {:induction false} DedupOfDistinct(s: seq<Record>)
    requires DistinctUrls(s)
    ensures DedupByUrlSpec(s) == s
  {
    if s != [] {
      var n := |s| - 1;
      assert DistinctUrls(s[..n]);
      DedupOfDistinct(s[..n]);
      UrlsOfMembers(s[..n], s[n].url);
      assert s[..n] + [s[n]] == s;
    }
  }

  /** Running the loop twice gives what running it once gives. */
  lemma DedupIdempotent(s: seq<Record>)
    ensures DedupByUrlSpec(DedupByUrlSpec(s)) == DedupByUrlSpec(s)
  {
    DedupDistinct(s);
    DedupOfDistinct(DedupByUrlSpec(s));
  }

  /** The output is the subsequence of the input made of the first record
      for each url: `idx` lists, in increasing order, the positions of `s`
      the output takes, and these are exactly the first occurrences. */
  lemma {:induction false} DedupKeepsFirst(s: seq<Record>) returns (idx: seq<nat>)
    ensures |idx| == |DedupByUrlSpec(s)|
    ensures forall k :: 0 <= k < |idx| ==> idx[k] < |s| && DedupByUrlSpec(s)[k] == s[idx[k]]
    ensures forall k, l :: 0 <= k < l < |idx| ==> idx[k] < idx[l]
    ensures forall i :: 0 <= i < |s| ==> (i in idx <==> FirstOfUrl(s, i))
  {
    if s == [] {
      idx := [];
    } else {
      var n := |s| - 1;
      var front := s[..n];
      var prev := DedupKeepsFirst(front);
      var d := DedupByUrlSpec(front);
      DedupKeepsUrls(front);
      UrlsOfMembers(front, s[n].url);
      forall i | 0 <= i < n ensures FirstOfUrl(s, i) == FirstOfUrl(front, i) {
        assert forall j :: 0 <= j <= i ==> front[j] == s[j];
      }
      if s[n].url in UrlsOf(d) {
        idx := prev;
        forall i | 0 <= i < |s| ensures i in idx <==> FirstOfUrl(s, i) {
          if i == n {
            var j :| 0 <= j < n && front[j].url == s[n].url;
            assert s[j].url == s[n].url;
          }
        }
      } else {
        idx := prev + [n];
        forall k | 0 <= k < |idx| ensures idx[k] < |s| && DedupByUrlSpec(s)[k] == s[idx[k]] {
          if k < |prev| {
            assert DedupByUrlSpec(s)[k] == d[k];
          }
        }
        forall i | 0 <= i < |s| ensures i in idx <==> FirstOfUrl(s, i) {
          if i == n {
            forall j | 0 <= j < n ensures s[j].url != s[n].url {
              assert front[j] == s[j];
            }
          } else {
            assert i in idx <==> i in prev;
          }
        }
      }
    }
  }
}
