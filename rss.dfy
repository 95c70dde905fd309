/** `parseRss` (scripts/fetch-new.mjs): a dependency-free extractor of RSS
    `<item>` entries. The document is cut at every literal `<item>`, and
    each block after the first cut yields title, link, pubDate and
    description through the first match of a lazy regular expression. */
module Rss {
  import opened Wrappers
  import opened Text

  datatype RawItem = RawItem(title: string, link: string, pubDate: string, description: string)

  /** The regular expression `open(.*?)close`, or `open([\s\S]*?)close`
      when `dotAll` holds. `open` and `close` are literal text. */
  datatype Pattern = Pattern(open: string, close: string, dotAll: bool)

  const ItemTag := "<item>"
  const TitleCData := Pattern("<title><![CDATA[", "]]></title>", false)
  const TitlePlain := Pattern("<title>", "</title>", false)
  const LinkPlain := Pattern("<link>", "</link>", false)
  const PubDatePlain := Pattern("<pubDate>", "</pubDate>", false)
  const DescriptionCData := Pattern("<description><![CDATA[", "]]></description>", false)
  const DescriptionPlain := Pattern("<description>", "</description>", true)

  predicate NoLineTerminator(s: string) {
    forall k :: 0 <= k < |s| ==> !IsLineTerminator(s[k])
  }

  /** The pattern matches `s` at index `i` with its group ending at `j`:
      the group is `s[i + |p.open|..j]`. */
  predicate MatchAt(s: string, p: Pattern, i: int, j: int) {
    && OccursAt(s, p.open, i)
    && i + |p.open| <= j
    && OccursAt(s, p.close, j)
    && (p.dotAll || NoLineTerminator(s[i + |p.open|..j]))
  }

  /** Where `s.match(p)` matches, looking at start indices from `from` on:
      the leftmost start, and for it the shortest group (the lazy `*?`).
      The pair is the start index and the end of the group. */
  function FirstMatchFrom(s: string, p: Pattern, from: nat): (r: Option<(nat, nat)>)
    requires p.open != [] && from <= |s|
    ensures r.Some? ==> from <= r.value.0 && MatchAt(s, p, r.value.0, r.value.1)
    ensures r.Some? ==> forall i, j :: from <= i && MatchAt(s, p, i, j) ==>
                          r.value.0 < i || (r.value.0 == i && r.value.1 <= j)
    ensures r.None? ==> forall i, j :: from <= i ==> !MatchAt(s, p, i, j)
    decreases |s| - from
  {
    if from + |p.open| > |s| then None
    else if !OccursAt(s, p.open, from) then FirstMatchFrom(s, p, from + 1)
    else
      var start := from + |p.open|;
      match IndexOf(s, p.close, start)
      case None => FirstMatchFrom(s, p, from + 1)
      case Some(j) =>
        if p.dotAll || NoLineTerminator(s[start..j]) then
          FirstCloseIsShortest(s, p, from, j);
          Some((from, j))
        else
          NoMatchPastLineTerminator(s, p, from, j);
          FirstMatchFrom(s, p, from + 1)
  }

  /** At a start whose first closing text follows at `j`, every match ends
      its group at `j` or later. */
  lemma FirstCloseIsShortest(s: string, p: Pattern, i: nat, j: nat)
    requires OccursAt(s, p.open, i) && i + |p.open| <= |s|
    requires IndexOf(s, p.close, i + |p.open|) == Some(j)
    ensures forall j2 :: MatchAt(s, p, i, j2) ==> j <= j2
  {
    forall j2 | MatchAt(s, p, i, j2) ensures j <= j2 {
      if j2 < j {
        assert false;
      }
    }
  }

  /** `.` does not cross a line terminator: when one lies before the first
      closing text, the pattern matches at no end for this start. */
  lemma NoMatchPastLineTerminator(s: string, p: Pattern, i: nat, j: nat)
    requires OccursAt(s, p.open, i) && i + |p.open| <= |s|
    requires IndexOf(s, p.close, i + |p.open|) == Some(j)
    requires !p.dotAll && !NoLineTerminator(s[i + |p.open|..j])
    ensures forall j2 :: !MatchAt(s, p, i, j2)
  {
    var start := i + |p.open|;
    var k :| 0 <= k < j - start && IsLineTerminator(s[start..j][k]);
    assert IsLineTerminator(s[start + k]);
    FirstCloseIsShortest(s, p, i, j);
    forall j2 | j <= j2 <= |s| ensures !NoLineTerminator(s[start..j2]) {
      assert s[start..j2][k] == s[start + k];
    }
  }

  /** `s.match(p)?.[1]`: the captured group of the first match, if any. */
  function FirstMatch(s: string, p: Pattern): (r: Option<string>)
    requires p.open != []
  {
    match FirstMatchFrom(s, p, 0)
    case None => None
    case Some((i, j)) => Some(s[i + |p.open|..j])
  }

  /** The group of a match is what the pattern captures: it lies between an
      opening and a closing text and, unless `dotAll`, has no line
      terminator; and when there is no match, there is no such text. */
  lemma FirstMatchSpec(s: string, p: Pattern)
    requires p.open != []
    ensures FirstMatch(s, p).Some? ==> exists i, j :: MatchAt(s, p, i, j) && FirstMatch(s, p).value == s[i + |p.open|..j]
    ensures FirstMatch(s, p).None? ==> forall i, j :: !MatchAt(s, p, i, j)
  {
  }

  /** The per-block field extraction: the CDATA form first for title and
      description, the plain form otherwise, the empty string when neither
      matches; every field trimmed. */
  function ExtractItem(block: string): (it: RawItem)
    ensures Trimmed(it.title) && Trimmed(it.link) && Trimmed(it.pubDate) && Trimmed(it.description)
  {
    RawItem(
      Trim(FirstMatch(block, TitleCData).GetOr(FirstMatch(block, TitlePlain).GetOr(""))),
      Trim(FirstMatch(block, LinkPlain).GetOr("")),
      Trim(FirstMatch(block, PubDatePlain).GetOr("")),
      Trim(FirstMatch(block, DescriptionCData).GetOr(FirstMatch(block, DescriptionPlain).GetOr(""))))
  }

  /** `if (title && link)`: only items with both are kept. */
  predicate Kept(it: RawItem) {
    it.title != [] && it.link != []
  }

  /** `xml.split("<item>").slice(1)`. */
  function Blocks(xml: string): seq<string> {
    Split(xml, ItemTag)[1..]
  }

  /** The fields of each block, in block order. */
  function Extracted(blocks: seq<string>): seq<RawItem> {
    seq(|blocks|, m requires 0 <= m < |blocks| => ExtractItem(blocks[m]))
  }

  /** The items that are kept, in their order. */
  function KeptItems(items: seq<RawItem>): seq<RawItem> {
    if items == [] then []
    else
      var last := items[|items| - 1];
      KeptItems(items[..|items| - 1]) + (if Kept(last) then [last] else [])
  }

  /** What `parseRss(xml)` returns. */
  function ItemsOf(xml: string): seq<RawItem> {
    KeptItems(Extracted(Blocks(xml)))
  }

  /** `parseRss(xml)`: loops over the blocks and pushes each kept item. */
  method ParseRss(xml: string) returns (items: seq<RawItem>)
    ensures items == ItemsOf(xml)
  {
    items := [];
    var itemBlocks := Split(xml, ItemTag)[1..];
    ghost var extracted := Extracted(itemBlocks);
    for n := 0 to |itemBlocks|
      invariant items == KeptItems(extracted[..n])
    {
      var block := itemBlocks[n];
      var it := ExtractItem(block);
      assert it == extracted[n];
      KeptItemsSnoc(extracted, n);
      if it.title != [] && it.link != [] {
        items := items + [it];
      }
    }
    assert extracted[..|itemBlocks|] == extracted;
  }

  lemma KeptItemsSnoc(items: seq<RawItem>, n: nat)
    requires n < |items|
    ensures KeptItems(items[..n + 1]) == KeptItems(items[..n]) + (if Kept(items[n]) then [items[n]] else [])
  {
    assert items[..n + 1][..n] == items[..n];
  }

  /** The kept items are items of the input, and all of them are kept. */
  lemma {:induction false} KeptItemsSound(items: seq<RawItem>)
    ensures forall it :: it in KeptItems(items) ==> it in items && Kept(it)
  {
    if items != [] {
      KeptItemsSound(items[..|items| - 1]);
    }
  }

  /** Every item `parseRss` returns has a non-empty title and link, and
      its four fields are trimmed. */
  lemma ItemsWellFormed(xml: string)
    ensures forall it :: it in ItemsOf(xml) ==> Kept(it)
    ensures forall it :: it in ItemsOf(xml) ==>
              Trimmed(it.title) && Trimmed(it.link) && Trimmed(it.pubDate) && Trimmed(it.description)
  {
    KeptItemsSound(Extracted(Blocks(xml)));
  }

  /** The kept items are exactly the items that pass, in their order: the
      k-th result is `items[idx[k]]`, the indices increase, and every item
      that passes is among them. */
  lemma {:induction false} KeptItemsInOrder(items: seq<RawItem>) returns (idx: seq<nat>)
    ensures |idx| == |KeptItems(items)|
    ensures forall k :: 0 <= k < |idx| ==> idx[k] < |items| && KeptItems(items)[k] == items[idx[k]]
    ensures forall k, l :: 0 <= k < l < |idx| ==> idx[k] < idx[l]
    ensures forall m :: 0 <= m < |items| && Kept(items[m]) ==> m in idx
  {
    if items == [] {
      idx := [];
    } else {
      var n := |items| - 1;
      var front := KeptItemsInOrder(items[..n]);
      var kept := KeptItems(items[..n]);
      assert KeptItems(items) == kept + (if Kept(items[n]) then [items[n]] else []);
      idx := front + (if Kept(items[n]) then [n] else []);
      forall k | 0 <= k < |front|
        ensures idx[k] < |items| && KeptItems(items)[k] == items[idx[k]]
      {
        assert idx[k] == front[k] && KeptItems(items)[k] == kept[k] == items[..n][front[k]];
      }
      forall m | 0 <= m < |items| && Kept(items[m])
        ensures m in idx
      {
        if m < n {
          assert items[..n][m] == items[m];
          var k :| 0 <= k < |front| && front[k] == m;
          assert idx[k] == m;
        } else {
          assert idx[|front|] == n;
        }
      }
    }
  }

  /** `parseRss` keeps document order: its k-th item is the fields of block
      `idx[k]`, the block indices increase, and every block with a title
      and a link contributes. */
  lemma ItemsInDocumentOrder(xml: string) returns (idx: seq<nat>)
    ensures |idx| == |ItemsOf(xml)|
    ensures forall k :: 0 <= k < |idx| ==>
              idx[k] < |Blocks(xml)| && ItemsOf(xml)[k] == ExtractItem(Blocks(xml)[idx[k]])
    ensures forall k, l :: 0 <= k < l < |idx| ==> idx[k] < idx[l]
    ensures forall m :: 0 <= m < |Blocks(xml)| && Kept(ExtractItem(Blocks(xml)[m])) ==> m in idx
  {
    idx := KeptItemsInOrder(Extracted(Blocks(xml)));
  }

  /** There are at most as many kept items as items; exactly as many when
      every item passes. */
  lemma {:induction false} KeptItemsLength(items: seq<RawItem>)
    ensures |KeptItems(items)| <= |items|
    ensures (forall m :: 0 <= m < |items| ==> Kept(items[m])) ==> |KeptItems(items)| == |items|
  {
    if items != [] {
      KeptItemsLength(items[..|items| - 1]);
    }
  }

  /** `parseRss` returns at most one item per `<item>` in the document, and
      exactly one per `<item>` when every block has a title and a link. */
  lemma ItemsAtMostItemTags(xml: string)
    ensures |ItemsOf(xml)| <= CountOccurrences(xml, ItemTag)
    ensures (forall b :: b in Blocks(xml) ==> Kept(ExtractItem(b))) ==>
              |ItemsOf(xml)| == CountOccurrences(xml, ItemTag)
  {
    ItemTagSplitCount(xml);
    var blocks := Blocks(xml);
    var extracted := Extracted(blocks);
    KeptItemsLength(extracted);
    if forall b :: b in blocks ==> Kept(ExtractItem(b)) {
      forall m | 0 <= m < |extracted|
        ensures Kept(extracted[m])
      {
        assert blocks[m] in blocks;
      }
    }
  }

  /** One block per `<item>`, plus the text before the first. */
  lemma ItemTagSplitCount(xml: string)
    ensures |Blocks(xml)| == CountOccurrences(xml, ItemTag)
  {
    assert FirstCharUnique(ItemTag) by {
      assert ItemTag[1..] == "item>";
    }
    SplitCount(xml, ItemTag);
  }

  /** A document without `<item>` has no items. */
  lemma NoItemTagNoItems(xml: string)
    requires !Contains(xml, ItemTag)
    ensures ItemsOf(xml) == []
  {
    assert Split(xml, ItemTag) == [xml[0..]];
  }

  /** A match of a pattern implies an occurrence of its opening text, and
      so of every prefix of it. */
  lemma MatchNeedsOpen(s: string, p: Pattern, prefix: string)
    requires p.open != [] && prefix <= p.open
    requires FirstMatch(s, p).Some?
    ensures Contains(s, prefix)
  {
    var (i, j) := FirstMatchFrom(s, p, 0).value;
    assert s[i..i + |prefix|] == s[i..i + |p.open|][..|prefix|];
    assert OccursAt(s, prefix, i);
  }

  /** An item is kept exactly when neither the captured title nor the
      captured link is white space only (the empty capture included):
      trimming turns exactly those into the empty string. */
  lemma KeptIffNotBlank(block: string)
    ensures Kept(ExtractItem(block)) <==>
              && !AllSpace(FirstMatch(block, TitleCData).GetOr(FirstMatch(block, TitlePlain).GetOr("")))
              && !AllSpace(FirstMatch(block, LinkPlain).GetOr(""))
  {
    TrimEmptyIffAllSpace(FirstMatch(block, TitleCData).GetOr(FirstMatch(block, TitlePlain).GetOr("")));
    TrimEmptyIffAllSpace(FirstMatch(block, LinkPlain).GetOr(""));
  }

  /** A block whose title or link the patterns do not capture is dropped:
      the opening text is missing, no closing text follows it, or a line
      terminator comes before the closing text. */
  lemma UnmatchedTitleOrLinkDropped(block: string)
    requires || (forall i, j :: !MatchAt(block, TitleCData, i, j) && !MatchAt(block, TitlePlain, i, j))
             || (forall i, j :: !MatchAt(block, LinkPlain, i, j))
    ensures !Kept(ExtractItem(block))
  {
    FirstMatchSpec(block, TitleCData);
    FirstMatchSpec(block, TitlePlain);
    FirstMatchSpec(block, LinkPlain);
  }

  /** A block with no `<title>` or no `<link>` yields an item that is
      dropped; it is not an error. */
  lemma MissingTitleOrLinkDropped(block: string)
    requires !Contains(block, "<title>") || !Contains(block, "<link>")
    ensures !Kept(ExtractItem(block))
  {
    if !Contains(block, "<title>") {
      if FirstMatch(block, TitleCData).Some? {
        MatchNeedsOpen(block, TitleCData, "<title>");
      }
      if FirstMatch(block, TitlePlain).Some? {
        MatchNeedsOpen(block, TitlePlain, "<title>");
      }
    } else {
      if FirstMatch(block, LinkPlain).Some? {
        MatchNeedsOpen(block, LinkPlain, "<link>");
      }
    }
  }
}
