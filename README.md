# News feed ingestion, modelled in Dafny

This project models `scripts/fetch-new.mjs`, the script that builds the
site's news snapshot `data/news.json`. For every configured feed it fetches
the RSS text, cuts it into `<item>` blocks, and pulls title, link, pubDate
and description out of each block with lazy regular expressions. It keeps
the items that have a title and a link. It strips the HTML from the
description and keeps the items whose title plus plain description contain
one of the tax-law keywords, ignoring case. Each kept item becomes a
record with a 180-character excerpt. The records are de-duplicated by url
(the first one seen wins) and sorted newest first. The snapshot holds the
de-duplicated count and the first 30 records.

Modules, one file each:

- `Wrappers` (wrappers.dfy): `Option`, for JavaScript's `null`/`undefined` and `??`.
- `Text` (text.dfy): the string primitives the script relies on. These are
  `indexOf`/`includes`, `split` and its inverse `Join`, `trim` over the
  ECMAScript white-space and line-terminator set, and `toLowerCase`.
- `Html` (html.dfy): `stripHtml`.
- `Rss` (rss.dfy): the regular-expression matcher and `parseRss`.
- `Keywords` (keywords.dfy): `KEYWORDS` and `matchesKeywords`.
- `Records` (records.dfy): the excerpt, the record built for an item, and
  the driver loop over the feeds.
- `Dedup` (dedup.dfy): the `seen` loop.
- `DateSort` (datesort.dfy): the ranking sort. It is specified by
  `SortByDate`, a stable sort by non-increasing key. `SortInPlace` is an
  insertion sort over an array, proved to compute it.
- `Snapshot` (snapshot.dfy): the `out` object and the whole pipeline (`Run`).

The loops of the script are methods with loop invariants. Each one is
proved equal to a specification function defined from the back of its input
(`F(s) = F(s[..|s|-1]) ⊕ last`). The properties are proved as lemmas about
those functions. The pure parts (regular expressions, `stripHtml`,
`matchesKeywords`, the excerpt) are functions.

The inputs the script gets from its environment are parameters:

- each feed arrives as a `FeedInput`, its id plus the fetched text, or
  `None` when the fetch threw;
- `parseDate: string -> Option<int>` stands for `new Date(s).getTime()`, with
  `None` for an invalid date;
- `generatedAt` is the wall clock;
- the keyword list is a parameter. The script passes `Keywords.Keywords`.

Where the code and the design disagree, the model follows the code. The
design says undated records rank below every dated record. The code gives an
undated record the key `0`, so it ranks above records dated before 1970 and
ties with records dated exactly at the epoch. `DateSort.UndatedAbovePre1970`
states this behaviour.

## Model

| member | source | states |
|---|---|---|
| Text.IndexOf | scripts/fetch-new.mjs:26 | the result is the first occurrence of the pattern at or after `from`, and `None` means there is no occurrence from there on |
| Text.Contains | scripts/fetch-new.mjs:26 | `includes` holds exactly when the pattern occurs at some index |
| Text.Split | scripts/fetch-new.mjs:32 | `split` on a literal separator gives at least one piece; `SplitJoin` and `SplitCount` state what the pieces are |
| Text.SplitJoin | scripts/fetch-new.mjs:32 | joining the pieces of `split(sep)` with `sep` gives the input back, and no piece contains `sep` |
| Text.SplitCount | scripts/fetch-new.mjs:32 | `split` gives one piece more than there are occurrences of a separator whose first character does not recur in it, such as `<item>` |
| Text.Trim | scripts/fetch-new.mjs:34-44 | `trim` leaves no white space at either end and leaves an already trimmed string as it is |
| Text.TrimStart | scripts/fetch-new.mjs:68 | the front half of `trim`: the result is a suffix of the input that does not start with white space; `TrimStartDropsSpace` says what it drops |
| Text.TrimEnd | scripts/fetch-new.mjs:68 | the back half of `trim`: the result is a prefix of the input that does not end with white space; `TrimEndDropsSpace` says what it drops |
| Text.TrimStartDropsSpace | scripts/fetch-new.mjs:68 | what trimming cuts off the front of a string is white space |
| Text.TrimEndDropsSpace | scripts/fetch-new.mjs:68 | what trimming cuts off the back of a string is white space |
| Text.TrimSlice | scripts/fetch-new.mjs:68 | the trimmed string is a contiguous slice of the input, and what it cuts off at either end is white space |
| Text.TrimEmptyIffAllSpace | scripts/fetch-new.mjs:36-38 | `trim` gives `""` exactly when the string is all white space, which is what makes `if (title && link)` drop a blank title or link |
| Text.Lower | scripts/fetch-new.mjs:25-26 | `toLowerCase`, character by character; `LowerAppend` and `LowerIdempotent` state its properties |
| Text.LowerAppend | scripts/fetch-new.mjs:25-26 | lower-casing works character by character, so it distributes over concatenation |
| Text.LowerIdempotent | scripts/fetch-new.mjs:25-26 | lower-casing twice is lower-casing once |
| Html.ReplaceTags | scripts/fetch-new.mjs:66 | `replace(/<[^>]*>/g, " ")`; `ReplaceTagsNoTag` and `ReplaceTagsFixpoint` state what it leaves |
| Html.ReplaceTagsNoTag | scripts/fetch-new.mjs:66 | after `/<[^>]*>/g` is replaced by spaces, no `<` is followed later by `>`, and no `>` appears that was not in the input |
| Html.ReplaceTagsFixpoint | scripts/fetch-new.mjs:66 | the replacement changes nothing in a text with no tag left |
| Html.Collapse | scripts/fetch-new.mjs:67 | `replace(/\s+/g, " ")`: a non-empty input gives a non-empty output that starts with a space exactly when the input starts with white space, and otherwise with the same character; `CollapseCollapsed`, `CollapseNoTag` and `CollapseFixpoint` state the rest |
| Html.CollapseCollapsed | scripts/fetch-new.mjs:67 | after `/\s+/g` is replaced by one space, every white space is a plain space and no two are adjacent |
| Html.CollapseNoNewGt | scripts/fetch-new.mjs:67 | collapsing white space introduces no `>` that was not in the input |
| Html.CollapseNoTag | scripts/fetch-new.mjs:67 | collapsing white space in a text without tags creates no tag |
| Html.CollapseFixpoint | scripts/fetch-new.mjs:67 | collapsing changes nothing in an already collapsed text |
| Html.TrimKeepsShape | scripts/fetch-new.mjs:68 | trimming keeps a text free of tags and of adjacent white space |
| Html.StripHtml | scripts/fetch-new.mjs:64-69 | `stripHtml` as the three steps in the script's order; `StripHtmlShape` and `StripHtmlIdempotent` state its properties |
| Html.StripHtmlShape | scripts/fetch-new.mjs:64-69 | the plain text has no tag, no two adjacent white-space characters, no white space that is not a space, and no white space at either end |
| Html.StripHtmlIdempotent | scripts/fetch-new.mjs:64-69 | stripping twice gives the same text as stripping once |
| Rss.FirstMatchFrom | scripts/fetch-new.mjs:34-44 | the regular-expression match: it is a match, its start is the leftmost one and its group the shortest at that start, and `None` means no match at all; without `dotAll` the group holds no line terminator |
| Rss.FirstCloseIsShortest | scripts/fetch-new.mjs:34-44 | at a given start, no match ends its group before the first closing text, which is what makes `*?` lazy |
| Rss.NoMatchPastLineTerminator | scripts/fetch-new.mjs:34-44 | without `dotAll`, a line terminator before the first closing text rules out every match at that start |
| Rss.FirstMatch | scripts/fetch-new.mjs:34-44 | `s.match(p)?.[1]`; `FirstMatchSpec` states what the group is |
| Rss.FirstMatchSpec | scripts/fetch-new.mjs:34-44 | the captured group of `s.match(p)?.[1]` lies between an opening and a closing text, and there is no such text when the result is `None` |
| Rss.MatchNeedsOpen | scripts/fetch-new.mjs:34-44 | a pattern matches only where its opening text occurs |
| Rss.ExtractItem | scripts/fetch-new.mjs:34-44 | every extracted field is trimmed |
| Rss.ParseRss | scripts/fetch-new.mjs:30-51 | the loop returns the kept items of the blocks after the first `<item>`, in block order |
| Rss.KeptItemsSound | scripts/fetch-new.mjs:46-48 | every returned item comes from a block and has a title and a link |
| Rss.ItemsWellFormed | scripts/fetch-new.mjs:32-48 | every item `parseRss` returns has a non-empty title and link, and all four fields are trimmed |
| Rss.KeptItemsInOrder | scripts/fetch-new.mjs:46-48 | the kept items are exactly the items with a title and a link, in their original order |
| Rss.ItemsInDocumentOrder | scripts/fetch-new.mjs:32-48 | the k-th returned item is the fields of an increasing sequence of blocks, and every block with a title and a link is among them |
| Rss.KeptItemsLength | scripts/fetch-new.mjs:46-48 | filtering never adds items, and keeps them all when all pass |
| Rss.ItemsAtMostItemTags | scripts/fetch-new.mjs:32-48 | there are at most as many items as `<item>` occurrences, and exactly as many when every block has a title and a link |
| Rss.Blocks | scripts/fetch-new.mjs:32 | `xml.split("<item>").slice(1)`; `ItemTagSplitCount` gives their number |
| Rss.ItemTagSplitCount | scripts/fetch-new.mjs:32 | `split("<item>").slice(1)` gives exactly one block per occurrence of `<item>` |
| Rss.NoItemTagNoItems | scripts/fetch-new.mjs:32 | a document without `<item>` yields no item |
| Rss.KeptIffNotBlank | scripts/fetch-new.mjs:34-48 | an item is kept exactly when neither the captured title (CDATA form first, then the plain form, else `""`) nor the captured link is white space only |
| Rss.UnmatchedTitleOrLinkDropped | scripts/fetch-new.mjs:34-46 | a block is dropped when neither title pattern or the link pattern matches anywhere in it: the opening text is missing, no closing text follows, or a line terminator comes first |
| Rss.MissingTitleOrLinkDropped | scripts/fetch-new.mjs:34-48 | a block without `<title>` or without `<link>` is dropped without an error |
| Keywords.AnyKeywordIn | scripts/fetch-new.mjs:26 | `KEYWORDS.some(...)` over the list; `AnyKeywordInSpec` states when it holds |
| Keywords.AnyKeywordInSpec | scripts/fetch-new.mjs:26 | `some(k => hay.includes(k.toLowerCase()))` holds exactly when some lower-cased keyword occurs in `hay` |
| Keywords.MatchesKeywords | scripts/fetch-new.mjs:24-27 | `matchesKeywords`; `MatchesKeywordsSpec` states when it holds |
| Keywords.MatchesKeywordsSpec | scripts/fetch-new.mjs:24-27 | a text matches exactly when some lower-cased keyword occurs in the lower-cased text |
| Keywords.MatchesMonotone | scripts/fetch-new.mjs:24-27 | any text containing a matching text matches |
| Keywords.EmptyTextMatchesNothing | scripts/fetch-new.mjs:25-26 | the empty text matches no non-empty keyword |
| Keywords.MatchesIgnoresCase | scripts/fetch-new.mjs:25-26 | a text matches exactly when its lower-cased form matches |
| Keywords.IrpfInAnyCaseMatches | scripts/fetch-new.mjs:5-27 | every text containing "irpf", in any mix of case, matches the keyword "IRPF" of the script's list |
| Records.Blob | scripts/fetch-new.mjs:80-81 | the text the filter tests, `` `${it.title} ${plainDesc}` ``; `FeedRecordsStep` uses it |
| Records.MakeRecord | scripts/fetch-new.mjs:84-90 | the record pushed for an item; `AllRecordsMembers` and `RecordsWellFormed` state what it holds |
| Records.Excerpt | scripts/fetch-new.mjs:89 | the excerpt is the plain text when it has at most 180 characters; otherwise it is the first 180 followed by `…`; it never exceeds 181 characters |
| Records.PushSelected | scripts/fetch-new.mjs:79-92 | the inner loop appends to `all` the records of the items that pass the keyword filter, in item order |
| Records.FeedRecordsStep | scripts/fetch-new.mjs:79-92 | one iteration of the inner loop adds the item's record exactly when its title and stripped description match a keyword, with the excerpt of that description |
| Records.Collect | scripts/fetch-new.mjs:72-96 | the driver loop leaves in `all` the contributions of the feeds in feed order, with nothing from a feed whose fetch failed |
| Records.AllRecordsAppend | scripts/fetch-new.mjs:74-96 | the records of two lists of feeds are the records of each list, one after the other |
| Records.FeedsIndependent | scripts/fetch-new.mjs:74-96 | a feed's records sit between those of the feeds before and after it, which it does not affect |
| Records.FailedFeedContributesNothing | scripts/fetch-new.mjs:75-95 | a feed whose fetch threw contributes no record, and the other feeds' records are unchanged |
| Records.AllRecordsMembers | scripts/fetch-new.mjs:79-91 | a record is in `all` exactly when it is built from a parsed item of a fetched feed whose title and stripped description match a keyword |
| Records.RecordsWellFormed | scripts/fetch-new.mjs:84-90 | every record has a non-empty, trimmed title and url, an excerpt of at most 181 characters, and a configured feed's id as source |
| Records.AllFailedNoRecords | scripts/fetch-new.mjs:74-96 | when every fetch fails there is no record |
| Dedup.DedupByUrl | scripts/fetch-new.mjs:99-106 | the `seen` loop computes the first-seen-wins de-duplication, and `seen` always holds the urls of `dedup` |
| Dedup.DedupKeepsUrls | scripts/fetch-new.mjs:99-106 | every url of the input is in the output, and no other |
| Dedup.DedupDistinct | scripts/fetch-new.mjs:99-106 | the output urls are pairwise distinct |
| Dedup.DedupSubset | scripts/fetch-new.mjs:99-106 | every output record is an input record |
| Dedup.DedupKeepsFirst | scripts/fetch-new.mjs:99-106 | the output is the subsequence of the input made of exactly the first record for each url, in input order |
| Dedup.DistinctUrlsCount | scripts/fetch-new.mjs:99-106 | a list with distinct urls has as many urls as records |
| Dedup.DedupCount | scripts/fetch-new.mjs:99-106 | the output has exactly one record per distinct url of the input |
| Dedup.DedupOfDistinct | scripts/fetch-new.mjs:99-106 | a list whose urls are already distinct is left unchanged |
| Dedup.DedupIdempotent | scripts/fetch-new.mjs:99-106 | de-duplicating twice is de-duplicating once |
| DateSort.Key | scripts/fetch-new.mjs:110-111 | the comparator's key: the date in milliseconds, or 0 when absent |
| DateSort.SortByDate | scripts/fetch-new.mjs:109-113 | the stable newest-first sort; `SortByDateSorted`, `SortByDatePermutes`, `SortByDateStable` and `SortByDateCharacterized` state what it is |
| DateSort.InsertPermutes | scripts/fetch-new.mjs:109-113 | inserting a record adds that record and nothing else |
| DateSort.InsertSorted | scripts/fetch-new.mjs:109-113 | inserting into a list sorted newest first keeps it sorted |
| DateSort.InsertOfKey | scripts/fetch-new.mjs:109-113 | an inserted record goes after every record with the same key |
| DateSort.SortByDateSorted | scripts/fetch-new.mjs:109-113 | after the sort the key (date in milliseconds, or 0 when absent) never increases |
| DateSort.SortByDatePermutes | scripts/fetch-new.mjs:109-113 | the sort's output is a permutation of its input |
| DateSort.SortByDateStable | scripts/fetch-new.mjs:109-113 | records with equal keys keep their relative order, as the stable `Array.prototype.sort` guarantees |
| DateSort.StableSortUnique | scripts/fetch-new.mjs:109-113 | two lists that are sorted and agree on the records of every key are equal, so a stable sort has exactly one possible result |
| DateSort.SortByDateCharacterized | scripts/fetch-new.mjs:109-113 | any sorted list holding each key's records in their input order is `SortByDate` of the input |
| DateSort.SortNewestFirstExample | scripts/fetch-new.mjs:109-113 | records dated 2024-01-01, undated, and dated 2024-06-01 come out as June, January, undated |
| DateSort.UndatedAbovePre1970 | scripts/fetch-new.mjs:109-113 | in the sort of any list, an undated record comes before every record dated before 1970 |
| DateSort.UndatedAbovePre1970Example | scripts/fetch-new.mjs:109-113 | for example, a record dated 1969-12-31 and an undated one come out undated first |
| DateSort.InsertInPlace | scripts/fetch-new.mjs:109-113 | one insertion step moves `a[i]` into place among `a[..i]` and leaves the rest of the array unchanged |
| DateSort.SortInPlace | scripts/fetch-new.mjs:109-113 | sorting the array in place leaves in it the stable newest-first sort of its old contents |
| Snapshot.SnapshotOf | scripts/fetch-new.mjs:115-119 | `count` is the length of the sorted list, and `items` is its prefix of length `min(30, count)` |
| Snapshot.InsertKeepsDistinct | scripts/fetch-new.mjs:99-113 | inserting a record with a new url keeps the urls distinct and adds that url |
| Snapshot.SortKeepsDistinct | scripts/fetch-new.mjs:99-113 | sorting keeps the urls of the de-duplicated list, and keeps them distinct |
| Snapshot.Run | scripts/fetch-new.mjs:72-119 | the script's body (collect, de-duplicate, sort in place, truncate) produces the snapshot `NewsOf` of its inputs |
| Snapshot.NewsProperties | scripts/fetch-new.mjs:99-119 | `count` is the de-duplicated length, which is the number of distinct urls collected; `items` is the first `min(30, count)` records of a permutation of the de-duplicated list; those records have distinct urls, come newest first, were collected from the feeds and are well formed |
| Snapshot.SnapshotFrom | scripts/fetch-new.mjs:99-119 | for any list of well-formed records, de-duplicating, sorting and truncating gives the properties listed for `NewsProperties` |
| Snapshot.RankedPrefix | scripts/fetch-new.mjs:109-119 | the first `min(30, n)` records of the sort of a list with distinct urls keep distinct urls, come newest first and belong to the list; the sort has the list's length and records |
| Snapshot.AllFailedEmptyNews | scripts/fetch-new.mjs:74-119 | when every fetch fails, the snapshot has count 0 and no items |

## Left out

- `fetchText` (scripts/fetch-new.mjs:53-57) is not modelled. It is network I/O. Its outcome is the `body` of each `FeedInput`, and `None` stands for any thrown error, including a non-OK status. The error message logged at line 94 is not modelled.
- The `FEEDS` list (lines 11-22) is not modelled. The feeds are an input, and only their ids matter to the model.
- `toISO` and `new Date(...)` (lines 59-62 and 110-111) are not modelled. JavaScript's date parser is a foreign library, so the model takes it as the parameter `parseDate`, in epoch milliseconds. A record stores those milliseconds. Formatting them as an ISO-8601 string, and parsing that string back in the sort, is an exact round trip that the model leaves out.
- `generatedAt` (line 116) is the wall clock, so it is a parameter.
- Writing the file, `mkdirSync` and `JSON.stringify` (lines 121-123) are not modelled. Neither is the console output (lines 94 and 125). These are I/O with no logic of their own.
- Text.Lower: `toLowerCase` is modelled exactly for ASCII and Latin-1 letters. Other characters are left unchanged, although JavaScript's full Unicode case mapping also lower-cases Greek, Cyrillic and other letters. None of the script's keywords holds such a letter.
- Records.Excerpt: strings are sequences of Unicode characters. JavaScript's `length` and `slice` count UTF-16 code units. A character outside the Basic Multilingual Plane counts as 2 there and 1 here, and `slice(0, 180)` can split it in two.
- The `|| ""` guards at lines 25 and 65 are not modelled. The model's strings are never `undefined`. The script always passes a string, so the guards never fire.
- The sort comparator `tb - ta` works on floating-point numbers. The model compares the integer keys directly. For millisecond values in the range of a JavaScript date the difference keeps its sign, so the order is the same.
- The inner loop of the driver (`Records.PushSelected`) and the insertion step of the sort (`DateSort.InsertInPlace`) are separate methods. This keeps each proof small and does not change what is computed.
