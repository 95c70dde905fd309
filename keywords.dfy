/** `matchesKeywords` (scripts/fetch-new.mjs): a case-insensitive substring
    test of a text against a keyword list. The list is a parameter here;
    `Keywords` is the list the script uses. */
module Keywords {
  import opened Text

  /** The script's keyword list (`KEYWORDS`). */
  const Keywords: seq<string> := [
    "TEAC", "TEAR", "TS", "Tribunal Supremo", "Audiencia Nacional", "TJUE", "CJEU",
    "IRPF", "LIRPF", "7p", "Beckham", "impatriados", "IRNR", "LIRNR", "LIS", "IS", "IVA", "LIVA",
    "inspección", "comprobación", "sanción", "LGT", "Modelo 210", "Modelo 720", "VAT", "direct taxation"
  ]

  /** `keywords.some(k => hay.includes(k.toLowerCase()))`. */
  function AnyKeywordIn(keywords: seq<string>, hay: string): bool {
    if keywords == [] then false
    else Contains(hay, Lower(keywords[0])) || AnyKeywordIn(keywords[1..], hay)
  }

  /** Some keyword, lower-cased, occurs in `hay` exactly when the test holds. */
  lemma {:induction false} AnyKeywordInSpec(keywords: seq<string>, hay: string)
    ensures AnyKeywordIn(keywords, hay) <==> exists k, i :: k in keywords && OccursAt(hay, Lower(k), i)
  {
    if keywords != [] {
      var rest := keywords[1..];
      AnyKeywordInSpec(rest, hay);
      if exists k, i :: k in keywords && OccursAt(hay, Lower(k), i) {
        var k, i :| k in keywords && OccursAt(hay, Lower(k), i);
        if k != keywords[0] {
          assert k in rest;
        }
      }
      if AnyKeywordIn(rest, hay) {
        var k, i :| k in rest && OccursAt(hay, Lower(k), i);
        assert k in keywords;
      }
    }
  }

  /** `matchesKeywords(text)`. */
  function MatchesKeywords(keywords: seq<string>, text: string): bool {
    AnyKeywordIn(keywords, Lower(text))
  }

  /** A text matches exactly when some keyword, lower-cased, occurs in the
      lower-cased text. */
  lemma MatchesKeywordsSpec(keywords: seq<string>, text: string)
    ensures MatchesKeywords(keywords, text) <==> exists k, i :: k in keywords && OccursAt(Lower(text), Lower(k), i)
  {
    AnyKeywordInSpec(keywords, Lower(text));
  }

  /** Matching is monotone: text around a matching text still matches. */
  lemma MatchesMonotone(keywords: seq<string>, text: string, before: string, after: string)
    requires MatchesKeywords(keywords, text)
    ensures MatchesKeywords(keywords, before + text + after)
  {
    MatchesKeywordsSpec(keywords, text);
    MatchesKeywordsSpec(keywords, before + text + after);
    var k, i :| k in keywords && OccursAt(Lower(text), Lower(k), i);
    LowerAppend(before, text);
    LowerAppend(before + text, after);
    var big := Lower(before + text + after);
    assert big == Lower(before) + Lower(text) + Lower(after);
    assert big[|before| + i..|before| + i + |Lower(k)|] == Lower(text)[i..i + |Lower(k)|];
    assert OccursAt(big, Lower(k), |before| + i);
  }

  /** The empty text matches no non-empty keyword. */
  lemma EmptyTextMatchesNothing(keywords: seq<string>)
    requires forall k :: k in keywords ==> k != []
    ensures !MatchesKeywords(keywords, "")
  {
    MatchesKeywordsSpec(keywords, "");
  }

  /** Case does not matter: a text matches exactly when its lower-cased
      form does. */
  lemma MatchesIgnoresCase(keywords: seq<string>, text: string)
    ensures MatchesKeywords(keywords, Lower(text)) == MatchesKeywords(keywords, text)
  {
    LowerIdempotent(text);
    MatchesKeywordsSpec(keywords, text);
    MatchesKeywordsSpec(keywords, Lower(text));
  }

  /** Any text containing "irpf", in any mix of case, matches the keyword
      "IRPF" of the script's list. */
  lemma IrpfInAnyCaseMatches(before: string, word: string, after: string)
    requires Lower(word) == "irpf"
    ensures MatchesKeywords(Keywords, before + word + after)
  {
    assert Lower("IRPF") == "irpf";
    assert "IRPF" in Keywords;
    assert OccursAt(Lower(word), Lower("IRPF"), 0);
    MatchesKeywordsSpec(Keywords, word);
    MatchesMonotone(Keywords, word, before, after);
  }
}
