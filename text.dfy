/** The JavaScript string primitives the feed pipeline relies on: character
    classes of regular expressions, `indexOf`/`includes`, `split` on a
    literal separator, `trim` and `toLowerCase`. Strings are sequences of
    characters; every operation here is total. */
module Text {
  import opened Wrappers

  /** ECMAScript LineTerminator: the characters that `.` in a regular
      expression does not match. */
  predicate IsLineTerminator(c: char) {
    c == '\n' || c == '\r' || c == '\U{2028}' || c == '\U{2029}'
  }

  /** ECMAScript WhiteSpace or LineTerminator. This one class is both what
      `\s` matches and what `String.prototype.trim` removes. WhiteSpace is
      tab, vertical tab, form feed, U+FEFF and the Unicode category Zs. */
  predicate IsSpace(c: char) {
    c in SpaceChars
  }

  const SpaceChars: set<char> := {
    '\t', '\U{000B}', '\U{000C}', ' ', '\U{00A0}', '\U{FEFF}', '\U{1680}',
    '\U{2000}', '\U{2001}', '\U{2002}', '\U{2003}', '\U{2004}', '\U{2005}',
    '\U{2006}', '\U{2007}', '\U{2008}', '\U{2009}', '\U{200A}',
    '\U{202F}', '\U{205F}', '\U{3000}',
    '\n', '\r', '\U{2028}', '\U{2029}'
  }

  predicate AllSpace(s: string) {
    forall i :: 0 <= i < |s| ==> IsSpace(s[i])
  }

  /** Neither the first nor the last character is white space. */
  predicate Trimmed(s: string) {
    s == [] || (!IsSpace(s[0]) && !IsSpace(s[|s| - 1]))
  }

  /** `pat` occurs in `s` at index `k`. */
  predicate OccursAt(s: string, pat: string, k: int) {
    0 <= k && k + |pat| <= |s| && s[k..k + |pat|] == pat
  }

  /** An occurrence inside a slice is an occurrence in the whole string. */
  lemma OccursInSlice(s: string, pat: string, a: nat, b: nat, q: int)
    requires a <= b <= |s|
    requires OccursAt(s[a..b], pat, q)
    ensures OccursAt(s, pat, a + q)
  {
    forall i | 0 <= i < |pat|
      ensures s[a + q..a + q + |pat|][i] == pat[i]
    {
      assert s[a..b][q..q + |pat|][i] == pat[i];
    }
  }

  /** A one-character pattern occurs exactly where that character is. */
  lemma OccursAtChar(s: string, c: char, k: int)
    ensures OccursAt(s, [c], k) <==> 0 <= k < |s| && s[k] == c
  {
    if 0 <= k < |s| {
      assert s[k..k + 1] == [s[k]];
    }
  }

  /** `s.indexOf(pat, from)`: the first occurrence at or after `from`. */
  function IndexOf(s: string, pat: string, from: nat): (r: Option<nat>)
    requires from <= |s|
    ensures r.Some? ==> from <= r.value && OccursAt(s, pat, r.value)
    ensures r.Some? ==> forall k :: from <= k < r.value ==> !OccursAt(s, pat, k)
    ensures r.None? ==> forall k :: from <= k ==> !OccursAt(s, pat, k)
    decreases |s| - from
  {
    if from + |pat| > |s| then None
    else if s[from..from + |pat|] == pat then Some(from)
    else IndexOf(s, pat, from + 1)
  }

  /** `s.includes(pat)`. */
  function Contains(s: string, pat: string): (b: bool)
    ensures b <==> exists k :: OccursAt(s, pat, k)
  {
    IndexOf(s, pat, 0).Some?
  }

  /** `s.split(sep)` on a non-empty literal separator, for the part of `s`
      from index `from` on: the pieces between successive occurrences,
      found left to right. */
  function SplitFrom(s: string, sep: string, from: nat): (r: seq<string>)
    requires sep != [] && from <= |s|
    ensures |r| >= 1
    decreases |s| - from
  {
    match IndexOf(s, sep, from)
    case None => [s[from..]]
    case Some(k) => [s[from..k]] + SplitFrom(s, sep, k + |sep|)
  }

  function Split(s: string, sep: string): (r: seq<string>)
    requires sep != []
    ensures |r| >= 1
  {
    SplitFrom(s, sep, 0)
  }

  /** Joining the pieces with the separator gives back the string. */
  lemma {:induction false} SplitFromJoin(s: string, sep: string, from: nat)
    requires sep != [] && from <= |s|
    ensures Join(SplitFrom(s, sep, from), sep) == s[from..]
    decreases |s| - from
  {
    match IndexOf(s, sep, from)
    case None =>
    case Some(k) =>
      var rest := SplitFrom(s, sep, k + |sep|);
      SplitFromJoin(s, sep, k + |sep|);
      assert SplitFrom(s, sep, from) == [s[from..k]] + rest;
      assert Join([s[from..k]] + rest, sep) == s[from..k] + sep + Join(rest, sep);
      assert s[from..] == s[from..k] + sep + s[k + |sep|..];
  }

  /** No piece contains the separator. */
  lemma {:induction false} SplitFromPieces(s: string, sep: string, from: nat)
    requires sep != [] && from <= |s|
    ensures forall i :: 0 <= i < |SplitFrom(s, sep, from)| ==> !Contains(SplitFrom(s, sep, from)[i], sep)
    decreases |s| - from
  {
    match IndexOf(s, sep, from)
    case None =>
      NoOccurrenceInSlice(s, sep, from, |s|);
      assert s[from..] == s[from..|s|];
    case Some(k) =>
      var rest := SplitFrom(s, sep, k + |sep|);
      NoOccurrenceInSlice(s, sep, from, k);
      SplitFromPieces(s, sep, k + |sep|);
      var pieces := [s[from..k]] + rest;
      assert SplitFrom(s, sep, from) == pieces;
      forall i | 0 <= i < |pieces| ensures !Contains(pieces[i], sep) {
        if i > 0 {
          assert pieces[i] == rest[i - 1];
        }
      }
  }

  lemma SplitJoin(s: string, sep: string)
    requires sep != []
    ensures Join(Split(s, sep), sep) == s
    ensures forall i :: 0 <= i < |Split(s, sep)| ==> !Contains(Split(s, sep)[i], sep)
  {
    SplitFromJoin(s, sep, 0);
    SplitFromPieces(s, sep, 0);
  }

  /** A slice that ends before the first occurrence has none. */
  lemma NoOccurrenceInSlice(s: string, pat: string, a: nat, b: nat)
    requires pat != [] && a <= b <= |s|
    requires forall k :: a <= k < b ==> !OccursAt(s, pat, k)
    ensures !Contains(s[a..b], pat)
  {
    forall q | OccursAt(s[a..b], pat, q)
      ensures false
    {
      OccursInSlice(s, pat, a, b, q);
    }
  }

  /** `pieces.join(sep)`. */
  function Join(pieces: seq<string>, sep: string): string {
    if |pieces| == 0 then []
    else if |pieces| == 1 then pieces[0]
    else pieces[0] + sep + Join(pieces[1..], sep)
  }

  /** The number of indices at or after `from` where `pat` occurs. */
  function CountFrom(s: string, pat: string, from: nat): nat
    decreases |s| - from
  {
    if from >= |s| then 0
    else (if OccursAt(s, pat, from) then 1 else 0) + CountFrom(s, pat, from + 1)
  }

  function CountOccurrences(s: string, pat: string): nat {
    CountFrom(s, pat, 0)
  }

  lemma {:induction false} CountSkips(s: string, pat: string, a: nat, b: nat)
    requires a <= b <= |s|
    requires forall k :: a <= k < b ==> !OccursAt(s, pat, k)
    ensures CountFrom(s, pat, a) == CountFrom(s, pat, b)
    decreases b - a
  {
    if a < b {
      CountSkips(s, pat, a + 1, b);
    }
  }

  lemma {:induction false} CountNone(s: string, pat: string, from: nat)
    requires forall k :: from <= k ==> !OccursAt(s, pat, k)
    ensures CountFrom(s, pat, from) == 0
    decreases |s| - from
  {
    if from < |s| {
      CountNone(s, pat, from + 1);
    }
  }

  /** Splitting on a separator whose first character does not recur in it
      (so that no two occurrences overlap) yields one piece more than there
      are occurrences. */
  lemma {:induction false} SplitFromCount(s: string, sep: string, from: nat)
    requires sep != [] && FirstCharUnique(sep) && from <= |s|
    ensures |SplitFrom(s, sep, from)| == CountFrom(s, sep, from) + 1
    decreases |s| - from
  {
    match IndexOf(s, sep, from)
    case None =>
      assert CountFrom(s, sep, from) == 0 by {
        CountNone(s, sep, from);
      }
    case Some(k) =>
      var next := k + |sep|;
      assert |SplitFrom(s, sep, from)| == 1 + |SplitFrom(s, sep, next)|;
      assert CountFrom(s, sep, from) == CountFrom(s, sep, k) by {
        CountSkips(s, sep, from, k);
      }
      assert CountFrom(s, sep, k) == 1 + CountFrom(s, sep, next) by {
        CountAtOccurrence(s, sep, k);
      }
      SplitFromCount(s, sep, next);
  }

  /** An occurrence counts once, and the positions it covers count nothing. */
  lemma CountAtOccurrence(s: string, sep: string, k: nat)
    requires sep != [] && FirstCharUnique(sep) && OccursAt(s, sep, k)
    ensures CountFrom(s, sep, k) == 1 + CountFrom(s, sep, k + |sep|)
  {
    forall d | k + 1 <= d < k + |sep|
      ensures !OccursAt(s, sep, d)
    {
      NoOverlap(s, sep, k, d);
    }
    CountSkips(s, sep, k + 1, k + |sep|);
  }

  /** The first character of `sep` does not recur in it, so two
      occurrences of `sep` never overlap. */
  predicate FirstCharUnique(sep: string) {
    sep != [] && sep[0] !in sep[1..]
  }

  /** An occurrence of a separator whose first character does not recur in
      it is followed by no other occurrence that overlaps it. */
  lemma NoOverlap(s: string, sep: string, k: int, d: int)
    requires sep != [] && FirstCharUnique(sep)
    requires OccursAt(s, sep, k) && k < d < k + |sep|
    ensures !OccursAt(s, sep, d)
  {
    OccurrenceChars(s, sep, k, d - k);
    assert sep[d - k] == sep[1..][d - k - 1];
    if OccursAt(s, sep, d) {
      OccurrenceChars(s, sep, d, 0);
    }
  }

  lemma OccurrenceChars(s: string, pat: string, k: int, i: int)
    requires OccursAt(s, pat, k) && 0 <= i < |pat|
    ensures s[k + i] == pat[i]
  {
    assert s[k..k + |pat|][i] == pat[i];
  }

  lemma SplitCount(s: string, sep: string)
    requires sep != [] && FirstCharUnique(sep)
    ensures |Split(s, sep)| == CountOccurrences(s, sep) + 1
  {
    SplitFromCount(s, sep, 0);
  }

  /** `s.trimStart()`: drops the leading white space. */
  function TrimStart(s: string): (r: string)
    ensures |r| <= |s| && r == s[|s| - |r|..]
    ensures r == [] || !IsSpace(r[0])
  {
    if s != [] && IsSpace(s[0]) then TrimStart(s[1..]) else s
  }

  /** What `trimStart` drops is white space. */
  lemma {:induction false} TrimStartDropsSpace(s: string)
    ensures AllSpace(s[..|s| - |TrimStart(s)|])
  {
    if s != [] && IsSpace(s[0]) {
      TrimStartDropsSpace(s[1..]);
      var n := |s| - |TrimStart(s)|;
      forall i | 0 <= i < n ensures IsSpace(s[..n][i]) {
        if i > 0 {
          assert s[..n][i] == s[1..][..n - 1][i - 1];
        }
      }
    }
  }

  /** `s.trimEnd()`: drops the trailing white space. */
  function TrimEnd(s: string): (r: string)
    ensures |r| <= |s| && r == s[..|r|]
    ensures r == [] || !IsSpace(r[|r| - 1])
  {
    if s != [] && IsSpace(s[|s| - 1]) then TrimEnd(s[..|s| - 1]) else s
  }

  /** What `trimEnd` drops is white space. */
  lemma {:induction false} TrimEndDropsSpace(s: string)
    ensures AllSpace(s[|TrimEnd(s)|..])
  {
    if s != [] && IsSpace(s[|s| - 1]) {
      var n := |s| - 1;
      TrimEndDropsSpace(s[..n]);
      var m := |TrimEnd(s)|;
      forall i | 0 <= i < |s| - m ensures IsSpace(s[m..][i]) {
        if m + i < n {
          assert s[m..][i] == s[..n][m..][i];
        }
      }
    }
  }

  /** `s.trim()`. */
  function Trim(s: string): (r: string)
    ensures Trimmed(r)
    ensures Trimmed(s) ==> r == s
  {
    TrimEnd(TrimStart(s))
  }

  /** `trim` removes white space at both ends and nothing else: its result
      is the slice of `s` starting at `a` with only white space around it. */
  lemma TrimSlice(s: string) returns (a: nat)
    ensures a + |Trim(s)| <= |s| && Trim(s) == s[a..a + |Trim(s)|]
    ensures AllSpace(s[..a]) && AllSpace(s[a + |Trim(s)|..])
  {
    var t := TrimStart(s);
    var r := TrimEnd(t);
    a := |s| - |t|;
    TrimStartDropsSpace(s);
    TrimEndDropsSpace(t);
    assert r == s[a..a + |r|] by {
      assert t == s[a..];
      assert r == t[..|r|];
    }
    assert AllSpace(s[a + |r|..]) by {
      assert s[a + |r|..] == t[|r|..];
    }
  }

  /** Trimming gives the empty string exactly when the string is all white
      space. */
  lemma TrimEmptyIffAllSpace(s: string)
    ensures Trim(s) == [] <==> AllSpace(s)
  {
    var a := TrimSlice(s);
    var r := Trim(s);
    if r == [] {
      forall i | 0 <= i < |s| ensures IsSpace(s[i]) {
        if i < a {
          assert s[..a][i] == s[i];
        } else {
          assert s[a..][i - a] == s[i];
        }
      }
    } else {
      assert r[0] == s[a];
    }
  }

  /** `c.toLowerCase()` for the Basic Latin and Latin-1 letters; every other
      character is left as it is. */
  function LowerChar(c: char): char {
    if 'A' <= c <= 'Z' || ('\U{00C0}' <= c <= '\U{00DE}' && c != '\U{00D7}')
    then (c as int + 32) as char
    else c
  }

  /** `s.toLowerCase()`, character by character. */
  function Lower(s: string): string {
    seq(|s|, i requires 0 <= i < |s| => LowerChar(s[i]))
  }

  /** Lower-casing commutes with concatenation. */
  lemma LowerAppend(a: string, b: string)
    ensures Lower(a + b) == Lower(a) + Lower(b)
  {
  }

  /** Lower-casing twice is lower-casing once. */
  lemma LowerIdempotent(s: string)
    ensures Lower(Lower(s)) == Lower(s)
  {
  }
}
