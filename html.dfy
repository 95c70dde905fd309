/** `stripHtml` (scripts/fetch-new.mjs): a best-effort plain-text view of a
    description. Tag-like spans become spaces, white-space runs become one
    space, and the ends are trimmed. Entities are not decoded. */
module Html {
  import opened Wrappers
  import opened Text

  /** No `<` is followed, anywhere after it, by a `>`: nothing left that the
      tag pattern `<[^>]*>` could match. */
  predicate NoTag(s: string) {
    forall i, j :: 0 <= i < j < |s| ==> NoTagAt(s, i, j)
  }

  /** The characters at `i` and at the later `j` are not `<` and `>`. */
  predicate NoTagAt(s: string, i: nat, j: nat)
    requires i < j < |s|
  {
    s[i] == '<' ==> s[j] != '>'
  }

  /** White space occurs only as single ' ' characters. */
  predicate Collapsed(s: string) {
    forall i :: 0 <= i < |s| ==> SingleSpaceAt(s, i)
  }

  /** If the character at `i` is white space, it is a ' ' and the next
      character is not white space. */
  predicate SingleSpaceAt(s: string, i: nat)
    requires i < |s|
  {
    IsSpace(s[i]) ==> s[i] == ' ' && (i + 1 < |s| ==> !IsSpace(s[i + 1]))
  }

  /** `s.replace(/<[^>]*>/g, " ")`. Scanning left to right, a `<` that has
      a `>` somewhere after it starts a tag running to the first such `>`,
      and the whole tag becomes one space; any other character is kept. */
  function ReplaceTags(s: string): (r: string)
    decreases |s|
  {
    if s == [] then []
    else if s[0] != '<' then [s[0]] + ReplaceTags(s[1..])
    else match IndexOf(s, ">", 1)
      case None => [s[0]] + ReplaceTags(s[1..])
      case Some(j) => [' '] + ReplaceTags(s[j + 1..])
  }

  /** The replacement leaves no tag behind, and it adds no `>`. */
  lemma {:induction false} ReplaceTagsNoTag(s: string)
    ensures NoTag(ReplaceTags(s))
    ensures '>' in ReplaceTags(s) ==> '>' in s
    decreases |s|
  {
    if s == [] {
    } else if s[0] != '<' {
      ReplaceTagsNoTag(s[1..]);
      NoTagCons(s[0], ReplaceTags(s[1..]));
    } else {
      match IndexOf(s, ">", 1)
      case None =>
        ReplaceTagsNoTag(s[1..]);
        if '>' in s[1..] {
          var k :| 0 <= k < |s[1..]| && s[1..][k] == '>';
          OccursAtChar(s, '>', k + 1);
        }
        NoTagCons(s[0], ReplaceTags(s[1..]));
      case Some(j) =>
        ReplaceTagsNoTag(s[j + 1..]);
        NoTagCons(' ', ReplaceTags(s[j + 1..]));
        if '>' in ReplaceTags(s) {
          OccursAtChar(s, '>', j);
        }
    }
  }

  /** On text without tags the replacement changes nothing. */
  lemma {:induction false} ReplaceTagsFixpoint(s: string)
    requires NoTag(s)
    ensures ReplaceTags(s) == s
    decreases |s|
  {
    if s != [] {
      if s[0] == '<' {
        match IndexOf(s, ">", 1)
        case None =>
        case Some(j) =>
          NoTagFirst(s);
          OccursAtChar(s, '>', j);
          assert false;
      }
      NoTagSlice(s, 1, |s|);
      assert s[1..|s|] == s[1..];
      ReplaceTagsFixpoint(s[1..]);
    }
  }

  /** `s.replace(/\s+/g, " ")`: every maximal run of white space becomes a
      single space. */
  function Collapse(s: string): (r: string)
    ensures s != [] ==> r != [] && r[0] == (if IsSpace(s[0]) then ' ' else s[0])
    decreases |s|
  {
    if s == [] then []
    else if IsSpace(s[0]) then [' '] + Collapse(TrimStart(s[1..]))
    else [s[0]] + Collapse(s[1..])
  }

  /** Collapsing leaves white space only as single spaces. */
  lemma {:induction false} CollapseCollapsed(s: string)
    ensures Collapsed(Collapse(s))
    decreases |s|
  {
    if s == [] {
    } else if IsSpace(s[0]) {
      var t := TrimStart(s[1..]);
      CollapseCollapsed(t);
      CollapsedCons(' ', Collapse(t));
    } else {
      CollapseCollapsed(s[1..]);
      CollapsedCons(s[0], Collapse(s[1..]));
    }
  }

  lemma CollapsedCons(c: char, t: string)
    requires Collapsed(t)
    requires IsSpace(c) ==> c == ' ' && (t == [] || !IsSpace(t[0]))
    ensures Collapsed([c] + t)
  {
    var s := [c] + t;
    forall i | 0 <= i < |s|
      ensures SingleSpaceAt(s, i)
    {
      if i > 0 {
        assert SingleSpaceAt(t, i - 1);
        assert s[i] == t[i - 1];
        if i + 1 < |s| {
          assert s[i + 1] == t[i];
        }
      }
    }
  }

  /** Collapsing introduces no `>`. */
  lemma {:induction false} CollapseNoNewGt(s: string)
    ensures '>' in Collapse(s) ==> '>' in s
    decreases |s|
  {
    if s == [] {
    } else if IsSpace(s[0]) {
      var t := TrimStart(s[1..]);
      CollapseNoNewGt(t);
      GtInSuffix(s, t);
      assert Collapse(s) == [' '] + Collapse(t);
    } else {
      CollapseNoNewGt(s[1..]);
      GtInSuffix(s, s[1..]);
      assert Collapse(s) == [s[0]] + Collapse(s[1..]);
    }
  }

  lemma GtInSuffix(s: string, t: string)
    requires |t| <= |s| && t == s[|s| - |t|..]
    ensures '>' in t ==> '>' in s
  {
    if '>' in t {
      var k :| 0 <= k < |t| && t[k] == '>';
      assert s[|s| - |t| + k] == '>';
    }
  }

  /** Collapsing adds no tag: it introduces no `>` and keeps the order of
      the characters it keeps. */
  lemma {:induction false} CollapseNoTag(s: string)
    requires NoTag(s)
    ensures NoTag(Collapse(s))
    decreases |s|
  {
    if s == [] {
    } else if IsSpace(s[0]) {
      var t := TrimStart(s[1..]);
      NoTagSlice(s, |s| - |t|, |s|);
      assert s[|s| - |t|..|s|] == t;
      CollapseNoTag(t);
      NoTagCons(' ', Collapse(t));
    } else {
      NoTagSlice(s, 1, |s|);
      assert s[1..|s|] == s[1..];
      CollapseNoTag(s[1..]);
      CollapseNoNewGt(s[1..]);
      if s[0] == '<' {
        NoTagFirst(s);
      }
      NoTagCons(s[0], Collapse(s[1..]));
    }
  }

  lemma NoTagCons(c: char, t: string)
    requires NoTag(t)
    requires c == '<' ==> '>' !in t
    ensures NoTag([c] + t)
  {
    var s := [c] + t;
    forall i, j | 0 <= i < j < |s|
      ensures NoTagAt(s, i, j)
    {
      assert s[j] == t[j - 1];
      if i > 0 {
        assert s[i] == t[i - 1];
        assert NoTagAt(t, i - 1, j - 1);
      }
    }
  }

  /** Without tags, a leading `<` has no `>` after it. */
  lemma NoTagFirst(s: string)
    requires NoTag(s) && s != [] && s[0] == '<'
    ensures forall k :: 1 <= k < |s| ==> s[k] != '>'
    ensures '>' !in s[1..]
  {
    forall k | 1 <= k < |s| ensures s[k] != '>' {
      assert NoTagAt(s, 0, k);
    }
  }

  lemma NoTagSlice(s: string, a: nat, b: nat)
    requires a <= b <= |s| && NoTag(s)
    ensures NoTag(s[a..b])
  {
    var t := s[a..b];
    forall i, j | 0 <= i < j < |t|
      ensures NoTagAt(t, i, j)
    {
      assert NoTagAt(s, a + i, a + j);
      assert t[i] == s[a + i] && t[j] == s[a + j];
    }
  }

  lemma CollapsedSlice(s: string, a: nat, b: nat)
    requires a <= b <= |s| && Collapsed(s)
    ensures Collapsed(s[a..b])
  {
    var t := s[a..b];
    forall i | 0 <= i < |t|
      ensures SingleSpaceAt(t, i)
    {
      assert SingleSpaceAt(s, a + i);
      assert t[i] == s[a + i];
      if i + 1 < |t| {
        assert t[i + 1] == s[a + i + 1];
      }
    }
  }

  /** Text that is already collapsed is left as it is. */
  lemma {:induction false} CollapseFixpoint(s: string)
    requires Collapsed(s)
    ensures Collapse(s) == s
    decreases |s|
  {
    if s != [] {
      if IsSpace(s[0]) {
        assert SingleSpaceAt(s, 0);
        assert TrimStart(s[1..]) == s[1..];
      }
      CollapsedSlice(s, 1, |s|);
      assert s[1..|s|] == s[1..];
      CollapseFixpoint(s[1..]);
    }
  }

  /** `stripHtml(html)`. */
  function StripHtml(html: string): string {
    Trim(Collapse(ReplaceTags(html)))
  }

  /** The plain text has no tag left, no white space at either end, and no
      white space other than single spaces. */
  lemma StripHtmlShape(html: string)
    ensures var r := StripHtml(html); NoTag(r) && Collapsed(r) && Trimmed(r)
  {
    var tagless := ReplaceTags(html);
    ReplaceTagsNoTag(html);
    CollapseCollapsed(tagless);
    CollapseNoTag(tagless);
    TrimKeepsShape(Collapse(tagless));
  }

  /** Trimming keeps both properties, as it only cuts off the ends. */
  lemma TrimKeepsShape(s: string)
    ensures NoTag(s) ==> NoTag(Trim(s))
    ensures Collapsed(s) ==> Collapsed(Trim(s))
  {
    var a := TrimSlice(s);
    var b := a + |Trim(s)|;
    if NoTag(s) {
      NoTagSlice(s, a, b);
    }
    if Collapsed(s) {
      CollapsedSlice(s, a, b);
    }
  }

  /** Stripping twice is stripping once. */
  lemma StripHtmlIdempotent(html: string)
    ensures StripHtml(StripHtml(html)) == StripHtml(html)
  {
    var r := StripHtml(html);
    StripHtmlShape(html);
    ReplaceTagsFixpoint(r);
    CollapseFixpoint(r);
  }
}
