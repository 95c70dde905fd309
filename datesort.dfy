/** The ranking sort of scripts/fetch-new.mjs: `dedup.sort((a, b) => tb - ta)`,
    newest first, where a record's key is its date in epoch milliseconds and
    `0` when it has none. `Array.prototype.sort` is stable, so records with
    equal keys keep their order; `SortByDate` is that stable sort, and
    `SortInPlace` an insertion sort on an array proved to compute it. */
module DateSort {
  import opened Wrappers
  import opened Records

  /** `a.date ? new Date(a.date).getTime() : 0`. */
  function Key(r: Record): int {
    r.date.GetOr(0)
  }

  /** Keys never increase along `s`. */
  predicate SortedDesc(s: seq<Record>) {
    forall i, j :: 0 <= i < j < |s| ==> Key(s[i]) >= Key(s[j])
  }

  /** The records of `s` whose key is `k`, in order. */
  function OfKey(s: seq<Record>, k: int): seq<Record> {
    if s == [] then []
    else OfKey(s[..|s| - 1], k) + (if Key(s[|s| - 1]) == k then [s[|s| - 1]] else [])
  }

  /** `x` placed into the sorted `t` after every record whose key is at
      least its own. */
  function Insert(t: seq<Record>, x: Record): seq<Record> {
    if t == [] || Key(t[|t| - 1]) >= Key(x) then t + [x]
    else Insert(t[..|t| - 1], x) + [t[|t| - 1]]
  }

  /** The stable sort of `s` by non-increasing key. */
  function SortByDate(s: seq<Record>): seq<Record> {
    if s == [] then [] else Insert(SortByDate(s[..|s| - 1]), s[|s| - 1])
  }

  lemma SortByDateSnoc(s: seq<Record>, n: nat)
    requires n < |s|
    ensures SortByDate(s[..n + 1]) == Insert(SortByDate(s[..n]), s[n])
  {
    assert s[..n + 1][..n] == s[..n];
  }

  lemma OfKeyAppendOne(t: seq<Record>, x: Record, k: int)
    ensures OfKey(t + [x], k) == OfKey(t, k) + (if Key(x) == k then [x] else [])
  {
    assert (t + [x])[..|t|] == t;
  }

  /** Inserting adds `x` and nothing else. */
  lemma {:induction false} InsertPermutes(t: seq<Record>, x: Record)
    ensures multiset(Insert(t, x)) == multiset(t) + multiset{x}
  {
    if !(t == [] || Key(t[|t| - 1]) >= Key(x)) {
      var n := |t| - 1;
      InsertPermutes(t[..n], x);
      assert t == t[..n] + [t[n]];
    }
  }

  /** Inserting into a sorted list keeps it sorted. */
  lemma {:induction false} InsertSorted(t: seq<Record>, x: Record)
    requires SortedDesc(t)
    ensures SortedDesc(Insert(t, x))
  {
    if !(t == [] || Key(t[|t| - 1]) >= Key(x)) {
      var n := |t| - 1;
      var last := t[n];
      InsertSorted(t[..n], x);
      InsertPermutes(t[..n], x);
      var u := Insert(t[..n], x);
      forall i | 0 <= i < |u| ensures Key(u[i]) >= Key(last) {
        assert u[i] in multiset(u);
        if u[i] != x {
          assert u[i] in multiset(t[..n]);
          var m :| 0 <= m < n && t[..n][m] == u[i];
          assert t[m] == u[i];
        }
      }
    }
  }

  /** Inserting `x` puts it after every record of its own key. */
  lemma {:induction false} InsertOfKey(t: seq<Record>, x: Record, k: int)
    ensures OfKey(Insert(t, x), k) == OfKey(t, k) + (if Key(x) == k then [x] else [])
  {
    if t == [] || Key(t[|t| - 1]) >= Key(x) {
      OfKeyAppendOne(t, x, k);
    } else {
      var n := |t| - 1;
      InsertOfKey(t[..n], x, k);
      OfKeyAppendOne(Insert(t[..n], x), t[n], k);
      assert t[..n] + [t[n]] == t;
      OfKeyAppendOne(t[..n], t[n], k);
    }
  }

  /** The sort's result is sorted by non-increasing key. */
  lemma {:induction false} SortByDateSorted(s: seq<Record>)
    ensures SortedDesc(SortByDate(s))
  {
    if s != [] {
      SortByDateSorted(s[..|s| - 1]);
      InsertSorted(SortByDate(s[..|s| - 1]), s[|s| - 1]);
    }
  }

  /** The sort's result is a permutation of its input. */
  lemma {:induction false} SortByDatePermutes(s: seq<Record>)
    ensures multiset(SortByDate(s)) == multiset(s)
  {
    if s != [] {
      var n := |s| - 1;
      SortByDatePermutes(s[..n]);
      InsertPermutes(SortByDate(s[..n]), s[n]);
      assert s[..n] + [s[n]] == s;
    }
  }

  /** The sort is stable: the records of each key keep their order. */
  lemma {:induction false} SortByDateStable(s: seq<Record>, k: int)
    ensures OfKey(SortByDate(s), k) == OfKey(s, k)
  {
    if s != [] {
      var n := |s| - 1;
      SortByDateStable(s[..n], k);
      InsertOfKey(SortByDate(s[..n]), s[n], k);
    }
  }

  /** A key some record of `s` has is a key with records. */
  lemma {:induction false} OfKeyMember(s: seq<Record>, k: int, i: nat)
    requires i < |s| && Key(s[i]) == k
    ensures OfKey(s, k) != []
  {
    var n := |s| - 1;
    if i < n {
      OfKeyMember(s[..n], k, i);
    }
  }

  lemma {:induction false} OfKeyKeys(s: seq<Record>, k: int, j: nat)
    requires j < |OfKey(s, k)|
    ensures exists i :: 0 <= i < |s| && s[i] == OfKey(s, k)[j] && Key(s[i]) == k
  {
    var n := |s| - 1;
    var front := OfKey(s[..n], k);
    if j < |front| {
      OfKeyKeys(s[..n], k, j);
      var i :| 0 <= i < n && s[..n][i] == front[j] && Key(s[..n][i]) == k;
      assert s[i] == OfKey(s, k)[j];
    } else {
      assert s[n] == OfKey(s, k)[j];
    }
  }

  lemma LastKeyPresent(s: seq<Record>)
    ensures s != [] ==> OfKey(s, Key(s[|s| - 1])) != []
  {
  }

  /** Sorted lists that agree on the records of every key are equal: a
      stable sort has exactly one possible result, so `SortByDate` is the
      one `Array.prototype.sort` gives. */
  lemma {:induction false} StableSortUnique(t1: seq<Record>, t2: seq<Record>)
    requires SortedDesc(t1) && SortedDesc(t2)
    requires forall k :: OfKey(t1, k) == OfKey(t2, k)
    ensures t1 == t2
    decreases |t1| + |t2|
  {
    LastKeyPresent(t1);
    LastKeyPresent(t2);
    if t1 != [] && t2 != [] {
      var n1, n2 := |t1| - 1, |t2| - 1;
      var k1, k2 := Key(t1[n1]), Key(t2[n2]);
      if k1 < k2 {
        OfKeyMember(t1, k1, n1);
        assert OfKey(t2, k1) != [];
        OfKeyKeys(t2, k1, 0);
        assert false;
      } else if k2 < k1 {
        OfKeyMember(t2, k2, n2);
        assert OfKey(t1, k2) != [];
        OfKeyKeys(t1, k2, 0);
        assert false;
      } else {
        assert t1[n1] == OfKey(t1, k1)[|OfKey(t1, k1)| - 1];
        assert t2[n2] == OfKey(t2, k2)[|OfKey(t2, k2)| - 1];
        assert t1[n1] == t2[n2];
        forall k ensures OfKey(t1[..n1], k) == OfKey(t2[..n2], k) {
          var a, b := OfKey(t1[..n1], k), OfKey(t2[..n2], k);
          var e := if Key(t1[n1]) == k then [t1[n1]] else [];
          assert OfKey(t1, k) == a + e;
          assert OfKey(t2, k) == b + e;
          assert (a + e)[..|a|] == a;
          assert (b + e)[..|b|] == b;
        }
        StableSortUnique(t1[..n1], t2[..n2]);
        assert t1 == t1[..n1] + [t1[n1]];
        assert t2 == t2[..n2] + [t2[n2]];
      }
    }
  }

  /** `SortByDate(s)` is the only sorted list holding, for each key, the
      records of `s` with that key in their order in `s`. */
  lemma SortByDateCharacterized(s: seq<Record>, t: seq<Record>)
    requires SortedDesc(t)
    requires forall k :: OfKey(t, k) == OfKey(s, k)
    ensures t == SortByDate(s)
  {
    SortByDateSorted(s);
    forall k ensures OfKey(t, k) == OfKey(SortByDate(s), k) {
      SortByDateStable(s, k);
    }
    StableSortUnique(t, SortByDate(s));
  }

  /** Dated 2024-01-01, undated and dated 2024-06-01 records rank June
      first, then January, then the undated one. */
  lemma SortNewestFirstExample()
    ensures var jan := Record("feed", "a", "https://a", Some(1704067200000), "");
            var none := Record("feed", "b", "https://b", None, "");
            var jun := Record("feed", "c", "https://c", Some(1717200000000), "");
            SortByDate([jan, none, jun]) == [jun, jan, none]
  {
    var jan := Record("feed", "a", "https://a", Some(1704067200000), "");
    var none := Record("feed", "b", "https://b", None, "");
    var jun := Record("feed", "c", "https://c", Some(1717200000000), "");
    var s := [jan, none, jun];
    assert s[..2] == [jan, none] && s[..2][..1] == [jan] && [jan][..0] == [];
    assert SortByDate([jan]) == [jan];
    assert SortByDate([jan, none]) == [jan, none];
    assert Insert([jan], jun) == [jun, jan];
  }

  /** An undated record has key 0, so in the sort it comes before every
      record dated before 1970 rather than last. */
  lemma UndatedAbovePre1970(s: seq<Record>, i: nat, j: nat)
    requires i < |SortByDate(s)| && j < |SortByDate(s)|
    requires SortByDate(s)[i].date.Some? && SortByDate(s)[i].date.value < 0
    requires SortByDate(s)[j].date.None?
    ensures j < i
  {
    SortByDateSorted(s);
    var r := SortByDate(s);
    assert Key(r[j]) == 0 && Key(r[i]) < 0;
  }

  /** For example, a record dated 1969-12-31 and an undated one come out
      undated first. */
  lemma UndatedAbovePre1970Example()
    ensures var old1969 := Record("feed", "a", "https://a", Some(-86400000), "");
            var none := Record("feed", "b", "https://b", None, "");
            SortByDate([old1969, none]) == [none, old1969]
  {
    var old1969 := Record("feed", "a", "https://a", Some(-86400000), "");
    var none := Record("feed", "b", "https://b", None, "");
    assert [old1969, none][..1] == [old1969] && [old1969][..0] == [];
    assert SortByDate([old1969]) == [old1969];
    assert Key(none) == 0 > Key(old1969);
    assert Insert([old1969], none) == Insert([], none) + [old1969];
  }

  /** `dedup.sort(...)`: an insertion sort that moves each record left past
      the records with a smaller key, so equal keys keep their order. */
  method SortInPlace(a: array<Record>)
    modifies a
    ensures a[..] == SortByDate(old(a[..]))
  {
    ghost var s := a[..];
    for i := 0 to a.Length
      invariant a[..i] == SortByDate(s[..i])
      invariant a[i..] == s[i..]
    {
      SortByDateSnoc(s, i);
      assert a[i] == a[i..][0] == s[i];
      assert a[i + 1..] == a[i..][1..];
      InsertInPlace(a, i);
    }
    assert a[..] == a[..a.Length];
    assert s[..a.Length] == s;
  }

  /** One step of the insertion sort: `a[i]` moves left past the records of
      `a[..i]` with a smaller key. */
  method InsertInPlace(a: array<Record>, i: nat)
    requires i < a.Length
    modifies a
    ensures a[..i + 1] == Insert(old(a[..i]), old(a[i]))
    ensures a[i + 1..] == old(a[i + 1..])
  {
    var x := a[i];
    ghost var t := a[..i];
    ghost var rest := a[i + 1..];
    var j := i;
    while j > 0 && Key(a[j - 1]) < Key(x)
      invariant 0 <= j <= i
      invariant a[..j] == t[..j]
      invariant a[j + 1..i + 1] == t[j..]
      invariant a[i + 1..] == rest
      invariant Insert(t, x) == Insert(t[..j], x) + t[j..]
      decreases j
    {
      InsertStep(t, x, j);
      a[j] := a[j - 1];
      j := j - 1;
    }
    a[j] := x;
    InsertStop(t, x, j);
    assert a[..i + 1] == t[..j] + [x] + t[j..];
  }

  lemma InsertStep(t: seq<Record>, x: Record, j: nat)
    requires 0 < j <= |t| && Key(t[j - 1]) < Key(x)
    ensures Insert(t[..j], x) + t[j..] == Insert(t[..j - 1], x) + t[j - 1..]
  {
    assert t[..j][..j - 1] == t[..j - 1];
  }

  lemma InsertStop(t: seq<Record>, x: Record, j: nat)
    requires j <= |t| && (j == 0 || Key(t[j - 1]) >= Key(x))
    ensures Insert(t[..j], x) == t[..j] + [x]
  {
  }
}
