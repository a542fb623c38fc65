/** `SelectionSpan`, the user's selected tokens, and the ordering that
    `sort_by_key(|s| s.word_index)` puts them in. */
module Selections {
  import opened Text

  datatype SelectionSpan = SelectionSpan(text: string, startIndex: nat, endIndex: nat, wordIndex: nat)

  predicate SortedByWordIndex(s: seq<SelectionSpan>) {
    forall i, j :: 0 <= i < j < |s| ==> s[i].wordIndex <= s[j].wordIndex
  }

  /** A key no larger than the head of a sorted list can go in front. */
  lemma SortedCons(a: SelectionSpan, t: seq<SelectionSpan>)
    requires SortedByWordIndex(t)
    requires |t| > 0 ==> a.wordIndex <= t[0].wordIndex
    ensures SortedByWordIndex([a] + t)
  {
    var r := [a] + t;
    forall i, j | 0 <= i < j < |r|
      ensures r[i].wordIndex <= r[j].wordIndex
    {
      if i == 0 && j > 1 {
        assert r[1] == t[0] && r[j] == t[j - 1];
      }
    }
  }

  /** Inserts `x` into a sorted list after every element whose key is at most
      `x`'s, so that equal keys keep their order. */
  function InsertByWordIndex(s: seq<SelectionSpan>, x: SelectionSpan): (r: seq<SelectionSpan>)
    requires SortedByWordIndex(s)
    ensures SortedByWordIndex(r)
    ensures multiset(r) == multiset(s) + multiset{x}
    ensures |r| > 0 && r[0] == if |s| == 0 || x.wordIndex < s[0].wordIndex then x else s[0]
  {
    if |s| == 0 then [x]
    else if x.wordIndex < s[0].wordIndex then
      SortedCons(x, s);
      [x] + s
    else
      var t := InsertByWordIndex(s[1..], x);
      assert s == [s[0]] + s[1..];
      assert |s| > 1 ==> s[0].wordIndex <= s[1].wordIndex;
      SortedCons(s[0], t);
      [s[0]] + t
  }

  /** `sort_by_key` on `word_index`: the standard library's sort is stable,
      and this stable insertion sort yields the same list (see
      `StableSortIsUnique`). */
  function SortByWordIndex(s: seq<SelectionSpan>): (r: seq<SelectionSpan>)
    ensures SortedByWordIndex(r)
    ensures multiset(r) == multiset(s)
  {
    if |s| == 0 then []
    else
      assert s == s[..|s| - 1] + [s[|s| - 1]];
      InsertByWordIndex(SortByWordIndex(s[..|s| - 1]), s[|s| - 1])
  }

  /** The elements with key `k`, in their order in `s`. */
  function WithWordIndex(s: seq<SelectionSpan>, k: nat): seq<SelectionSpan> {
    if |s| == 0 then []
    else (if s[0].wordIndex == k then [s[0]] else []) + WithWordIndex(s[1..], k)
  }

  lemma {:induction false} WithWordIndexAppend(a: seq<SelectionSpan>, b: seq<SelectionSpan>, k: nat)
    ensures WithWordIndex(a + b, k) == WithWordIndex(a, k) + WithWordIndex(b, k)
  {
    if |a| == 0 {
      assert a + b == b;
    } else {
      var head := if a[0].wordIndex == k then [a[0]] else [];
      assert (a + b)[0] == a[0] && (a + b)[1..] == a[1..] + b;
      assert WithWordIndex(a + b, k) == head + WithWordIndex(a[1..] + b, k);
      assert WithWordIndex(a, k) == head + WithWordIndex(a[1..], k);
      WithWordIndexAppend(a[1..], b, k);
      ConcatAssociative(head, WithWordIndex(a[1..], k), WithWordIndex(b, k));
    }
  }

  lemma {:induction false} WithWordIndexBelowMinimum(s: seq<SelectionSpan>, k: nat)
    requires SortedByWordIndex(s) && |s| > 0
    ensures k < s[0].wordIndex ==> WithWordIndex(s, k) == []
  {
    if |s| > 1 {
      WithWordIndexBelowMinimum(s[1..], k);
    }
  }

  lemma {:induction false} InsertIsStable(s: seq<SelectionSpan>, x: SelectionSpan, k: nat)
    requires SortedByWordIndex(s)
    ensures WithWordIndex(InsertByWordIndex(s, x), k)
         == WithWordIndex(s, k) + (if x.wordIndex == k then [x] else [])
  {
    var tail := if x.wordIndex == k then [x] else [];
    if |s| == 0 {
      assert WithWordIndex([x], k) == tail + WithWordIndex([], k);
    } else if x.wordIndex < s[0].wordIndex {
      assert InsertByWordIndex(s, x) == [x] + s;
      assert ([x] + s)[1..] == s;
      assert WithWordIndex([x] + s, k) == tail + WithWordIndex(s, k);
      WithWordIndexBelowMinimum(s, k);
    } else {
      var head := if s[0].wordIndex == k then [s[0]] else [];
      var t := InsertByWordIndex(s[1..], x);
      assert InsertByWordIndex(s, x) == [s[0]] + t;
      assert ([s[0]] + t)[1..] == t;
      assert WithWordIndex([s[0]] + t, k) == head + WithWordIndex(t, k);
      assert WithWordIndex(s, k) == head + WithWordIndex(s[1..], k);
      InsertIsStable(s[1..], x, k);
      ConcatAssociative(head, WithWordIndex(s[1..], k), tail);
    }
  }

  /** The sort is stable: for every key, the elements with that key come out
      in the order they went in. */
  lemma {:induction false} SortIsStable(s: seq<SelectionSpan>, k: nat)
    ensures WithWordIndex(SortByWordIndex(s), k) == WithWordIndex(s, k)
  {
    if |s| > 0 {
      var init, x := s[..|s| - 1], s[|s| - 1];
      assert s == init + [x];
      assert SortByWordIndex(s) == InsertByWordIndex(SortByWordIndex(init), x);
      assert WithWordIndex([x], k) == if x.wordIndex == k then [x] else [];
      SortIsStable(init, k);
      InsertIsStable(SortByWordIndex(init), x, k);
      WithWordIndexAppend(init, [x], k);
    }
  }

  lemma {:induction false} SortedWithSameKeyGroupsAreEqual(r: seq<SelectionSpan>, t: seq<SelectionSpan>)
    requires SortedByWordIndex(r) && SortedByWordIndex(t)
    requires forall k: nat :: WithWordIndex(r, k) == WithWordIndex(t, k)
    ensures r == t
    decreases |r|
  {
    if |r| == 0 || |t| == 0 {
      assert |t| > 0 ==> WithWordIndex(t, t[0].wordIndex) != [];
      assert |r| > 0 ==> WithWordIndex(r, r[0].wordIndex) != [];
    } else {
      var a, b := r[0].wordIndex, t[0].wordIndex;
      WithWordIndexBelowMinimum(t, a);
      WithWordIndexBelowMinimum(r, b);
      assert WithWordIndex(r, a) != [] && WithWordIndex(t, b) != [];
      assert a == b;
      assert WithWordIndex(r, a)[0] == r[0] && WithWordIndex(t, a)[0] == t[0];
      forall k: nat
        ensures WithWordIndex(r[1..], k) == WithWordIndex(t[1..], k)
      {
        var head := if a == k then [r[0]] else [];
        assert WithWordIndex(r, k) == head + WithWordIndex(r[1..], k);
        assert WithWordIndex(t, k) == head + WithWordIndex(t[1..], k);
        assert WithWordIndex(r[1..], k) == WithWordIndex(r, k)[|head|..];
      }
      SortedWithSameKeyGroupsAreEqual(r[1..], t[1..]);
      assert r == [r[0]] + r[1..] && t == [t[0]] + t[1..];
    }
  }

  /** A sorted list that keeps the input order within every key is exactly
      `SortByWordIndex` of the input: any stable sort by `word_index`, the
      standard library's included, gives the same result. */
  lemma StableSortIsUnique(s: seq<SelectionSpan>, r: seq<SelectionSpan>)
    requires SortedByWordIndex(r)
    requires forall k: nat :: WithWordIndex(r, k) == WithWordIndex(s, k)
    ensures r == SortByWordIndex(s)
  {
    forall k: nat
      ensures WithWordIndex(r, k) == WithWordIndex(SortByWordIndex(s), k)
    {
      SortIsStable(s, k);
    }
    SortedWithSameKeyGroupsAreEqual(r, SortByWordIndex(s));
  }
}
