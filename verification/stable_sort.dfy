/**
 A stable sort by a real-valued key, the behaviour LINQ documents for
 `OrderBy` and `OrderByDescending`: the result is ordered by the key, it is a
 permutation of the input, and elements with equal keys keep their input
 order. Stability is stated as "for every key value, the subsequence of
 elements carrying that key is the same before and after sorting", which
 also makes sense when the input holds equal elements.
 */
module StableSort {
  import opened Seqs

  /** The elements of `s` whose key is `k`, in the order they occur in `s`. */
  function KeyFilter<T>(s: seq<T>, key: T -> real, k: real): seq<T> {
    Filter(s, x => key(x) == k)
  }

  /** One step of `KeyFilter`, peeling the last element off. */
  lemma KeyFilterSnoc<T>(s: seq<T>, x: T, key: T -> real, k: real)
    ensures KeyFilter(s + [x], key, k)
         == KeyFilter(s, key, k) + (if key(x) == k then [x] else [])
  {
    assert (s + [x])[..|s|] == s;
  }

  /** Elements whose key is `k` are kept by `KeyFilter`, and nothing else is. */
  lemma KeyFilterMembers<T>(s: seq<T>, key: T -> real, k: real)
    ensures forall x :: x in KeyFilter(s, key, k) ==> x in s && key(x) == k
    ensures forall i :: 0 <= i < |s| && key(s[i]) == k ==> s[i] in KeyFilter(s, key, k)
  {
    forall i | 0 <= i < |s| && key(s[i]) == k
      ensures s[i] in KeyFilter(s, key, k)
    {
      FilterKeeps(s, x => key(x) == k, i);
    }
  }

  /** Cutting a sequence short cuts each of its per-key subsequences short. */
  lemma KeyFilterTake<T>(s: seq<T>, key: T -> real, k: real, n: nat)
    ensures KeyFilter(Take(s, n), key, k) <= KeyFilter(s, key, k)
  {
    if n <= |s| {
      FilterPrefix(s, x => key(x) == k, n);
    }
  }

  /** `s` is ordered by `key`, ascending (equal keys allowed). */
  predicate Sorted<T>(s: seq<T>, key: T -> real) {
    forall i, j :: 0 <= i < j < |s| ==> key(s[i]) <= key(s[j])
  }

  /** `t` is a stable sort of `s` by `key`. */
  ghost predicate StablySorted<T>(s: seq<T>, t: seq<T>, key: T -> real) {
    Sorted(t, key) && forall k :: KeyFilter(t, key, k) == KeyFilter(s, key, k)
  }

  /** Inserts `x` into sorted `s` after every element whose key is at most `key(x)`. */
  function Insert<T>(s: seq<T>, x: T, key: T -> real): (r: seq<T>)
    ensures |r| == |s| + 1
  {
    if |s| == 0 then [x]
    else if key(x) < key(s[|s| - 1]) then Insert(s[..|s| - 1], x, key) + [s[|s| - 1]]
    else s + [x]
  }

  lemma {:induction false} InsertPermutes<T>(s: seq<T>, x: T, key: T -> real)
    ensures multiset(Insert(s, x, key)) == multiset(s) + multiset{x}
    decreases |s|
  {
    if |s| > 0 && key(x) < key(s[|s| - 1]) {
      var init := s[..|s| - 1];
      InsertPermutes(init, x, key);
      assert s == init + [s[|s| - 1]];
    }
  }

  lemma {:induction false} InsertSorted<T>(s: seq<T>, x: T, key: T -> real)
    requires Sorted(s, key)
    ensures Sorted(Insert(s, x, key), key)
    decreases |s|
  {
    if |s| > 0 && key(x) < key(s[|s| - 1]) {
      var init := s[..|s| - 1];
      var last := s[|s| - 1];
      InsertSorted(init, x, key);
      InsertPermutes(init, x, key);
      var r := Insert(init, x, key);
      forall i | 0 <= i < |r|
        ensures key(r[i]) <= key(last)
      {
        assert r[i] in multiset(r);
        if r[i] != x {
          assert r[i] in multiset(init);
          var j :| 0 <= j < |init| && init[j] == r[i];
          assert s[j] == r[i];
        }
      }
    }
  }

  lemma {:induction false} InsertKeyFilter<T>(s: seq<T>, x: T, key: T -> real, k: real)
    requires Sorted(s, key)
    ensures KeyFilter(Insert(s, x, key), key, k)
         == KeyFilter(s, key, k) + (if key(x) == k then [x] else [])
    decreases |s|
  {
    if |s| == 0 {
      KeyFilterSnoc([], x, key, k);
      assert [] + [x] == [x];
    } else {
      var init := s[..|s| - 1];
      var last := s[|s| - 1];
      assert s == init + [last];
      KeyFilterSnoc(init, last, key, k);
      if key(x) < key(last) {
        InsertKeyFilter(init, x, key, k);
        KeyFilterSnoc(Insert(init, x, key), last, key, k);
      } else {
        KeyFilterSnoc(s, x, key, k);
      }
    }
  }

  /** Stable insertion sort by `key`, ascending. */
  function SortBy<T>(s: seq<T>, key: T -> real): (r: seq<T>)
    ensures |r| == |s|
  {
    if |s| == 0 then []
    else Insert(SortBy(s[..|s| - 1], key), s[|s| - 1], key)
  }

  /** `SortBy` orders by the key, permutes its input and is stable. */
  lemma {:induction false} SortByCorrect<T>(s: seq<T>, key: T -> real)
    ensures StablySorted(s, SortBy(s, key), key)
    ensures multiset(SortBy(s, key)) == multiset(s)
    decreases |s|
  {
    if |s| > 0 {
      var init := s[..|s| - 1];
      var last := s[|s| - 1];
      assert s == init + [last];
      var r := SortBy(init, key);
      SortByCorrect(init, key);
      InsertSorted(r, last, key);
      InsertPermutes(r, last, key);
      forall k
        ensures KeyFilter(SortBy(s, key), key, k) == KeyFilter(s, key, k)
      {
        InsertKeyFilter(r, last, key, k);
        KeyFilterSnoc(init, last, key, k);
      }
    }
  }

  /** Sorting neither adds nor drops values. */
  lemma SortByMembers<T>(s: seq<T>, key: T -> real)
    ensures forall x :: x in SortBy(s, key) <==> x in s
  {
    SortByCorrect(s, key);
    forall x
      ensures x in SortBy(s, key) <==> x in s
    {
      assert x in SortBy(s, key) <==> x in multiset(SortBy(s, key));
      assert x in s <==> x in multiset(s);
    }
  }

  /**
   The stable-sort contract determines the result: two sequences ordered by
   the same key whose per-key subsequences agree are equal.
   */
  lemma {:induction false} SortedUnique<T>(t: seq<T>, u: seq<T>, key: T -> real)
    requires Sorted(t, key) && Sorted(u, key)
    requires forall k :: KeyFilter(t, key, k) == KeyFilter(u, key, k)
    ensures t == u
    decreases |t| + |u|
  {
    if |t| == 0 && |u| == 0 {
    } else if |t| == 0 {
      EmptyHasNoKeys(t, u, key);
    } else if |u| == 0 {
      EmptyHasNoKeys(u, t, key);
    } else {
      LastKeyBounds(t, u, key);
      LastKeyBounds(u, t, key);
      var t', u' := t[..|t| - 1], u[..|u| - 1];
      DropLastAgree(t, u, t', u', key);
      assert Sorted(t', key) && Sorted(u', key);
      SortedUnique(t', u', key);
      assert t == t' + [t[|t| - 1]] && u == u' + [u[|u| - 1]];
    }
  }

  /** The last key of `t` bounds every key of `u` when their per-key subsequences agree. */
  lemma LastKeyBounds<T>(t: seq<T>, u: seq<T>, key: T -> real)
    requires Sorted(t, key) && |t| > 0 && |u| > 0
    requires forall k :: KeyFilter(t, key, k) == KeyFilter(u, key, k)
    ensures key(u[|u| - 1]) <= key(t[|t| - 1])
  {
    var ul := u[|u| - 1];
    KeyFilterMembers(u, key, key(ul));
    KeyFilterMembers(t, key, key(ul));
    assert ul in KeyFilter(u, key, key(ul));
    assert ul in KeyFilter(t, key, key(ul));
    var j :| 0 <= j < |t| && t[j] == ul;
    assert j == |t| - 1 || key(t[j]) <= key(t[|t| - 1]);
  }

  /** With equal last keys, the last elements agree and so do the per-key subsequences of the rest. */
  lemma DropLastAgree<T>(t: seq<T>, u: seq<T>, t': seq<T>, u': seq<T>, key: T -> real)
    requires |t| > 0 && |u| > 0 && key(t[|t| - 1]) == key(u[|u| - 1])
    requires t' == t[..|t| - 1] && u' == u[..|u| - 1]
    requires forall k :: KeyFilter(t, key, k) == KeyFilter(u, key, k)
    ensures t[|t| - 1] == u[|u| - 1]
    ensures forall k :: KeyFilter(t', key, k) == KeyFilter(u', key, k)
  {
    var tl, ul := t[|t| - 1], u[|u| - 1];
    assert t == t' + [tl] && u == u' + [ul];
    var K := key(tl);
    KeyFilterSnoc(t', tl, key, K);
    KeyFilterSnoc(u', ul, key, K);
    assert KeyFilter(t, key, K) == KeyFilter(u, key, K);
    var ft, fu := KeyFilter(t, key, K), KeyFilter(u, key, K);
    assert ft[|ft| - 1] == tl;
    assert fu[|fu| - 1] == ul;
    forall k
      ensures KeyFilter(t', key, k) == KeyFilter(u', key, k)
    {
      KeyFilterSnoc(t', tl, key, k);
      KeyFilterSnoc(u', ul, key, k);
      assert KeyFilter(t, key, k) == KeyFilter(u, key, k);
      if K == k {
        assert KeyFilter(t', key, k) == KeyFilter(t, key, k)[..|KeyFilter(t, key, k)| - 1];
        assert KeyFilter(u', key, k) == KeyFilter(u, key, k)[..|KeyFilter(u, key, k)| - 1];
      }
    }
  }

  lemma EmptyHasNoKeys<T>(t: seq<T>, u: seq<T>, key: T -> real)
    requires |t| == 0 && |u| > 0
    ensures KeyFilter(t, key, key(u[0])) != KeyFilter(u, key, key(u[0]))
  {
    KeyFilterMembers(u, key, key(u[0]));
  }

  /** Any stable sort of `s` by `key` is `SortBy(s, key)`. */
  lemma StableSortIsSortBy<T>(s: seq<T>, t: seq<T>, key: T -> real)
    requires StablySorted(s, t, key)
    ensures t == SortBy(s, key)
  {
    SortByCorrect(s, key);
    SortedUnique(t, SortBy(s, key), key);
  }

  /** No two elements of `s` share a key. */
  predicate UniqueKeys<T>(s: seq<T>, key: T -> real) {
    forall i, j :: 0 <= i < j < |s| ==> key(s[i]) != key(s[j])
  }

  lemma {:induction false} KeyFilterNone<T>(s: seq<T>, key: T -> real, k: real)
    requires forall j :: 0 <= j < |s| ==> key(s[j]) != k
    ensures KeyFilter(s, key, k) == []
    decreases |s|
  {
    if |s| > 0 {
      var init := s[..|s| - 1];
      assert s == init + [s[|s| - 1]];
      KeyFilterSnoc(init, s[|s| - 1], key, k);
      KeyFilterNone(init, key, k);
    }
  }

  lemma {:induction false} UniqueKeysFilter<T>(s: seq<T>, key: T -> real, k: real)
    requires UniqueKeys(s, key)
    ensures |KeyFilter(s, key, k)| <= 1
    decreases |s|
  {
    if |s| > 0 {
      var init, last := s[..|s| - 1], s[|s| - 1];
      assert s == init + [last];
      KeyFilterSnoc(init, last, key, k);
      UniqueKeysFilter(init, key, k);
      if key(last) == k {
        assert forall j :: 0 <= j < |init| ==> key(init[j]) != k by {
          forall j | 0 <= j < |init| ensures key(init[j]) != k {
            assert s[j] == init[j];
          }
        }
        KeyFilterNone(init, key, k);
      }
    }
  }

  lemma {:induction false} RepeatedKeyFilter<T>(s: seq<T>, key: T -> real, i: nat, j: nat)
    requires i < j < |s| && key(s[i]) == key(s[j])
    ensures |KeyFilter(s, key, key(s[i]))| >= 2
    decreases |s|
  {
    var init, last := s[..|s| - 1], s[|s| - 1];
    assert s == init + [last];
    var k := key(s[i]);
    KeyFilterSnoc(init, last, key, k);
    if j == |s| - 1 {
      KeyFilterMembers(init, key, k);
      assert init[i] in KeyFilter(init, key, k);
    } else {
      RepeatedKeyFilter(init, key, i, j);
    }
  }

  /** A stable sort of input with unique keys is strictly ascending. */
  lemma StableSortStrict<T>(s: seq<T>, t: seq<T>, key: T -> real)
    requires StablySorted(s, t, key) && UniqueKeys(s, key)
    ensures forall i, j :: 0 <= i < j < |t| ==> key(t[i]) < key(t[j])
  {
    forall i, j | 0 <= i < j < |t|
      ensures key(t[i]) < key(t[j])
    {
      if key(t[i]) == key(t[j]) {
        RepeatedKeyFilter(t, key, i, j);
        UniqueKeysFilter(s, key, key(t[i]));
        assert false;
      }
    }
  }

  /** The key `key` turned around, so that an ascending sort by it is descending by `key`. */
  function Negated<T>(key: T -> real): T -> real {
    x => -key(x)
  }

  lemma NegatedApply<T>(key: T -> real, x: T)
    ensures Negated(key)(x) == -key(x)
  {
  }

  /** Selecting by the negated key selects the same elements as by the key. */
  lemma {:induction false} KeyFilterNegated<T>(s: seq<T>, key: T -> real, k: real)
    ensures KeyFilter(s, Negated(key), -k) == KeyFilter(s, key, k)
    decreases |s|
  {
    if |s| > 0 {
      var init := s[..|s| - 1];
      assert s == init + [s[|s| - 1]];
      KeyFilterSnoc(init, s[|s| - 1], Negated(key), -k);
      KeyFilterSnoc(init, s[|s| - 1], key, k);
      KeyFilterNegated(init, key, k);
    }
  }

  /** LINQ's `OrderByDescending`: stable sort by `key`, largest first. */
  function SortByDescending<T>(s: seq<T>, key: T -> real): (r: seq<T>)
    ensures |r| == |s|
  {
    SortBy(s, Negated(key))
  }

  /** `SortByDescending` orders from the largest key down, permutes its input and is stable. */
  lemma SortByDescendingCorrect<T>(s: seq<T>, key: T -> real)
    ensures forall i, j :: 0 <= i < j < |SortByDescending(s, key)|
              ==> key(SortByDescending(s, key)[i]) >= key(SortByDescending(s, key)[j])
    ensures multiset(SortByDescending(s, key)) == multiset(s)
    ensures forall k :: KeyFilter(SortByDescending(s, key), key, k) == KeyFilter(s, key, k)
  {
    var r := SortByDescending(s, key);
    SortByCorrect(s, Negated(key));
    forall i, j | 0 <= i < j < |r|
      ensures key(r[i]) >= key(r[j])
    {
      assert Negated(key)(r[i]) <= Negated(key)(r[j]);
    }
    forall k
      ensures KeyFilter(r, key, k) == KeyFilter(s, key, k)
    {
      KeyFilterNegated(r, key, k);
      KeyFilterNegated(s, key, k);
    }
  }

  /**
   In a sequence ordered by `key`, largest first, cutting after `k` elements
   leaves out nothing with a larger key than any kept element.
   */
  lemma DescendingCutDominates<T>(t: seq<T>, key: T -> real, k: nat)
    requires k <= |t|
    requires forall i, j :: 0 <= i < j < |t| ==> key(t[i]) >= key(t[j])
    ensures forall x, i :: x in multiset(t) - multiset(t[..k]) && 0 <= i < k ==> key(t[i]) >= key(x)
  {
    var rest := t[k..];
    assert t == t[..k] + rest;
    assert multiset(t) - multiset(t[..k]) == multiset(rest);
    forall x, i | x in multiset(t) - multiset(t[..k]) && 0 <= i < k
      ensures key(t[i]) >= key(x)
    {
      assert x in rest;
      var q :| 0 <= q < |rest| && rest[q] == x;
      assert t[k + q] == x;
    }
  }
}
