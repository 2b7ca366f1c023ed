/** Sequence operations standing for the JavaScript array methods the frontend
    uses: `filter`, spreading a `Set` back into an array, and the stable `sort`
    with a numeric comparator. */
module Seqs {

  /** `a` is `b` with some elements deleted, the rest kept in order. */
  predicate IsSubsequence<T(==)>(a: seq<T>, b: seq<T>)
    decreases |b|
  {
    a == [] || (b != [] && ((a[0] == b[0] && IsSubsequence(a[1..], b[1..])) || IsSubsequence(a, b[1..])))
  }

  lemma {:induction false} SubsequenceBounds<T>(a: seq<T>, b: seq<T>)
    requires IsSubsequence(a, b)
    ensures |a| <= |b|
    ensures forall x :: x in a ==> x in b
    decreases |b|
  {
    if a != [] {
      if a[0] == b[0] && IsSubsequence(a[1..], b[1..]) {
        SubsequenceBounds(a[1..], b[1..]);
        assert a == [a[0]] + a[1..];
      } else {
        SubsequenceBounds(a, b[1..]);
      }
    }
  }

  predicate Distinct<T(==)>(s: seq<T>) {
    forall i, j :: 0 <= i < j < |s| ==> s[i] != s[j]
  }

  /** No two elements of `s` agree on `key`. */
  predicate DistinctBy<T, K(==)>(s: seq<T>, key: T -> K) {
    forall i, j :: 0 <= i < j < |s| ==> key(s[i]) != key(s[j])
  }

  /** `s.filter(keep)`. */
  function Filter<T(==)>(s: seq<T>, keep: T -> bool): (r: seq<T>)
    ensures |r| <= |s|
    ensures forall x :: x in r ==> x in s && keep(x)
    ensures forall x :: x in s && keep(x) ==> x in r
    ensures IsSubsequence(r, s)
  {
    if s == [] then []
    else if keep(s[0]) then [s[0]] + Filter(s[1..], keep)
    else Filter(s[1..], keep)
  }

  /** `filter` keeps every copy of a passing element and no copy of any other:
      with the subsequence clause of `Filter`, this fixes the result. */
  lemma {:induction false} FilterKeepsEveryCopy<T>(s: seq<T>, keep: T -> bool)
    ensures forall x :: multiset(Filter(s, keep))[x] == if keep(x) then multiset(s)[x] else 0
  {
    if s != [] {
      FilterKeepsEveryCopy(s[1..], keep);
      FilterCons(s[0], s[1..], keep);
      HeadTail(s);
      assert multiset(s) == multiset([s[0]]) + multiset(s[1..]);
    }
  }

  lemma {:induction false} FilterKeepsAll<T>(s: seq<T>, keep: T -> bool)
    requires forall x :: x in s ==> keep(x)
    ensures Filter(s, keep) == s
  {
    if s != [] {
      FilterKeepsAll(s[1..], keep);
    }
  }

  lemma {:induction false} FilterKeepsNone<T>(s: seq<T>, keep: T -> bool)
    requires forall x :: x in s ==> !keep(x)
    ensures Filter(s, keep) == []
  {
    if s != [] {
      FilterKeepsNone(s[1..], keep);
    }
  }

  /** Filtering twice is filtering once by the conjunction. */
  lemma {:induction false} FilterFilter<T>(s: seq<T>, p: T -> bool, q: T -> bool, both: T -> bool)
    requires forall x :: both(x) == (p(x) && q(x))
    ensures Filter(Filter(s, p), q) == Filter(s, both)
  {
    if s != [] {
      FilterFilter(s[1..], p, q, both);
      if p(s[0]) {
        var t := [s[0]] + Filter(s[1..], p);
        assert t[0] == s[0] && t[1..] == Filter(s[1..], p);
      }
    }
  }

  /** A stronger predicate keeps a subsequence of what a weaker one keeps. */
  lemma {:induction false} FilterMonotone<T>(s: seq<T>, p: T -> bool, q: T -> bool)
    requires forall x :: x in s ==> (p(x) ==> q(x))
    ensures IsSubsequence(Filter(s, p), Filter(s, q))
  {
    if s != [] {
      FilterMonotone(s[1..], p, q);
      var a, b := Filter(s[1..], p), Filter(s[1..], q);
      if p(s[0]) {
        var a', b' := [s[0]] + a, [s[0]] + b;
        assert a'[0] == b'[0] && a'[1..] == a && b'[1..] == b;
      } else if q(s[0]) {
        var b' := [s[0]] + b;
        assert b' != [] && b'[1..] == b;
      }
    }
  }

  lemma {:induction false} FilterAppend<T>(a: seq<T>, b: seq<T>, keep: T -> bool)
    ensures Filter(a + b, keep) == Filter(a, keep) + Filter(b, keep)
  {
    if a == [] {
      assert a + b == b;
    } else {
      assert (a + b)[0] == a[0] && (a + b)[1..] == a[1..] + b;
      FilterAppend(a[1..], b, keep);
    }
  }

  lemma {:induction false} FilterKeepsDistinctBy<T, K>(s: seq<T>, keep: T -> bool, key: T -> K)
    requires DistinctBy(s, key)
    ensures DistinctBy(Filter(s, keep), key)
  {
    if s != [] {
      FilterKeepsDistinctBy(s[1..], keep, key);
      if keep(s[0]) {
        var f := Filter(s[1..], keep);
        forall j | 0 <= j < |f|
          ensures key(s[0]) != key(f[j])
        {
          assert f[j] in s[1..];
          var m :| 0 <= m < |s[1..]| && s[1..][m] == f[j];
          assert s[m + 1] == f[j];
        }
        var r := [s[0]] + f;
        forall i, j | 0 <= i < j < |r|
          ensures key(r[i]) != key(r[j])
        {
          if i > 0 {
            assert r[i] == f[i - 1] && r[j] == f[j - 1];
          }
        }
      }
    }
  }

  /** The position of the first occurrence of `x` in `s`. */
  function IndexOf<T(==)>(s: seq<T>, x: T): (i: nat)
    requires x in s
    ensures i < |s| && s[i] == x && x !in s[..i]
  {
    if s[0] == x then 0
    else
      var j := IndexOf(s[1..], x);
      assert s[..j + 1] == [s[0]] + s[1..][..j];
      j + 1
  }

  lemma IndexOfUnique<T>(s: seq<T>, x: T, i: nat)
    requires i < |s| && s[i] == x && x !in s[..i]
    ensures IndexOf(s, x) == i
  {
    var k := IndexOf(s, x);
    forall m | 0 <= m < i
      ensures s[m] != x
    {
      assert s[..i][m] == s[m];
    }
    forall m | 0 <= m < k
      ensures s[m] != x
    {
      assert s[..k][m] == s[m];
    }
  }

  lemma IndexOfAppend<T>(p: seq<T>, q: seq<T>)
    ensures forall y :: y in p ==> IndexOf(p + q, y) == IndexOf(p, y)
  {
    forall y | y in p
      ensures IndexOf(p + q, y) == IndexOf(p, y)
    {
      var i := IndexOf(p, y);
      assert (p + q)[..i] == p[..i];
      IndexOfUnique(p + q, y, i);
    }
  }

  /** `[...new Set(s)]`: each element once, in the order of first occurrence. */
  function Dedup<T(==)>(s: seq<T>): (r: seq<T>)
    ensures Distinct(r)
    ensures forall x :: x in r ==> x in s
    ensures forall x :: x in s ==> x in r
    ensures forall i, j :: 0 <= i < j < |r| ==> IndexOf(s, r[i]) < IndexOf(s, r[j])
  {
    if s == [] then []
    else
      var pre, x := s[..|s| - 1], s[|s| - 1];
      var d := Dedup(pre);
      assert s == pre + [x];
      IndexOfAppend(pre, [x]);
      if x in d then d
      else
        IndexOfUnique(s, x, |s| - 1);
        d + [x]
  }

  /** Sorted by `key`, largest first. */
  predicate SortedDesc<T>(s: seq<T>, key: T -> int) {
    forall i, j :: 0 <= i < j < |s| ==> key(s[i]) >= key(s[j])
  }

  function HasKey<T>(key: T -> int, k: int): T -> bool {
    x => key(x) == k
  }

  lemma SortedTail<T>(s: seq<T>, key: T -> int)
    requires s != [] && SortedDesc(s, key)
    ensures SortedDesc(s[1..], key)
  {
    forall i, j | 0 <= i < j < |s[1..]|
      ensures key(s[1..][i]) >= key(s[1..][j])
    {
      assert s[1..][i] == s[i + 1] && s[1..][j] == s[j + 1];
    }
  }

  lemma ConsSorted<T>(h: T, t: seq<T>, key: T -> int)
    requires SortedDesc(t, key) && (t != [] ==> key(h) >= key(t[0]))
    ensures SortedDesc([h] + t, key)
  {
    var r := [h] + t;
    forall i, j | 0 <= i < j < |r|
      ensures key(r[i]) >= key(r[j])
    {
      assert r[j] == t[j - 1];
      if i == 0 {
        assert key(t[0]) >= key(t[j - 1]);
      } else {
        assert r[i] == t[i - 1];
      }
    }
  }

  /** Inserts `x` after every element whose key is at least `x`'s. */
  function InsertDesc<T(==)>(x: T, s: seq<T>, key: T -> int): (r: seq<T>)
    requires SortedDesc(s, key)
    ensures SortedDesc(r, key)
    ensures multiset(r) == multiset(s) + multiset{x}
    ensures r != [] && (r[0] == x || (s != [] && r[0] == s[0]))
  {
    if s == [] then [x]
    else if key(s[0]) >= key(x) then
      SortedTail(s, key);
      var t := InsertDesc(x, s[1..], key);
      assert t[0] == x || (s[1..] != [] && t[0] == s[1]);
      ConsSorted(s[0], t, key);
      ConsMultiset(s, t, x);
      [s[0]] + t
    else
      ConsSorted(x, s, key);
      [x] + s
  }

  /** `filter` on a list with a first element. */
  lemma FilterCons<T>(h: T, t: seq<T>, keep: T -> bool)
    ensures Filter([h] + t, keep) == (if keep(h) then [h] else []) + Filter(t, keep)
  {
    var r := [h] + t;
    assert r[0] == h && r[1..] == t;
  }

  lemma {:induction false} InsertDescByKey<T>(x: T, s: seq<T>, key: T -> int, k: int)
    requires SortedDesc(s, key)
    ensures Filter(InsertDesc(x, s, key), HasKey(key, k))
         == Filter(s, HasKey(key, k)) + (if key(x) == k then [x] else [])
    decreases |s|
  {
    if s == [] {
      FilterCons(x, [], HasKey(key, k));
    } else if key(s[0]) >= key(x) {
      SortedTail(s, key);
      InsertDescByKey(x, s[1..], key, k);
      InsertBehindHead(x, s, key, k);
    } else {
      InsertAtFront(x, s, key, k);
    }
  }

  /** The step of `InsertDescByKey` where `x` goes behind the head. */
  lemma InsertBehindHead<T>(x: T, s: seq<T>, key: T -> int, k: int)
    requires SortedDesc(s, key) && s != [] && key(s[0]) >= key(x)
    requires SortedDesc(s[1..], key)
    requires Filter(InsertDesc(x, s[1..], key), HasKey(key, k))
          == Filter(s[1..], HasKey(key, k)) + (if key(x) == k then [x] else [])
    ensures Filter(InsertDesc(x, s, key), HasKey(key, k))
         == Filter(s, HasKey(key, k)) + (if key(x) == k then [x] else [])
  {
    var p := HasKey(key, k);
    var last: seq<T> := if key(x) == k then [x] else [];
    var first: seq<T> := if p(s[0]) then [s[0]] else [];
    var t := InsertDesc(x, s[1..], key);
    FilterCons(s[0], t, p);
    FilterCons(s[0], s[1..], p);
    ConcatAssoc(first, Filter(s[1..], p), last);
    calc {
      Filter(InsertDesc(x, s, key), p);
      Filter([s[0]] + t, p);
      first + Filter(t, p);
      first + (Filter(s[1..], p) + last);
      (first + Filter(s[1..], p)) + last;
      Filter([s[0]] + s[1..], p) + last;
      { HeadTail(s); }
      Filter(s, p) + last;
    }
  }

  lemma ConsMultiset<T>(s: seq<T>, t: seq<T>, x: T)
    requires s != [] && multiset(t) == multiset(s[1..]) + multiset{x}
    ensures multiset([s[0]] + t) == multiset(s) + multiset{x}
  {
    HeadTail(s);
    assert multiset(s) == multiset([s[0]]) + multiset(s[1..]);
  }

  lemma HeadTail<T>(s: seq<T>)
    requires s != []
    ensures [s[0]] + s[1..] == s
  {
  }

  lemma ConcatAssoc<T>(a: seq<T>, b: seq<T>, c: seq<T>)
    ensures a + (b + c) == (a + b) + c
  {
  }

  lemma InsertAtFront<T>(x: T, s: seq<T>, key: T -> int, k: int)
    requires SortedDesc(s, key) && s != [] && key(s[0]) < key(x)
    ensures Filter([x] + s, HasKey(key, k)) == Filter(s, HasKey(key, k)) + (if key(x) == k then [x] else [])
  {
    FilterCons(x, s, HasKey(key, k));
    if key(x) == k {
      forall y | y in s
        ensures key(y) != k
      {
        var m :| 0 <= m < |s| && s[m] == y;
        assert key(s[0]) >= key(s[m]);
      }
      FilterKeepsNone(s, HasKey(key, k));
    }
  }

  lemma {:induction false} InsertDescKeepsDistinct<T>(x: T, s: seq<T>, key: T -> int)
    requires SortedDesc(s, key) && Distinct(s) && x !in s
    ensures Distinct(InsertDesc(x, s, key))
  {
    if s != [] && key(s[0]) >= key(x) {
      InsertDescKeepsDistinct(x, s[1..], key);
      var t := InsertDesc(x, s[1..], key);
      forall m | 0 <= m < |s[1..]|
        ensures s[1..][m] != s[0]
      {
        assert s[1..][m] == s[m + 1];
      }
      assert s[0] !in multiset(t);
      var r := [s[0]] + t;
      forall i, j | 0 <= i < j < |r|
        ensures r[i] != r[j]
      {
        assert r[j] == t[j - 1];
        if i > 0 {
          assert r[i] == t[i - 1];
        }
      }
    }
  }

  lemma SortStep<T>(r: seq<T>, pre: seq<T>, x: T, key: T -> int)
    requires SortedDesc(r, key)
    requires forall k :: Filter(r, HasKey(key, k)) == Filter(pre, HasKey(key, k))
    ensures forall k :: Filter(InsertDesc(x, r, key), HasKey(key, k)) == Filter(pre + [x], HasKey(key, k))
  {
    forall k
      ensures Filter(InsertDesc(x, r, key), HasKey(key, k)) == Filter(pre + [x], HasKey(key, k))
    {
      InsertDescByKey(x, r, key, k);
      FilterAppend(pre, [x], HasKey(key, k));
      assert [x][1..] == [];
    }
  }

  /** The stable sort `s.sort((a, b) => key(b) - key(a))`: sorted by `key`,
      largest first, a permutation of `s`, and elements with equal keys keep
      their order in `s`. */
  function SortDesc<T(==)>(s: seq<T>, key: T -> int): (r: seq<T>)
    ensures SortedDesc(r, key)
    ensures multiset(r) == multiset(s)
    ensures forall k :: Filter(r, HasKey(key, k)) == Filter(s, HasKey(key, k))
  {
    if s == [] then []
    else
      var pre, x := s[..|s| - 1], s[|s| - 1];
      var r := SortDesc(pre, key);
      assert s == pre + [x];
      SortStep(r, pre, x, key);
      InsertDesc(x, r, key)
  }

  lemma {:induction false} SortDescKeepsDistinct<T>(s: seq<T>, key: T -> int)
    requires Distinct(s)
    ensures Distinct(SortDesc(s, key))
  {
    if s != [] {
      var pre, x := s[..|s| - 1], s[|s| - 1];
      SortDescKeepsDistinct(pre, key);
      var r := SortDesc(pre, key);
      forall m | 0 <= m < |pre|
        ensures pre[m] != x
      {
        assert pre[m] == s[m];
      }
      assert x !in multiset(r);
      InsertDescKeepsDistinct(x, r, key);
    }
  }

  /** Being sorted and stable determines the order completely, so every stable
      sort of the same input gives the same sequence. */
  lemma {:induction false} SortedStableUnique<T>(a: seq<T>, b: seq<T>, key: T -> int)
    requires SortedDesc(a, key) && SortedDesc(b, key)
    requires forall k :: Filter(a, HasKey(key, k)) == Filter(b, HasKey(key, k))
    ensures a == b
    decreases |a|
  {
    NonEmptyTogether(a, b, key);
    if a != [] {
      SameHead(a, b, key);
      SortedTail(a, key);
      SortedTail(b, key);
      SortedStableUnique(a[1..], b[1..], key);
      HeadTail(a);
      HeadTail(b);
    }
  }

  lemma NonEmptyTogether<T>(a: seq<T>, b: seq<T>, key: T -> int)
    requires forall k :: Filter(a, HasKey(key, k)) == Filter(b, HasKey(key, k))
    ensures a != [] <==> b != []
  {
    if a != [] {
      assert a[0] in Filter(a, HasKey(key, key(a[0])));
      assert Filter(a, HasKey(key, key(a[0]))) == Filter(b, HasKey(key, key(a[0])));
    }
    if b != [] {
      assert b[0] in Filter(b, HasKey(key, key(b[0])));
      assert Filter(a, HasKey(key, key(b[0]))) == Filter(b, HasKey(key, key(b[0])));
    }
  }

  /** Two sorted lists with the same per-key order start with the same element,
      and their tails again have the same per-key order. */
  lemma SameHead<T>(a: seq<T>, b: seq<T>, key: T -> int)
    requires a != [] && b != [] && SortedDesc(a, key) && SortedDesc(b, key)
    requires forall k :: Filter(a, HasKey(key, k)) == Filter(b, HasKey(key, k))
    ensures a[0] == b[0]
    ensures forall k :: Filter(a[1..], HasKey(key, k)) == Filter(b[1..], HasKey(key, k))
  {
    var ka, kb := key(a[0]), key(b[0]);
    assert ka == kb by {
      assert b[0] in Filter(b, HasKey(key, kb));
      assert b[0] in Filter(a, HasKey(key, kb));
      assert a[0] in Filter(a, HasKey(key, ka));
      assert a[0] in Filter(b, HasKey(key, ka));
      var m :| 0 <= m < |a| && a[m] == b[0];
      var n :| 0 <= n < |b| && b[n] == a[0];
      assert key(a[0]) >= key(a[m]);
      assert key(b[0]) >= key(b[n]);
    }
    HeadTail(a);
    HeadTail(b);
    forall k
      ensures Filter(a[1..], HasKey(key, k)) == Filter(b[1..], HasKey(key, k))
    {
      FilterCons(a[0], a[1..], HasKey(key, k));
      FilterCons(b[0], b[1..], HasKey(key, k));
      assert Filter(a, HasKey(key, k)) == Filter(b, HasKey(key, k));
    }
    FilterCons(a[0], a[1..], HasKey(key, ka));
    FilterCons(b[0], b[1..], HasKey(key, ka));
    assert Filter(a, HasKey(key, ka)) == Filter(b, HasKey(key, ka));
    assert Filter(a, HasKey(key, ka))[0] == a[0];
  }
}
