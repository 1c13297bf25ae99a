/** Sequence helpers standing for JavaScript's `Array.prototype.filter`,
    `findIndex` and for order-preserving subsequences. */
module Seqs {
  import opened Wrappers

  /** `s.filter(p)`: the elements of `s` satisfying `p`, in their order. */
  function Filter<T(!new)>(s: seq<T>, p: T -> bool): (r: seq<T>)
    ensures |r| <= |s|
    decreases |s|
  {
    if s == [] then []
    else Filter(s[..|s| - 1], p) + (if p(s[|s| - 1]) then [s[|s| - 1]] else [])
  }

  /** A filter keeps exactly the elements satisfying the predicate. */
  lemma {:induction false} FilterMembers<T(!new)>(s: seq<T>, p: T -> bool)
    ensures forall x :: x in Filter(s, p) <==> x in s && p(x)
    decreases |s|
  {
    if s != [] {
      assert s == s[..|s| - 1] + [s[|s| - 1]];
      FilterMembers(s[..|s| - 1], p);
    }
  }

  /** `s.findIndex(p)`: the first index whose element satisfies `p`, or -1. */
  function FindIndex<T>(s: seq<T>, p: T -> bool): (r: int)
    ensures -1 <= r < |s|
    ensures r >= 0 ==> p(s[r])
    ensures forall j :: 0 <= j < |s| && (r < 0 || j < r) ==> !p(s[j])
    decreases |s|
  {
    if s == [] then -1
    else if p(s[0]) then 0
    else var k := FindIndex(s[1..], p); if k < 0 then -1 else k + 1
  }

  /** `a` is obtained from `b` by deleting elements: an order-preserving subsequence. */
  predicate IsSubsequence<T(==)>(a: seq<T>, b: seq<T>)
    decreases |b|
  {
    if a == [] then true
    else if b == [] then false
    else if a[|a| - 1] == b[|b| - 1] then IsSubsequence(a[..|a| - 1], b[..|b| - 1])
    else IsSubsequence(a, b[..|b| - 1])
  }

  /** Appending to the longer sequence keeps a subsequence. */
  lemma {:induction false} SubsequenceExtend<T>(a: seq<T>, b: seq<T>, x: T)
    requires IsSubsequence(a, b)
    ensures IsSubsequence(a, b + [x])
    decreases |b|, 1
  {
    var b' := b + [x];
    assert b'[..|b'| - 1] == b;
    if a != [] && a[|a| - 1] == x {
      SubsequenceDropLast(a, b);
    }
  }

  /** Dropping the last element of the shorter sequence keeps a subsequence. */
  lemma {:induction false} SubsequenceDropLast<T>(a: seq<T>, b: seq<T>)
    requires a != [] && IsSubsequence(a, b)
    ensures IsSubsequence(a[..|a| - 1], b)
    decreases |b|, 0
  {
    var a', b' := a[..|a| - 1], b[..|b| - 1];
    assert b == b' + [b[|b| - 1]];
    if a[|a| - 1] == b[|b| - 1] {
      SubsequenceExtend(a', b', b[|b| - 1]);
    } else {
      SubsequenceDropLast(a, b');
      SubsequenceExtend(a', b', b[|b| - 1]);
    }
  }

  /** Every sequence is a subsequence of itself. */
  lemma {:induction false} SubsequenceRefl<T>(a: seq<T>)
    ensures IsSubsequence(a, a)
    decreases |a|
  {
    if a != [] {
      SubsequenceRefl(a[..|a| - 1]);
    }
  }

  /** Being a subsequence is transitive. */
  lemma {:induction false} SubsequenceTrans<T>(a: seq<T>, b: seq<T>, c: seq<T>)
    requires IsSubsequence(a, b) && IsSubsequence(b, c)
    ensures IsSubsequence(a, c)
    decreases |c|
  {
    if a != [] {
      var c' := c[..|c| - 1];
      assert c == c' + [c[|c| - 1]];
      if b[|b| - 1] == c[|c| - 1] {
        if a[|a| - 1] == b[|b| - 1] {
          SubsequenceTrans(a[..|a| - 1], b[..|b| - 1], c');
        } else {
          SubsequenceTrans(a, b[..|b| - 1], c');
          SubsequenceExtend(a, c', c[|c| - 1]);
        }
      } else {
        SubsequenceTrans(a, b, c');
        SubsequenceExtend(a, c', c[|c| - 1]);
      }
    }
  }

  /** A filter keeps the order of the elements it keeps. */
  lemma {:induction false} FilterIsSubsequence<T(!new)>(s: seq<T>, p: T -> bool)
    ensures IsSubsequence(Filter(s, p), s)
    decreases |s|
  {
    if s != [] {
      var init, last := s[..|s| - 1], s[|s| - 1];
      assert s == init + [last];
      FilterIsSubsequence(init, p);
      if p(last) {
        var f := Filter(s, p);
        assert f[..|f| - 1] == Filter(init, p);
      } else {
        assert Filter(s, p) == Filter(init, p);
        SubsequenceExtend(Filter(init, p), init, last);
      }
    }
  }

  /** Filtering distributes over concatenation. */
  lemma {:induction false} FilterConcat<T(!new)>(a: seq<T>, b: seq<T>, p: T -> bool)
    ensures Filter(a + b, p) == Filter(a, p) + Filter(b, p)
    decreases |b|
  {
    if b != [] {
      var b' := b[..|b| - 1];
      assert (a + b)[..|a + b| - 1] == a + b';
      FilterConcat(a, b', p);
    } else {
      assert a + b == a;
    }
  }

  /** The sum of a sequence of integers. */
  function Sum(s: seq<int>): int
    decreases |s|
  {
    if s == [] then 0 else Sum(s[..|s| - 1]) + s[|s| - 1]
  }

  /** `s.map(f)`. */
  function Map<A, B>(s: seq<A>, f: A -> B): (r: seq<B>)
    ensures |r| == |s|
    ensures forall i :: 0 <= i < |s| ==> r[i] == f(s[i])
    decreases |s|
  {
    if s == [] then [] else Map(s[..|s| - 1], f) + [f(s[|s| - 1])]
  }

  /** The number of elements of `s` satisfying `p`. */
  function Count<T>(s: seq<T>, p: T -> bool): nat
    decreases |s|
  {
    if s == [] then 0 else Count(s[..|s| - 1], p) + (if p(s[|s| - 1]) then 1 else 0)
  }

  /** The position of the first occurrence of `x` in `s`, or -1. */
  function IndexOf<T(==)>(s: seq<T>, x: T): (r: int)
    ensures -1 <= r < |s|
    ensures r >= 0 ==> s[r] == x && x !in s[..r]
    ensures r < 0 <==> x !in s
    decreases |s|
  {
    if s == [] then -1
    else if x in s[..|s| - 1] then IndexOf(s[..|s| - 1], x)
    else if s[|s| - 1] == x then |s| - 1
    else -1
  }

  /** No element occurs twice. */
  predicate Distinct<T(==)>(s: seq<T>) {
    forall i, j :: 0 <= i < j < |s| ==> s[i] != s[j]
  }

  /** `Array.from(new Set(s))`: the distinct elements of `s`, in the order of their
      first occurrence. */
  function Dedup<T(==)>(s: seq<T>): (r: seq<T>)
    decreases |s|
  {
    if s == [] then []
    else
      var init := Dedup(s[..|s| - 1]);
      if s[|s| - 1] in init then init else init + [s[|s| - 1]]
  }

  /** `Dedup` keeps exactly the elements of `s`, each once, ordered by first occurrence. */
  lemma {:induction false} DedupSpec<T>(s: seq<T>)
    ensures forall x :: x in Dedup(s) <==> x in s
    ensures Distinct(Dedup(s))
    ensures forall i, j :: 0 <= i < j < |Dedup(s)| ==> IndexOf(s, Dedup(s)[i]) < IndexOf(s, Dedup(s)[j])
    decreases |s|
  {
    if s != [] {
      var init, last := s[..|s| - 1], s[|s| - 1];
      assert s == init + [last];
      DedupSpec(init);
      var d := Dedup(init);
      forall x | x in init
        ensures IndexOf(s, x) == IndexOf(init, x)
      {
      }
      if last !in d {
        var r := d + [last];
        forall i, j | 0 <= i < j < |r|
          ensures IndexOf(s, r[i]) < IndexOf(s, r[j])
        {
          if j == |d| {
            assert r[i] == d[i] && d[i] in d;
            assert IndexOf(s, r[j]) == |s| - 1;
          } else {
            assert r[i] == d[i] && r[j] == d[j];
          }
        }
      }
    }
  }

  /** Insertion of `x` into a key-sorted sequence, after every element whose key is not
      larger (so that equal keys keep their arrival order). */
  function Insert<T>(sorted: seq<T>, x: T, key: T -> int): (r: seq<T>)
    ensures |r| == |sorted| + 1
    decreases |sorted|
  {
    if sorted == [] || key(sorted[|sorted| - 1]) <= key(x) then sorted + [x]
    else
      var init, last := sorted[..|sorted| - 1], sorted[|sorted| - 1];
      assert sorted == init + [last];
      Insert(init, x, key) + [last]
  }

  /** `[...s].sort((a, b) => key(a) - key(b))`: JavaScript's sort is stable, so this is
      the stable sort of `s` by `key`. */
  function SortBy<T>(s: seq<T>, key: T -> int): (r: seq<T>)
    ensures |r| == |s|
    decreases |s|
  {
    if s == [] then [] else Insert(SortBy(s[..|s| - 1], key), s[|s| - 1], key)
  }

  lemma {:induction false} InsertPermutes<T>(sorted: seq<T>, x: T, key: T -> int)
    ensures multiset(Insert(sorted, x, key)) == multiset(sorted) + multiset{x}
    decreases |sorted|
  {
    if !(sorted == [] || key(sorted[|sorted| - 1]) <= key(x)) {
      var init, last := sorted[..|sorted| - 1], sorted[|sorted| - 1];
      assert sorted == init + [last];
      InsertPermutes(init, x, key);
    }
  }

  /** `SortBy` only reorders. */
  lemma {:induction false} SortByPermutes<T>(s: seq<T>, key: T -> int)
    ensures multiset(SortBy(s, key)) == multiset(s)
    decreases |s|
  {
    if s != [] {
      assert s == s[..|s| - 1] + [s[|s| - 1]];
      SortByPermutes(s[..|s| - 1], key);
      InsertPermutes(SortBy(s[..|s| - 1], key), s[|s| - 1], key);
    }
  }

  predicate SortedBy<T>(s: seq<T>, key: T -> int) {
    forall i, j :: 0 <= i < j < |s| ==> key(s[i]) <= key(s[j])
  }

  /** The elements whose key is `k`. */
  function KeyIs<T>(key: T -> int, k: int): T -> bool {
    x => key(x) == k
  }

  lemma {:induction false} InsertSorted<T>(sorted: seq<T>, x: T, key: T -> int)
    requires SortedBy(sorted, key)
    ensures SortedBy(Insert(sorted, x, key), key)
    decreases |sorted|
  {
    var r := Insert(sorted, x, key);
    if sorted == [] || key(sorted[|sorted| - 1]) <= key(x) {
      assert r == sorted + [x];
      forall i, j | 0 <= i < j < |r|
        ensures key(r[i]) <= key(r[j])
      {
        if j == |sorted| {
          assert key(sorted[i]) <= key(sorted[|sorted| - 1]);
        }
      }
    } else {
      var init, last := sorted[..|sorted| - 1], sorted[|sorted| - 1];
      assert sorted == init + [last];
      InsertSorted(init, x, key);
      InsertBounded(init, x, key, key(last));
      var r' := Insert(init, x, key);
      assert r == r' + [last];
      forall i, j | 0 <= i < j < |r|
        ensures key(r[i]) <= key(r[j])
      {
        if j < |r'| {
          assert r[i] == r'[i] && r[j] == r'[j];
        }
      }
    }
  }

  /** A bound on the keys of a sequence and of `x` bounds the keys after insertion. */
  lemma {:induction false} InsertBounded<T>(sorted: seq<T>, x: T, key: T -> int, b: int)
    requires forall i :: 0 <= i < |sorted| ==> key(sorted[i]) <= b
    requires key(x) <= b
    ensures forall i :: 0 <= i < |Insert(sorted, x, key)| ==> key(Insert(sorted, x, key)[i]) <= b
    decreases |sorted|
  {
    if !(sorted == [] || key(sorted[|sorted| - 1]) <= key(x)) {
      var init, last := sorted[..|sorted| - 1], sorted[|sorted| - 1];
      InsertBounded(init, x, key, b);
      var r' := Insert(init, x, key);
      assert Insert(sorted, x, key) == r' + [last];
    }
  }

  /** Filtering a sequence extended by one element. */
  lemma FilterSnoc<T(!new)>(s: seq<T>, x: T, p: T -> bool)
    ensures Filter(s + [x], p) == Filter(s, p) + (if p(x) then [x] else [])
  {
    assert (s + [x])[..|s + [x]| - 1] == s;
  }

  /** A prefix one longer is the prefix with the next element appended. */
  lemma PrefixSnoc<T>(s: seq<T>, i: nat)
    requires i < |s|
    ensures s[..i + 1] == s[..i] + [s[i]]
  {
  }

  /** Filtering one element more of a sequence's prefix. */
  lemma FilterPrefixSnoc<T(!new)>(s: seq<T>, i: nat, p: T -> bool)
    requires i < |s|
    ensures Filter(s[..i + 1], p) == Filter(s[..i], p) + (if p(s[i]) then [s[i]] else [])
  {
    PrefixSnoc(s, i);
    FilterSnoc(s[..i], s[i], p);
  }

  /** Inserting `x` appends it to the elements of its own key and leaves the others. */
  lemma {:induction false} InsertFilter<T(!new)>(sorted: seq<T>, x: T, key: T -> int, k: int)
    ensures Filter(Insert(sorted, x, key), KeyIs(key, k))
      == Filter(sorted, KeyIs(key, k)) + (if key(x) == k then [x] else [])
    decreases |sorted|
  {
    var p := KeyIs(key, k);
    assert p(x) == (key(x) == k);
    if sorted == [] || key(sorted[|sorted| - 1]) <= key(x) {
      FilterSnoc(sorted, x, p);
    } else {
      var init, last := sorted[..|sorted| - 1], sorted[|sorted| - 1];
      assert sorted == init + [last];
      assert p(last) == (key(last) == k);
      assert Insert(sorted, x, key) == Insert(init, x, key) + [last];
      InsertFilter(init, x, key, k);
      FilterSnoc(Insert(init, x, key), last, p);
      FilterSnoc(init, last, p);
    }
  }

  /** `SortBy` sorts, and it is stable: the elements of each key keep their order. */
  lemma {:induction false} SortByStable<T(!new)>(s: seq<T>, key: T -> int)
    ensures SortedBy(SortBy(s, key), key)
    ensures forall k :: Filter(SortBy(s, key), KeyIs(key, k)) == Filter(s, KeyIs(key, k))
    decreases |s|
  {
    if s != [] {
      var init, last := s[..|s| - 1], s[|s| - 1];
      SortByStable(init, key);
      InsertSorted(SortBy(init, key), last, key);
      forall k
        ensures Filter(SortBy(s, key), KeyIs(key, k)) == Filter(s, KeyIs(key, k))
      {
        InsertFilter(SortBy(init, key), last, key, k);
      }
    }
  }

  /** `f` applied to every element in order, as a loop that pushes each result: the first
      element whose result is an error makes the whole run fail with that error. */
  function MapAll<A, B>(s: seq<A>, f: A -> Result<B>): Result<seq<B>>
    decreases |s|
  {
    if s == [] then Ok([])
    else
      var init := MapAll(s[..|s| - 1], f);
      if init.Throws? then init
      else
        var last := f(s[|s| - 1]);
        if last.Throws? then Throws(last.reason) else Ok(init.value + [last.value])
  }

  /** The run succeeds exactly when every element does, and then holds each element's
      result at the element's position. */
  lemma {:induction false} MapAllSpec<A, B>(s: seq<A>, f: A -> Result<B>)
    ensures MapAll(s, f).Ok? <==> forall i :: 0 <= i < |s| ==> f(s[i]).Ok?
    ensures MapAll(s, f).Ok? ==>
              |MapAll(s, f).value| == |s|
              && forall i :: 0 <= i < |s| ==> MapAll(s, f).value[i] == f(s[i]).value
    decreases |s|
  {
    if s != [] {
      var init := s[..|s| - 1];
      MapAllSpec(init, f);
      assert forall i :: 0 <= i < |init| ==> init[i] == s[i];
    }
  }

  lemma MapAllSnoc<A, B>(s: seq<A>, f: A -> Result<B>, i: nat)
    requires i < |s| && MapAll(s[..i], f).Ok? && f(s[i]).Ok?
    ensures MapAll(s[..i + 1], f) == Ok(MapAll(s[..i], f).value + [f(s[i]).value])
  {
    assert s[..i + 1][..i] == s[..i];
  }

  /** Once element `i` fails after a successful prefix, the whole run fails with its error. */
  lemma {:induction false} MapAllThrows<A, B>(s: seq<A>, f: A -> Result<B>, i: nat)
    requires i < |s| && MapAll(s[..i], f).Ok? && f(s[i]).Throws?
    ensures MapAll(s, f) == Throws(f(s[i]).reason)
    decreases |s|
  {
    if i < |s| - 1 {
      var init := s[..|s| - 1];
      assert init[..i] == s[..i] && init[i] == s[i];
      MapAllThrows(init, f, i);
    } else {
      assert s[..i] == s[..|s| - 1];
    }
  }

  /** `f` tells the elements of `s` apart by position: no two positions share a value of `f`. */
  predicate Injective<T, K(==)>(s: seq<T>, f: T -> K) {
    forall i, j :: 0 <= i < j < |s| ==> f(s[i]) != f(s[j])
  }

  /** Two different members of a sequence on which `f` is injective have different images. */
  lemma InjectiveMembers<T, K>(s: seq<T>, f: T -> K, x: T, y: T)
    requires Injective(s, f) && x in s && y in s && x != y
    ensures f(x) != f(y)
  {
    var a :| 0 <= a < |s| && s[a] == x;
    var b :| 0 <= b < |s| && s[b] == y;
    if a > b {
      assert f(s[b]) != f(s[a]);
    }
  }

  /** A filter keeps injectivity. */
  lemma {:induction false} FilterInjective<T(!new), K>(s: seq<T>, p: T -> bool, f: T -> K)
    requires Injective(s, f)
    ensures Injective(Filter(s, p), f)
    decreases |s|
  {
    if s != [] {
      var init, last := s[..|s| - 1], s[|s| - 1];
      assert Injective(init, f);
      FilterInjective(init, p, f);
      FilterMembers(init, p);
      var r := Filter(s, p);
      var r' := Filter(init, p);
      if p(last) {
        forall i, j | 0 <= i < j < |r|
          ensures f(r[i]) != f(r[j])
        {
          if j == |r'| {
            assert r[i] == r'[i] && r'[i] in init;
            var k :| 0 <= k < |init| && init[k] == r'[i];
            assert s[k] == r'[i];
          } else {
            assert r[i] == r'[i] && r[j] == r'[j];
          }
        }
      }
    }
  }

  /** A value occurring twice in the multiset of `s` occurs at two positions. */
  lemma TwoOccurrences<T>(s: seq<T>, x: T)
    requires multiset(s)[x] >= 2
    ensures exists i, j :: 0 <= i < j < |s| && s[i] == x && s[j] == x
  {
    assert x in multiset(s);
    var i :| 0 <= i < |s| && s[i] == x;
    assert s == s[..i] + [s[i]] + s[i + 1..];
    if x in s[i + 1..] {
      var k :| 0 <= k < |s[i + 1..]| && s[i + 1..][k] == x;
      assert s[i + 1 + k] == x;
    } else {
      assert multiset(s[i + 1..])[x] == 0;
      assert x in multiset(s[..i]);
      var k :| 0 <= k < i && s[..i][k] == x;
      assert s[k] == x;
    }
  }

  /** Reordering keeps injectivity. */
  lemma InjectivePermutation<T, K>(a: seq<T>, b: seq<T>, f: T -> K)
    requires multiset(a) == multiset(b) && Injective(b, f)
    ensures Injective(a, f)
  {
    forall i, j | 0 <= i < j < |a|
      ensures f(a[i]) != f(a[j])
    {
      if a[i] == a[j] {
        assert a == a[..j] + a[j..];
        assert multiset(a) == multiset(a[..j]) + multiset(a[j..]);
        assert a[..j][i] == a[i] && a[j..][0] == a[j];
        assert a[i] in multiset(a[..j]) && a[j] in multiset(a[j..]);
        TwoOccurrences(b, a[i]);
      } else {
        assert a[i] in multiset(b) && a[j] in multiset(b);
      }
    }
  }

  /** A filter keeps as many elements as satisfy the predicate. */
  lemma {:induction false} FilterCount<T(!new)>(s: seq<T>, p: T -> bool)
    ensures |Filter(s, p)| == Count(s, p)
    decreases |s|
  {
    if s != [] {
      FilterCount(s[..|s| - 1], p);
    }
  }

  /** The complement of a predicate. */
  function Not<T>(p: T -> bool): T -> bool {
    x => !p(x)
  }

  /** A filter and its complement split a sequence's elements between them. */
  lemma {:induction false} FilterSplit<T(!new)>(s: seq<T>, p: T -> bool)
    ensures multiset(Filter(s, p)) + multiset(Filter(s, Not(p))) == multiset(s)
    decreases |s|
  {
    if s != [] {
      assert s == s[..|s| - 1] + [s[|s| - 1]];
      FilterSplit(s[..|s| - 1], p);
    }
  }

  /** The sum of a concatenation. */
  lemma {:induction false} SumConcat(a: seq<int>, b: seq<int>)
    ensures Sum(a + b) == Sum(a) + Sum(b)
    decreases |b|
  {
    if b != [] {
      var c := a + b;
      assert c[..|c| - 1] == a + b[..|b| - 1];
      assert c[|c| - 1] == b[|b| - 1];
      assert Sum(c) == Sum(c[..|c| - 1]) + c[|c| - 1];
      SumConcat(a, b[..|b| - 1]);
    } else {
      assert a + b == a;
    }
  }

  /** Mapping one more element of a sequence. */
  lemma MapSnoc<A, B>(s: seq<A>, i: nat, f: A -> B)
    requires i < |s|
    ensures Map(s[..i + 1], f) == Map(s[..i], f) + [f(s[i])]
  {
    assert s[..i + 1][..i] == s[..i];
  }

  /** Mapping distributes over concatenation. */
  lemma MapConcat<A, B>(a: seq<A>, b: seq<A>, f: A -> B)
    ensures Map(a + b, f) == Map(a, f) + Map(b, f)
  {
  }

  /** Taking one element out of a sequence takes its value out of the sum. */
  lemma {:induction false} SumMapRemove<T>(b: seq<T>, i: nat, f: T -> int)
    requires i < |b|
    ensures Sum(Map(b, f)) == Sum(Map(b[..i] + b[i + 1..], f)) + f(b[i])
    decreases |b|
  {
    var init, last := b[..|b| - 1], b[|b| - 1];
    var m := Map(b, f);
    assert m[..|m| - 1] == Map(init, f);
    if i == |b| - 1 {
      assert b[..i] + b[i + 1..] == init;
    } else {
      SumMapRemove(init, i, f);
      var r := init[..i] + init[i + 1..];
      assert b[..i] + b[i + 1..] == r + [last];
      var mr := Map(r + [last], f);
      assert mr[..|mr| - 1] == Map(r, f);
    }
  }

  /** Taking one element out of a sequence takes it out of its multiset. */
  lemma MultisetRemove<T>(b: seq<T>, i: nat)
    requires i < |b|
    ensures multiset(b[..i] + b[i + 1..]) + multiset{b[i]} == multiset(b)
  {
    assert b == b[..i] + [b[i]] + b[i + 1..];
  }

  /** Removing the same element from two permutations of each other leaves permutations. */
  lemma PermutationRemove<T>(a: seq<T>, b: seq<T>, i: nat)
    requires multiset(a) == multiset(b) && a != [] && i < |b| && b[i] == a[|a| - 1]
    ensures multiset(b[..i] + b[i + 1..]) == multiset(a[..|a| - 1])
  {
    var init, x := a[..|a| - 1], a[|a| - 1];
    var rest := b[..i] + b[i + 1..];
    assert a == init + [x];
    MultisetRemove(b, i);
    assert multiset(a) == multiset(init) + multiset{x};
    forall y
      ensures multiset(rest)[y] == multiset(init)[y]
    {
      assert (multiset(rest) + multiset{x})[y] == (multiset(init) + multiset{x})[y];
    }
  }

  /** Summing a function over a sequence does not depend on the order of the elements. */
  lemma {:induction false} SumMapPermutation<T>(a: seq<T>, b: seq<T>, f: T -> int)
    requires multiset(a) == multiset(b)
    ensures Sum(Map(a, f)) == Sum(Map(b, f))
    decreases |a|
  {
    if a != [] {
      var init, x := a[..|a| - 1], a[|a| - 1];
      assert x in multiset(b);
      var i :| 0 <= i < |b| && b[i] == x;
      PermutationRemove(a, b, i);
      SumMapPermutation(init, b[..i] + b[i + 1..], f);
      SumMapRemove(b, i, f);
      assert Map(a, f)[..|a| - 1] == Map(init, f);
    }
  }

  /** A filter that every element passes keeps the whole sequence. */
  lemma {:induction false} FilterAllKept<T(!new)>(s: seq<T>, p: T -> bool)
    requires forall x :: x in s ==> p(x)
    ensures Filter(s, p) == s
    decreases |s|
  {
    if s != [] {
      assert s == s[..|s| - 1] + [s[|s| - 1]];
      FilterAllKept(s[..|s| - 1], p);
    }
  }

  /** A filter that no element passes keeps nothing. */
  lemma FilterNoneKept<T(!new)>(s: seq<T>, p: T -> bool)
    requires forall x :: x in s ==> !p(x)
    ensures Filter(s, p) == []
  {
    FilterMembers(s, p);
    if Filter(s, p) != [] {
      assert Filter(s, p)[0] in Filter(s, p);
    }
  }

  /** Raising a summed function by one at a single value `x` raises the sum by the
      number of occurrences of `x`. */
  lemma {:induction false} SumMapBump<T>(d: seq<T>, f: T -> int, g: T -> int, x: T)
    requires forall y :: g(y) == f(y) + (if y == x then 1 else 0)
    ensures Sum(Map(d, g)) == Sum(Map(d, f)) + multiset(d)[x]
    decreases |d|
  {
    if d != [] {
      var init, last := d[..|d| - 1], d[|d| - 1];
      assert d == init + [last];
      SumMapBump(init, f, g, x);
      assert Map(d, g)[..|d| - 1] == Map(init, g);
      assert Map(d, f)[..|d| - 1] == Map(init, f);
    }
  }

  /** In a sequence without repetitions, an element occurs exactly once. */
  lemma DistinctOnce<T>(d: seq<T>, x: T)
    requires Distinct(d) && x in d
    ensures multiset(d)[x] == 1
  {
    if multiset(d)[x] >= 2 {
      TwoOccurrences(d, x);
    }
  }

  /** A permutation of a sequence without repetitions has none. */
  lemma DistinctPermutation<T>(a: seq<T>, b: seq<T>)
    requires multiset(a) == multiset(b) && Distinct(b)
    ensures Distinct(a)
  {
    var id := (x: T) => x;
    assert Injective(b, id);
    InjectivePermutation(a, b, id);
    assert Injective(a, id);
  }

  /** The elements passing `p`, stably sorted by `key`, followed by the others in their
      order. */
  function SortedFirst<T(!new)>(s: seq<T>, p: T -> bool, key: T -> int): seq<T> {
    SortBy(Filter(s, p), key) + Filter(s, Not(p))
  }

  lemma SortedFirstPermutes<T(!new)>(s: seq<T>, p: T -> bool, key: T -> int)
    ensures multiset(SortedFirst(s, p, key)) == multiset(s)
  {
    SortByPermutes(Filter(s, p), key);
    FilterSplit(s, p);
  }

  /** A sorted block of passing elements followed by failing ones has the passing
      elements first, in increasing key order. */
  lemma BlocksOrder<T>(sorted: seq<T>, b: seq<T>, p: T -> bool, key: T -> int)
    requires SortedBy(sorted, key)
    requires forall x :: x in sorted ==> p(x)
    requires forall x :: x in b ==> !p(x)
    ensures forall i, j :: 0 <= i < j < |sorted + b| && p((sorted + b)[j]) ==>
              p((sorted + b)[i]) && key((sorted + b)[i]) <= key((sorted + b)[j])
  {
    var r := sorted + b;
    forall k | |sorted| <= k < |r|
      ensures !p(r[k])
    {
      assert r[k] == b[k - |sorted|] && r[k] in b;
    }
    forall i, j | 0 <= i < j < |r| && p(r[j])
      ensures p(r[i]) && key(r[i]) <= key(r[j])
    {
      assert j < |sorted|;
      assert r[i] == sorted[i] && r[j] == sorted[j];
      assert r[i] in sorted;
    }
  }

  /** Sorting the elements that pass `p` leaves them all passing. */
  lemma SortByKeepsPassing<T(!new)>(s: seq<T>, p: T -> bool, key: T -> int)
    ensures forall x :: x in SortBy(Filter(s, p), key) ==> p(x)
  {
    SortByPermutes(Filter(s, p), key);
    FilterMembers(s, p);
    forall x | x in SortBy(Filter(s, p), key)
      ensures p(x)
    {
      assert x in multiset(Filter(s, p));
    }
  }

  /** Every element passing `p` comes before every other one, in increasing key order. */
  lemma SortedFirstOrder<T(!new)>(s: seq<T>, p: T -> bool, key: T -> int)
    ensures forall i, j :: 0 <= i < j < |SortedFirst(s, p, key)| && p(SortedFirst(s, p, key)[j]) ==>
              p(SortedFirst(s, p, key)[i]) && key(SortedFirst(s, p, key)[i]) <= key(SortedFirst(s, p, key)[j])
  {
    SortByStable(Filter(s, p), key);
    SortByKeepsPassing(s, p, key);
    FilterMembers(s, Not(p));
    BlocksOrder(SortBy(Filter(s, p), key), Filter(s, Not(p)), p, key);
  }

  /** The elements failing `p` keep their order. */
  lemma SortedFirstRest<T(!new)>(s: seq<T>, p: T -> bool, key: T -> int)
    ensures Filter(SortedFirst(s, p, key), Not(p)) == Filter(s, Not(p))
  {
    var a := Filter(s, p);
    var sorted := SortBy(a, key);
    var b := Filter(s, Not(p));
    SortByPermutes(a, key);
    FilterMembers(s, p);
    FilterMembers(s, Not(p));
    forall x | x in sorted
      ensures !Not(p)(x)
    {
      assert x in multiset(a);
    }
    FilterConcat(sorted, b, Not(p));
    FilterNoneKept(sorted, Not(p));
    FilterAllKept(b, Not(p));
  }

  /** `xs.forEach(x => m = f(m, x))` on a map: the steps applied to the elements in turn,
      from `m0`. */
  function FoldMap<K, V, A>(f: (map<K, V>, A) -> map<K, V>, m0: map<K, V>, xs: seq<A>): map<K, V>
    decreases |xs|
  {
    if xs == [] then m0 else f(FoldMap(f, m0, xs[..|xs| - 1]), xs[|xs| - 1])
  }

  /** A property every step preserves holds after the whole fold. */
  lemma {:induction false} FoldInvariant<K, V, A>(f: (map<K, V>, A) -> map<K, V>, inv: map<K, V> -> bool, m0: map<K, V>, xs: seq<A>)
    requires inv(m0)
    requires forall m: map<K, V>, x: A :: inv(m) ==> inv(f(m, x))
    ensures inv(FoldMap(f, m0, xs))
    decreases |xs|
  {
    if xs != [] {
      FoldInvariant(f, inv, m0, xs[..|xs| - 1]);
    }
  }

  /** Folding over `a + b` is folding over `b` from where folding over `a` ends. */
  lemma {:induction false} FoldAppend<K, V, A>(f: (map<K, V>, A) -> map<K, V>, m0: map<K, V>, a: seq<A>, b: seq<A>)
    ensures FoldMap(f, m0, a + b) == FoldMap(f, FoldMap(f, m0, a), b)
    decreases |b|
  {
    if b != [] {
      var n := |b| - 1;
      assert (a + b)[..|a + b| - 1] == a + b[..n];
      assert (a + b)[|a + b| - 1] == b[n];
      FoldAppend(f, m0, a, b[..n]);
    } else {
      assert a + b == a;
    }
  }

  /** A key that every step over `xs` leaves alone keeps its value through the fold. */
  lemma {:induction false} FoldKeepsKey<K, V, A>(f: (map<K, V>, A) -> map<K, V>, m0: map<K, V>, xs: seq<A>, k: K)
    requires k in m0
    requires forall i, m :: 0 <= i < |xs| && k in m ==> k in f(m, xs[i]) && f(m, xs[i])[k] == m[k]
    ensures k in FoldMap(f, m0, xs) && FoldMap(f, m0, xs)[k] == m0[k]
    decreases |xs|
  {
    if xs != [] {
      var n := |xs| - 1;
      var init := xs[..n];
      forall i, m | 0 <= i < |init| && k in m
        ensures k in f(m, init[i]) && f(m, init[i])[k] == m[k]
      {
        assert init[i] == xs[i];
      }
      FoldKeepsKey(f, m0, init, k);
      var before := FoldMap(f, m0, init);
      assert FoldMap(f, m0, xs) == f(before, xs[n]);
      assert k in f(before, xs[n]) && f(before, xs[n])[k] == before[k];
    }
  }

  /** When every step keeps the keys it is given and adds those of its element, the fold
      ends with the keys of every element. */
  lemma {:induction false} FoldKeys<K, V, A>(f: (map<K, V>, A) -> map<K, V>, m0: map<K, V>, xs: seq<A>, keys: A -> set<K>)
    requires forall m: map<K, V>, x: A :: m.Keys + keys(x) <= f(m, x).Keys
    ensures m0.Keys <= FoldMap(f, m0, xs).Keys
    ensures forall i :: 0 <= i < |xs| ==> keys(xs[i]) <= FoldMap(f, m0, xs).Keys
    decreases |xs|
  {
    if xs != [] {
      var n := |xs| - 1;
      var init := xs[..n];
      FoldKeys(f, m0, init, keys);
      var before := FoldMap(f, m0, init);
      assert FoldMap(f, m0, xs) == f(before, xs[n]);
      assert before.Keys + keys(xs[n]) <= f(before, xs[n]).Keys;
      forall i | 0 <= i < |xs|
        ensures keys(xs[i]) <= FoldMap(f, m0, xs).Keys
      {
        if i < n {
          assert init[i] == xs[i];
        }
      }
    }
  }
}
