/**
 * The lodash array helpers the table layer is written with — `sortBy` /
 * `orderBy` (stable ascending sorts), `uniqBy` (first occurrence wins),
 * `find`, `filter` — and `Array.from(new Set(xs))`, each with the contract
 * lodash documents.
 */
module Collections {
  import opened Values

  /** `le` orders keys totally and transitively, as `<=` on numbers and strings does. */
  ghost predicate TotalPreorder<K(!new)>(le: (K, K) -> bool) {
    && (forall a, b :: le(a, b) || le(b, a))
    && (forall a, b, c :: le(a, b) && le(b, c) ==> le(a, c))
  }

  ghost predicate SortedBy<T, K>(s: seq<T>, key: T -> K, le: (K, K) -> bool) {
    forall i, j :: 0 <= i < j < |s| ==> le(key(s[i]), key(s[j]))
  }

  /** Some element of `s` has key `k`. */
  predicate HasKey<T, K(==)>(s: seq<T>, key: T -> K, k: K) {
    s != [] && (key(s[0]) == k || HasKey(s[1..], key, k))
  }

  /** No key occurs twice in `s`. */
  predicate DistinctKeys<T, K(==)>(s: seq<T>, key: T -> K) {
    s == [] || (!HasKey(s[1..], key, key(s[0])) && DistinctKeys(s[1..], key))
  }

  lemma {:induction false} HasKeyAt<T, K>(s: seq<T>, key: T -> K, i: nat)
    requires i < |s|
    ensures HasKey(s, key, key(s[i]))
  {
    if i > 0 {
      HasKeyAt(s[1..], key, i - 1);
    }
  }

  /** Distinct keys, stated over positions. */
  lemma {:induction false} DistinctKeysAt<T, K>(s: seq<T>, key: T -> K, i: nat, j: nat)
    requires DistinctKeys(s, key) && i < j < |s|
    ensures key(s[i]) != key(s[j])
  {
    if i == 0 {
      HasKeyAt(s[1..], key, j - 1);
    } else {
      DistinctKeysAt(s[1..], key, i - 1, j - 1);
    }
  }

  /** Distinct keys, stated over all pairs of positions. */
  lemma DistinctKeysAll<T, K>(s: seq<T>, key: T -> K)
    requires DistinctKeys(s, key)
    ensures forall i, j :: 0 <= i < j < |s| ==> key(s[i]) != key(s[j])
  {
    forall i, j | 0 <= i < j < |s| ensures key(s[i]) != key(s[j]) {
      DistinctKeysAt(s, key, i, j);
    }
  }

  /** `HasKey` is membership of some element with that key. */
  lemma {:induction false} HasKeyIff<T, K>(s: seq<T>, key: T -> K, k: K)
    ensures HasKey(s, key, k) <==> exists x :: x in s && key(x) == k
  {
    if s != [] {
      HasKeyIff(s[1..], key, k);
      assert s == [s[0]] + s[1..];
    }
  }

  /** `find(s, x => key(x) === k)`: the first element with key `k`. */
  function FindBy<T, K(==)>(s: seq<T>, key: T -> K, k: K): (r: Option<T>)
    ensures r.Some? <==> HasKey(s, key, k)
    ensures r.Some? ==> r.value in s && key(r.value) == k
    ensures r.None? ==> forall x :: x in s ==> key(x) != k
    ensures forall i :: 0 <= i < |s| && key(s[i]) == k && (forall j :: 0 <= j < i ==> key(s[j]) != k) ==> r == Some(s[i])
  {
    if s == [] then None
    else if key(s[0]) == k then Some(s[0])
    else
      assert s == [s[0]] + s[1..];
      assert forall i :: 1 <= i < |s| ==> s[1..][i - 1] == s[i];
      FindBy(s[1..], key, k)
  }

  /** In a concatenation the first match comes from the left part when it has one. */
  lemma {:induction false} FindInConcat<T, K>(a: seq<T>, b: seq<T>, key: T -> K, k: K)
    ensures HasKey(a + b, key, k) <==> HasKey(a, key, k) || HasKey(b, key, k)
    ensures FindBy(a + b, key, k) == if HasKey(a, key, k) then FindBy(a, key, k) else FindBy(b, key, k)
  {
    if a != [] {
      assert (a + b)[1..] == a[1..] + b;
      FindInConcat(a[1..], b, key, k);
    } else {
      assert a + b == b;
    }
  }

  /**
   * `uniqBy` with the keys in `seen` already taken: the first element with
   * each new key, in their original order.
   */
  function UniqByFrom<T, K(==,!new)>(s: seq<T>, key: T -> K, seen: set<K>): (r: seq<T>)
    ensures forall k :: HasKey(r, key, k) <==> HasKey(s, key, k) && k !in seen
    ensures forall k :: k !in seen ==> FindBy(r, key, k) == FindBy(s, key, k)
    ensures DistinctKeys(r, key)
    ensures forall x :: x in r ==> x in s
  {
    if s == [] then []
    else if key(s[0]) in seen then UniqByFrom(s[1..], key, seen)
    else
      var rest := UniqByFrom(s[1..], key, seen + {key(s[0])});
      assert ([s[0]] + rest)[1..] == rest;
      [s[0]] + rest
  }

  /** lodash `uniqBy(s, key)`. */
  function UniqBy<T, K(==,!new)>(s: seq<T>, key: T -> K): (r: seq<T>)
    ensures forall k :: HasKey(r, key, k) <==> HasKey(s, key, k)
    ensures forall k :: FindBy(r, key, k) == FindBy(s, key, k)
    ensures DistinctKeys(r, key)
    ensures forall x :: x in r ==> x in s
  {
    UniqByFrom(s, key, {})
  }

  /** Puts `x` in front of the first element whose key is not below its own. */
  function InsertBy<T, K(==,!new)>(x: T, s: seq<T>, key: T -> K, le: (K, K) -> bool): (r: seq<T>)
    ensures |r| == |s| + 1
    ensures multiset(r) == multiset(s) + multiset{x}
    ensures forall k :: HasKey(r, key, k) <==> key(x) == k || HasKey(s, key, k)
  {
    if s == [] || le(key(x), key(s[0])) then
      assert ([x] + s)[1..] == s;
      [x] + s
    else
      var rest := InsertBy(x, s[1..], key, le);
      assert ([s[0]] + rest)[1..] == rest;
      assert s == [s[0]] + s[1..];
      [s[0]] + rest
  }

  lemma {:induction false} InsertKeepsSorted<T, K(!new)>(x: T, s: seq<T>, key: T -> K, le: (K, K) -> bool)
    requires TotalPreorder(le) && SortedBy(s, key, le)
    ensures SortedBy(InsertBy(x, s, key, le), key, le)
  {
    if s != [] {
      SortedHeadBelow(s, key, le);
      assert s == [s[0]] + s[1..];
      if le(key(x), key(s[0])) {
        forall y | y in s ensures le(key(x), key(y)) {
          if y != s[0] {
            assert y in s[1..];
          }
        }
        ConsSorted(x, s, key, le);
      } else {
        var rest := InsertBy(x, s[1..], key, le);
        InsertKeepsSorted(x, s[1..], key, le);
        forall y | y in rest ensures le(key(s[0]), key(y)) {
          assert y in multiset(rest);
          if y != x {
            assert y in multiset(s[1..]);
          }
        }
        ConsSorted(s[0], rest, key, le);
      }
    }
  }

  lemma {:induction false} InsertKeepsDistinct<T, K(!new)>(x: T, s: seq<T>, key: T -> K, le: (K, K) -> bool)
    requires DistinctKeys(s, key) && !HasKey(s, key, key(x))
    ensures DistinctKeys(InsertBy(x, s, key, le), key)
    ensures forall k :: FindBy(InsertBy(x, s, key, le), key, k) == if key(x) == k then Some(x) else FindBy(s, key, k)
  {
    if s != [] && !le(key(x), key(s[0])) {
      InsertKeepsDistinct(x, s[1..], key, le);
    }
  }

  /** lodash `sortBy(s, key)`: a stable ascending sort, so a sorted permutation of `s`. */
  function SortBy<T, K(==,!new)>(s: seq<T>, key: T -> K, le: (K, K) -> bool): (r: seq<T>)
    requires TotalPreorder(le)
    ensures |r| == |s|
    ensures multiset(r) == multiset(s)
    ensures SortedBy(r, key, le)
    ensures forall k :: HasKey(r, key, k) <==> HasKey(s, key, k)
  {
    if s == [] then []
    else
      var rest := SortBy(s[1..], key, le);
      InsertKeepsSorted(s[0], rest, key, le);
      assert s == [s[0]] + s[1..];
      InsertBy(s[0], rest, key, le)
  }

  /** A stable sort leaves a sequence that is already in order as it is. */
  lemma {:induction false} SortSortedIsIdentity<T, K(!new)>(s: seq<T>, key: T -> K, le: (K, K) -> bool)
    requires TotalPreorder(le) && SortedBy(s, key, le)
    ensures SortBy(s, key, le) == s
  {
    if s != [] {
      assert SortedBy(s[1..], key, le) by {
        forall i, j | 0 <= i < j < |s[1..]| ensures le(key(s[1..][i]), key(s[1..][j])) {
          assert s[1..][i] == s[i + 1] && s[1..][j] == s[j + 1];
        }
      }
      SortSortedIsIdentity(s[1..], key, le);
      assert |s| > 1 ==> le(key(s[0]), key(s[1..][0]));
      assert s == [s[0]] + s[1..];
    }
  }

  /** Sorting keeps keys distinct and the element found for each key. */
  lemma {:induction false} SortKeepsDistinct<T, K(!new)>(s: seq<T>, key: T -> K, le: (K, K) -> bool)
    requires TotalPreorder(le) && DistinctKeys(s, key)
    ensures DistinctKeys(SortBy(s, key, le), key)
    ensures forall k :: FindBy(SortBy(s, key, le), key, k) == FindBy(s, key, k)
  {
    if s != [] {
      SortKeepsDistinct(s[1..], key, le);
      InsertKeepsDistinct(s[0], SortBy(s[1..], key, le), key, le);
    }
  }

  /** The elements of class `q` hold keys that are all ordered both ways: ties of the sort. */
  ghost predicate Tied<T(!new), K>(q: T -> bool, key: T -> K, le: (K, K) -> bool) {
    forall x, y :: q(x) && q(y) ==> le(key(x), key(y))
  }

  /** The element has key `k`. */
  function KeyIs<T, K(==)>(key: T -> K, k: K): T -> bool {
    x => key(x) == k
  }

  /** Inserting `x` puts it ahead of every element it ties with. */
  lemma {:induction false} InsertStable<T(!new), K(!new)>(x: T, s: seq<T>, key: T -> K, le: (K, K) -> bool, q: T -> bool)
    requires Tied(q, key, le)
    ensures FilterBy(InsertBy(x, s, key, le), q) == (if q(x) then [x] else []) + FilterBy(s, q)
  {
    if s == [] || le(key(x), key(s[0])) {
      assert ([x] + s)[0] == x && ([x] + s)[1..] == s;
      assert [] + FilterBy(s, q) == FilterBy(s, q);
    } else {
      var rest := InsertBy(x, s[1..], key, le);
      InsertStable(x, s[1..], key, le, q);
      assert ([s[0]] + rest)[0] == s[0] && ([s[0]] + rest)[1..] == rest;
      assert !(q(x) && q(s[0]));
      if q(s[0]) {
        assert FilterBy(s, q) == [s[0]] + FilterBy(s[1..], q);
        assert FilterBy(InsertBy(x, s, key, le), q) == [s[0]] + FilterBy(rest, q);
      } else {
        assert FilterBy(s, q) == FilterBy(s[1..], q);
        assert FilterBy(InsertBy(x, s, key, le), q) == FilterBy(rest, q);
        assert (if q(x) then [x] else []) + FilterBy(s[1..], q) == FilterBy(rest, q);
      }
    }
  }

  /** `sortBy` is stable: elements whose keys tie come out in their input order. */
  lemma {:induction false} SortStable<T(!new), K(!new)>(s: seq<T>, key: T -> K, le: (K, K) -> bool, q: T -> bool)
    requires TotalPreorder(le) && Tied(q, key, le)
    ensures FilterBy(SortBy(s, key, le), q) == FilterBy(s, q)
  {
    if s != [] {
      SortStable(s[1..], key, le, q);
      InsertStable(s[0], SortBy(s[1..], key, le), key, le, q);
      assert [] + FilterBy(s[1..], q) == FilterBy(s[1..], q);
    }
  }

  /** In particular the elements with any one key keep their input order. */
  lemma SortStableKey<T(!new), K(!new)>(s: seq<T>, key: T -> K, le: (K, K) -> bool, k: K)
    requires TotalPreorder(le)
    ensures FilterBy(SortBy(s, key, le), KeyIs(key, k)) == FilterBy(s, KeyIs(key, k))
  {
    assert Tied(KeyIs(key, k), key, le) by {
      forall x, y | KeyIs(key, k)(x) && KeyIs(key, k)(y) ensures le(key(x), key(y)) {
        assert le(k, k) || le(k, k);
      }
    }
    SortStable(s, key, le, KeyIs(key, k));
  }

  /**
   * `s.filter(p)`: the elements that satisfy `p`, each kept as often as it
   * occurs, in their order.
   */
  function FilterBy<T(!new)>(s: seq<T>, p: T -> bool): (r: seq<T>)
    ensures |r| <= |s|
    ensures forall x :: x in r <==> x in s && p(x)
    ensures (forall i :: 0 <= i < |s| ==> p(s[i])) ==> r == s
    ensures Subsequence(r, s)
  {
    if s == [] then []
    else
      var rest := FilterBy(s[1..], p);
      assert s == [s[0]] + s[1..];
      if p(s[0]) then
        assert ([s[0]] + rest)[1..] == rest;
        [s[0]] + rest
      else
        assert [] + rest == rest;
        rest
  }

  /** `r` is `s` with some elements left out and the others kept in their order. */
  ghost predicate Subsequence<T>(r: seq<T>, s: seq<T>)
    decreases |s|
  {
    if s == [] then r == []
    else (r != [] && r[0] == s[0] && Subsequence(r[1..], s[1..])) || Subsequence(r, s[1..])
  }

  /** A subsequence holds no element more often than the sequence does. */
  lemma {:induction false} SubsequenceCounts<T>(r: seq<T>, s: seq<T>)
    requires Subsequence(r, s)
    ensures multiset(r) <= multiset(s)
    decreases |s|
  {
    if s != [] {
      assert s == [s[0]] + s[1..];
      if r != [] && r[0] == s[0] && Subsequence(r[1..], s[1..]) {
        SubsequenceCounts(r[1..], s[1..]);
        assert r == [r[0]] + r[1..];
      } else {
        SubsequenceCounts(r, s[1..]);
      }
    }
  }

  /**
   * The order and the counts pin `filter` down: a subsequence of `s` that
   * holds each passing element as often as `s` does, and no other, is
   * `s.filter(p)`.
   */
  lemma {:induction false} FilterIsDetermined<T(!new)>(r: seq<T>, s: seq<T>, p: T -> bool)
    requires Subsequence(r, s)
    requires forall x :: multiset(r)[x] == if p(x) then multiset(s)[x] else 0
    ensures r == FilterBy(s, p)
    decreases |s|
  {
    if s != [] {
      assert s == [s[0]] + s[1..];
      if r != [] && r[0] == s[0] && Subsequence(r[1..], s[1..]) {
        assert r == [r[0]] + r[1..];
        assert multiset(r)[s[0]] > 0;
        FilterIsDetermined(r[1..], s[1..], p);
      } else {
        SubsequenceCounts(r, s[1..]);
        assert multiset(r)[s[0]] < multiset(s)[s[0]];
        FilterIsDetermined(r, s[1..], p);
      }
    }
  }

  /** In a sorted sequence the first key is below every later element's key. */
  lemma SortedHeadBelow<T, K>(s: seq<T>, key: T -> K, le: (K, K) -> bool)
    requires s != [] && SortedBy(s, key, le)
    ensures SortedBy(s[1..], key, le)
    ensures forall x :: x in s[1..] ==> le(key(s[0]), key(x))
  {
    forall i, j | 0 <= i < j < |s[1..]| ensures le(key(s[1..][i]), key(s[1..][j])) {
      assert s[1..][i] == s[i + 1] && s[1..][j] == s[j + 1];
    }
    forall x | x in s[1..] ensures le(key(s[0]), key(x)) {
      var m :| 0 <= m < |s[1..]| && s[1..][m] == x;
      assert s[m + 1] == x;
    }
  }

  lemma ConsSorted<T, K>(x: T, s: seq<T>, key: T -> K, le: (K, K) -> bool)
    requires SortedBy(s, key, le) && forall y :: y in s ==> le(key(x), key(y))
    ensures SortedBy([x] + s, key, le)
  {
    var r := [x] + s;
    forall i, j | 0 <= i < j < |r| ensures le(key(r[i]), key(r[j])) {
      assert r[j] == s[j - 1];
      if i > 0 {
        assert r[i] == s[i - 1];
      }
    }
  }

  /** Filtering keeps each element that satisfies `p` as often as it occurs, and no other. */
  lemma {:induction false} FilterCounts<T(!new)>(s: seq<T>, p: T -> bool)
    ensures forall x :: multiset(FilterBy(s, p))[x] == if p(x) then multiset(s)[x] else 0
  {
    if s != [] {
      FilterCounts(s[1..], p);
      assert s == [s[0]] + s[1..];
      assert FilterBy(s, p) == (if p(s[0]) then [s[0]] else []) + FilterBy(s[1..], p);
    }
  }

  /** Filtering keeps a sorted sequence sorted. */
  lemma {:induction false} FilterKeepsSorted<T(!new), K>(s: seq<T>, p: T -> bool, key: T -> K, le: (K, K) -> bool)
    requires SortedBy(s, key, le)
    ensures SortedBy(FilterBy(s, p), key, le)
  {
    if s != [] {
      var rest := FilterBy(s[1..], p);
      SortedHeadBelow(s, key, le);
      FilterKeepsSorted(s[1..], p, key, le);
      if p(s[0]) {
        assert FilterBy(s, p) == [s[0]] + rest;
        ConsSorted(s[0], rest, key, le);
      } else {
        assert FilterBy(s, p) == rest;
      }
    }
  }

  /** Two tests that agree on every element of `s` filter it alike. */
  lemma {:induction false} FilterAgree<T(!new)>(s: seq<T>, p: T -> bool, q: T -> bool)
    requires forall x :: x in s ==> p(x) == q(x)
    ensures FilterBy(s, p) == FilterBy(s, q)
  {
    if s != [] {
      FilterAgree(s[1..], p, q);
    }
  }

  /** A passing first element is kept in front. */
  lemma FilterKeepsHead<T(!new)>(x: T, rest: seq<T>, p: T -> bool)
    requires p(x)
    ensures FilterBy([x] + rest, p) == [x] + FilterBy(rest, p)
  {
    assert ([x] + rest)[0] == x && ([x] + rest)[1..] == rest;
  }

  /** A failing first element is dropped. */
  lemma FilterSkipsHead<T(!new)>(x: T, rest: seq<T>, p: T -> bool)
    requires !p(x)
    ensures FilterBy([x] + rest, p) == FilterBy(rest, p)
  {
    assert ([x] + rest)[0] == x && ([x] + rest)[1..] == rest;
  }

  /** Two filters can be applied in either order. */
  lemma {:induction false} FilterCommutes<T(!new)>(s: seq<T>, p: T -> bool, q: T -> bool)
    ensures FilterBy(FilterBy(s, p), q) == FilterBy(FilterBy(s, q), p)
  {
    if s != [] {
      var x, s' := s[0], s[1..];
      assert s == [x] + s';
      FilterCommutes(s', p, q);
      if p(x) {
        FilterKeepsHead(x, s', p);
        if q(x) {
          FilterKeepsHead(x, s', q);
          FilterKeepsHead(x, FilterBy(s', p), q);
          FilterKeepsHead(x, FilterBy(s', q), p);
        } else {
          FilterSkipsHead(x, s', q);
          FilterSkipsHead(x, FilterBy(s', p), q);
        }
      } else {
        FilterSkipsHead(x, s', p);
        if q(x) {
          FilterKeepsHead(x, s', q);
          FilterSkipsHead(x, FilterBy(s', q), p);
        } else {
          FilterSkipsHead(x, s', q);
        }
      }
    }
  }

  /** Filtering two permutations of each other gives permutations of each other. */
  lemma FilterPermutes<T(!new)>(a: seq<T>, b: seq<T>, p: T -> bool)
    requires multiset(a) == multiset(b)
    ensures multiset(FilterBy(a, p)) == multiset(FilterBy(b, p))
  {
    FilterCounts(a, p);
    FilterCounts(b, p);
    assert forall x :: multiset(FilterBy(a, p))[x] == multiset(FilterBy(b, p))[x];
  }

  /** Filtering a concatenation filters each part. */
  lemma {:induction false} FilterAppend<T(!new)>(a: seq<T>, b: seq<T>, p: T -> bool)
    ensures FilterBy(a + b, p) == FilterBy(a, p) + FilterBy(b, p)
  {
    if a != [] {
      FilterAppend(a[1..], b, p);
      FilterAppendStep(a, b, p);
    } else {
      assert a + b == b;
    }
  }

  /** The induction step of FilterAppend: the first part is its head before its tail. */
  lemma FilterAppendStep<T(!new)>(a: seq<T>, b: seq<T>, p: T -> bool)
    requires a != [] && FilterBy(a[1..] + b, p) == FilterBy(a[1..], p) + FilterBy(b, p)
    ensures FilterBy(a + b, p) == FilterBy(a, p) + FilterBy(b, p)
  {
    var x, t := a[0], a[1..];
    assert a == [x] + t;
    SeqAssoc([x], t, b);
    if p(x) {
      FilterKeepsHead(x, t + b, p);
      FilterKeepsHead(x, t, p);
      SeqAssoc([x], FilterBy(t, p), FilterBy(b, p));
    } else {
      FilterSkipsHead(x, t + b, p);
      FilterSkipsHead(x, t, p);
    }
  }

  /** `Array.from(new Set(s))`: each element once, at its first position. */
  function Identity<T>(x: T): T {
    x
  }

  /** Keyed by the elements themselves, `uniqBy` keeps each element once. */
  lemma UniqByIdentity<T(!new)>(s: seq<T>)
    ensures forall x :: x in UniqBy(s, Identity) <==> x in s
    ensures forall i, j :: 0 <= i < j < |UniqBy(s, Identity)| ==> UniqBy(s, Identity)[i] != UniqBy(s, Identity)[j]
  {
    var r := UniqBy(s, Identity);
    DistinctKeysAll(r, Identity);
    forall x ensures x in r <==> x in s {
      HasKeyIff(r, Identity, x);
      HasKeyIff(s, Identity, x);
    }
  }

  /** Appending an element after the elements seen so far: it is kept when its key is new. */
  lemma {:induction false} UniqByFromSnoc<T(!new), K(!new)>(s: seq<T>, x: T, key: T -> K, seen: set<K>)
    ensures UniqByFrom(s + [x], key, seen) ==
      UniqByFrom(s, key, seen) + (if key(x) in seen || HasKey(s, key, key(x)) then [] else [x])
    decreases |s|
  {
    if s == [] {
      assert [] + [x] == [x] && [x][1..] == [];
      if key(x) in seen {
        UniqSkip([x], key, seen);
      } else {
        UniqTake([x], key, seen);
      }
    } else {
      var s' := s[1..];
      var k0 := key(s[0]);
      assert (s + [x])[0] == s[0] && (s + [x])[1..] == s' + [x];
      assert HasKey(s, key, key(x)) == (k0 == key(x) || HasKey(s', key, key(x)));
      if k0 in seen {
        UniqSkip(s + [x], key, seen);
        UniqSkip(s, key, seen);
        UniqByFromSnoc(s', x, key, seen);
      } else {
        var seen' := seen + {k0};
        UniqTake(s + [x], key, seen);
        UniqTake(s, key, seen);
        UniqByFromSnoc(s', x, key, seen');
        var tail := if key(x) in seen' || HasKey(s', key, key(x)) then [] else [x];
        SeqAssoc([s[0]], UniqByFrom(s', key, seen'), tail);
      }
    }
  }

  /** In a permutation of `a`, the head of `a` sits at some `j`; without it the rest is a permutation of `a`'s tail. */
  lemma PermutationSplit<T>(a: seq<T>, b: seq<T>) returns (j: nat)
    requires a != [] && multiset(a) == multiset(b)
    ensures j < |b| && b[j] == a[0]
    ensures b == b[..j] + [a[0]] + b[j + 1..]
    ensures multiset(b[..j] + b[j + 1..]) == multiset(a[1..])
  {
    assert a[0] in multiset(a);
    assert a[0] in b;
    j :| 0 <= j < |b| && b[j] == a[0];
    MultisetAround(b, j);
    MultisetHead(a);
    MultisetCancel(multiset(b[..j] + b[j + 1..]), multiset(a[1..]), a[0]);
  }

  lemma MultisetAround<T>(b: seq<T>, j: nat)
    requires j < |b|
    ensures b == b[..j] + [b[j]] + b[j + 1..]
    ensures multiset(b) == multiset(b[..j] + b[j + 1..]) + multiset{b[j]}
  {
    assert b == b[..j] + [b[j]] + b[j + 1..];
    assert multiset(b[..j] + b[j + 1..]) == multiset(b[..j]) + multiset(b[j + 1..]);
  }

  lemma MultisetHead<T>(a: seq<T>)
    requires a != []
    ensures multiset(a) == multiset(a[1..]) + multiset{a[0]}
  {
    assert a == [a[0]] + a[1..];
  }

  lemma MultisetCancel<T>(m: multiset<T>, n: multiset<T>, x: T)
    requires m + multiset{x} == n + multiset{x}
    ensures m == n
  {
    assert m == m + multiset{x} - multiset{x};
    assert n == n + multiset{x} - multiset{x};
  }

  lemma SeqAssoc<T>(a: seq<T>, b: seq<T>, c: seq<T>)
    ensures a + b + c == a + (b + c)
  {
  }

  /** `Array.from(new Set(s))`: each element once, at its first occurrence. */
  function Dedup<T(==,!new)>(s: seq<T>): (r: seq<T>)
    ensures forall x :: x in r <==> x in s
    ensures forall i, j :: 0 <= i < j < |r| ==> r[i] != r[j]
  {
    UniqByIdentity(s);
    UniqBy(s, Identity)
  }

  /**
   * `Set` keeps insertion order: the empty list gives none, and an
   * appended element is added at the end exactly when it is new.
   */
  lemma DedupSnoc<T(!new)>(s: seq<T>, x: T)
    ensures Dedup<T>([]) == []
    ensures Dedup(s + [x]) == Dedup(s) + (if x in s then [] else [x])
  {
    UniqByFromSnoc(s, x, Identity, {});
    HasKeyIff(s, Identity, x);
  }

  /** An element whose key was seen is skipped. */
  lemma UniqSkip<T(!new), K(!new)>(s: seq<T>, key: T -> K, seen: set<K>)
    requires s != [] && key(s[0]) in seen
    ensures UniqByFrom(s, key, seen) == UniqByFrom(s[1..], key, seen)
  {
  }

  /** An element with a new key is kept, and its key then counts as seen. */
  lemma UniqTake<T(!new), K(!new)>(s: seq<T>, key: T -> K, seen: set<K>)
    requires s != [] && key(s[0]) !in seen
    ensures UniqByFrom(s, key, seen) == [s[0]] + UniqByFrom(s[1..], key, seen + {key(s[0])})
  {
  }

  /** The keys of `s`, element by element: `s.map(key)`. */
  function KeysAlong<T, K>(s: seq<T>, key: T -> K): (ks: seq<K>)
    ensures |ks| == |s|
    ensures forall i :: 0 <= i < |s| ==> ks[i] == key(s[i])
  {
    if s == [] then []
    else
      var rest := KeysAlong(s[1..], key);
      assert forall i :: 1 <= i < |s| ==> ([key(s[0])] + rest)[i] == rest[i - 1];
      [key(s[0])] + rest
  }

  lemma KeysAlongHead<T, K>(s: seq<T>, key: T -> K)
    requires s != []
    ensures KeysAlong(s, key)[0] == key(s[0]) && KeysAlong(s, key)[1..] == KeysAlong(s[1..], key)
  {
  }
}
