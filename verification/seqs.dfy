/**
 * Sequence helpers standing in for the JavaScript array methods the
 * dashboards chain together: `filter`, `map`, `Array.from(new Set(..))`,
 * `reverse` and the (stable) `sort`.
 */
module Seqs {
  import opened Wrappers

  /** Every element occurs once. */
  predicate Distinct<T(==)>(s: seq<T>) {
    forall i, j :: 0 <= i < j < |s| ==> s[i] != s[j]
  }

  /** `ok` holds of every pair of elements taken in sequence order. */
  ghost predicate Pairwise<T>(s: seq<T>, ok: (T, T) -> bool) {
    forall i, j :: 0 <= i < j < |s| ==> ok(s[i], s[j])
  }

  /** Appending a new element keeps a sequence free of repeats. */
  lemma DistinctSnoc<T>(s: seq<T>, x: T)
    requires Distinct(s) && x !in s
    ensures Distinct(s + [x])
  {
  }

  function ToSet<T>(s: seq<T>): set<T> {
    set x | x in s
  }

  /** `s.filter(p)`: the elements satisfying `p`, in their original order. */
  function Filter<T(!new)>(s: seq<T>, p: T -> bool): (r: seq<T>)
    ensures |r| <= |s|
    ensures forall x :: x in r <==> x in s && p(x)
  {
    if s == [] then []
    else if p(s[0]) then [s[0]] + Filter(s[1..], p)
    else Filter(s[1..], p)
  }

  /** `s.map(f)`. */
  function Map<T, U>(s: seq<T>, f: T -> U): (r: seq<U>)
    ensures |r| == |s|
    ensures forall i :: 0 <= i < |s| ==> r[i] == f(s[i])
  {
    seq(|s|, i requires 0 <= i < |s| => f(s[i]))
  }

  /** `Array.from(new Set(s))`: first occurrences, in order of first appearance. */
  function Dedup<T(==,!new)>(s: seq<T>): (r: seq<T>)
    ensures Distinct(r)
    ensures forall x :: x in r <==> x in s
  {
    if s == [] then []
    else
      var init := s[..|s| - 1];
      assert s == init + [s[|s| - 1]];
      var d := Dedup(init);
      if s[|s| - 1] in d then d else d + [s[|s| - 1]]
  }

  /** `s.find(p)`: the first element satisfying `p`, if any. */
  function Find<T>(s: seq<T>, p: T -> bool): (r: Option<T>)
    ensures r.None? <==> forall i :: 0 <= i < |s| ==> !p(s[i])
    ensures r.Some? ==> exists k :: 0 <= k < |s| && s[k] == r.value && p(s[k]) && forall j :: 0 <= j < k ==> !p(s[j])
  {
    if s == [] then None
    else if p(s[0]) then Some(s[0])
    else
      var r := Find(s[1..], p);
      assert forall i :: 1 <= i < |s| ==> s[i] == s[1..][i - 1];
      r
  }

  /** `s.filter(x => !!x)` on optional values: the values that are present, in order. */
  function Somes<T(!new)>(s: seq<Option<T>>): (r: seq<T>)
    ensures |r| <= |s|
    ensures forall x :: x in r <==> Some(x) in s
  {
    if s == [] then []
    else
      assert s == [s[0]] + s[1..];
      (if s[0].Some? then [s[0].value] else []) + Somes(s[1..])
  }

  /** The test `x => !!x` on optional values. */
  function HasValue<T(!new)>(): (p: Option<T> -> bool)
    ensures forall o :: p(o) <==> o.Some?
  {
    (o: Option<T>) => o.Some?
  }

  /** Dropping the missing entries keeps the present ones, in order and with their repeats. */
  lemma {:induction false} SomesInOrder<T(!new)>(s: seq<Option<T>>)
    ensures |Somes(s)| == |Filter(s, HasValue())|
    ensures forall i :: 0 <= i < |Somes(s)| ==> Some(Somes(s)[i]) == Filter(s, HasValue())[i]
  {
    if s != [] {
      SomesInOrder(s[1..]);
      assert s == [s[0]] + s[1..];
    }
  }

  /** When every entry is present, dropping the missing ones keeps them all, in order. */
  lemma {:induction false} SomesAllPresent<T(!new)>(s: seq<Option<T>>)
    requires forall i :: 0 <= i < |s| ==> s[i].Some?
    ensures |Somes(s)| == |s|
    ensures forall i :: 0 <= i < |s| ==> Somes(s)[i] == s[i].value
  {
    if s != [] {
      SomesAllPresent(s[1..]);
      assert forall i :: 1 <= i < |s| ==> s[i] == s[1..][i - 1];
    }
  }

  /** The test `x => x !== y`. */
  function NotEqual<T(==,!new)>(y: T): (p: T -> bool)
    ensures forall x :: p(x) <==> x != y
  {
    x => x != y
  }

  /** The test `x => key(x) === k`. */
  function HasKey<T(!new), K(==)>(key: T -> K, k: K): (p: T -> bool)
    ensures forall x :: p(x) <==> key(x) == k
  {
    x => key(x) == k
  }

  /** The elements whose key is `k`, in order. */
  function KeyFilter<T(!new), K(==)>(s: seq<T>, key: T -> K, k: K): (r: seq<T>)
    ensures forall x :: x in r <==> x in s && key(x) == k
  {
    Filter(s, HasKey(key, k))
  }

  /** How many elements have each of `keys` as their key, added up. */
  function SumCounts<T(!new), K(==)>(s: seq<T>, key: T -> K, keys: seq<K>): nat {
    if keys == [] then 0 else |KeyFilter(s, key, keys[0])| + SumCounts(s, key, keys[1..])
  }

  lemma {:induction false} SumCountsEmpty<T(!new), K>(key: T -> K, keys: seq<K>)
    ensures SumCounts([], key, keys) == 0
  {
    if keys != [] {
      SumCountsEmpty(key, keys[1..]);
    }
  }

  /** Adding one element in front adds one to the sum exactly when its key is listed. */
  lemma {:induction false} SumCountsCons<T(!new), K>(x: T, s: seq<T>, key: T -> K, keys: seq<K>)
    requires Distinct(keys)
    ensures SumCounts([x] + s, key, keys) == SumCounts(s, key, keys) + (if key(x) in keys then 1 else 0)
  {
    if keys != [] {
      DistinctTail(keys);
      SumCountsCons(x, s, key, keys[1..]);
      assert ([x] + s)[0] == x && ([x] + s)[1..] == s;
      assert key(x) in keys <==> key(x) == keys[0] || key(x) in keys[1..];
    }
  }

  /** Appending one element to a sequence adds it to the group of its key only. */
  lemma KeyFilterSnoc<T(!new), K>(s: seq<T>, x: T, key: T -> K, k: K)
    ensures KeyFilter(s + [x], key, k) == KeyFilter(s, key, k) + (if key(x) == k then [x] else [])
  {
    FilterConcat(s, [x], HasKey(key, k));
    assert [x][1..] == [];
  }

  /** No element has key `k`: its group is empty. */
  lemma {:induction false} KeyFilterNone<T(!new), K>(s: seq<T>, key: T -> K, k: K)
    requires forall i :: 0 <= i < |s| ==> key(s[i]) != k
    ensures KeyFilter(s, key, k) == []
  {
    if s != [] {
      KeyFilterNone(s[1..], key, k);
    }
  }

  /**
   * Grouping by key loses and duplicates nothing: when every element's key
   * is listed once, the group sizes add up to the length of the sequence.
   */
  lemma {:induction false} CountPartition<T(!new), K>(s: seq<T>, key: T -> K, keys: seq<K>)
    requires Distinct(keys)
    requires forall i :: 0 <= i < |s| ==> key(s[i]) in keys
    ensures SumCounts(s, key, keys) == |s|
  {
    if s == [] {
      SumCountsEmpty(key, keys);
    } else {
      assert s == [s[0]] + s[1..];
      CountPartition(s[1..], key, keys);
      SumCountsCons(s[0], s[1..], key, keys);
    }
  }

  /** `s.reverse()`. */
  function Reverse<T>(s: seq<T>): (r: seq<T>)
    ensures |r| == |s|
    ensures forall i :: 0 <= i < |s| ==> r[i] == s[|s| - 1 - i]
    ensures multiset(r) == multiset(s)
  {
    if s == [] then []
    else
      assert s == [s[0]] + s[1..];
      Reverse(s[1..]) + [s[0]]
  }

  lemma {:induction false} FilterConcat<T(!new)>(a: seq<T>, b: seq<T>, p: T -> bool)
    ensures Filter(a + b, p) == Filter(a, p) + Filter(b, p)
  {
    if a == [] {
      assert a + b == b;
    } else {
      assert (a + b)[0] == a[0];
      assert (a + b)[1..] == a[1..] + b;
      FilterConcat(a[1..], b, p);
    }
  }

  /** Filtering keeps a pairwise property: the result is a subsequence. */
  lemma {:induction false} FilterPairwise<T(!new)>(s: seq<T>, p: T -> bool, ok: (T, T) -> bool)
    requires Pairwise(s, ok)
    ensures Pairwise(Filter(s, p), ok)
  {
    if s != [] {
      var rest := Filter(s[1..], p);
      assert Pairwise(s[1..], ok) by {
        forall i, j | 0 <= i < j < |s[1..]| ensures ok(s[1..][i], s[1..][j]) {
          assert s[1..][i] == s[i + 1] && s[1..][j] == s[j + 1];
        }
      }
      FilterPairwise(s[1..], p, ok);
      if p(s[0]) {
        var r := [s[0]] + rest;
        forall i, j | 0 <= i < j < |r| ensures ok(r[i], r[j]) {
          if i == 0 {
            assert r[j] == rest[j - 1];
            assert rest[j - 1] in s[1..];
            var k :| 0 <= k < |s[1..]| && s[1..][k] == rest[j - 1];
            assert s[k + 1] == r[j];
          } else {
            assert r[i] == rest[i - 1] && r[j] == rest[j - 1];
          }
        }
      }
    }
  }

  /** Filtering a duplicate-free sequence leaves it duplicate-free. */
  lemma {:induction false} FilterDistinct<T(!new)>(s: seq<T>, p: T -> bool)
    requires Distinct(s)
    ensures Distinct(Filter(s, p))
  {
    if s != [] {
      DistinctTail(s);
      FilterDistinct(s[1..], p);
    }
  }

  /** Filtering by `p` and then by `q` is filtering once by both. */
  lemma {:induction false} FilterFilter<T(!new)>(s: seq<T>, p: T -> bool, q: T -> bool, both: T -> bool)
    requires forall x :: both(x) <==> p(x) && q(x)
    ensures Filter(s, both) == Filter(Filter(s, p), q)
  {
    if s != [] {
      FilterFilter(s[1..], p, q, both);
      if p(s[0]) {
        assert ([s[0]] + Filter(s[1..], p))[1..] == Filter(s[1..], p);
      }
    }
  }

  /** Keeping some elements keeps their images distinct. */
  lemma {:induction false} FilterMapDistinct<T(!new), U>(s: seq<T>, p: T -> bool, f: T -> U)
    requires Distinct(Map(s, f))
    ensures Distinct(Map(Filter(s, p), f))
  {
    if s != [] {
      assert Map(s, f) == [f(s[0])] + Map(s[1..], f);
      DistinctTail(Map(s, f));
      FilterMapDistinct(s[1..], p, f);
      if p(s[0]) {
        var rest := Filter(s[1..], p);
        assert Map([s[0]] + rest, f) == [f(s[0])] + Map(rest, f);
        forall k | 0 <= k < |rest| ensures f(rest[k]) != f(s[0]) {
          assert rest[k] in s[1..];
          var m :| 0 <= m < |s[1..]| && s[1..][m] == rest[k];
          assert Map(s[1..], f)[m] == f(rest[k]);
        }
      }
    }
  }

  /** A weaker filter keeps at least as many elements. */
  lemma {:induction false} FilterWeaker<T(!new)>(s: seq<T>, p: T -> bool, q: T -> bool)
    requires forall x :: x in s && p(x) ==> q(x)
    ensures |Filter(s, p)| <= |Filter(s, q)|
  {
    if s != [] {
      FilterWeaker(s[1..], p, q);
    }
  }

  /** A filter that keeps everything is the identity. */
  lemma {:induction false} FilterKeepsAll<T(!new)>(s: seq<T>, p: T -> bool)
    requires forall x :: x in s ==> p(x)
    ensures Filter(s, p) == s
  {
    if s != [] {
      FilterKeepsAll(s[1..], p);
      assert s == [s[0]] + s[1..];
    }
  }

  /** A duplicate-free sequence has as many elements as its set. */
  lemma {:induction false} DistinctCard<T>(s: seq<T>)
    requires Distinct(s)
    ensures |ToSet(s)| == |s|
  {
    if s != [] {
      DistinctTail(s);
      DistinctCard(s[1..]);
      assert ToSet(s) == ToSet(s[1..]) + {s[0]};
    }
  }

  /** The tail of a duplicate-free sequence is duplicate-free and misses the head. */
  lemma DistinctTail<T>(s: seq<T>)
    requires s != [] && Distinct(s)
    ensures Distinct(s[1..]) && s[0] !in s[1..]
  {
    forall k | 0 <= k < |s[1..]| ensures s[1..][k] != s[0] {
      assert s[1..][k] == s[k + 1];
    }
    forall i, j | 0 <= i < j < |s[1..]| ensures s[1..][i] != s[1..][j] {
      assert s[1..][i] == s[i + 1] && s[1..][j] == s[j + 1];
    }
  }

  /** A subset is no larger than its superset. */
  lemma {:induction false} SubsetCard<T>(a: set<T>, b: set<T>)
    requires a <= b
    ensures |a| <= |b|
    decreases b
  {
    if a != {} {
      var x :| x in a;
      SubsetCard(a - {x}, b - {x});
    }
  }

  // ----- stable sorting -----

  /** `le` is total and transitive: a comparator JavaScript's sort can use. */
  ghost predicate TotalPreorder<K(!new)>(le: (K, K) -> bool) {
    && (forall a, b :: le(a, b) || le(b, a))
    && (forall a, b, c :: le(a, b) && le(b, c) ==> le(a, c))
  }

  /** Every element's key is `le` every later element's key. */
  ghost predicate SortedBy<T, K>(s: seq<T>, key: T -> K, le: (K, K) -> bool) {
    forall i, j :: 0 <= i < j < |s| ==> le(key(s[i]), key(s[j]))
  }

  /** Puts `x` before the first element whose key is not below it. */
  function Insert<T, K>(x: T, s: seq<T>, key: T -> K, le: (K, K) -> bool): (r: seq<T>)
    ensures |r| == |s| + 1
    ensures multiset(r) == multiset(s) + multiset{x}
  {
    if s == [] || le(key(x), key(s[0])) then [x] + s
    else
      assert s == [s[0]] + s[1..];
      [s[0]] + Insert(x, s[1..], key, le)
  }

  /**
   * `s.sort((a, b) => compare(key(a), key(b)))`. JavaScript's sort is
   * stable, and this insertion sort is too (an element is inserted before
   * the later elements it ties with), so both yield the same sequence.
   */
  function SortBy<T, K>(s: seq<T>, key: T -> K, le: (K, K) -> bool): (r: seq<T>)
    ensures |r| == |s|
    ensures multiset(r) == multiset(s)
  {
    if s == [] then []
    else
      assert s == [s[0]] + s[1..];
      Insert(s[0], SortBy(s[1..], key, le), key, le)
  }

  lemma {:induction false} InsertSorted<T, K(!new)>(x: T, s: seq<T>, key: T -> K, le: (K, K) -> bool)
    requires TotalPreorder(le)
    requires SortedBy(s, key, le)
    ensures SortedBy(Insert(x, s, key, le), key, le)
  {
    var r := Insert(x, s, key, le);
    if s == [] || le(key(x), key(s[0])) {
      forall i, j | 0 <= i < j < |r| ensures le(key(r[i]), key(r[j])) {
        if i == 0 {
          assert r[j] == s[j - 1];
          if j > 1 {
            assert le(key(s[0]), key(s[j - 1]));
          }
        } else {
          assert r[i] == s[i - 1] && r[j] == s[j - 1];
        }
      }
    } else {
      var tail := s[1..];
      assert SortedBy(tail, key, le) by {
        forall i, j | 0 <= i < j < |tail| ensures le(key(tail[i]), key(tail[j])) {
          assert tail[i] == s[i + 1] && tail[j] == s[j + 1];
        }
      }
      InsertSorted(x, tail, key, le);
      var rest := Insert(x, tail, key, le);
      assert r == [s[0]] + rest;
      forall i, j | 0 <= i < j < |r| ensures le(key(r[i]), key(r[j])) {
        if i == 0 {
          var y := rest[j - 1];
          assert y in multiset(rest);
          assert y == x || y in multiset(tail);
          if y == x {
            assert le(key(s[0]), key(x));
          } else {
            assert y in tail;
            var k :| 0 <= k < |tail| && tail[k] == y;
            assert s[k + 1] == y;
          }
        } else {
          assert r[i] == rest[i - 1] && r[j] == rest[j - 1];
        }
      }
    }
  }

  /** The sort's output is ordered by `le` on the keys. */
  lemma {:induction false} SortBySorted<T, K(!new)>(s: seq<T>, key: T -> K, le: (K, K) -> bool)
    requires TotalPreorder(le)
    ensures SortedBy(SortBy(s, key, le), key, le)
  {
    if s != [] {
      SortBySorted(s[1..], key, le);
      InsertSorted(s[0], SortBy(s[1..], key, le), key, le);
    }
  }

  /** Sorting only reorders: a property of every element still holds afterwards. */
  lemma SortByKeepsAll<T, K>(s: seq<T>, key: T -> K, le: (K, K) -> bool, ok: T -> bool)
    requires forall i :: 0 <= i < |s| ==> ok(s[i])
    ensures forall i :: 0 <= i < |s| ==> ok(SortBy(s, key, le)[i])
  {
    var r := SortBy(s, key, le);
    forall i | 0 <= i < |s| ensures ok(r[i]) {
      assert r[i] in multiset(r);
      assert r[i] in s;
    }
  }

  /** Mapping to optional values and dropping the missing ones equals keeping the elements whose image is present, then mapping. */
  lemma {:induction false} FilterPresentAfterMap<T(!new), U(!new)>(s: seq<T>, f: T -> Option<U>, p: T -> bool)
    requires forall x :: p(x) <==> f(x).Some?
    ensures Filter(Map(s, f), HasValue()) == Map(Filter(s, p), f)
  {
    if s != [] {
      FilterPresentAfterMap(s[1..], f, p);
      FilterPresentStep(s, f, p, HasValue());
    }
  }

  lemma FilterPresentStep<T(!new), U(!new)>(s: seq<T>, f: T -> Option<U>, p: T -> bool, present: Option<U> -> bool)
    requires s != [] && (p(s[0]) <==> present(f(s[0])))
    requires Filter(Map(s[1..], f), present) == Map(Filter(s[1..], p), f)
    ensures Filter(Map(s, f), present) == Map(Filter(s, p), f)
  {
    var mapped, rest := Map(s, f), Filter(s[1..], p);
    assert mapped[0] == f(s[0]) && mapped[1..] == Map(s[1..], f);
    if p(s[0]) {
      assert Filter(mapped, present) == [mapped[0]] + Filter(mapped[1..], present);
      assert Filter(s, p) == [s[0]] + rest;
      MapConcat([s[0]], rest, f);
      assert Map([s[0]], f) == [f(s[0])];
    } else {
      assert Filter(mapped, present) == Filter(mapped[1..], present);
      assert Filter(s, p) == rest;
    }
  }

  lemma MapConcat<T, U>(a: seq<T>, b: seq<T>, f: T -> U)
    ensures Map(a + b, f) == Map(a, f) + Map(b, f)
  {
  }

  /** Removing the element at `k` removes one copy of it and of its image. */
  lemma RemoveAt<T, U>(b: seq<T>, k: nat, f: T -> U)
    requires k < |b|
    ensures multiset(b[..k] + b[k + 1..]) == multiset(b) - multiset{b[k]}
    ensures multiset(Map(b, f)) == multiset(Map(b[..k] + b[k + 1..], f)) + multiset{f(b[k])}
  {
    var b1, b2 := b[..k], b[k + 1..];
    assert b == b1 + [b[k]] + b2;
    assert multiset(b) == multiset(b1) + multiset{b[k]} + multiset(b2);
    MapConcat(b1 + [b[k]], b2, f);
    MapConcat(b1, [b[k]], f);
    MapConcat(b1, b2, f);
    assert Map([b[k]], f) == [f(b[k])];
    assert multiset(Map(b, f)) == multiset(Map(b1, f)) + multiset{f(b[k])} + multiset(Map(b2, f));
  }

  /** Two sequences that are permutations of each other map to permutations. */
  lemma {:induction false} MapPermutation<T, U>(a: seq<T>, b: seq<T>, f: T -> U)
    requires multiset(a) == multiset(b)
    ensures multiset(Map(a, f)) == multiset(Map(b, f))
    decreases |a|
  {
    if a == [] {
      assert |multiset(b)| == 0;
    } else {
      var x, a' := a[0], a[1..];
      assert x in multiset(b);
      assert x in b;
      var k :| 0 <= k < |b| && b[k] == x;
      var b' := b[..k] + b[k + 1..];
      RemoveAt(b, k, f);
      assert a == [x] + a';
      assert multiset(a') == multiset(b') by {
        assert multiset(a) == multiset{x} + multiset(a');
      }
      MapPermutation(a', b', f);
      MapConcat([x], a', f);
      assert Map([x], f) == [f(x)];
      assert multiset(Map(a, f)) == multiset{f(x)} + multiset(Map(a', f));
    }
  }

  /** A permutation of a duplicate-free sequence is duplicate-free. */
  lemma {:induction false} DistinctPermutation<T>(a: seq<T>, b: seq<T>)
    requires multiset(a) == multiset(b)
    requires Distinct(a)
    ensures Distinct(b)
  {
    DistinctMultiplicity(a);
    forall i, j | 0 <= i < j < |b| ensures b[i] != b[j] {
      assert b == b[..j] + b[j..];
      assert b[i] == b[..j][i];
      assert multiset(b)[b[i]] == multiset(b[..j])[b[i]] + multiset(b[j..])[b[i]];
      assert multiset(b[..j])[b[i]] >= 1;
      assert multiset(b[j..])[b[i]] == 0;
      assert b[j] == b[j..][0];
    }
  }

  lemma {:induction false} DistinctMultiplicity<T>(s: seq<T>)
    requires Distinct(s)
    ensures forall x :: multiset(s)[x] <= 1
  {
    if s != [] {
      DistinctTail(s);
      DistinctMultiplicity(s[1..]);
      assert s == [s[0]] + s[1..];
      assert multiset(s) == multiset{s[0]} + multiset(s[1..]);
    }
  }

  // ----- order -----

  /** `sub` is `s` with some elements left out and the rest in the same order. */
  predicate Subsequence<T(==)>(sub: seq<T>, s: seq<T>)
    decreases |s|
  {
    if sub == [] then true
    else if s == [] then false
    else if sub[0] == s[0] then Subsequence(sub[1..], s[1..])
    else Subsequence(sub, s[1..])
  }

  /** Filtering keeps the order of what it keeps. */
  lemma {:induction false} FilterSubsequence<T(!new)>(s: seq<T>, p: T -> bool)
    ensures Subsequence(Filter(s, p), s)
  {
    if s != [] {
      var rest := Filter(s[1..], p);
      FilterSubsequence(s[1..], p);
      if p(s[0]) {
        assert Filter(s, p) == [s[0]] + rest;
        assert ([s[0]] + rest)[1..] == rest;
      } else if rest != [] {
        assert rest[0] in rest;
      }
    }
  }

  /** A subsequence of the tail is a subsequence of the whole. */
  lemma {:induction false} SubsequenceExtend<T>(sub: seq<T>, s: seq<T>)
    requires s != [] && Subsequence(sub, s[1..])
    ensures Subsequence(sub, s)
    decreases |s|, 0
  {
    if sub != [] && sub[0] == s[0] {
      SubsequenceDropHead(sub, s[1..]);
    }
  }

  /** Leaving out the first element of a subsequence keeps it a subsequence. */
  lemma {:induction false} SubsequenceDropHead<T>(sub: seq<T>, s: seq<T>)
    requires sub != [] && Subsequence(sub, s)
    ensures Subsequence(sub[1..], s)
    decreases |s|, 1
  {
    if sub[0] == s[0] {
      SubsequenceExtend(sub[1..], s);
    } else {
      SubsequenceDropHead(sub, s[1..]);
      SubsequenceExtend(sub[1..], s);
    }
  }

  lemma {:induction false} SubsequenceTrans<T>(a: seq<T>, b: seq<T>, c: seq<T>)
    requires Subsequence(a, b) && Subsequence(b, c)
    ensures Subsequence(a, c)
    decreases |c|
  {
    if a != [] {
      if b[0] == c[0] {
        if a[0] == b[0] {
          SubsequenceTrans(a[1..], b[1..], c[1..]);
        } else {
          SubsequenceTrans(a, b[1..], c[1..]);
        }
      } else {
        SubsequenceTrans(a, b, c[1..]);
        SubsequenceExtend(a, c);
      }
    }
  }

  /** Mapping keeps the order of a subsequence. */
  lemma {:induction false} MapSubsequence<T, U>(a: seq<T>, b: seq<T>, f: T -> U)
    requires Subsequence(a, b)
    ensures Subsequence(Map(a, f), Map(b, f))
    decreases |b|
  {
    if a != [] {
      var ma, mb := Map(a, f), Map(b, f);
      assert mb[1..] == Map(b[1..], f);
      if a[0] == b[0] {
        MapSubsequence(a[1..], b[1..], f);
        assert ma[1..] == Map(a[1..], f);
      } else {
        MapSubsequence(a, b[1..], f);
        SubsequenceExtend(ma, mb);
      }
    }
  }

  /**
   * The first element of `Filter(s, p)` that satisfies `q` is the first
   * element of `s` that satisfies both `p` and `q`.
   */
  lemma {:induction false} FilterFirst<T(!new)>(s: seq<T>, p: T -> bool, q: T -> bool, k: nat)
    requires k < |s| && p(s[k]) && q(s[k])
    requires forall j :: 0 <= j < k ==> !(p(s[j]) && q(s[j]))
    ensures exists m :: (0 <= m < |Filter(s, p)| && Filter(s, p)[m] == s[k]
      && forall j :: 0 <= j < m ==> !q(Filter(s, p)[j]))
  {
    var f := Filter(s, p);
    var tail := s[1..];
    var rest := Filter(tail, p);
    if k == 0 {
      assert f == [s[0]] + rest;
      assert f[0] == s[k];
    } else {
      forall j | 0 <= j < k - 1 ensures !(p(tail[j]) && q(tail[j])) {
        assert tail[j] == s[j + 1];
      }
      assert tail[k - 1] == s[k];
      FilterFirst(tail, p, q, k - 1);
      var m :| 0 <= m < |rest| && rest[m] == s[k] && forall j :: 0 <= j < m ==> !q(rest[j]);
      if p(s[0]) {
        assert f == [s[0]] + rest;
        assert !q(s[0]);
        assert f[m + 1] == s[k];
        forall j | 0 <= j < m + 1 ensures !q(f[j]) {
          if j > 0 {
            assert f[j] == rest[j - 1];
          }
        }
      } else {
        assert f == rest;
      }
    }
  }

  /**
   * Inserting keeps the relative order of elements whose keys tie: `x` goes
   * before every later element it ties with.
   */
  lemma {:induction false} InsertStable<T(!new), K>(x: T, s: seq<T>, key: T -> K, le: (K, K) -> bool, tie: T -> bool)
    requires forall a, b :: tie(a) && tie(b) ==> le(key(a), key(b))
    ensures Filter(Insert(x, s, key, le), tie) == if tie(x) then [x] + Filter(s, tie) else Filter(s, tie)
  {
    var r := Insert(x, s, key, le);
    if s == [] || le(key(x), key(s[0])) {
      assert r == [x] + s;
      assert r[0] == x && r[1..] == s;
    } else {
      var rest := Insert(x, s[1..], key, le);
      InsertStable(x, s[1..], key, le, tie);
      assert r == [s[0]] + rest;
      assert r[0] == s[0] && r[1..] == rest;
      assert !(tie(x) && tie(s[0]));
      if tie(x) {
        assert Filter(s, tie) == Filter(s[1..], tie);
      }
    }
  }

  /**
   * The sort is stable: the elements of a group whose keys all tie come out
   * in the order they went in.
   */
  lemma {:induction false} SortByStable<T(!new), K>(s: seq<T>, key: T -> K, le: (K, K) -> bool, tie: T -> bool)
    requires forall a, b :: tie(a) && tie(b) ==> le(key(a), key(b))
    ensures Filter(SortBy(s, key, le), tie) == Filter(s, tie)
  {
    if s != [] {
      SortByStable(s[1..], key, le, tie);
      InsertStable(s[0], SortBy(s[1..], key, le), key, le, tie);
    }
  }

  /**
   * `Dedup` lists first appearances in order: of two of its elements, the
   * earlier one occurs in `s` before any occurrence of the later one.
   */
  lemma {:induction false} DedupFirstAppearance<T(!new)>(s: seq<T>)
    ensures forall i, j :: 0 <= i < j < |Dedup(s)| ==>
      exists p :: 0 <= p < |s| && s[p] == Dedup(s)[i] && Dedup(s)[j] !in s[..p]
  {
    if s != [] {
      var init := s[..|s| - 1];
      var x := s[|s| - 1];
      assert s == init + [x];
      var d := Dedup(init);
      DedupFirstAppearance(init);
      var r := Dedup(s);
      assert r == if x in d then d else d + [x];
      forall i, j | 0 <= i < j < |r| ensures exists p :: 0 <= p < |s| && s[p] == r[i] && r[j] !in s[..p] {
        assert r[i] == d[i];
        if j < |d| {
          assert r[j] == d[j];
          assert exists p :: 0 <= p < |init| && init[p] == d[i] && d[j] !in init[..p];
          var p :| 0 <= p < |init| && init[p] == d[i] && d[j] !in init[..p];
          assert s[p] == init[p] && s[..p] == init[..p];
        } else {
          assert d[i] in init;
          var p :| 0 <= p < |init| && init[p] == d[i];
          assert s[p] == init[p] && s[..p] == init[..p];
          assert x !in init;
        }
      }
    } else {
      assert Dedup(s) == [];
    }
  }
}
