/**
 * Generic sequence operations shared by the statistics layer: filtering
 * (boolean masks and list comprehensions), counting, projections, sums,
 * a descending sort by a real-valued key and "sort then head(n)".
 *
 * pandas' sort_values is not stable, so nothing here promises an order
 * among elements whose keys tie: the sort is specified only as a
 * permutation that is ordered by non-increasing key.
 */
module Seqs {

  function Min(a: int, b: int): int { if a <= b then a else b }

  function Max(a: int, b: int): int { if a <= b then b else a }

  /** The elements of s that satisfy p, in their original order. */
  function Filter<T>(s: seq<T>, p: T -> bool): (r: seq<T>)
    ensures |r| <= |s|
    ensures forall x :: x in r ==> x in s && p(x)
    ensures forall i :: 0 <= i < |s| && p(s[i]) ==> s[i] in r
  {
    if s == [] then []
    else (if p(s[0]) then [s[0]] else []) + Filter(s[1..], p)
  }

  /** How many elements of s satisfy p (a boolean mask summed). */
  function Count<T>(s: seq<T>, p: T -> bool): nat
  {
    |Filter(s, p)|
  }

  /** Filtering distributes over concatenation, so it keeps the relative order of the kept elements. */
  lemma {:induction false} FilterAppend<T>(a: seq<T>, b: seq<T>, p: T -> bool)
    ensures Filter(a + b, p) == Filter(a, p) + Filter(b, p)
  {
    if a == [] {
      assert a + b == b;
    } else {
      assert (a + b)[0] == a[0];
      assert (a + b)[1..] == a[1..] + b;
      FilterAppend(a[1..], b, p);
    }
  }

  /** Filtering twice is filtering once by the conjunction. */
  lemma {:induction false} FilterFilter<T>(s: seq<T>, p: T -> bool, q: T -> bool, both: T -> bool)
    requires forall x :: both(x) == (p(x) && q(x))
    ensures Filter(Filter(s, p), q) == Filter(s, both)
  {
    if s != [] {
      FilterFilter(s[1..], p, q, both);
      var head := if p(s[0]) then [s[0]] else [];
      FilterAppend(head, Filter(s[1..], p), q);
      if p(s[0]) {
        assert [s[0]][1..] == [];
      }
    }
  }

  /** A weaker predicate keeps at least as many elements. */
  lemma {:induction false} CountMono<T>(s: seq<T>, p: T -> bool, q: T -> bool)
    requires forall x :: p(x) ==> q(x)
    ensures Count(s, p) <= Count(s, q)
  {
    if s != [] {
      CountMono(s[1..], p, q);
    }
  }

  /** An element and its complement split the sequence. */
  lemma {:induction false} CountComplement<T>(s: seq<T>, p: T -> bool, q: T -> bool)
    requires forall x :: q(x) == !p(x)
    ensures Count(s, p) + Count(s, q) == |s|
  {
    if s != [] {
      CountComplement(s[1..], p, q);
    }
  }

  /** The set of positions below n whose element satisfies p. */
  ghost function IndexSet<T>(s: seq<T>, p: T -> bool, n: nat): set<int>
    requires n <= |s|
  {
    set i | 0 <= i < n && p(s[i])
  }

  /** Extending a prefix by one element counts that element once if it satisfies p. */
  lemma CountStep<T>(s: seq<T>, p: T -> bool, n: nat)
    requires 0 < n <= |s|
    ensures Count(s[..n], p) == Count(s[..n - 1], p) + (if p(s[n - 1]) then 1 else 0)
  {
    assert s[..n] == s[..n - 1] + [s[n - 1]];
    FilterAppend(s[..n - 1], [s[n - 1]], p);
    assert [s[n - 1]][1..] == [];
  }

  /** Extending the range by one position adds that position if its element satisfies p. */
  lemma IndexSetStep<T>(s: seq<T>, p: T -> bool, n: nat)
    requires 0 < n <= |s|
    ensures |IndexSet(s, p, n)| == |IndexSet(s, p, n - 1)| + (if p(s[n - 1]) then 1 else 0)
  {
    var below := IndexSet(s, p, n - 1);
    if p(s[n - 1]) {
      assert IndexSet(s, p, n) == below + {n - 1};
      assert n - 1 !in below;
    } else {
      assert IndexSet(s, p, n) == below;
    }
  }

  /** Count agrees with the number of positions whose element satisfies p. */
  lemma {:induction false} CountIsIndexSetSize<T>(s: seq<T>, p: T -> bool, n: nat)
    requires n <= |s|
    ensures Count(s[..n], p) == |IndexSet(s, p, n)|
  {
    if n == 0 {
      assert IndexSet(s, p, 0) == {};
    } else {
      CountIsIndexSetSize(s, p, n - 1);
      CountStep(s, p, n);
      IndexSetStep(s, p, n);
    }
  }

  /** k is the first position of s whose element satisfies p. */
  ghost predicate IsFirstMatch<T>(s: seq<T>, p: T -> bool, k: int)
  {
    0 <= k < |s| && p(s[k]) && forall j :: 0 <= j < k ==> !p(s[j])
  }

  /** The head of a non-empty filter is the first element of s that satisfies p. */
  lemma {:induction false} FilterHead<T>(s: seq<T>, p: T -> bool)
    requires Filter(s, p) != []
    ensures exists k :: IsFirstMatch(s, p, k) && Filter(s, p)[0] == s[k]
  {
    if p(s[0]) {
      assert IsFirstMatch(s, p, 0);
    } else {
      FilterHead(s[1..], p);
      var k :| IsFirstMatch(s[1..], p, k) && Filter(s[1..], p)[0] == s[1..][k];
      assert IsFirstMatch(s, p, k + 1);
    }
  }

  /** The filter is non-empty exactly when some element satisfies p. */
  lemma FilterNonEmpty<T>(s: seq<T>, p: T -> bool)
    ensures Filter(s, p) != [] <==> exists k :: 0 <= k < |s| && p(s[k])
  {
    if Filter(s, p) != [] {
      assert Filter(s, p)[0] in Filter(s, p);
    }
  }

  /** Element-wise image of a sequence. */
  function MapSeq<T, U>(f: T -> U, s: seq<T>): (r: seq<U>)
    ensures |r| == |s|
    ensures forall i :: 0 <= i < |s| ==> r[i] == f(s[i])
  {
    if s == [] then [] else [f(s[0])] + MapSeq(f, s[1..])
  }

  /** Sum of f over the elements of s. */
  function SumBy<T>(s: seq<T>, f: T -> int): int
  {
    if s == [] then 0 else f(s[0]) + SumBy(s[1..], f)
  }

  lemma {:induction false} SumByAppend<T>(a: seq<T>, b: seq<T>, f: T -> int)
    ensures SumBy(a + b, f) == SumBy(a, f) + SumBy(b, f)
  {
    if a == [] {
      assert a + b == b;
    } else {
      assert (a + b)[1..] == a[1..] + b;
      SumByAppend(a[1..], b, f);
    }
  }

  lemma {:induction false} SumByNonNegative<T>(s: seq<T>, f: T -> int)
    requires forall x :: x in s ==> f(x) >= 0
    ensures SumBy(s, f) >= 0
  {
    if s != [] {
      assert forall x :: x in s[1..] ==> x in s;
      SumByNonNegative(s[1..], f);
    }
  }

  /** No element occurs twice. */
  ghost predicate NoDup<T>(s: seq<T>)
  {
    forall i, j :: 0 <= i < j < |s| ==> s[i] != s[j]
  }

  /** A sequence without repetitions holds every element at most once in its multiset. */
  lemma {:induction false} NoDupMultiplicity<T>(s: seq<T>, x: T)
    requires NoDup(s)
    ensures multiset(s)[x] <= 1
  {
    if s != [] {
      assert s == [s[0]] + s[1..];
      assert NoDup(s[1..]) by {
        forall i, j | 0 <= i < j < |s[1..]| ensures s[1..][i] != s[1..][j] {
          assert s[1..][i] == s[i + 1] && s[1..][j] == s[j + 1];
        }
      }
      NoDupMultiplicity(s[1..], x);
      if s[0] == x {
        assert x !in s[1..];
      }
    }
  }

  /** Every selection of the elements of a sequence without repetitions is without repetitions. */
  lemma NoDupSubMultiset<T>(a: seq<T>, b: seq<T>)
    requires NoDup(a) && multiset(b) <= multiset(a)
    ensures NoDup(b)
  {
    forall i, j | 0 <= i < j < |b| ensures b[i] != b[j] {
      if b[i] == b[j] {
        var x := b[i];
        assert b == b[..j] + b[j..];
        assert x in b[..j] && x in b[j..];
        assert multiset(b)[x] == multiset(b[..j])[x] + multiset(b[j..])[x];
        NoDupMultiplicity(a, x);
      }
    }
  }

  /** Filtering a sequence without repetitions leaves one without repetitions. */
  lemma {:induction false} FilterNoDup<T>(s: seq<T>, p: T -> bool)
    requires NoDup(s)
    ensures NoDup(Filter(s, p))
  {
    if s != [] {
      assert NoDup(s[1..]) by {
        forall i, j | 0 <= i < j < |s[1..]| ensures s[1..][i] != s[1..][j] {
          assert s[1..][i] == s[i + 1] && s[1..][j] == s[j + 1];
        }
      }
      FilterNoDup(s[1..], p);
      var rest := Filter(s[1..], p);
      if p(s[0]) {
        assert s[0] !in rest;
        forall i, j | 0 <= i < j < |[s[0]] + rest| ensures ([s[0]] + rest)[i] != ([s[0]] + rest)[j] {
          if i == 0 {
            assert ([s[0]] + rest)[j] == rest[j - 1];
          } else {
            assert ([s[0]] + rest)[i] == rest[i - 1] && ([s[0]] + rest)[j] == rest[j - 1];
          }
        }
      } else {
        assert Filter(s, p) == rest;
      }
    }
  }

  /** A permutation has the same members. */
  lemma PermutationMembers<T>(a: seq<T>, b: seq<T>)
    requires multiset(a) == multiset(b)
    ensures forall x :: x in b ==> x in a
  {
    forall x | x in b ensures x in a {
      assert x in multiset(b);
    }
  }

  /** s is ordered by non-increasing key. */
  ghost predicate SortedDesc<T>(s: seq<T>, key: T -> real)
  {
    forall i, j :: 0 <= i < j < |s| ==> key(s[i]) >= key(s[j])
  }

  /** Prepending an element whose key bounds the rest keeps the order. */
  lemma SortedCons<T>(a: T, s: seq<T>, key: T -> real)
    requires SortedDesc(s, key)
    requires forall y :: y in s ==> key(a) >= key(y)
    ensures SortedDesc([a] + s, key)
  {
    forall i, j | 0 <= i < j < |[a] + s| ensures key(([a] + s)[i]) >= key(([a] + s)[j]) {
      assert ([a] + s)[j] == s[j - 1];
      if i > 0 {
        assert ([a] + s)[i] == s[i - 1];
      }
    }
  }

  /** A bound on the keys of s and of x bounds every element of a sequence holding s and x. */
  lemma BoundByMultiset<T>(r: seq<T>, s: seq<T>, x: T, key: T -> real, b: real)
    requires multiset(r) == multiset(s) + multiset{x}
    requires key(x) <= b && forall y :: y in s ==> key(y) <= b
    ensures forall y :: y in r ==> key(y) <= b
  {
    forall y | y in r ensures key(y) <= b {
      assert y in multiset(r);
      assert y == x || y in multiset(s);
    }
  }

  /** Inserts x into a sequence sorted by non-increasing key. */
  function Insert<T>(x: T, s: seq<T>, key: T -> real): (r: seq<T>)
    requires SortedDesc(s, key)
    ensures |r| == |s| + 1
    ensures SortedDesc(r, key)
    ensures multiset(r) == multiset(s) + multiset{x}
  {
    if s == [] || key(x) >= key(s[0]) then
      SortedCons(x, s, key);
      [x] + s
    else
      var rest := Insert(x, s[1..], key);
      assert s == [s[0]] + s[1..];
      BoundByMultiset(rest, s[1..], x, key, key(s[0]));
      SortedCons(s[0], rest, key);
      [s[0]] + rest
  }

  /** Sorts s by non-increasing key (insertion sort). */
  function SortDesc<T>(s: seq<T>, key: T -> real): (r: seq<T>)
    ensures |r| == |s|
    ensures SortedDesc(r, key)
    ensures multiset(r) == multiset(s)
  {
    if s == [] then []
    else
      assert s == [s[0]] + s[1..];
      Insert(s[0], SortDesc(s[1..], key), key)
  }

  /** Inserting x adds f(x) to the sum of f. */
  lemma {:induction false} InsertSum<T>(x: T, s: seq<T>, key: T -> real, f: T -> int)
    requires SortedDesc(s, key)
    ensures SumBy(Insert(x, s, key), f) == f(x) + SumBy(s, f)
  {
    if s == [] || key(x) >= key(s[0]) {
      assert ([x] + s)[1..] == s;
    } else {
      InsertSum(x, s[1..], key, f);
      assert ([s[0]] + Insert(x, s[1..], key))[1..] == Insert(x, s[1..], key);
    }
  }

  /** Sorting does not change a sum over the elements. */
  lemma {:induction false} SortSum<T>(s: seq<T>, key: T -> real, f: T -> int)
    ensures SumBy(SortDesc(s, key), f) == SumBy(s, f)
  {
    if s != [] {
      SortSum(s[1..], key, f);
      InsertSum(s[0], SortDesc(s[1..], key), key, f);
    }
  }

  /** Inserting x adds f(x) to the multiset of images. */
  lemma {:induction false} InsertMap<T, U>(x: T, s: seq<T>, key: T -> real, f: T -> U)
    requires SortedDesc(s, key)
    ensures multiset(MapSeq(f, Insert(x, s, key))) == multiset(MapSeq(f, s)) + multiset{f(x)}
  {
    if s == [] || key(x) >= key(s[0]) {
      assert ([x] + s)[1..] == s;
      assert MapSeq(f, [x] + s) == [f(x)] + MapSeq(f, s);
    } else {
      var rest := Insert(x, s[1..], key);
      InsertMap(x, s[1..], key, f);
      assert ([s[0]] + rest)[1..] == rest;
      assert MapSeq(f, [s[0]] + rest) == [f(s[0])] + MapSeq(f, rest);
      assert MapSeq(f, s) == [f(s[0])] + MapSeq(f, s[1..]);
    }
  }

  /** Sorting permutes the images of the elements too. */
  lemma {:induction false} SortMap<T, U>(s: seq<T>, key: T -> real, f: T -> U)
    ensures multiset(MapSeq(f, SortDesc(s, key))) == multiset(MapSeq(f, s))
  {
    if s != [] {
      SortMap(s[1..], key, f);
      InsertMap(s[0], SortDesc(s[1..], key), key, f);
      assert MapSeq(f, s) == [f(s[0])] + MapSeq(f, s[1..]);
    }
  }

  /** A prefix of a sorted sequence is sorted and is part of the whole. */
  lemma PrefixSorted<T>(q: seq<T>, key: T -> real, m: nat)
    requires SortedDesc(q, key) && m <= |q|
    ensures SortedDesc(q[..m], key)
    ensures multiset(q[..m]) <= multiset(q)
    ensures forall x :: x in q[..m] ==> x in q
  {
    assert q == q[..m] + q[m..];
    assert multiset(q) == multiset(q[..m]) + multiset(q[m..]);
  }

  /** Whatever a prefix of a sorted sequence leaves out has a key no larger than anything it keeps. */
  lemma PrefixDominates<T>(q: seq<T>, key: T -> real, m: nat)
    requires SortedDesc(q, key) && m <= |q|
    ensures forall x, y :: x in q[..m] && y in multiset(q) - multiset(q[..m]) ==> key(y) <= key(x)
  {
    assert q == q[..m] + q[m..];
    assert multiset(q) == multiset(q[..m]) + multiset(q[m..]);
    forall x, y | x in q[..m] && y in multiset(q) - multiset(q[..m]) ensures key(y) <= key(x) {
      assert y in q[m..];
      var i :| 0 <= i < m && q[i] == x;
      var j :| 0 <= j < |q| - m && q[m..][j] == y;
      assert q[m + j] == y;
    }
  }

  /**
   * "sort_values(key, ascending=False).head(n)": the n elements of largest
   * key, in non-increasing key order.
   */
  function TopN<T>(s: seq<T>, key: T -> real, n: nat): (r: seq<T>)
    ensures |r| == Min(n, |s|)
    ensures SortedDesc(r, key)
    ensures multiset(r) <= multiset(s)
    ensures forall x :: x in r ==> x in s
    ensures forall x, y :: x in r && y in multiset(s) - multiset(r) ==> key(y) <= key(x)
  {
    var q := SortDesc(s, key);
    var m := Min(n, |s|);
    PrefixSorted(q, key, m);
    PrefixDominates(q, key, m);
    PermutationMembers(s, q);
    q[..m]
  }

  /** An element left out of a top-n selection has a key no larger than any element kept. */
  lemma TopNDominates<T>(s: seq<T>, key: T -> real, n: nat, x: T, y: T)
    requires x in TopN(s, key, n) && y in s && y !in TopN(s, key, n)
    ensures key(y) <= key(x)
  {
    assert y in multiset(s) - multiset(TopN(s, key, n));
  }

  /** The images of a top-n selection are found among the images of the input. */
  lemma TopNMap<T, U>(s: seq<T>, key: T -> real, n: nat, f: T -> U)
    ensures multiset(MapSeq(f, TopN(s, key, n))) <= multiset(MapSeq(f, s))
  {
    var q := SortDesc(s, key);
    var m := Min(n, |s|);
    SortMap(s, key, f);
    assert q == q[..m] + q[m..];
    assert MapSeq(f, q) == MapSeq(f, q[..m]) + MapSeq(f, q[m..]);
    assert multiset(MapSeq(f, q)) == multiset(MapSeq(f, q[..m])) + multiset(MapSeq(f, q[m..]));
  }

  /** A top-n selection of non-negative terms does not sum to more than the whole. */
  lemma TopNSum<T>(s: seq<T>, key: T -> real, n: nat, f: T -> int)
    requires forall x :: x in s ==> f(x) >= 0
    ensures SumBy(TopN(s, key, n), f) <= SumBy(s, f)
  {
    var q := SortDesc(s, key);
    var m := Min(n, |s|);
    SortSum(s, key, f);
    assert q == q[..m] + q[m..];
    SumByAppend(q[..m], q[m..], f);
    assert forall x :: x in q[m..] ==> x in multiset(s);
    SumByNonNegative(q[m..], f);
  }
}
