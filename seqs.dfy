/** Generic sequence operations the Kotlin collection library provides to the
    time-record engine: the stable `sortedBy`, `filter`, `groupBy` and
    `sumOf`, written out as functions with the facts the rest of the model
    needs about them. */
module Seqs {

  /** Concatenation regroups freely. */
  lemma AppendAssoc<T>(a: seq<T>, b: seq<T>, c: seq<T>)
    ensures (a + b) + c == a + (b + c)
  {
  }

  /** `s` is in ascending order of `key`. */
  ghost predicate SortedBy<T>(s: seq<T>, key: T -> int)
  {
    forall i, j :: 0 <= i < j < |s| ==> key(s[i]) <= key(s[j])
  }

  /** Inserts `x` in front of the first element whose key is not smaller:
      the insertion step of a stable insertion sort. */
  function InsertBy<T>(x: T, s: seq<T>, key: T -> int): (r: seq<T>)
    ensures |r| == |s| + 1
    ensures multiset(r) == multiset(s) + multiset{x}
  {
    if s == [] || key(x) <= key(s[0]) then [x] + s
    else
      assert s == [s[0]] + s[1..];
      [s[0]] + InsertBy(x, s[1..], key)
  }

  /** A lower bound on the keys of `x` and of `s` bounds the keys of the
      result of inserting `x`. */
  lemma {:induction false} InsertByLower<T>(x: T, s: seq<T>, key: T -> int, lo: int)
    requires lo <= key(x) && forall i :: 0 <= i < |s| ==> lo <= key(s[i])
    ensures forall i :: 0 <= i < |InsertBy(x, s, key)| ==> lo <= key(InsertBy(x, s, key)[i])
  {
    if s != [] && key(x) > key(s[0]) {
      InsertByLower(x, s[1..], key, lo);
      var t := InsertBy(x, s[1..], key);
      assert InsertBy(x, s, key) == [s[0]] + t;
    }
  }

  /** Inserting into a sorted sequence keeps it sorted. */
  lemma {:induction false} InsertBySorted<T>(x: T, s: seq<T>, key: T -> int)
    requires SortedBy(s, key)
    ensures SortedBy(InsertBy(x, s, key), key)
  {
    if s != [] && key(x) > key(s[0]) {
      assert SortedBy(s[1..], key);
      InsertBySorted(x, s[1..], key);
      InsertByLower(x, s[1..], key, key(s[0]));
      var t := InsertBy(x, s[1..], key);
      var r := [s[0]] + t;
      assert InsertBy(x, s, key) == r;
      forall i, j | 0 <= i < j < |r| ensures key(r[i]) <= key(r[j]) {
        assert r[j] == t[j - 1];
        if i > 0 {
          assert r[i] == t[i - 1];
        }
      }
    }
  }

  /** Kotlin's `sortedBy`: a stable sort in ascending order of `key` (its
      order is `SortByIsSorted`). */
  function SortBy<T>(s: seq<T>, key: T -> int): (r: seq<T>)
    ensures |r| == |s|
    ensures multiset(r) == multiset(s)
  {
    if s == [] then []
    else
      var t := SortBy(s[1..], key);
      assert s == [s[0]] + s[1..];
      InsertBy(s[0], t, key)
  }

  /** The result of `SortBy` is in ascending order of the key. */
  lemma {:induction false} SortByIsSorted<T>(s: seq<T>, key: T -> int)
    ensures SortedBy(SortBy(s, key), key)
  {
    if s != [] {
      SortByIsSorted(s[1..], key);
      InsertBySorted(s[0], SortBy(s[1..], key), key);
    }
  }

  /** Sorting a sequence that is already in order changes nothing. */
  lemma {:induction false} SortBySorted<T>(s: seq<T>, key: T -> int)
    requires SortedBy(s, key)
    ensures SortBy(s, key) == s
  {
    if s != [] {
      assert SortedBy(s[1..], key);
      SortBySorted(s[1..], key);
    }
  }

  /** Sorting twice is sorting once. */
  lemma SortByIdempotent<T>(s: seq<T>, key: T -> int)
    ensures SortBy(SortBy(s, key), key) == SortBy(s, key)
  {
    SortByIsSorted(s, key);
    SortBySorted(SortBy(s, key), key);
  }

  /** The elements of `s` that have key `k`, in their original order. */
  function WithKey<T>(s: seq<T>, key: T -> int, k: int): (r: seq<T>)
    ensures |r| <= |s|
    ensures forall x :: x in r ==> x in s && key(x) == k
  {
    if s == [] then []
    else if key(s[0]) == k then [s[0]] + WithKey(s[1..], key, k)
    else WithKey(s[1..], key, k)
  }

  /** The elements of `s` whose key is not `k`, in their original order. */
  function WithoutKey<T>(s: seq<T>, key: T -> int, k: int): (r: seq<T>)
    ensures |r| <= |s|
    ensures forall x :: x in r ==> x in s && key(x) != k
  {
    if s == [] then []
    else if key(s[0]) != k then [s[0]] + WithoutKey(s[1..], key, k)
    else WithoutKey(s[1..], key, k)
  }

  /** The elements of `s` for which `p` holds, in their original order. */
  function Filter<T>(s: seq<T>, p: T -> bool): (r: seq<T>)
    ensures |r| <= |s|
    ensures forall x :: x in r ==> x in s && p(x)
    ensures forall i :: 0 <= i < |s| && p(s[i]) ==> s[i] in r
    ensures (forall x :: x in s ==> p(x)) ==> r == s
  {
    if s == [] then []
    else if p(s[0]) then [s[0]] + Filter(s[1..], p)
    else Filter(s[1..], p)
  }

  /** Filtering distributes over concatenation. */
  lemma {:induction false} FilterConcat<T>(a: seq<T>, b: seq<T>, p: T -> bool)
    ensures Filter(a + b, p) == Filter(a, p) + Filter(b, p)
  {
    if a == [] {
      assert a + b == b;
    } else {
      assert (a + b)[0] == a[0];
      assert (a + b)[1..] == a[1..] + b;
      FilterConcat(a[1..], b, p);
    }
  }

  /** One group of Kotlin's `groupBy`: a key and the elements that have it. */
  datatype Group<T> = Group(key: int, members: seq<T>)

  /** Kotlin's `groupBy`: one group per distinct key, keys in order of first
      occurrence, each group's elements in their original order. */
  function GroupBy<T>(s: seq<T>, key: T -> int): (r: seq<Group<T>>)
    ensures forall g :: g in r ==> g.members != [] && forall x :: x in g.members ==> key(x) == g.key
    decreases |s|
  {
    if s == [] then []
    else
      var k := key(s[0]);
      [Group(k, WithKey(s, key, k))] + GroupBy(WithoutKey(s, key, k), key)
  }

  /** The keys of a list of groups, in order. */
  function Keys<T>(gs: seq<Group<T>>): (r: seq<int>)
    ensures |r| == |gs|
    ensures forall i :: 0 <= i < |gs| ==> r[i] == gs[i].key
  {
    if gs == [] then [] else [gs[0].key] + Keys(gs[1..])
  }

  /** No value occurs twice in `s`. */
  ghost predicate Distinct(s: seq<int>)
  {
    forall i, j :: 0 <= i < j < |s| ==> s[i] != s[j]
  }

  /** Keeping key `k` of the elements whose key is not `k'` is keeping key
      `k` when `k != k'`. */
  lemma {:induction false} WithKeyWithoutKey<T>(s: seq<T>, key: T -> int, k: int, k': int)
    requires k != k'
    ensures WithKey(WithoutKey(s, key, k'), key, k) == WithKey(s, key, k)
  {
    if s != [] {
      WithKeyWithoutKey(s[1..], key, k, k');
    }
  }

  /** No element of `s` has key `k`, so `WithKey` finds nothing. */
  lemma {:induction false} WithKeyAbsent<T>(s: seq<T>, key: T -> int, k: int)
    requires forall x :: x in s ==> key(x) != k
    ensures WithKey(s, key, k) == []
  {
    if s != [] {
      WithKeyAbsent(s[1..], key, k);
    }
  }

  /** The groups of `groupBy`: their keys are exactly the keys that occur in
      `s`, each once, and each group holds every element of `s` with its key,
      in the original order. */
  lemma GroupByShape<T>(s: seq<T>, key: T -> int)
    ensures Distinct(Keys(GroupBy(s, key)))
    ensures forall k :: k in Keys(GroupBy(s, key)) <==> exists x :: x in s && key(x) == k
    ensures forall g :: g in GroupBy(s, key) ==> g.members == WithKey(s, key, g.key)
  {
    GroupByKeys(s, key);
    GroupByDistinct(s, key);
    GroupByMembers(s, key);
  }

  /** The keys of the groups are the keys that occur in `s`. */
  lemma {:induction false} GroupByKeys<T>(s: seq<T>, key: T -> int)
    ensures forall k :: k in Keys(GroupBy(s, key)) <==> exists x :: x in s && key(x) == k
    decreases |s|
  {
    if s != [] {
      var k := key(s[0]);
      var rest := WithoutKey(s, key, k);
      GroupByKeys(rest, key);
      var gs := GroupBy(s, key);
      var tail := Keys(GroupBy(rest, key));
      assert Keys(gs) == [k] + tail;
      forall k' | k' in Keys(gs)
        ensures exists x :: x in s && key(x) == k'
      {
        if k' == k {
          assert s[0] in s;
        } else {
          assert k' in tail;
          var x :| x in rest && key(x) == k';
          assert x in s;
        }
      }
      forall k' | exists x :: x in s && key(x) == k'
        ensures k' in Keys(gs)
      {
        var x :| x in s && key(x) == k';
        if k' != k {
          WithoutKeyKeeps(s, key, k, x);
        }
      }
    }
  }

  /** Each key has one group. */
  lemma {:induction false} GroupByDistinct<T>(s: seq<T>, key: T -> int)
    ensures Distinct(Keys(GroupBy(s, key)))
    decreases |s|
  {
    if s != [] {
      var k := key(s[0]);
      var rest := WithoutKey(s, key, k);
      GroupByDistinct(rest, key);
      GroupByKeys(rest, key);
      var tail := Keys(GroupBy(rest, key));
      assert Keys(GroupBy(s, key)) == [k] + tail;
      forall j | 0 <= j < |tail|
        ensures tail[j] != k
      {
        assert tail[j] in tail;
      }
    }
  }

  /** Each group holds every element of `s` with its key, in order. */
  lemma {:induction false} GroupByMembers<T>(s: seq<T>, key: T -> int)
    ensures forall g :: g in GroupBy(s, key) ==> g.members == WithKey(s, key, g.key)
    decreases |s|
  {
    if s != [] {
      var k := key(s[0]);
      var rest := WithoutKey(s, key, k);
      GroupByMembers(rest, key);
      GroupByKeys(rest, key);
      assert GroupBy(s, key) == [Group(k, WithKey(s, key, k))] + GroupBy(rest, key);
      forall g | g in GroupBy(rest, key)
        ensures g.members == WithKey(s, key, g.key)
      {
        assert g.key in Keys(GroupBy(rest, key));
        WithKeyWithoutKey(s, key, g.key, k);
      }
    }
  }

  /** An element whose key is not `k` survives `WithoutKey`. */
  lemma {:induction false} WithoutKeyKeeps<T>(s: seq<T>, key: T -> int, k: int, x: T)
    requires x in s && key(x) != k
    ensures x in WithoutKey(s, key, k)
  {
    if s[0] != x {
      WithoutKeyKeeps(s[1..], key, k, x);
    }
  }

  /** Kotlin's `sumOf`. */
  function SumBy<T>(s: seq<T>, f: T -> int): int
  {
    if s == [] then 0 else f(s[0]) + SumBy(s[1..], f)
  }

  /** A sum over a concatenation is the sum of the two sums. */
  lemma {:induction false} SumByConcat<T>(a: seq<T>, b: seq<T>, f: T -> int)
    ensures SumBy(a + b, f) == SumBy(a, f) + SumBy(b, f)
  {
    if a == [] {
      assert a + b == b;
    } else {
      assert (a + b)[0] == a[0];
      assert (a + b)[1..] == a[1..] + b;
      SumByConcat(a[1..], b, f);
    }
  }

  /** A sum does not depend on the order of its terms. */
  lemma {:induction false} SumByPermutation<T>(a: seq<T>, b: seq<T>, f: T -> int)
    requires multiset(a) == multiset(b)
    ensures SumBy(a, f) == SumBy(b, f)
    decreases |a|
  {
    if a != [] {
      var x := a[0];
      assert x in multiset(b);
      var k :| 0 <= k < |b| && b[k] == x;
      var rest := b[..k] + b[k + 1..];
      RemoveAt(b, k, f);
      assert a == [x] + a[1..];
      assert multiset(a[1..]) == multiset(a) - multiset{x};
      SumByPermutation(a[1..], rest, f);
    }
  }

  /** Taking out the element at `k` takes it out of the multiset and its
      term out of the sum. */
  lemma RemoveAt<T>(b: seq<T>, k: nat, f: T -> int)
    requires k < |b|
    ensures multiset(b[..k] + b[k + 1..]) == multiset(b) - multiset{b[k]}
    ensures SumBy(b, f) == f(b[k]) + SumBy(b[..k] + b[k + 1..], f)
  {
    RemoveAtMultiset(b, k);
    RemoveAtSum(b, k, f);
  }

  /** The multiset half of `RemoveAt`. */
  lemma RemoveAtMultiset<T>(b: seq<T>, k: nat)
    requires k < |b|
    ensures multiset(b[..k] + b[k + 1..]) == multiset(b) - multiset{b[k]}
  {
    var pre, post := b[..k], b[k + 1..];
    assert b == pre + [b[k]] + post;
    assert multiset(b) == multiset(pre) + multiset{b[k]} + multiset(post);
  }

  /** The sum half of `RemoveAt`. */
  lemma RemoveAtSum<T>(b: seq<T>, k: nat, f: T -> int)
    requires k < |b|
    ensures SumBy(b, f) == f(b[k]) + SumBy(b[..k] + b[k + 1..], f)
  {
    var pre, post := b[..k], b[k + 1..];
    var tail := [b[k]] + post;
    assert b == pre + tail;
    assert tail[0] == b[k] && tail[1..] == post;
    assert SumBy(tail, f) == f(b[k]) + SumBy(post, f);
    SumByConcat(pre, tail, f);
    SumByConcat(pre, post, f);
  }

  /** In a sequence of distinct values every value occurs at most once. */
  lemma {:induction false} DistinctMultiplicity(a: seq<int>, x: int)
    requires Distinct(a)
    ensures multiset(a)[x] == if x in a then 1 else 0
  {
    if a != [] {
      assert a == [a[0]] + a[1..];
      assert Distinct(a[1..]);
      DistinctMultiplicity(a[1..], x);
      if x == a[0] {
        assert x !in a[1..];
      }
    }
  }

  /** Two sequences of distinct values with the same elements are
      permutations of each other. */
  lemma DistinctSameSet(a: seq<int>, b: seq<int>)
    requires Distinct(a) && Distinct(b)
    requires forall x :: x in a <==> x in b
    ensures multiset(a) == multiset(b)
  {
    forall x ensures multiset(a)[x] == multiset(b)[x] {
      DistinctMultiplicity(a, x);
      DistinctMultiplicity(b, x);
    }
  }

  /** Filtering commutes with the stable insertion step when the sequence
      inserted into is sorted. */
  lemma {:induction false} WithKeyInsertBy<T>(x: T, s: seq<T>, key: T -> int, day: T -> int, k: int)
    requires SortedBy(s, key)
    ensures WithKey(InsertBy(x, s, key), day, k)
         == if day(x) == k then InsertBy(x, WithKey(s, day, k), key) else WithKey(s, day, k)
  {
    if s == [] || key(x) <= key(s[0]) {
      WithKeyInsertFront(x, s, key, day, k);
    } else {
      var u := InsertBy(x, s[1..], key);
      assert InsertBy(x, s, key) == [s[0]] + u;
      assert ([s[0]] + u)[1..] == u;
      assert SortedBy(s[1..], key);
      WithKeyInsertBy(x, s[1..], key, day, k);
      if day(s[0]) == k {
        assert WithKey(s, day, k) == [s[0]] + WithKey(s[1..], day, k);
        if day(x) == k {
          var t := WithKey(s[1..], day, k);
          assert InsertBy(x, [s[0]] + t, key) == [s[0]] + InsertBy(x, t, key) by {
            assert ([s[0]] + t)[0] == s[0];
            assert ([s[0]] + t)[1..] == t;
          }
        }
      } else {
        assert WithKey(s, day, k) == WithKey(s[1..], day, k);
      }
    }
  }

  /** The case of `WithKeyInsertBy` where `x` goes in front. */
  lemma WithKeyInsertFront<T>(x: T, s: seq<T>, key: T -> int, day: T -> int, k: int)
    requires SortedBy(s, key)
    requires s == [] || key(x) <= key(s[0])
    ensures WithKey(InsertBy(x, s, key), day, k)
         == if day(x) == k then InsertBy(x, WithKey(s, day, k), key) else WithKey(s, day, k)
  {
    assert InsertBy(x, s, key) == [x] + s;
    assert ([x] + s)[1..] == s;
    if day(x) == k {
      var t := WithKey(s, day, k);
      if t != [] {
        WithKeyLower(s, key, day, k, key(x));
      }
    }
  }

  /** A lower bound on the keys of `s` bounds the keys of any of its
      filterings by `day`. */
  lemma {:induction false} WithKeyLower<T>(s: seq<T>, key: T -> int, day: T -> int, k: int, lo: int)
    requires forall i :: 0 <= i < |s| ==> lo <= key(s[i])
    ensures forall i :: 0 <= i < |WithKey(s, day, k)| ==> lo <= key(WithKey(s, day, k)[i])
  {
    if s != [] {
      WithKeyLower(s[1..], key, day, k, lo);
      if day(s[0]) == k {
        assert WithKey(s, day, k) == [s[0]] + WithKey(s[1..], day, k);
      }
    }
  }

  /** Keeping the elements with one key commutes with the stable sort:
      the order `groupBy` leaves inside a group does not depend on whether
      the sequence was sorted before or after grouping. */
  lemma {:induction false} WithKeySortBy<T>(s: seq<T>, key: T -> int, day: T -> int, k: int)
    ensures WithKey(SortBy(s, key), day, k) == SortBy(WithKey(s, day, k), key)
  {
    if s != [] {
      WithKeySortBy(s[1..], key, day, k);
      SortByIsSorted(s[1..], key);
      WithKeyInsertBy(s[0], SortBy(s[1..], key), key, day, k);
    }
  }

  /** `k` is the last position of `s` holding its largest key. */
  ghost predicate IsLastMax<T>(s: seq<T>, key: T -> int, k: int)
  {
    0 <= k < |s|
    && (forall i :: 0 <= i < |s| ==> key(s[i]) <= key(s[k]))
    && (forall i :: k < i < |s| ==> key(s[i]) < key(s[k]))
  }

  /** Inserting a key larger than every key of `t` appends it. */
  lemma {:induction false} InsertByEnd<T>(x: T, t: seq<T>, key: T -> int)
    requires forall i :: 0 <= i < |t| ==> key(t[i]) < key(x)
    ensures InsertBy(x, t, key) == t + [x]
  {
    if t != [] {
      InsertByEnd(x, t[1..], key);
      assert t == [t[0]] + t[1..];
    }
  }

  /** Inserting a key no larger than the last key of `t` keeps that last
      element last. */
  lemma {:induction false} InsertByLast<T>(x: T, t: seq<T>, key: T -> int)
    requires t != [] && key(x) <= key(t[|t| - 1])
    ensures InsertBy(x, t, key)[|t|] == t[|t| - 1]
  {
    if key(x) > key(t[0]) {
      assert |t| > 1;
      InsertByLast(x, t[1..], key);
    }
  }

  /** The last element of the stable sort is the last occurrence of the
      largest key. */
  lemma {:induction false} SortByLast<T>(s: seq<T>, key: T -> int) returns (k: int)
    requires s != []
    ensures IsLastMax(s, key, k) && SortBy(s, key)[|s| - 1] == s[k]
  {
    var rest := s[1..];
    if rest == [] {
      assert SortBy(rest, key) == [];
      assert SortBy(s, key) == InsertBy(s[0], [], key) == [s[0]];
      k := 0;
    } else {
      var k' := SortByLast(rest, key);
      k := SortByLastStep(s, key, k');
    }
  }

  /** The inductive step of `SortByLast`: the first element either beats
      the latest of the rest and ends up last, or it does not and the rest's
      latest stays last. */
  lemma SortByLastStep<T>(s: seq<T>, key: T -> int, k': int) returns (k: int)
    requires |s| > 1 && IsLastMax(s[1..], key, k') && SortBy(s[1..], key)[|s| - 2] == s[1..][k']
    ensures IsLastMax(s, key, k) && SortBy(s, key)[|s| - 1] == s[k]
  {
    assert SortBy(s, key) == InsertBy(s[0], SortBy(s[1..], key), key);
    if key(s[0]) > key(s[1..][k']) {
      SortByLastNew(s, key, k');
      k := 0;
    } else {
      SortByLastOld(s, key, k');
      k := k' + 1;
    }
  }

  /** The step of `SortByLast` where the first element has a key larger than
      all the others: it ends up last. */
  lemma SortByLastNew<T>(s: seq<T>, key: T -> int, k': int)
    requires |s| > 1 && IsLastMax(s[1..], key, k') && key(s[0]) > key(s[1..][k'])
    ensures IsLastMax(s, key, 0) && InsertBy(s[0], SortBy(s[1..], key), key)[|s| - 1] == s[0]
  {
    var rest := s[1..];
    var t := SortBy(rest, key);
    forall i | 0 <= i < |t| ensures key(t[i]) < key(s[0]) {
      assert t[i] in multiset(rest);
      var j :| 0 <= j < |rest| && rest[j] == t[i];
    }
    InsertByEnd(s[0], t, key);
  }

  /** The step of `SortByLast` where some later element has a key at least as
      large as the first: the last maximum of the tail stays last. */
  lemma SortByLastOld<T>(s: seq<T>, key: T -> int, k': int)
    requires |s| > 1 && IsLastMax(s[1..], key, k') && key(s[0]) <= key(s[1..][k'])
    requires SortBy(s[1..], key)[|s| - 2] == s[1..][k']
    ensures IsLastMax(s, key, k' + 1)
    ensures InsertBy(s[0], SortBy(s[1..], key), key)[|s| - 1] == s[k' + 1]
  {
    var t := SortBy(s[1..], key);
    assert |t| == |s| - 1 && t[|t| - 1] == s[k' + 1];
    InsertByLast(s[0], t, key);
  }
}
