/**
 Wrappers and sequence helpers shared by every module of the model:
 optional values, results with an error, distinctness, sums over a
 sequence and first-index lookup by a key (the model's stand-in for the
 source's insertion-ordered `Map`).
 */
module Basics {

  /** A value that may be absent (the source's `null` / `undefined`). */
  datatype Option<T> = None | Some(value: T)

  /** Either a value or an error code (the source's thrown `Error`s). */
  datatype Result<T, E> = Ok(value: T) | Err(error: E)

  function Min(a: int, b: int): int { if a <= b then a else b }

  function Max(a: int, b: int): int { if a >= b then a else b }

  /** No element occurs twice. */
  predicate Distinct<T(==)>(s: seq<T>) {
    forall i, j :: 0 <= i < j < |s| ==> s[i] != s[j]
  }

  /* In a sequence without repetitions every value occurs at most once. */
  lemma {:induction false} DistinctCountAtMostOne<T>(s: seq<T>, x: T)
    requires Distinct(s)
    ensures multiset(s)[x] <= 1
  {
    if |s| > 0 {
      assert s == [s[0]] + s[1..];
      assert Distinct(s[1..]) by {
        forall i, j | 0 <= i < j < |s[1..]| ensures s[1..][i] != s[1..][j] {
          assert s[1..][i] == s[i + 1] && s[1..][j] == s[j + 1];
        }
      }
      DistinctCountAtMostOne(s[1..], x);
      if s[0] == x {
        assert x !in s[1..] by {
          forall j | 0 <= j < |s[1..]| ensures s[1..][j] != x {
            assert s[1..][j] == s[j + 1];
          }
        }
      }
    }
  }

  lemma DistinctTail<T>(s: seq<T>)
    requires Distinct(s) && |s| > 0
    ensures Distinct(s[1..]) && s[0] !in s[1..]
  {
    assert forall i :: 0 <= i < |s[1..]| ==> s[1..][i] == s[i + 1];
  }

  /* A value at two different positions occurs at least twice. */
  lemma RepeatedCountsTwice<T>(s: seq<T>, i: nat, j: nat)
    requires i < j < |s| && s[i] == s[j]
    ensures multiset(s)[s[i]] >= 2
  {
    assert s == s[..i] + [s[i]] + s[i + 1..j] + [s[j]] + s[j + 1..];
  }

  /* A sequence in which every value occurs at most once has no repetitions;
     with DistinctCountAtMostOne, distinctness depends only on the multiset. */
  lemma CountAtMostOneDistinct<T>(s: seq<T>)
    requires forall x :: multiset(s)[x] <= 1
    ensures Distinct(s)
  {
    forall i, j | 0 <= i < j < |s| ensures s[i] != s[j] {
      if s[i] == s[j] {
        RepeatedCountsTwice(s, i, j);
      }
    }
  }

  /* A permutation of a sequence without repetitions has none either. */
  lemma DistinctPermutation<T>(a: seq<T>, b: seq<T>)
    requires Distinct(a) && multiset(a) == multiset(b)
    ensures Distinct(b)
  {
    forall x ensures multiset(b)[x] <= 1 {
      DistinctCountAtMostOne(a, x);
    }
    CountAtMostOneDistinct(b);
  }

  /** The sum of `f` over the elements of `s`. */
  function SumOf<T>(s: seq<T>, f: T -> nat): nat
  {
    if |s| == 0 then 0 else f(s[0]) + SumOf(s[1..], f)
  }

  /* Every term is at most the sum, and the sum is zero exactly when every
     term is. */
  lemma {:induction false} SumOfBounds<T>(s: seq<T>, f: T -> nat)
    ensures forall i :: 0 <= i < |s| ==> f(s[i]) <= SumOf(s, f)
    ensures SumOf(s, f) == 0 <==> forall i :: 0 <= i < |s| ==> f(s[i]) == 0
  {
    if |s| > 0 {
      SumOfBounds(s[1..], f);
      assert forall i :: 1 <= i < |s| ==> s[1..][i - 1] == s[i];
    }
  }

  lemma {:induction false} SumOfConcat<T>(a: seq<T>, b: seq<T>, f: T -> nat)
    ensures SumOf(a + b, f) == SumOf(a, f) + SumOf(b, f)
  {
    if |a| > 0 {
      assert (a + b)[1..] == a[1..] + b;
      SumOfConcat(a[1..], b, f);
    } else {
      assert a + b == b;
    }
  }

  /* Two sequences whose elements agree one by one under `f` and `g` have
     the same sums. */
  lemma {:induction false} SumOfAgree<T, U>(a: seq<T>, f: T -> nat, b: seq<U>, g: U -> nat)
    requires |a| == |b| && forall i :: 0 <= i < |a| ==> f(a[i]) == g(b[i])
    ensures SumOf(a, f) == SumOf(b, g)
  {
    if |a| > 0 {
      assert forall i :: 0 <= i < |a| - 1 ==> a[1..][i] == a[i + 1] && b[1..][i] == b[i + 1];
      SumOfAgree(a[1..], f, b[1..], g);
    }
  }

  /* Replacing one element changes the sum by the difference. */
  lemma SumOfUpdate<T>(s: seq<T>, i: nat, x: T, f: T -> nat)
    requires i < |s|
    ensures SumOf(s[i := x], f) + f(s[i]) == SumOf(s, f) + f(x)
  {
    assert s == s[..i] + [s[i]] + s[i + 1..];
    assert s[i := x] == s[..i] + [x] + s[i + 1..];
    SumOfConcat(s[..i] + [s[i]], s[i + 1..], f);
    SumOfConcat(s[..i], [s[i]], f);
    SumOfConcat(s[..i] + [x], s[i + 1..], f);
    SumOfConcat(s[..i], [x], f);
  }

  /* Deleting one element lowers the sum by that element's value. */
  lemma SumOfRemove<T>(s: seq<T>, i: nat, f: T -> nat)
    requires i < |s|
    ensures SumOf(s[..i] + s[i + 1..], f) + f(s[i]) == SumOf(s, f)
  {
    var pre, post := s[..i], s[i + 1..];
    var tail := [s[i]] + post;
    assert s == pre + tail;
    SumOfConcat(pre, tail, f);
    assert tail[1..] == post;
    assert SumOf(tail, f) == f(s[i]) + SumOf(post, f);
    SumOfConcat(pre, post, f);
  }

  /** The first position whose key is `k`, as a linear search from the front
      does it (the lookup of a JavaScript `Map`, whose keys are unique). */
  function FirstIndex<T, K(==)>(s: seq<T>, key: T -> K, k: K): (r: Option<nat>)
    ensures r.Some? ==> r.value < |s| && key(s[r.value]) == k
    ensures r.Some? ==> forall j :: 0 <= j < r.value ==> key(s[j]) != k
    ensures r.None? <==> forall j :: 0 <= j < |s| ==> key(s[j]) != k
  {
    if |s| == 0 then None
    else if key(s[0]) == k then Some(0)
    else
      match FirstIndex(s[1..], key, k)
      case None => None
      case Some(i) => Some(i + 1)
  }

  /* Two sequences whose elements have the same keys position by position
     agree on every first index. */
  lemma {:induction false} FirstIndexSameKeys<T, U, K>(s: seq<T>, key: T -> K, s': seq<U>, key': U -> K, k: K)
    requires |s| == |s'|
    requires forall m :: 0 <= m < |s| ==> key(s[m]) == key'(s'[m])
    ensures FirstIndex(s, key, k) == FirstIndex(s', key', k)
  {
    if |s| > 0 {
      FirstIndexSameKeys(s[1..], key, s'[1..], key', k);
    }
  }

  /** The element stored under `k` (a JavaScript `Map`'s `get`). */
  function Get<T, K(==)>(s: seq<T>, key: T -> K, k: K): (r: Option<T>)
    ensures r.Some? <==> FirstIndex(s, key, k).Some?
    ensures r.Some? ==> key(r.value) == k && r.value in s
  {
    match FirstIndex(s, key, k)
    case None => None
    case Some(i) => Some(s[i])
  }

  /* Looking up in a non-empty sequence: its first element, or a lookup in
     the rest. */
  lemma GetCons<T, K>(s: seq<T>, key: T -> K, k: K)
    requires |s| > 0
    ensures Get(s, key, k) == if key(s[0]) == k then Some(s[0]) else Get(s[1..], key, k)
  {
  }

  /** A JavaScript `Map`'s `set`: an existing key keeps its position and gets
      the new value; a new key goes to the end. */
  function Put<T, K(==,!new)>(s: seq<T>, key: T -> K, x: T): (r: seq<T>)
    ensures Get(r, key, key(x)) == Some(x)
    ensures forall k :: k != key(x) ==> Get(r, key, k) == Get(s, key, k)
    ensures FirstIndex(s, key, key(x)).Some? ==> |r| == |s|
    ensures FirstIndex(s, key, key(x)).None? ==> r == s + [x]
    ensures forall m :: 0 <= m < |s| ==> key(r[m]) == key(s[m])
  {
    match FirstIndex(s, key, key(x))
    case Some(i) =>
      var r := s[i := x];
      forall k | k != key(x) ensures Get(r, key, k) == Get(s, key, k) {
        FirstIndexSameKeys(r, key, s, key, k);
      }
      FirstIndexSameKeys(r, key, s, key, key(x));
      r
    case None =>
      var r := s + [x];
      forall k | k != key(x) ensures Get(r, key, k) == Get(s, key, k) {
        FirstIndexAppend(s, key, x, k);
      }
      FirstIndexAppend(s, key, x, key(x));
      r
  }

  /* Storing x replaces the old value's share of a sum by x's. */
  lemma PutSum<T, K(!new)>(s: seq<T>, key: T -> K, x: T, f: T -> nat)
    ensures SumOf(Put(s, key, x), f) + (match Get(s, key, key(x)) case Some(y) => f(y) case None => 0)
         == SumOf(s, f) + f(x)
  {
    match FirstIndex(s, key, key(x))
    case Some(i) => SumOfUpdate(s, i, x, f);
    case None => SumOfConcat(s, [x], f);
  }

  lemma {:induction false} FirstIndexAppend<T, K>(s: seq<T>, key: T -> K, x: T, k: K)
    ensures FirstIndex(s + [x], key, k) ==
      match FirstIndex(s, key, k)
      case Some(i) => Some(i)
      case None => if key(x) == k then Some(|s|) else None
  {
    if |s| > 0 {
      assert (s + [x])[1..] == s[1..] + [x];
      FirstIndexAppend(s[1..], key, x, k);
    } else {
      assert s + [x] == [x];
    }
  }

  /* A non-empty prefix is its first element followed by a prefix of the rest. */
  lemma PrefixCons<T>(s: seq<T>, m: nat)
    requires 0 < m <= |s|
    ensures s[..m] == [s[0]] + s[1..][..m - 1]
  {
  }

  lemma PrefixCount<T>(s: seq<T>, m: nat, k: nat, x: T)
    requires 0 < m <= |s| && k == m - 1
    ensures multiset(s[..m])[x] == (if s[0] == x then 1 else 0) + multiset(s[1..][..k])[x]
  {
    PrefixCons(s, m);
  }

  /** n copies of x. */
  function Repeat<T>(x: T, n: nat): (r: seq<T>)
    ensures |r| == n
    ensures forall i :: 0 <= i < n ==> r[i] == x
  {
    seq(n, _ => x)
  }

  lemma RepeatCount<T>(x: T, n: nat, y: T)
    ensures multiset(Repeat(x, n))[y] == if y == x then n else 0
  {
    RepeatMultiset(x, n);
  }

  lemma {:induction false} RepeatMultiset<T>(x: T, n: nat)
    ensures multiset(Repeat(x, n)) == multiset{} [x := n]
  {
    if n > 0 {
      assert Repeat(x, n) == Repeat(x, n - 1) + [x];
      RepeatMultiset(x, n - 1);
    } else {
      assert Repeat(x, n) == [];
    }
  }
}
