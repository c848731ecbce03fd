/** Generic facts about sequences and multisets used by the repository's order-by query. */
module Sequences {

  /** `f` applied to every element, in order. */
  function Map<T, U>(s: seq<T>, f: T -> U): (r: seq<U>)
    ensures |r| == |s|
    ensures forall i :: 0 <= i < |s| ==> r[i] == f(s[i])
  {
    if s == [] then [] else [f(s[0])] + Map(s[1..], f)
  }

  /** Removing the element at `k` removes one occurrence of it from the multiset. */
  lemma MultisetRemoveAt<T>(s: seq<T>, k: int)
    requires 0 <= k < |s|
    ensures multiset(s) == multiset(s[..k] + s[k + 1..]) + multiset{s[k]}
  {
    assert s == s[..k] + [s[k]] + s[k + 1..];
  }

  /** Mapping distributes over concatenation. */
  lemma {:induction false} MapConcat<T, U>(a: seq<T>, b: seq<T>, f: T -> U)
    ensures Map(a + b, f) == Map(a, f) + Map(b, f)
    decreases |a|
  {
    if a == [] {
      assert a + b == b;
    } else {
      assert (a + b)[1..] == a[1..] + b;
      MapConcat(a[1..], b, f);
    }
  }

  /** Removing the element at `k` removes one occurrence of its image. */
  lemma MapRemoveAt<T, U>(s: seq<T>, k: int, f: T -> U)
    requires 0 <= k < |s|
    ensures multiset(Map(s, f)) == multiset(Map(s[..k] + s[k + 1..], f)) + multiset{f(s[k])}
  {
    var tail := [s[k]] + s[k + 1..];
    assert s == s[..k] + tail;
    MapConcat(s[..k], tail, f);
    MapConcat([s[k]], s[k + 1..], f);
    MapConcat(s[..k], s[k + 1..], f);
    assert Map([s[k]], f) == [f(s[k])];
  }

  /** Taking the same element out of two permutations of each other leaves permutations. */
  lemma PermutationWithout<T>(a: seq<T>, b: seq<T>, k: int)
    requires multiset(a) == multiset(b)
    requires a != [] && 0 <= k < |b| && b[k] == a[0]
    ensures multiset(a[1..]) == multiset(b[..k] + b[k + 1..])
  {
    MultisetRemoveAt(a, 0);
    MultisetRemoveAt(b, k);
    assert a[..0] + a[1..] == a[1..];
    Cancel(multiset(a[1..]), multiset(b[..k] + b[k + 1..]), a[0]);
  }

  /** Multiset union with one element cancels. */
  lemma Cancel<T>(x: multiset<T>, y: multiset<T>, e: T)
    requires x + multiset{e} == y + multiset{e}
    ensures x == y
  {
    forall z ensures x[z] == y[z] {
      assert (x + multiset{e})[z] == (y + multiset{e})[z];
    }
  }

  /** A position at which `x` occurs in `s`. */
  function IndexOf<T(==)>(s: seq<T>, x: T): (k: int)
    requires x in multiset(s)
    ensures 0 <= k < |s| && s[k] == x
  {
    if s[0] == x then 0
    else
      assert s == [s[0]] + s[1..];
      1 + IndexOf(s[1..], x)
  }

  /** Rearranging the elements rearranges their images. */
  lemma {:induction false} MapOfPermutation<T, U>(a: seq<T>, b: seq<T>, f: T -> U)
    requires multiset(a) == multiset(b)
    ensures multiset(Map(a, f)) == multiset(Map(b, f))
    decreases |a|
  {
    if a == [] {
      assert |b| == |multiset(b)| == 0;
    } else {
      var k := IndexOf(b, a[0]);
      PermutationWithout(a, b, k);
      MapOfPermutation(a[1..], b[..k] + b[k + 1..], f);
      assert a[..0] + a[1..] == a[1..];
      MapRemoveAt(a, 0, f);
      MapRemoveAt(b, k, f);
    }
  }

  /** Non-decreasing: no later number is smaller than an earlier one. */
  predicate NonDecreasing(x: seq<real>) {
    forall i, j :: 0 <= i < j < |x| ==> x[i] <= x[j]
  }

  /** Two non-decreasing arrangements of the same non-empty multiset start with its minimum. */
  lemma SortedSameHead(x: seq<real>, y: seq<real>)
    requires NonDecreasing(x) && NonDecreasing(y)
    requires multiset(x) == multiset(y) && x != []
    ensures y != [] && x[0] == y[0]
  {
    assert x[0] in multiset(y);
    var j := IndexOf(y, x[0]);
    assert y[0] in multiset(x);
    var i := IndexOf(x, y[0]);
    assert y[0] <= y[j] && x[0] <= x[i];
  }

  /** Two non-decreasing sequences of the same numbers are equal. */
  lemma {:induction false} SortedRealsUnique(x: seq<real>, y: seq<real>)
    requires NonDecreasing(x) && NonDecreasing(y)
    requires multiset(x) == multiset(y)
    ensures x == y
    decreases |x|
  {
    if x == [] {
      assert |y| == |multiset(y)| == 0;
    } else {
      SortedSameHead(x, y);
      PermutationWithout(x, y, 0);
      assert y[..0] + y[1..] == y[1..];
      SortedRealsUnique(x[1..], y[1..]);
      forall i | 0 <= i < |x| ensures x[i] == y[i] {
        if i > 0 {
          assert x[i] == x[1..][i - 1] && y[i] == y[1..][i - 1];
        }
      }
    }
  }
}
