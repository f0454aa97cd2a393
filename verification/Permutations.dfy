/** Sequences with the same elements in another order. */
module Permutations {

  lemma EmptyPermutation<T>(b: seq<T>)
    requires multiset(b) == multiset{}
    ensures b == []
  {
    assert |multiset(b)| == |b|;
  }

  function Without<T>(s: seq<T>, k: nat): seq<T>
    requires k < |s|
  {
    s[..k] + s[k + 1..]
  }

  lemma WithoutElements<T>(s: seq<T>, k: nat)
    requires k < |s|
    ensures multiset(s) == multiset(Without(s, k)) + multiset{s[k]}
  {
    assert s == s[..k] + [s[k]] + s[k + 1..];
  }

  /** Taking the same element out of two permutations leaves permutations. */
  lemma RestOfPermutation<T>(a: seq<T>, i: nat, b: seq<T>, k: nat)
    requires i < |a| && k < |b| && b[k] == a[i] && multiset(a) == multiset(b)
    ensures multiset(Without(a, i)) == multiset(Without(b, k))
  {
    WithoutElements(a, i);
    WithoutElements(b, k);
    var x := multiset{a[i]};
    assert multiset(Without(a, i)) == multiset(a) - x && multiset(Without(b, k)) == multiset(b) - x;
  }

  lemma IndexIn<T>(a: seq<T>, x: T) returns (k: nat)
    requires x in multiset(a)
    ensures k < |a| && a[k] == x
  {
    k :| 0 <= k < |a| && a[k] == x;
  }

  /** Two places of a sequence have two places in its permutation. */
  lemma TwoPlaces<T>(a: seq<T>, b: seq<T>, i: nat, j: nat) returns (x: nat, y: nat)
    requires i < j < |a| && multiset(a) == multiset(b)
    ensures x < |b| && y < |b| && x != y && b[x] == a[i] && b[y] == a[j]
  {
    assert a[i] in multiset(b);
    x := IndexIn(b, a[i]);
    RestOfPermutation(a, i, b, x);
    assert Without(a, i)[j - 1] == a[j];
    assert a[j] in multiset(Without(a, i));
    var z := IndexIn(Without(b, x), a[j]);
    y := if z < x then z else z + 1;
  }
}
