/** Sequence facts, stated once so that they are proved outside larger contexts. */
module Seqs {

  lemma WholePrefix<T>(s: seq<T>)
    ensures s[..|s|] == s
  {
  }

  lemma PrefixSnoc<T>(s: seq<T>, i: nat)
    requires i < |s|
    ensures s[..i + 1] == s[..i] + [s[i]]
  {
  }

  lemma SplitAt<T>(s: seq<T>, i: nat)
    requires i <= |s|
    ensures s == s[..i] + s[i..]
  {
  }

  lemma Concat<T>(a: seq<T>, b: seq<T>, c: seq<T>)
    ensures (a + b) + c == a + (b + c)
  {
  }

  lemma DropNothing<T>(s: seq<T>)
    ensures s[0..] == s
  {
  }

  lemma DropMore<T>(s: seq<T>, i: nat, n: nat)
    requires i + n <= |s|
    ensures s[i..][n..] == s[i + n..]
  {
  }

  lemma DropTwice<T>(s: seq<T>, n: nat, k: nat)
    requires n <= k <= |s|
    ensures s[n..][k - n..] == s[k..]
  {
  }

  lemma PrefixOfCons<T>(c: T, rest: seq<T>, k: nat)
    requires 0 < k <= |rest| + 1
    ensures ([c] + rest)[..k] == [c] + rest[..k - 1]
  {
  }

  lemma PrefixInTwo<T>(t: seq<T>, n: nat, m: nat)
    requires n <= m <= |t|
    ensures t[..m] == t[..n] + t[n..][..m - n]
  {
  }

  lemma PrefixThenSlice<T>(s: seq<T>, i: nat, j: nat)
    requires i <= j <= |s|
    ensures s[..j] == s[..i] + s[i..j]
  {
  }

  lemma AdjacentSlices<T>(s: seq<T>, i: nat, j: nat, k: nat)
    requires i <= j <= k <= |s|
    ensures s[i..j] + s[j..k] == s[i..k]
  {
  }
}
