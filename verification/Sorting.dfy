/** sort.Slice under a strict order: a sorted rearrangement, and the only one. */
module Sorting {

  ghost predicate StrictOrder<T(!new)>(less: (T, T) -> bool) {
    && (forall x :: !less(x, x))
    && (forall x, y, z :: less(x, y) && less(y, z) ==> less(x, z))
  }

  ghost predicate TotalOn<T>(s: seq<T>, less: (T, T) -> bool) {
    forall x, y :: x in s && y in s && x != y ==> less(x, y) || less(y, x)
  }

  ghost predicate Distinct<T>(s: seq<T>) {
    forall i, j :: 0 <= i < j < |s| ==> s[i] != s[j]
  }

  ghost predicate SortedBy<T(!new)>(s: seq<T>, less: (T, T) -> bool) {
    forall i, j :: 0 <= i < j < |s| ==> less(s[i], s[j])
  }

  function Insert<T>(x: T, s: seq<T>, less: (T, T) -> bool): seq<T> {
    if s == [] then [x]
    else if less(x, s[0]) then [x] + s
    else [s[0]] + Insert(x, s[1..], less)
  }

  function Sort<T>(s: seq<T>, less: (T, T) -> bool): seq<T> {
    if s == [] then [] else Insert(s[0], Sort(s[1..], less), less)
  }

  ghost predicate SameElements<T(!new)>(a: seq<T>, b: seq<T>) {
    forall x :: x in a <==> x in b
  }

  lemma {:induction false} InsertElements<T(!new)>(x: T, s: seq<T>, less: (T, T) -> bool)
    ensures |Insert(x, s, less)| == |s| + 1
    ensures forall y :: y in Insert(x, s, less) <==> y == x || y in s
  {
    if s == [] || less(x, s[0]) {
    } else {
      InsertElements(x, s[1..], less);
      assert s == [s[0]] + s[1..];
    }
  }

  lemma {:induction false} InsertSorts<T(!new)>(x: T, s: seq<T>, less: (T, T) -> bool)
    requires StrictOrder(less) && SortedBy(s, less)
    requires forall y :: y in s ==> less(x, y) || less(y, x)
    ensures SortedBy(Insert(x, s, less), less)
  {
    if s == [] {
    } else {
      if less(x, s[0]) {
        forall i | 0 <= i < |s| ensures less(x, s[i]) { }
      } else {
        InsertSorts(x, s[1..], less);
        InsertElements(x, s[1..], less);
        HeadIsLeast(s, less);
        HeadIn(s);
        assert less(s[0], x);
      }
    }
  }

  lemma HeadIn<T>(s: seq<T>)
    ensures s != [] ==> s[0] in s
  {
  }

  lemma HeadIsLeast<T(!new)>(s: seq<T>, less: (T, T) -> bool)
    requires s != [] && SortedBy(s, less)
    ensures forall y :: y in s[1..] ==> less(s[0], y)
  {
    forall y | y in s[1..] ensures less(s[0], y) {
      var i :| 0 <= i < |s[1..]| && s[1..][i] == y;
      assert y == s[i + 1];
    }
  }

  lemma {:induction false} SortSorts<T(!new)>(s: seq<T>, less: (T, T) -> bool)
    requires StrictOrder(less) && TotalOn(s, less) && Distinct(s)
    ensures |Sort(s, less)| == |s|
    ensures SameElements(Sort(s, less), s)
    ensures SortedBy(Sort(s, less), less)
  {
    if s == [] {
    } else {
      var rest := s[1..];
      assert s == [s[0]] + rest;
      assert forall y :: y in rest ==> y in s && y != s[0];
      SortSorts(rest, less);
      InsertElements(s[0], Sort(rest, less), less);
      InsertSorts(s[0], Sort(rest, less), less);
    }
  }

  /** A sorted sequence is determined by the elements it holds. */
  lemma {:induction false} SortedIsUnique<T(!new)>(a: seq<T>, b: seq<T>, less: (T, T) -> bool)
    requires StrictOrder(less) && SortedBy(a, less) && SortedBy(b, less) && SameElements(a, b)
    ensures a == b
  {
    HeadIn(a);
    HeadIn(b);
    if a == [] {
    } else {
      assert a[0] == b[0];
      TailElements(a, b, less);
      TailElements(b, a, less);
      SortedIsUnique(a[1..], b[1..], less);
    }
  }

  lemma TailElements<T(!new)>(a: seq<T>, b: seq<T>, less: (T, T) -> bool)
    requires StrictOrder(less) && SortedBy(a, less) && SameElements(a, b)
    requires a != [] && b != [] && a[0] == b[0]
    ensures forall x :: x in a[1..] ==> x in b[1..]
  {
    HeadIsLeast(a, less);
    assert a == [a[0]] + a[1..] && b == [b[0]] + b[1..];
    forall x | x in a[1..] ensures x in b[1..] {
      assert x in a;
      assert less(a[0], x);
      assert x in b && x != b[0];
    }
  }

  lemma SortedIsDistinct<T(!new)>(s: seq<T>, less: (T, T) -> bool)
    requires StrictOrder(less) && SortedBy(s, less)
    ensures Distinct(s)
  {
  }
}
