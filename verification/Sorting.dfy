/** The selection sort of `types.h` and the search that it rests on. */
module Sorting {

  /** A strict weak ordering. */
  ghost predicate Orders<T(!new)>(cmp: (T, T) -> bool) {
    && (forall x, y :: cmp(x, y) ==> !cmp(y, x))
    && (forall x, y, z :: cmp(x, z) ==> cmp(x, y) || cmp(y, z))
  }

  /** No element precedes one that it compares below: with `<` the elements descend. */
  ghost predicate Descends<T(!new)>(s: seq<T>, cmp: (T, T) -> bool) {
    forall i, j :: 0 <= i < j < |s| ==> !cmp(s[i], s[j])
  }

  ghost predicate Greatest<T(!new)>(s: seq<T>, begin: nat, end: nat, cmp: (T, T) -> bool, m: nat)
    requires m < |s| && end <= |s|
  {
    forall j :: begin <= j < end ==> !cmp(s[m], s[j])
  }

  /** `min` returns an element that compares below no other one, so it is the greatest. */
  method Min<T(!new)>(a: array<T>, begin: nat, end: nat, cmp: (T, T) -> bool) returns (m: nat)
    requires begin <= end <= a.Length
    ensures if begin == end then m == begin else begin <= m < end
    ensures begin < end && Orders(cmp) ==> Greatest(a[..], begin, end, cmp, m)
  {
    m := begin;
    for i := begin to end
      invariant if begin == i then m == begin else begin <= m < i
      invariant begin < i && Orders(cmp) ==> Greatest(a[..], begin, i, cmp, m)
    {
      if cmp(a[m], a[i]) {
        m := i;
      }
    }
  }

  /** Moving the greatest of the unsorted elements in front of the others extends the sorted ones. */
  lemma SwapKeepsSorting<T(!new)>(s: seq<T>, begin: nat, m: nat, cmp: (T, T) -> bool)
    requires begin <= m < |s| && Greatest(s, begin, |s|, cmp, m)
    requires forall i, j :: 0 <= i < begin && i < j < |s| ==> !cmp(s[i], s[j])
    ensures var t := s[begin := s[m]][m := s[begin]];
      forall i, j :: 0 <= i <= begin && i < j < |t| ==> !cmp(t[i], t[j])
  {
  }

  lemma SwapPermutes<T>(s: seq<T>, i: nat, j: nat)
    requires i < |s| && j < |s|
    ensures multiset(s[i := s[j]][j := s[i]]) == multiset(s)
  {
  }

  method Swap<T>(a: array<T>, i: nat, j: nat)
    requires i < a.Length && j < a.Length
    modifies a
    ensures a[..] == old(a[..])[j := old(a[i])][i := old(a[j])]
  {
    a[i], a[j] := a[j], a[i];
  }

  /** `insertion_sort` permutes the array, and sorts it downwards if the comparison orders it. */
  method InsertionSort<T(!new)>(a: array<T>, cmp: (T, T) -> bool)
    modifies a
    ensures multiset(a[..]) == multiset(old(a[..]))
    ensures Orders(cmp) ==> Descends(a[..], cmp)
  {
    var begin := 0;
    while begin != a.Length
      invariant 0 <= begin <= a.Length
      invariant multiset(a[..]) == multiset(old(a[..]))
      invariant Orders(cmp) ==> forall i, j :: 0 <= i < begin && i < j < a.Length ==> !cmp(a[..][i], a[..][j])
      decreases a.Length - begin
    {
      hide Orders, Greatest;
      ghost var s := a[..];
      var m := Min(a, begin, a.Length, cmp);
      if Orders(cmp) {
        SwapKeepsSorting(s, begin, m, cmp);
      }
      SwapPermutes(s, begin, m);
      if m == begin {
        assert s[begin := s[m]][m := s[begin]] == s;
        begin := begin + 1;
        continue;
      }
      Swap(a, m, begin);
      begin := begin + 1;
    }
  }
}
