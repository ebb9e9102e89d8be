/** utils/utils.c, qsort: a gap-exchange sort. */
module QSort {

  import opened Common

  /** What a comparison function has to be. */
  ghost predicate Order<T(!new)>(cmp: (T, T) -> int) {
    && (forall x, y :: cmp(x, y) > 0 ==> cmp(y, x) <= 0)
    && (forall x, y, z :: cmp(x, y) <= 0 && cmp(y, z) <= 0 ==> cmp(x, z) <= 0)
    && (forall x :: cmp(x, x) <= 0)
  }

  ghost predicate Sorted<T>(s: seq<T>, cmp: (T, T) -> int) {
    forall i, j :: 0 <= i < j < |s| ==> cmp(s[i], s[j]) <= 0
  }

  /** Sorted up to `j`, except that the element at `p` may belong further left. */
  ghost predicate SortedBut<T>(s: seq<T>, cmp: (T, T) -> int, j: nat, p: int) {
    j < |s| && forall x, y :: 0 <= x < y <= j && y != p ==> cmp(s[x], s[y]) <= 0
  }

  /** One comparison of neighbours, with its exchange, moves the doubtful place one to the left. */
  lemma SiftStep<T(!new)>(s: seq<T>, cmp: (T, T) -> int, j: nat, k: nat)
    requires Order(cmp) && k < j && SortedBut(s, cmp, j, k + 1)
    ensures var r := if cmp(s[k], s[k + 1]) > 0 then Exchange(s, k, k + 1) else s; SortedBut(r, cmp, j, k)
  {
    var r := if cmp(s[k], s[k + 1]) > 0 then Exchange(s, k, k + 1) else s;
    forall x, y | 0 <= x < y <= j && y != k ensures cmp(r[x], r[y]) <= 0 {
      if y == k + 1 && x < k { assert cmp(s[x], s[k]) <= 0; }
    }
  }

  /** The two inner loops for one gap; with gap 1 they sort. */
  method Pass<T(!new)>(a: array<T>, gap: nat, cmp: (T, T) -> int)
    requires Order(cmp) && 0 < gap <= a.Length
    modifies a
    ensures multiset(a[..]) == old(multiset(a[..])) && (gap == 1 ==> Sorted(a[..], cmp))
  {
    for j := gap to a.Length
      invariant multiset(a[..]) == old(multiset(a[..])) && (gap == 1 ==> SortedBut(a[..], cmp, j - 1, -1))
    {
      Sift(a, gap, j, cmp);
    }
  }

  method Sift<T(!new)>(a: array<T>, gap: nat, j: nat, cmp: (T, T) -> int)
    requires Order(cmp) && 0 < gap <= j < a.Length && (gap == 1 ==> SortedBut(a[..], cmp, j - 1, -1))
    modifies a
    ensures multiset(a[..]) == old(multiset(a[..])) && (gap == 1 ==> SortedBut(a[..], cmp, j, -1))
  {
    var k: int := j - gap;
    while k >= 0
      invariant k < j && k + gap <= j && k + gap >= 0
      invariant multiset(a[..]) == old(multiset(a[..])) && (gap == 1 ==> SortedBut(a[..], cmp, j, k + 1))
    {
      ghost var s := a[..];
      if gap == 1 { SiftStep(s, cmp, j, k); }
      if cmp(a[k], a[k + gap]) > 0 {
        ExchangePermutes(s, k, k + gap);
        a[k], a[k + gap] := a[k + gap], a[k];
        assert a[..] == Exchange(s, k, k + gap);
      } else {
        assert a[..] == s;
      }
      k := k - gap;
    }
  }

  /** qsort: the array ends up sorted, with the same elements. */
  method QSort<T(!new)>(a: array<T>, cmp: (T, T) -> int)
    requires Order(cmp)
    modifies a
    ensures Sorted(a[..], cmp) && multiset(a[..]) == old(multiset(a[..]))
  {
    var i := a.Length / 2;
    while i > 0
      invariant 0 <= i <= a.Length / 2 && multiset(a[..]) == old(multiset(a[..]))
      invariant i == 0 && a.Length >= 2 ==> Sorted(a[..], cmp)
    {
      Pass(a, i, cmp);
      i := i / 2;
    }
  }
}
