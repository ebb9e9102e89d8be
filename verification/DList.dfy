/** include/mir/data_str/dlist.h: circular doubly linked lists, and the sequences they stand for. */
module DList {

  // ---------------------------------------------------------------- lists without repetition

  ghost predicate Distinct<T>(s: seq<T>) {
    forall i, j :: 0 <= i < j < |s| ==> s[i] != s[j]
  }

  /** The list after list_del. */
  function Without<T(==)>(s: seq<T>, x: T): seq<T> {
    if s == [] then [] else if s[0] == x then s[1..] else [s[0]] + Without(s[1..], x)
  }

  function Elems<T(==)>(s: seq<T>): set<T> {
    set x | x in s
  }

  lemma {:induction false} WithoutMembers<T>(s: seq<T>, x: T)
    requires Distinct(s)
    ensures Distinct(Without(s, x)) && Elems(Without(s, x)) == Elems(s) - {x}
    decreases |s|
  {
    if s != [] && s[0] != x {
      WithoutMembers(s[1..], x);
      var r := Without(s[1..], x);
      assert s[0] !in s[1..];
      assert s[0] !in Elems(r);
      assert Elems(s) == {s[0]} + Elems(s[1..]) && Elems([s[0]] + r) == {s[0]} + Elems(r);
    } else if s != [] {
      assert Elems(s) == {s[0]} + Elems(s[1..]) && s[0] !in s[1..];
    }
  }

  lemma InWithout<T>(s: seq<T>, x: T, y: T)
    requires Distinct(s)
    ensures y in Without(s, x) <==> y in s && y != x
  {
    WithoutMembers(s, x);
    assert y in Elems(Without(s, x)) <==> y in Elems(s) - {x};
  }

  lemma {:induction false} WithoutLength<T>(s: seq<T>, x: T)
    requires x in s
    ensures |Without(s, x)| == |s| - 1 && (s[0] == x ==> Without(s, x) == s[1..])
    decreases |s|
  {
    if s[0] != x { WithoutLength(s[1..], x); }
  }

  lemma {:induction false} WithoutAbsent<T>(s: seq<T>, x: T)
    requires x !in s
    ensures Without(s, x) == s
    decreases |s|
  {
    if s != [] { WithoutAbsent(s[1..], x); }
  }

  /** Deleting the element at a position leaves what was before and after it. */
  lemma {:induction false} WithoutAt<T>(s: seq<T>, p: nat)
    requires Distinct(s) && p < |s|
    ensures Without(s, s[p]) == s[..p] + s[p + 1..]
    decreases |s|
  {
    if p > 0 {
      assert s[0] != s[p] && s[1..][p - 1] == s[p];
      WithoutAt(s[1..], p - 1);
      assert [s[0]] + (s[1..][..p - 1] + s[1..][p..]) == s[..p] + s[p + 1..];
    }
  }

  lemma AppendMembers<T>(s: seq<T>, x: T)
    requires Distinct(s) && x !in Elems(s)
    ensures Distinct(s + [x]) && Elems(s + [x]) == Elems(s) + {x}
  {
  }

  lemma PrependMembers<T>(s: seq<T>, x: T)
    requires Distinct(s) && x !in s
    ensures Distinct([x] + s) && forall y :: y in [x] + s <==> y == x || y in s
  {
  }

  lemma AppendNew<T>(s: seq<T>, x: T)
    requires Distinct(s) && x !in s
    ensures Distinct(s + [x])
  {
  }

  lemma {:induction false} SubsetSize<T>(a: set<T>, b: set<T>)
    requires a <= b
    ensures |a| <= |b|
  {
    if a != {} {
      var x :| x in a;
      SubsetSize(a - {x}, b - {x});
    }
  }

  lemma {:induction false} DistinctSize<T>(s: seq<T>)
    requires Distinct(s)
    ensures |Elems(s)| == |s|
    decreases |s|
  {
    if s != [] {
      DistinctSize(s[1..]);
      assert s[0] !in s[1..];
      assert Elems(s) == {s[0]} + Elems(s[1..]);
    }
  }

  function Below(n: nat): (r: set<nat>)
    ensures |r| == n && forall i: nat :: i in r <==> i < n
  {
    if n == 0 then {} else Below(n - 1) + {n - 1}
  }

  /** Distinct numbers below a bound are no more than the bound, and fewer if one is missing. */
  lemma DistinctBound(s: seq<nat>, n: nat)
    requires Distinct(s) && forall x :: x in s ==> x < n
    ensures |s| <= n && forall i :: 0 <= i < n && i !in s ==> |s| < n
  {
    DistinctSize(s);
    assert forall x :: x in Elems(s) ==> x in Below(n);
    SubsetSize(Elems(s), Below(n));
    forall i | 0 <= i < n && i !in s ensures |s| < n {
      SubsetSize(Elems(s), Below(n) - {i});
    }
  }

  // ---------------------------------------------------------------- the links

  class ListHead {
    var next: ListHead?
    var prev: ListHead?

    /** LIST_HEAD_INIT. */
    constructor ()
      ensures Ring(this, [])
    {
      next, prev := this, this;
    }
  }

  /** Going round: the head, its elements in order, and the head again. */
  function Spot(head: ListHead, s: seq<ListHead>, k: nat): ListHead
    requires k <= |s| + 1
  {
    if 0 < k <= |s| then s[k - 1] else head
  }

  ghost predicate Linked(a: ListHead, b: ListHead)
    reads a, b
  {
    a.next == b && b.prev == a
  }

  /** The circular list at `head` holds exactly `s`: following `next` meets the elements in order
      and `prev` meets them backwards. */
  ghost predicate Ring(head: ListHead, s: seq<ListHead>)
    reads head, s
  {
    && Distinct(s) && head !in s
    && forall k :: 0 <= k <= |s| ==> Linked(Spot(head, s, k), Spot(head, s, k + 1))
  }

  function Inserted<T>(s: seq<T>, p: nat, x: T): seq<T>
    requires p <= |s|
  {
    s[..p] + [x] + s[p..]
  }

  /** LIST_EMPTY. */
  method IsEmpty(head: ListHead, ghost s: seq<ListHead>) returns (empty: bool)
    requires Ring(head, s)
    ensures empty <==> s == []
  {
    assert Linked(Spot(head, s, 0), Spot(head, s, 1));
    empty := head == head.next;
  }

  /** __list_add between two neighbours. */
  method Between(element: ListHead, a: ListHead, b: ListHead, ghost head: ListHead, ghost s: seq<ListHead>,
      ghost p: nat)
    requires Ring(head, s) && p <= |s| && element !in s && element != head
    requires a == Spot(head, s, p) && b == Spot(head, s, p + 1)
    modifies element, a, b
    ensures Ring(head, Inserted(s, p, element))
  {
    element.next := b;
    element.prev := a;
    a.next := element;
    b.prev := element;
    ghost var t := Inserted(s, p, element);
    forall k | 0 <= k <= |t| ensures Linked(Spot(head, t, k), Spot(head, t, k + 1)) {
      if k < p {
        assert old(Linked(Spot(head, s, k), Spot(head, s, k + 1)));
      } else if k > p + 1 {
        assert old(Linked(Spot(head, s, k - 1), Spot(head, s, k)));
      }
    }
  }

  /** list_add_tail before `at`: a list's head, for its end, or an element, for its place. */
  method AddBefore(element: ListHead, at: ListHead, ghost head: ListHead, ghost s: seq<ListHead>, ghost p: nat)
    requires Ring(head, s) && p <= |s| && element !in s && element != head && at == Spot(head, s, p + 1)
    modifies element, head, s
    ensures Ring(head, Inserted(s, p, element))
  {
    assert Linked(Spot(head, s, p), at);
    var tail := at.prev;
    Between(element, tail, at, head, s, p);
  }

  /** list_add: at the front. */
  method AddFirst(element: ListHead, head: ListHead, ghost s: seq<ListHead>)
    requires Ring(head, s) && element !in s && element != head
    modifies element, head, s
    ensures Ring(head, [element] + s)
  {
    assert Linked(Spot(head, s, 0), Spot(head, s, 1));
    var first := head.next;
    Between(element, head, first, head, s, 0);
    assert Inserted(s, 0, element) == [element] + s;
  }

  /** __list_del of the element between two neighbours. */
  method Bridge(a: ListHead, b: ListHead, ghost head: ListHead, ghost s: seq<ListHead>, ghost p: nat)
    requires Ring(head, s) && p < |s| && a == Spot(head, s, p) && b == Spot(head, s, p + 2)
    modifies a, b
    ensures Ring(head, Removed(s, p))
  {
    a.next := b;
    b.prev := a;
    ghost var t := Removed(s, p);
    forall k | 0 <= k <= |t| ensures Linked(Spot(head, t, k), Spot(head, t, k + 1)) {
      if k < p {
        assert old(Linked(Spot(head, s, k), Spot(head, s, k + 1)));
      } else if k > p {
        assert old(Linked(Spot(head, s, k + 1), Spot(head, s, k + 2)));
      }
    }
  }

  function Removed<T>(s: seq<T>, p: nat): seq<T>
    requires p < |s|
  {
    s[..p] + s[p + 1..]
  }

  /** list_del. */
  method Del(element: ListHead, ghost head: ListHead, ghost s: seq<ListHead>)
    requires Ring(head, s) && element in s
    modifies head, s
    ensures Ring(head, Without(s, element)) && element.next == null && element.prev == null
  {
    ghost var p :| 0 <= p < |s| && s[p] == element;
    WithoutAt(s, p);
    assert element !in Removed(s, p) && element != head;
    assert Linked(Spot(head, s, p), Spot(head, s, p + 1)) && Linked(Spot(head, s, p + 1), Spot(head, s, p + 2));
    hide Without, Distinct, Linked;
    var before := element.prev;
    var after := element.next;
    Bridge(before, after, head, s, p);
    element.next := null;
    element.prev := null;
  }

  lemma JoinDistinct<T>(t: seq<T>, s: seq<T>)
    requires Distinct(t) && Distinct(s) && forall x :: x in t ==> x !in s
    ensures Distinct(t + s)
  {
    forall i, j | 0 <= i < j < |t + s| ensures (t + s)[i] != (t + s)[j] {
      if i < |t| <= j { assert t[i] in t && (t + s)[j] in s; }
    }
  }

  lemma SpliceApart(other: ListHead, t: seq<ListHead>, head: ListHead, s: seq<ListHead>)
    requires Elems([other] + t) !! Elems([head] + s)
    ensures head !in t && other !in s && other != head && forall x :: x in t ==> x !in s
  {
    forall x | x in [other] + t ensures x !in [head] + s {
      assert x in Elems([other] + t) && x !in Elems([head] + s);
    }
    assert forall x :: x in t ==> x in [other] + t;
    assert forall x :: x in s ==> x in [head] + s;
    assert head in [head] + s && other in [other] + t;
  }

  /** list_splice: the other list's elements come before the head's own. */
  method Splice(other: ListHead, ghost t: seq<ListHead>, head: ListHead, ghost s: seq<ListHead>)
    requires Ring(other, t) && Ring(head, s) && other != head
    requires Elems([other] + t) !! Elems([head] + s)
    modifies other, t, head, s
    ensures Ring(other, []) && Ring(head, t + s)
  {
    var empty := IsEmpty(other, t);
    if empty {
      assert t + s == s;
      return;
    }
    ghost var u := t + s;
    SpliceApart(other, t, head, s);
    hide Elems;
    assert Linked(Spot(head, s, 0), Spot(head, s, 1)) && Linked(Spot(other, t, 0), Spot(other, t, 1));
    assert Linked(Spot(other, t, |t|), Spot(other, t, |t| + 1));
    JoinDistinct(t, s);
    hide Distinct;
    var first := head.next;
    var last := other.prev;
    head.next := other.next;
    other.next.prev := head;
    last.next := first;
    first.prev := last;
    other.next, other.prev := other, other;
    forall k | 0 <= k <= |u| ensures Linked(Spot(head, u, k), Spot(head, u, k + 1)) {
      if 0 < k < |t| {
        assert old(Linked(Spot(other, t, k), Spot(other, t, k + 1)));
      } else if k > |t| {
        assert old(Linked(Spot(head, s, k - |t|), Spot(head, s, k - |t| + 1)));
      }
    }
  }
}
