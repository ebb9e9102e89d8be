/** arch-i386/kernel/setup.c, sanitize_e820_map: the BIOS memory map with its overlaps removed.

    An entry is `struct e820entry`; a `Point` is `struct change_member`, whose pointer to the
    entry is the entry's index. */
module E820 {

  import opened Common

  const E820_MAX := 32
  const U64 := 0x1_0000_0000_0000_0000

  datatype Entry = Entry(addr: nat, size: nat, kind: nat)

  datatype Point = Point(addr: nat, entry: nat)

  // ---------------------------------------------------------------- meaning of a map

  predicate Covers(e: Entry, a: nat) {
    e.addr <= a < e.addr + e.size
  }

  /** The largest kind among the entries that cover `a`, and 0 when none does. */
  function TypeAt(map_: seq<Entry>, a: nat): (t: nat)
    ensures forall i :: 0 <= i < |map_| && Covers(map_[i], a) ==> map_[i].kind <= t
    ensures t == 0 || exists i :: 0 <= i < |map_| && Covers(map_[i], a) && map_[i].kind == t
  {
    if map_ == [] then 0 else
      var n := |map_| - 1;
      var t := TypeAt(map_[..n], a);
      if Covers(map_[n], a) && map_[n].kind > t then map_[n].kind else t
  }

  // ---------------------------------------------------------------- exchange sort

  predicate IsStart(map_: seq<Entry>, p: Point)
    requires p.entry < |map_|
  {
    p.addr == map_[p.entry].addr
  }

  ghost predicate PointsInto(map_: seq<Entry>, s: seq<Point>) {
    forall i :: 0 <= i < |s| ==> s[i].entry < |map_|
  }

  /** The order of the sort: by address, and at one address starts before ends. */
  function Key(map_: seq<Entry>, p: Point): nat
    requires p.entry < |map_|
  {
    2 * p.addr + if IsStart(map_, p) then 0 else 1
  }

  ghost predicate SortedPoints(map_: seq<Entry>, s: seq<Point>) {
    PointsInto(map_, s) && forall i, j :: 0 <= i < j < |s| ==> Key(map_, s[i]) <= Key(map_, s[j])
  }

  ghost function Below(map_: seq<Entry>, s: seq<Point>, p: Point): nat
    requires PointsInto(map_, s) && p.entry < |map_|
  {
    if s == [] then 0 else (if Key(map_, s[0]) < Key(map_, p) then 1 else 0) + Below(map_, s[1..], p)
  }

  /** The number of pairs that stand in the wrong order. */
  ghost function Inversions(map_: seq<Entry>, s: seq<Point>): nat
    requires PointsInto(map_, s)
  {
    if s == [] then 0 else Below(map_, s[1..], s[0]) + Inversions(map_, s[1..])
  }

  lemma {:induction false} BelowExchange(map_: seq<Entry>, s: seq<Point>, i: nat, p: Point)
    requires PointsInto(map_, s) && p.entry < |map_| && 0 < i < |s|
    ensures PointsInto(map_, Exchange(s, i, i - 1)) && Below(map_, Exchange(s, i, i - 1), p) == Below(map_, s, p)
    decreases s
  {
    var e := Exchange(s, i, i - 1);
    if i == 1 {
      assert e[1..][1..] == s[1..][1..];
      assert e[1..][0] == s[0] && s[1..][0] == e[0];
    } else {
      assert e[1..] == Exchange(s[1..], i - 1, i - 2);
      BelowExchange(map_, s[1..], i - 1, p);
    }
  }

  /** Each exchange the sort performs removes exactly one inversion. */
  lemma {:induction false} ExchangeRemovesInversion(map_: seq<Entry>, s: seq<Point>, i: nat)
    requires PointsInto(map_, s) && 0 < i < |s| && Key(map_, s[i]) < Key(map_, s[i - 1])
    ensures PointsInto(map_, Exchange(s, i, i - 1))
    ensures Inversions(map_, Exchange(s, i, i - 1)) == Inversions(map_, s) - 1
    decreases s
  {
    var e := Exchange(s, i, i - 1);
    if i == 1 {
      assert e[1..][1..] == s[1..][1..];
      assert e[1..][0] == s[0] && s[1..][0] == e[0];
    } else {
      assert e[1..] == Exchange(s[1..], i - 1, i - 2);
      ExchangeRemovesInversion(map_, s[1..], i - 1);
      BelowExchange(map_, s[1..], i - 1, s[0]);
    }
  }

  lemma {:induction false} AdjacentSorted(map_: seq<Entry>, s: seq<Point>)
    requires PointsInto(map_, s)
    requires forall k :: 0 < k < |s| ==> Key(map_, s[k - 1]) <= Key(map_, s[k])
    ensures SortedPoints(map_, s)
  {
    forall i, j | 0 <= i < j < |s| ensures Key(map_, s[i]) <= Key(map_, s[j]) {
      Chain(map_, s, i, j);
    }
  }

  lemma {:induction false} Chain(map_: seq<Entry>, s: seq<Point>, i: nat, j: nat)
    requires PointsInto(map_, s) && i < j < |s|
    requires forall k :: 0 < k < |s| ==> Key(map_, s[k - 1]) <= Key(map_, s[k])
    ensures Key(map_, s[i]) <= Key(map_, s[j])
    decreases j
  {
    if i < j - 1 { Chain(map_, s, i, j - 1); }
  }

  predicate OutOfOrder(map_: seq<Entry>, last: Point, current: Point)
    requires last.entry < |map_| && current.entry < |map_|
  {
    || current.addr < last.addr
    || (current.addr == last.addr && IsStart(map_, current) && !IsStart(map_, last))
  }

  lemma Exchanged(map_: seq<Entry>, s: seq<Point>, i: nat)
    requires PointsInto(map_, s) && 0 < i < |s| && OutOfOrder(map_, s[i - 1], s[i])
    ensures PointsInto(map_, Exchange(s, i, i - 1)) && multiset(Exchange(s, i, i - 1)) == multiset(s)
    ensures Inversions(map_, Exchange(s, i, i - 1)) < Inversions(map_, s)
  {
    ExchangeRemovesInversion(map_, s, i);
    ExchangePermutes(s, i, i - 1);
  }

  /** One pass of the exchange sort; it reports whether it exchanged anything. */
  method SortPass(map_: seq<Entry>, cp: array<Point>) returns (changed: bool)
    requires PointsInto(map_, cp[..]) && cp.Length > 0
    modifies cp
    ensures PointsInto(map_, cp[..]) && multiset(cp[..]) == multiset(old(cp[..]))
    ensures !changed ==> cp[..] == old(cp[..]) && SortedPoints(map_, cp[..])
    ensures changed ==> Inversions(map_, cp[..]) < Inversions(map_, old(cp[..]))
  {
    hide Inversions, Below;
    changed := false;
    for i := 1 to cp.Length
      invariant PointsInto(map_, cp[..]) && multiset(cp[..]) == multiset(old(cp[..]))
      invariant !changed ==> cp[..] == old(cp[..])
      invariant !changed ==> forall k :: 0 < k < i ==> !OutOfOrder(map_, cp[k - 1], cp[k])
      invariant changed ==> Inversions(map_, cp[..]) < Inversions(map_, old(cp[..]))
    {
      if OutOfOrder(map_, cp[i - 1], cp[i]) {
        ghost var s := cp[..];
        cp[i], cp[i - 1] := cp[i - 1], cp[i];
        assert cp[..] == Exchange(s, i, i - 1);
        Exchanged(map_, s, i);
        changed := true;
      }
    }
    if !changed { AdjacentSorted(map_, cp[..]); }
  }

  method SortPoints(map_: seq<Entry>, cp: array<Point>)
    requires PointsInto(map_, cp[..]) && cp.Length > 0
    modifies cp
    ensures SortedPoints(map_, cp[..]) && multiset(cp[..]) == multiset(old(cp[..]))
  {
    var stillChanging := true;
    while stillChanging
      invariant PointsInto(map_, cp[..]) && multiset(cp[..]) == multiset(old(cp[..]))
      invariant !stillChanging ==> SortedPoints(map_, cp[..])
      decreases Inversions(map_, cp[..]), if stillChanging then 1 else 0
    {
      stillChanging := SortPass(map_, cp);
    }
  }

  // ---------------------------------------------------------------- change points

  ghost predicate InRange(map_: seq<Entry>) {
    forall i :: 0 <= i < |map_| ==> map_[i].addr < U64 && map_[i].addr + map_[i].size < U64
  }

  /** The change points in the order they are recorded. */
  function Points(map_: seq<Entry>): seq<Point> {
    if map_ == [] then [] else
      var n := |map_| - 1;
      Points(map_[..n]) + [Point(map_[n].addr, n), Point(map_[n].addr + map_[n].size, n)]
  }

  function StartOf(map_: seq<Entry>, e: nat): Point
    requires e < |map_|
  {
    Point(map_[e].addr, e)
  }

  function EndOf(map_: seq<Entry>, e: nat): Point
    requires e < |map_|
  {
    Point(map_[e].addr + map_[e].size, e)
  }

  lemma PairCount<T>(s: seq<T>, a: T, b: T, p: T)
    ensures multiset(s + [a, b])[p] == multiset(s)[p] + (if p == a then 1 else 0) + (if p == b then 1 else 0)
  {
    assert multiset(s + [a, b]) == multiset(s) + multiset{a, b};
  }

  /** How many change points of the map are equal to `p`. */
  ghost function Expected(map_: seq<Entry>, p: Point): nat {
    if p.entry >= |map_| then 0
    else (if p == StartOf(map_, p.entry) then 1 else 0) + (if p == EndOf(map_, p.entry) then 1 else 0)
  }

  lemma {:induction false} PointsCount(map_: seq<Entry>, p: Point)
    ensures multiset(Points(map_))[p] == Expected(map_, p)
    decreases |map_|
  {
    if map_ != [] {
      var n := |map_| - 1;
      PointsCount(map_[..n], p);
      assert Points(map_) == Points(map_[..n]) + [StartOf(map_, n), EndOf(map_, n)];
      hide Points;
      PairCount(Points(map_[..n]), StartOf(map_, n), EndOf(map_, n), p);
      ExpectedStep(map_, p);
    }
  }

  lemma ExpectedStep(map_: seq<Entry>, p: Point)
    requires map_ != []
    ensures var n := |map_| - 1;
      Expected(map_, p) ==
        Expected(map_[..n], p) + (if p == StartOf(map_, n) then 1 else 0) + (if p == EndOf(map_, n) then 1 else 0)
  {
  }

  lemma {:induction false} PointsLength(map_: seq<Entry>)
    ensures |Points(map_)| == 2 * |map_|
    decreases |map_|
  {
    if map_ != [] { PointsLength(map_[..|map_| - 1]); }
  }

  /** How often entry `e` stands in the overlap list after the points `seen` were processed. */
  ghost function Level(map_: seq<Entry>, seen: multiset<Point>, e: nat): int
    requires e < |map_|
  {
    (seen[StartOf(map_, e)] as int) - if map_[e].size > 0 then seen[EndOf(map_, e)] as int else 0
  }

  /** An address beyond every change point. */
  const HORIZON := 2 * U64

  /** What the sweep takes an entry for: both points of a zero-size entry look like starts, so
      such an entry is never removed from the overlap list. */
  function Effective(e: Entry): Entry {
    if e.size == 0 && e.addr < HORIZON then e.(size := HORIZON - e.addr) else e
  }

  function EffectiveMap(map_: seq<Entry>): (m: seq<Entry>)
    ensures |m| == |map_|
  {
    seq(|map_|, i requires 0 <= i < |map_| => Effective(map_[i]))
  }

  /** The sorted change points of a map. */
  ghost predicate SweepOrder(map_: seq<Entry>, s: seq<Point>) {
    InRange(map_) && SortedPoints(map_, s) && multiset(s) == multiset(Points(map_))
  }

  lemma SplitCount<T>(s: seq<T>, j: nat, p: T)
    requires j <= |s|
    ensures multiset(s)[p] == multiset(s[..j])[p] + multiset(s[j..])[p]
  {
    assert s == s[..j] + s[j..];
  }

  lemma AddrOrder(map_: seq<Entry>, s: seq<Point>, i: nat, j: nat)
    requires SortedPoints(map_, s) && i <= j < |s|
    ensures s[i].addr <= s[j].addr
    ensures s[i].addr == s[j].addr && IsStart(map_, s[j]) ==> IsStart(map_, s[i])
  {
    assert Key(map_, s[i]) <= Key(map_, s[j]);
  }

  lemma NotSeen(map_: seq<Entry>, s: seq<Point>, j: nat, p: Point)
    requires SortedPoints(map_, s) && j <= |s|
    ensures j > 0 && s[j - 1].addr < p.addr ==> p !in s[..j]
    ensures j < |s| && p.addr < s[j].addr ==> p !in s[j..]
  {
    if p in s[..j] {
      var i :| 0 <= i < j && s[..j][i] == p;
      AddrOrder(map_, s, i, j - 1);
    }
    if p in s[j..] {
      var i :| 0 <= i < |s[j..]| && s[j..][i] == p;
      AddrOrder(map_, s, j, j + i);
    }
  }

  /** Points up to address `a` are exactly those before position `j`. */
  lemma SeenBelow(map_: seq<Entry>, s: seq<Point>, j: nat, a: nat, p: Point)
    requires SortedPoints(map_, s) && j <= |s|
    requires j > 0 ==> s[j - 1].addr <= a
    requires j < |s| ==> a < s[j].addr
    ensures multiset(s[..j])[p] == if p.addr <= a then multiset(s)[p] else 0
  {
    SplitCount(s, j, p);
    NotSeen(map_, s, j, p);
    assert multiset(s[j..])[p] > 0 ==> p in s[j..];
    assert multiset(s[..j])[p] > 0 ==> p in s[..j];
  }

  /** The overlap list holds exactly the entries in force at the address reached. */
  lemma LevelCovers(map_: seq<Entry>, s: seq<Point>, j: nat, a: nat, e: nat)
    requires SweepOrder(map_, s) && j <= |s| && e < |map_| && a < HORIZON
    requires j > 0 ==> s[j - 1].addr <= a
    requires j < |s| ==> a < s[j].addr
    ensures 0 <= Level(map_, multiset(s[..j]), e)
    ensures Level(map_, multiset(s[..j]), e) > 0 <==> Covers(EffectiveMap(map_)[e], a)
  {
    SeenBelow(map_, s, j, a, StartOf(map_, e));
    SeenBelow(map_, s, j, a, EndOf(map_, e));
    PointsCount(map_, StartOf(map_, e));
    PointsCount(map_, EndOf(map_, e));
  }

  /** An end point removes an entry that is in the list exactly once. */
  lemma LevelAtEnd(map_: seq<Entry>, s: seq<Point>, j: nat)
    requires SweepOrder(map_, s) && j < |s| && !IsStart(map_, s[j])
    ensures var e := s[j].entry; map_[e].size > 0 && s[j] == EndOf(map_, e) && Level(map_, multiset(s[..j]), e) == 1
  {
    var e := s[j].entry;
    PointsCount(map_, s[j]);
    assert s[j] in multiset(s);
    assert s[j] == EndOf(map_, e);
    PointsCount(map_, StartOf(map_, e));
    SplitCount(s, j, StartOf(map_, e));
    SplitCount(s, j, EndOf(map_, e));
    assert s[j..][0] == s[j];
    assert EndOf(map_, e) in multiset(s[j..]);
    NotSeen(map_, s, j, StartOf(map_, e));
  }

  lemma LevelStep(map_: seq<Entry>, s: seq<Point>, j: nat, e: nat)
    requires SweepOrder(map_, s) && j < |s| && e < |map_|
    ensures Level(map_, multiset(s[..j + 1]), e) == Level(map_, multiset(s[..j]), e) +
      if e != s[j].entry then 0 else if IsStart(map_, s[j]) then 1 else -1
  {
    assert s[..j + 1] == s[..j] + [s[j]];
    assert multiset(s[..j + 1]) == multiset(s[..j]) + multiset{s[j]};
    PointsCount(map_, s[j]);
    assert s[j] in multiset(s);
  }
}
