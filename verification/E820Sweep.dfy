/** arch-i386/kernel/setup.c, sanitize_e820_map: the sweep over the sorted change points. */
module E820Sweep {
  import opened E820

  // ---------------------------------------------------------------- the map being built

  function End(e: Entry): nat {
    e.addr + e.size
  }

  function LastEnd(out: seq<Entry>): nat {
    if out == [] then 0 else End(out[|out| - 1])
  }

  /** Non-empty regions in order, without overlap, and touching ones of different kinds. */
  ghost predicate Regular(out: seq<Entry>) {
    && (forall i :: 0 <= i < |out| ==> out[i].size > 0 && out[i].kind > 0)
    && (forall i, j :: 0 <= i < j < |out| ==> End(out[i]) <= out[j].addr)
    && (forall i, j :: 0 <= i < j < |out| && End(out[i]) == out[j].addr ==> out[i].kind != out[j].kind)
  }

  /** The finished regions, and the kind and start of the region still open (kind 0: none). */
  datatype Sweep = Sweep(out: seq<Entry>, lastKind: nat, lastAddr: nat)

  /** What the sweep does when the kind at address `x` has become `cur`. */
  function Emit(w: Sweep, x: nat, cur: nat): Sweep {
    if cur == w.lastKind then w
    else
      var out :=
        if w.lastKind != 0 && w.lastAddr < x then w.out + [Entry(w.lastAddr, x - w.lastAddr, w.lastKind)] else w.out;
      Sweep(out, cur, if cur != 0 then x else w.lastAddr)
  }

  function KindAt(w: Sweep, a: nat): nat {
    if w.lastKind > 0 && w.lastAddr <= a then w.lastKind else TypeAt(w.out, a)
  }

  lemma TypeAppend(out: seq<Entry>, e: Entry, a: nat)
    ensures TypeAt(out + [e], a) == var t := TypeAt(out, a); if Covers(e, a) && e.kind > t then e.kind else t
  {
    assert (out + [e])[..|out|] == out;
  }

  lemma TypeBeyond(out: seq<Entry>, a: nat)
    requires Regular(out) && LastEnd(out) <= a
    ensures TypeAt(out, a) == 0
  {
    forall i | 0 <= i < |out| ensures !Covers(out[i], a) {
      if i < |out| - 1 { assert End(out[i]) <= out[|out| - 1].addr; }
    }
  }

  lemma RegularAppend(out: seq<Entry>, e: Entry)
    requires Regular(out) && e.size > 0 && e.kind > 0 && LastEnd(out) <= e.addr
    requires out != [] && LastEnd(out) == e.addr ==> out[|out| - 1].kind != e.kind
    ensures Regular(out + [e]) && LastEnd(out + [e]) == End(e)
  {
    var v := out + [e];
    forall i | 0 <= i < |out| ensures End(out[i]) <= e.addr {
      if i < |out| - 1 { assert End(out[i]) <= out[|out| - 1].addr; }
    }
  }

  /** Closing a region leaves every address below `x` as it was. */
  lemma EmitBelow(w: Sweep, x: nat, cur: nat, a: nat)
    requires Regular(w.out) && a < x
    requires w.lastKind > 0 ==> LastEnd(w.out) <= w.lastAddr <= x
    ensures KindAt(Emit(w, x, cur), a) == KindAt(w, a)
  {
    if w.lastKind > 0 && w.lastAddr < x {
      TypeAppend(w.out, Entry(w.lastAddr, x - w.lastAddr, w.lastKind), a);
      if w.lastAddr <= a { TypeBeyond(w.out, a); }
    }
  }

  // ---------------------------------------------------------------- invariant of the sweep

  /** `t` is the largest kind in the overlap list, 0 for the empty list. */
  ghost predicate IsTop(map_: seq<Entry>, seen: multiset<Point>, t: nat) {
    && (forall e :: 0 <= e < |map_| && Level(map_, seen, e) > 0 ==> map_[e].kind <= t)
    && (t == 0 || exists e :: 0 <= e < |map_| && Level(map_, seen, e) > 0 && map_[e].kind == t)
  }

  lemma TopIsType(map_: seq<Entry>, s: seq<Point>, j: nat, a: nat, t: nat)
    requires SweepOrder(map_, s) && j <= |s| && a < HORIZON && IsTop(map_, multiset(s[..j]), t)
    requires j > 0 ==> s[j - 1].addr <= a
    requires j < |s| ==> a < s[j].addr
    ensures TypeAt(EffectiveMap(map_), a) == t
  {
    var m := EffectiveMap(map_);
    forall e | 0 <= e < |map_|
      ensures Level(map_, multiset(s[..j]), e) > 0 <==> Covers(m[e], a)
      ensures m[e].kind == map_[e].kind
    {
      LevelCovers(map_, s, j, a, e);
    }
  }

  /** The open region does not continue the last finished one.  While points at its own start
      address are still being processed (`addr` is the last of them) this needs to say how the
      kind got there: it fell at an end point, or it rose to the kind of an entry that starts
      here and is still in the list (`held`). */
  ghost predicate TouchOk(w: Sweep, addr: nat, isStart: bool, held: bool) {
    w.lastKind > 0 && w.out != [] && LastEnd(w.out) == w.lastAddr ==>
      var p := w.out[|w.out| - 1].kind;
      w.lastKind != p && (addr == w.lastAddr ==> (w.lastKind < p && !isStart) || (w.lastKind > p && held))
  }

  /** At one address the kind first rises and then falls, so a region never reopens as it was. */
  lemma TouchStep(w: Sweep, addr: nat, isStart: bool, held: bool, x: nat, isStart': bool, cur: nat)
    requires TouchOk(w, addr, isStart, held) && LastEnd(w.out) <= addr <= x
    requires addr == x && isStart' ==> isStart
    requires if isStart' then cur >= w.lastKind
      else cur <= w.lastKind && (held && w.lastAddr == x ==> cur == w.lastKind)
    requires w.lastKind > 0 ==> LastEnd(w.out) <= w.lastAddr <= addr
    requires w.lastKind == 0 && w.out != [] && LastEnd(w.out) == addr ==> !isStart
    ensures TouchOk(Emit(w, x, cur), x, isStart', cur > w.lastKind || (cur == w.lastKind && held))
  {
    var w' := Emit(w, x, cur);
    if cur != w.lastKind && w.lastKind != 0 && w.lastAddr < x {
      assert w'.out[|w'.out| - 1].kind == w.lastKind;
    }
  }

  /** `opener` starts where the open region starts, has its kind, and is in the overlap list. */
  ghost predicate Held(map_: seq<Entry>, seen: multiset<Point>, w: Sweep, opener: nat) {
    opener < |map_| && map_[opener].addr == w.lastAddr && map_[opener].kind == w.lastKind
    && Level(map_, seen, opener) > 0
  }

  /** The regions built when the last of `n` points lies at `addr`. */
  ghost predicate Framed(w: Sweep, n: nat, addr: nat, isStart: bool, held: bool) {
    && Regular(w.out) && |w.out| < n && LastEnd(w.out) <= addr && TouchOk(w, addr, isStart, held)
    && (w.lastKind > 0 ==> LastEnd(w.out) <= w.lastAddr <= addr)
    && (w.lastKind == 0 && w.out != [] && LastEnd(w.out) == addr ==> !isStart)
  }

  /** Growing the finished regions keeps them regular. */
  lemma EmitRegular(w: Sweep, addr: nat, isStart: bool, held: bool, x: nat, cur: nat)
    requires Regular(w.out) && TouchOk(w, addr, isStart, held) && LastEnd(w.out) <= addr <= x
    requires w.lastKind > 0 ==> LastEnd(w.out) <= w.lastAddr <= addr
    ensures var w' := Emit(w, x, cur); Regular(w'.out) && LastEnd(w'.out) <= x && |w'.out| <= |w.out| + 1
    ensures cur != w.lastKind && w.lastKind > 0 && w.lastAddr < x ==> LastEnd(Emit(w, x, cur).out) == x
    ensures !(cur != w.lastKind && w.lastKind > 0 && w.lastAddr < x) ==> Emit(w, x, cur).out == w.out
  {
    hide Regular, LastEnd;
    if cur != w.lastKind && w.lastKind != 0 && w.lastAddr < x {
      var e := Entry(w.lastAddr, x - w.lastAddr, w.lastKind);
      assert Emit(w, x, cur).out == w.out + [e];
      hide Emit;
      RegularAppend(w.out, e);
    }
  }

  lemma FrameStep(w: Sweep, n: nat, addr: nat, isStart: bool, held: bool, x: nat, isStart': bool, cur: nat)
    requires Framed(w, n, addr, isStart, held) && addr <= x && (addr == x && isStart' ==> isStart)
    requires if isStart' then cur >= w.lastKind
      else cur <= w.lastKind && (held && w.lastAddr == x ==> cur == w.lastKind)
    ensures Framed(Emit(w, x, cur), n + 1, x, isStart', cur > w.lastKind || (cur == w.lastKind && held))
  {
    TouchStep(w, addr, isStart, held, x, isStart', cur);
    EmitRegular(w, addr, isStart, held, x, cur);
    hide Regular, TouchOk;
  }

  lemma TouchHeld(w: Sweep, n: nat, addr: nat, isStart: bool, held: bool, held': bool)
    requires Framed(w, n, addr, isStart, held) && (held && w.lastAddr == addr ==> held')
    ensures Framed(w, n, addr, isStart, held')
  {
  }

  ghost predicate Shape(map_: seq<Entry>, s: seq<Point>, j: nat, w: Sweep, opener: nat)
    requires j <= |s| && PointsInto(map_, s)
  {
    && IsTop(map_, multiset(s[..j]), w.lastKind)
    && (j == 0 ==> w == Sweep([], 0, 0))
    && (j > 0 ==> Framed(w, j, s[j - 1].addr, IsStart(map_, s[j - 1]), Held(map_, multiset(s[..j]), w, opener)))
  }

  ghost predicate Meaning(map_: seq<Entry>, s: seq<Point>, j: nat, w: Sweep)
    requires j <= |s|
  {
    forall a: nat :: a < HORIZON && (j < |s| ==> a < s[j].addr) ==> KindAt(w, a) == TypeAt(EffectiveMap(map_), a)
  }

  lemma MeaningStep(map_: seq<Entry>, s: seq<Point>, j: nat, w: Sweep, opener: nat, cur: nat)
    requires SweepOrder(map_, s) && j < |s| && Shape(map_, s, j, w, opener) && Meaning(map_, s, j, w)
    requires IsTop(map_, multiset(s[..j + 1]), cur)
    requires var w' := Emit(w, s[j].addr, cur); Regular(w'.out) && LastEnd(w'.out) <= s[j].addr
    ensures Meaning(map_, s, j + 1, Emit(w, s[j].addr, cur))
  {
    var x, w' := s[j].addr, Emit(w, s[j].addr, cur);
    if j > 0 { AddrOrder(map_, s, j - 1, j); }
    hide SweepOrder, IsTop, Held, TouchOk, Regular, TypeAt, EffectiveMap, Emit;
    forall a: nat | a < HORIZON && (j + 1 < |s| ==> a < s[j + 1].addr)
      ensures KindAt(w', a) == TypeAt(EffectiveMap(map_), a)
    {
      if a < x {
        EmitBelow(w, x, cur, a);
      } else {
        MeaningBeyond(map_, s, j, w, cur, a);
      }
    }
  }

  /** From the point on, the open region says what the top of the list is. */
  lemma MeaningBeyond(map_: seq<Entry>, s: seq<Point>, j: nat, w: Sweep, cur: nat, a: nat)
    requires SweepOrder(map_, s) && j < |s| && IsTop(map_, multiset(s[..j + 1]), cur)
    requires var w' := Emit(w, s[j].addr, cur); Regular(w'.out) && LastEnd(w'.out) <= s[j].addr
    requires s[j].addr <= a < HORIZON && (j + 1 < |s| ==> a < s[j + 1].addr)
    requires w.lastKind > 0 ==> w.lastAddr <= s[j].addr
    ensures KindAt(Emit(w, s[j].addr, cur), a) == TypeAt(EffectiveMap(map_), a)
  {
    TopIsType(map_, s, j + 1, a, cur);
    TypeBeyond(Emit(w, s[j].addr, cur).out, a);
    hide SweepOrder, IsTop, Regular, TypeAt, EffectiveMap;
  }

  lemma TopStep(map_: seq<Entry>, s: seq<Point>, j: nat, last: nat, cur: nat)
    requires SweepOrder(map_, s) && j < |s| && IsTop(map_, multiset(s[..j]), last)
    requires IsTop(map_, multiset(s[..j + 1]), cur)
    ensures IsStart(map_, s[j]) ==> cur >= last && (cur > last ==> cur == map_[s[j].entry].kind)
    ensures IsStart(map_, s[j]) ==> Level(map_, multiset(s[..j + 1]), s[j].entry) > 0
    ensures !IsStart(map_, s[j]) ==> cur <= last
    ensures !IsStart(map_, s[j]) ==> forall e :: 0 <= e < |map_| && map_[e].addr == s[j].addr ==>
      Level(map_, multiset(s[..j + 1]), e) == Level(map_, multiset(s[..j]), e)
  {
    forall e | 0 <= e < |map_|
      ensures Level(map_, multiset(s[..j + 1]), e) == Level(map_, multiset(s[..j]), e) +
        if e != s[j].entry then 0 else if IsStart(map_, s[j]) then 1 else -1
    {
      LevelStep(map_, s, j, e);
    }
    if IsStart(map_, s[j]) {
      LevelAtStart(map_, s, j);
    }
  }

  lemma LevelAtStart(map_: seq<Entry>, s: seq<Point>, j: nat)
    requires SweepOrder(map_, s) && j < |s| && IsStart(map_, s[j])
    ensures Level(map_, multiset(s[..j]), s[j].entry) >= 0
  {
    var e := s[j].entry;
    if map_[e].size > 0 {
      if j > 0 { AddrOrder(map_, s, j - 1, j); }
      NotSeen(map_, s, j, EndOf(map_, e));
    }
  }

  ghost predicate Facts(map_: seq<Entry>, seen: multiset<Point>, seen': multiset<Point>, p: Point, w: Sweep,
      opener: nat, cur: nat)
    requires p.entry < |map_|
  {
    && (if IsStart(map_, p) then cur >= w.lastKind else cur <= w.lastKind)
    && (!IsStart(map_, p) && Held(map_, seen, w, opener) && w.lastAddr == p.addr ==> cur == w.lastKind)
    && (cur > w.lastKind ==> Held(map_, seen', Sweep([], cur, p.addr), p.entry))
    && (cur == w.lastKind && w.lastAddr == p.addr && Held(map_, seen, w, opener) ==> Held(map_, seen', w, opener))
  }

  lemma FactsHold(map_: seq<Entry>, s: seq<Point>, j: nat, w: Sweep, opener: nat, cur: nat)
    requires SweepOrder(map_, s) && j < |s| && IsTop(map_, multiset(s[..j]), w.lastKind)
    requires IsTop(map_, multiset(s[..j + 1]), cur)
    ensures Facts(map_, multiset(s[..j]), multiset(s[..j + 1]), s[j], w, opener, cur)
  {
    TopStep(map_, s, j, w.lastKind, cur);
    if opener < |map_| { LevelStep(map_, s, j, opener); }
  }

  /** The frame invariant across one point `p`, whose predecessor was at `addr`. */
  lemma FrameNext(map_: seq<Entry>, seen: multiset<Point>, seen': multiset<Point>, n: nat, addr: nat, isStart: bool,
      p: Point, w: Sweep, opener: nat, cur: nat)
    requires p.entry < |map_| && Facts(map_, seen, seen', p, w, opener, cur)
    requires if n == 0 then w == Sweep([], 0, 0) else Framed(w, n, addr, isStart, Held(map_, seen, w, opener))
    requires n > 0 ==> addr <= p.addr && (addr == p.addr && IsStart(map_, p) ==> isStart)
    ensures var w' := Emit(w, p.addr, cur);
      Framed(w', n + 1, p.addr, IsStart(map_, p), Held(map_, seen', w', if cur > w.lastKind then p.entry else opener))
  {
    hide Level, Framed, Regular;
    var x, w' := p.addr, Emit(w, p.addr, cur);
    var held, opener' := Held(map_, seen, w, opener), if cur > w.lastKind then p.entry else opener;
    if n > 0 {
      FrameStep(w, n, addr, isStart, held, x, IsStart(map_, p), cur);
    } else {
      FirstFrame(x, IsStart(map_, p), cur, cur > w.lastKind || (cur == w.lastKind && held));
    }
    TouchHeld(w', n + 1, x, IsStart(map_, p), cur > w.lastKind || (cur == w.lastKind && held),
      Held(map_, seen', w', opener'));
  }

  lemma ShapeStep(map_: seq<Entry>, s: seq<Point>, j: nat, w: Sweep, opener: nat, cur: nat)
    requires SweepOrder(map_, s) && j < |s| && Shape(map_, s, j, w, opener)
    requires IsTop(map_, multiset(s[..j + 1]), cur)
    ensures Shape(map_, s, j + 1, Emit(w, s[j].addr, cur), if cur > w.lastKind then s[j].entry else opener)
  {
    FactsHold(map_, s, j, w, opener, cur);
    if j > 0 { AddrOrder(map_, s, j - 1, j); }
    var addr, isStart := if j > 0 then s[j - 1].addr else 0, j > 0 && IsStart(map_, s[j - 1]);
    FrameNext(map_, multiset(s[..j]), multiset(s[..j + 1]), j, addr, isStart, s[j], w, opener, cur);
    hide SweepOrder, Framed, IsTop, Held, Facts;
  }

  lemma FirstFrame(x: nat, isStart: bool, cur: nat, held: bool)
    ensures Framed(Emit(Sweep([], 0, 0), x, cur), 1, x, isStart, held)
  {
  }

  // ---------------------------------------------------------------- the overlap list

  /** Slots the sweep may need in its overlap table. */
  function Slots(map_: seq<Entry>): nat {
    if map_ == [] then 0 else
      var n := |map_| - 1;
      Slots(map_[..n]) + if map_[n].size > 0 then 1 else 2
  }

  ghost function SlotBag(map_: seq<Entry>): (b: multiset<nat>)
    ensures |b| == Slots(map_)
  {
    if map_ == [] then multiset{} else
      var n: nat := |map_| - 1;
      SlotBag(map_[..n]) + if map_[n].size > 0 then multiset{n} else multiset{n as nat, n}
  }

  lemma {:induction false} SlotBagCount(map_: seq<Entry>, e: nat)
    ensures SlotBag(map_)[e] == if e >= |map_| then 0 else if map_[e].size > 0 then 1 else 2
    decreases |map_|
  {
    if map_ != [] {
      SlotBagCount(map_[..|map_| - 1], e);
    }
  }

  lemma BagSize<T>(a: multiset<T>, b: multiset<T>)
    requires a <= b
    ensures |a| <= |b|
  {
    assert b == a + (b - a);
  }

  /** The overlap list agrees with the points processed so far. */
  ghost predicate Lists(map_: seq<Entry>, seen: multiset<Point>, list: seq<nat>) {
    && (forall i :: 0 <= i < |list| ==> list[i] < |map_|)
    && (forall e: nat :: e < |map_| ==> multiset(list)[e] == Level(map_, seen, e))
  }

  lemma LevelAtMost(map_: seq<Entry>, s: seq<Point>, j: nat, e: nat)
    requires SweepOrder(map_, s) && j <= |s| && e < |map_|
    ensures Level(map_, multiset(s[..j]), e) <= if map_[e].size > 0 then 1 else 2
  {
    PointsCount(map_, StartOf(map_, e));
    SplitCount(s, j, StartOf(map_, e));
  }

  lemma ListFits(map_: seq<Entry>, s: seq<Point>, j: nat, list: seq<nat>)
    requires SweepOrder(map_, s) && j <= |s| && Lists(map_, multiset(s[..j]), list)
    ensures |list| <= Slots(map_)
  {
    forall e: nat ensures multiset(list)[e] <= SlotBag(map_)[e] {
      SlotBagCount(map_, e);
      if e < |map_| {
        LevelAtMost(map_, s, j, e);
      } else {
        assert e !in list;
      }
    }
    hide SweepOrder, Slots, SlotBag, Lists;
    BagSize(multiset(list), SlotBag(map_));
  }

  lemma ListPush(map_: seq<Entry>, s: seq<Point>, j: nat, list: seq<nat>)
    requires SweepOrder(map_, s) && j < |s| && Lists(map_, multiset(s[..j]), list) && IsStart(map_, s[j])
    ensures Lists(map_, multiset(s[..j + 1]), list + [s[j].entry])
  {
    var l: seq<nat> := list + [s[j].entry];
    forall e: nat | e < |map_| ensures multiset(l)[e] == Level(map_, multiset(s[..j + 1]), e) {
      LevelStep(map_, s, j, e);
    }
  }

  lemma ListPop(map_: seq<Entry>, s: seq<Point>, j: nat, list: seq<nat>, list': seq<nat>)
    requires SweepOrder(map_, s) && j < |s| && Lists(map_, multiset(s[..j]), list) && !IsStart(map_, s[j])
    requires multiset(list') == multiset(list) - multiset{s[j].entry}
    ensures Lists(map_, multiset(s[..j + 1]), list')
  {
    LevelAtEnd(map_, s, j);
    forall i | 0 <= i < |list'| ensures list'[i] < |map_| {
      assert list'[i] in multiset(list');
    }
    forall e: nat | e < |map_| ensures multiset(list')[e] == Level(map_, multiset(s[..j + 1]), e) {
      LevelStep(map_, s, j, e);
    }
  }

  /** Removes the entry `e` by moving the last one into its place; the caller drops the last slot. */
  method RemoveEntry(ov: array<nat>, k: nat, e: nat)
    requires 0 < k <= ov.Length && multiset(ov[..k])[e] == 1
    modifies ov
    ensures multiset(ov[..k - 1]) == multiset(old(ov[..k])) - multiset{e}
  {
    ghost var l := ov[..k];
    ghost var q := OnlyPlace(l, e);
    MoveLast(ov, k, e, q);
    DropLast(l, q, ov[..k]);
    assert ov[..k - 1] == ov[..k][..k - 1];
  }

  /** Where the one occurrence is. */
  lemma OnlyPlace<T>(l: seq<T>, e: T) returns (q: nat)
    requires multiset(l)[e] == 1
    ensures q < |l| && forall i :: 0 <= i < |l| ==> (l[i] == e <==> i == q)
  {
    assert e in multiset(l);
    q :| 0 <= q < |l| && l[q] == e;
    forall i | 0 <= i < |l| && i != q ensures l[i] != e {
      OnlyOnce(l, q, i);
    }
  }

  lemma DropLast<T>(l: seq<T>, q: nat, r: seq<T>)
    requires q < |l| && r == l[q := l[|l| - 1]]
    ensures multiset(r[..|l| - 1]) == multiset(l) - multiset{l[q]}
  {
    SwapOut(l, q);
  }

  /** The loop that does it. */
  method MoveLast(ov: array<nat>, k: nat, e: nat, ghost q: nat)
    requires q < k <= ov.Length && forall i :: 0 <= i < k ==> (ov[i] == e <==> i == q)
    modifies ov
    ensures ov[..k] == old(ov[..k])[q := old(ov[k - 1])]
  {
    ghost var l := ov[..k];
    for i := 0 to k
      invariant ov[..k] == if i <= q then l else l[q := l[k - 1]]
    {
      assert ov[..k][i] == ov[i];
      if ov[i] == e {
        ov[i] := ov[k - 1];
      }
    }
  }

  lemma OnlyOnce<T>(l: seq<T>, q: nat, i: nat)
    requires q < |l| && i < |l| && i != q && multiset(l)[l[q]] == 1
    ensures l[i] != l[q]
  {
    SplitCount(l, if i < q then q else i, l[q]);
    var m := if i < q then q else i;
    assert l[..m][if i < q then i else q] == l[if i < q then i else q];
    assert l[m..][0] == l[m];
  }

  lemma SwapOut<T>(l: seq<T>, q: nat)
    requires q < |l|
    ensures var l' := l[q := l[|l| - 1]][..|l| - 1]; multiset(l') == multiset(l) - multiset{l[q]}
  {
    var n := |l| - 1;
    var l' := l[q := l[n]][..n];
    assert l == l[..n] + [l[n]];
    if q < n {
      assert l[..n] == l[..q] + [l[q]] + l[q + 1..n];
      assert l' == l[..q] + [l[n]] + l[q + 1..n];
    } else {
      assert l' == l[..n];
    }
  }

  /** The type to use: the largest in the overlap list. */
  method CurrentKind(map_: seq<Entry>, ov: array<nat>, k: nat, ghost seen: multiset<Point>) returns (cur: nat)
    requires k <= ov.Length && Lists(map_, seen, ov[..k])
    ensures IsTop(map_, seen, cur)
  {
    cur := 0;
    ghost var top := 0;
    for i := 0 to k
      invariant forall q :: 0 <= q < i ==> map_[ov[..k][q]].kind <= cur
      invariant cur == 0 || (top < i && map_[ov[..k][top]].kind == cur)
    {
      assert ov[..k][i] == ov[i];
      if map_[ov[i]].kind > cur {
        cur, top := map_[ov[i]].kind, i;
      }
    }
    ghost var l := ov[..k];
    forall e: nat | e < |map_| && Level(map_, seen, e) > 0 ensures map_[e].kind <= cur {
      assert e in multiset(l);
      var q :| 0 <= q < k && l[q] == e;
    }
    if cur > 0 {
      assert l[top] in multiset(l);
    }
  }
}
