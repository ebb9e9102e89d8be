/** arch-i386/kernel/setup.c, sanitize_e820_map: the whole routine over the BIOS map in place. */
module E820Sanitize {
  import opened E820
  import opened E820Sweep

  /** Recording the start and end of every entry. */
  method RecordPoints(map_: seq<Entry>) returns (cp: array<Point>)
    requires InRange(map_)
    ensures fresh(cp) && cp[..] == Points(map_)
  {
    cp := new Point[2 * |map_|](_ => Point(0, 0));
    var chgidx := 0;
    for i := 0 to |map_|
      invariant chgidx == 2 * i && cp[..chgidx] == Points(map_[..i])
    {
      cp[chgidx] := Point(map_[i].addr, i);
      cp[chgidx + 1] := Point((map_[i].addr + map_[i].size) % U64, i);
      assert map_[..i + 1][..i] == map_[..i];
      assert cp[..chgidx + 2] == cp[..chgidx] + [cp[chgidx], cp[chgidx + 1]];
      chgidx := chgidx + 2;
    }
    assert map_[..|map_|] == map_ && cp[..chgidx] == cp[..];
  }

  /** The output table and the loop variables of the source stand for the sweep state `w`. */
  ghost predicate Holds(w: Sweep, table: seq<Entry>, n: nat, lastKind: nat, lastAddr: nat) {
    && n <= |table| && table[..n] == w.out && w.lastKind == lastKind && w.lastAddr == lastAddr
    && (lastKind != 0 ==> n < |table| && table[n].addr == lastAddr && table[n].kind == lastKind)
  }

  /** Continues the output map; `full` is the source's early exit when the table has no slot left. */
  method Continue(table: array<Entry>, x: nat, cur: nat, n0: nat, lastKind0: nat, lastAddr0: nat, ghost w: Sweep)
    returns (n: nat, lastKind: nat, lastAddr: nat, full: bool)
    requires table.Length == E820_MAX && Holds(w, table[..], n0, lastKind0, lastAddr0) && n0 < E820_MAX
    requires lastKind0 != 0 ==> lastAddr0 <= x
    modifies table
    ensures !full ==> Holds(Emit(w, x, cur), table[..], n, lastKind, lastAddr) && n < E820_MAX
    ensures full ==> n == E820_MAX && table[..] == Emit(w, x, cur).out
  {
    n, lastKind, lastAddr, full := n0, lastKind0, lastAddr0, false;
    if cur != lastKind {
      if lastKind != 0 {
        table[n] := table[n].(size := x - lastAddr);
        if table[n].size != 0 {
          n := n + 1;
          assert table[..n] == w.out + [Entry(lastAddr, x - lastAddr, lastKind)];
          if n >= E820_MAX {
            full := true;
            return;
          }
        }
      }
      if cur != 0 {
        table[n] := table[n].(addr := x, kind := cur);
        lastAddr := x;
      }
      lastKind := cur;
    }
  }

  /** Processes one change point of the overlap list. */
  method Track(map_: seq<Entry>, s: seq<Point>, j: nat, ov: array<nat>, k0: nat) returns (k: nat)
    requires SweepOrder(map_, s) && j < |s| && Slots(map_) <= E820_MAX == ov.Length
    requires k0 <= ov.Length && Lists(map_, multiset(s[..j]), ov[..k0])
    modifies ov
    ensures k <= ov.Length && Lists(map_, multiset(s[..j + 1]), ov[..k])
  {
    hide SweepOrder;
    ghost var l: seq<nat> := ov[..k0];
    k := k0;
    assert s[j].entry < |map_| by { InOrder(map_, s, j); }
    if s[j].addr == map_[s[j].entry].addr {
      ListPush(map_, s, j, l);
      ListFits(map_, s, j + 1, l + [s[j].entry]);
      ov[k] := s[j].entry;
      k := k + 1;
      assert ov[..k] == l + [s[j].entry];
    } else {
      LevelAtEnd(map_, s, j);
      assert multiset(l)[s[j].entry] == 1;
      assert k > 0 by { assert s[j].entry in multiset(l); }
      RemoveEntry(ov, k, s[j].entry);
      k := k - 1;
      ListPop(map_, s, j, l, ov[..k]);
    }
  }

  lemma InOrder(map_: seq<Entry>, s: seq<Point>, j: nat)
    requires SweepOrder(map_, s) && j < |s|
    ensures s[j].entry < |map_| && |s| == 2 * |map_|
  {
    PointsLength(map_);
    assert |multiset(s)| == |multiset(Points(map_))|;
  }

  /** What the first `n` table entries say about the input: below `cut` they give the type in
      force at every address, and nothing from `cut` on. */
  ghost predicate Describes(out: seq<Entry>, map_: seq<Entry>, cut: nat) {
    && Regular(out) && cut <= HORIZON
    && (forall a: nat :: a < cut ==> TypeAt(out, a) == TypeAt(EffectiveMap(map_), a))
    && (forall a: nat :: cut <= a ==> TypeAt(out, a) == 0)
  }

  /** The type in force beyond every change point. */
  function LastType(map_: seq<Entry>): nat {
    TypeAt(EffectiveMap(map_), HORIZON - 1)
  }

  /** Where a complete sweep stops writing: nowhere if nothing is in force in the end, and else at
      the least address from which the type never changes again, where the region left open starts. */
  ghost predicate Settled(map_: seq<Entry>, cut: nat) {
    if LastType(map_) == 0 then cut == HORIZON
    else
      && cut < HORIZON
      && (forall a: nat :: cut <= a < HORIZON ==> TypeAt(EffectiveMap(map_), a) == LastType(map_))
      && (cut > 0 ==> TypeAt(EffectiveMap(map_), cut - 1) != LastType(map_))
  }

  /** Only one address is that. */
  lemma SettledOnce(map_: seq<Entry>, cut: nat, cut': nat)
    requires Settled(map_, cut) && Settled(map_, cut')
    ensures cut == cut'
  {
  }

  lemma Begin(map_: seq<Entry>, s: seq<Point>)
    requires SweepOrder(map_, s)
    ensures Shape(map_, s, 0, Sweep([], 0, 0), 0) && Meaning(map_, s, 0, Sweep([], 0, 0))
    ensures Lists(map_, multiset(s[..0]), [])
  {
    assert IsTop(map_, multiset(s[..0]), 0);
    forall a: nat | a < HORIZON && (0 < |s| ==> a < s[0].addr)
      ensures KindAt(Sweep([], 0, 0), a) == TypeAt(EffectiveMap(map_), a)
    {
      TopIsType(map_, s, 0, a, 0);
    }
  }

  lemma PointInRange(map_: seq<Entry>, s: seq<Point>, j: nat)
    requires SweepOrder(map_, s) && j < |s|
    ensures s[j].addr < U64
  {
    PointsCount(map_, s[j]);
    assert s[j] in multiset(s);
  }

  lemma Finish(map_: seq<Entry>, s: seq<Point>, w: Sweep, opener: nat)
    requires SweepOrder(map_, s) && s != [] && Shape(map_, s, |s|, w, opener) && Meaning(map_, s, |s|, w)
    ensures var cut := if w.lastKind > 0 then w.lastAddr else HORIZON; Describes(w.out, map_, cut) && Settled(map_, cut)
  {
    PointInRange(map_, s, |s| - 1);
    var cut := if w.lastKind > 0 then w.lastAddr else HORIZON;
    forall a: nat | cut <= a ensures TypeAt(w.out, a) == 0 {
      TypeBeyond(w.out, a);
    }
    forall a: nat | a < HORIZON ensures KindAt(w, a) == TypeAt(EffectiveMap(map_), a) {
    }
    if w.lastKind == 0 {
      TypeBeyond(w.out, HORIZON - 1);
    } else if cut > 0 {
      BeforeOpen(w, s[|s| - 1].addr, IsStart(map_, s[|s| - 1]), Held(map_, multiset(s[..|s|]), w, opener));
    }
  }

  /** Just below the open region the type is another one. */
  lemma BeforeOpen(w: Sweep, addr: nat, isStart: bool, held: bool)
    requires Regular(w.out) && TouchOk(w, addr, isStart, held) && w.lastKind > 0 && LastEnd(w.out) <= w.lastAddr
    requires w.lastAddr > 0
    ensures KindAt(w, w.lastAddr - 1) != w.lastKind
  {
    var a := w.lastAddr - 1;
    if w.out != [] && LastEnd(w.out) == w.lastAddr {
      var n := |w.out| - 1;
      forall i | 0 <= i < n ensures !Covers(w.out[i], a) { assert End(w.out[i]) <= w.out[n].addr; }
      assert Covers(w.out[n], a);
    } else {
      TypeBeyond(w.out, a);
    }
  }

  lemma CutShort(map_: seq<Entry>, s: seq<Point>, j: nat, w: Sweep, cur: nat, opener: nat)
    requires SweepOrder(map_, s) && j < |s| && cur != w.lastKind
    requires var w' := Emit(w, s[j].addr, cur); Shape(map_, s, j + 1, w', opener) && Meaning(map_, s, j + 1, w')
    ensures Describes(Emit(w, s[j].addr, cur).out, map_, s[j].addr)
  {
    PointInRange(map_, s, j);
    var x, w' := s[j].addr, Emit(w, s[j].addr, cur);
    forall a: nat | x <= a ensures TypeAt(w'.out, a) == 0 {
      TypeBeyond(w'.out, a);
    }
    forall a: nat | a < x ensures TypeAt(w'.out, a) == TypeAt(EffectiveMap(map_), a) {
      if j + 1 < |s| { AddrOrder(map_, s, j, j + 1); }
      assert KindAt(w', a) == TypeAt(EffectiveMap(map_), a);
    }
  }

  lemma ShapeFacts(map_: seq<Entry>, s: seq<Point>, j: nat, w: Sweep, opener: nat)
    requires SweepOrder(map_, s) && j <= |s| && Shape(map_, s, j, w, opener)
    ensures w.lastKind > 0 ==> j > 0 && w.lastAddr <= s[j - 1].addr
    ensures |w.out| <= 2 * |map_| - 1 || map_ == []
    ensures j < |s| && w.lastKind > 0 ==> w.lastAddr <= s[j].addr
    ensures Regular(w.out) && (j > 0 ==> LastEnd(w.out) <= s[j - 1].addr) && (j == 0 ==> w.out == [])
  {
    if j < |s| { InOrder(map_, s, j); } else if j > 0 { InOrder(map_, s, j - 1); }
    if 0 < j < |s| { AddrOrder(map_, s, j - 1, j); }
  }

  /** What the main loop of the sweep keeps. */
  ghost predicate Sweeping(map_: seq<Entry>, s: seq<Point>, j: nat, w: Sweep, opener: nat, list: seq<nat>)
    requires j <= |s| && SweepOrder(map_, s)
  {
    Shape(map_, s, j, w, opener) && Meaning(map_, s, j, w) && Lists(map_, multiset(s[..j]), list)
  }

  lemma Advance(map_: seq<Entry>, s: seq<Point>, j: nat, w: Sweep, opener: nat, list: seq<nat>, list': seq<nat>,
      cur: nat)
    requires SweepOrder(map_, s) && j < |s| && Sweeping(map_, s, j, w, opener, list)
    requires Lists(map_, multiset(s[..j + 1]), list') && IsTop(map_, multiset(s[..j + 1]), cur)
    ensures Sweeping(map_, s, j + 1, Emit(w, s[j].addr, cur), if cur > w.lastKind then s[j].entry else opener, list')
  {
    hide SweepOrder, Lists, IsTop, Framed, Meaning;
    var opener' := if cur > w.lastKind then s[j].entry else opener;
    ShapeStep(map_, s, j, w, opener, cur);
    ShapeFacts(map_, s, j + 1, Emit(w, s[j].addr, cur), opener');
    MeaningStep(map_, s, j, w, opener, cur);
  }

  lemma Cut(map_: seq<Entry>, s: seq<Point>, j: nat, w: Sweep, opener: nat, list: seq<nat>, list': seq<nat>, cur: nat)
    requires SweepOrder(map_, s) && j < |s| && Sweeping(map_, s, j, w, opener, list)
    requires Sweeping(map_, s, j + 1, Emit(w, s[j].addr, cur), if cur > w.lastKind then s[j].entry else opener, list')
    requires |Emit(w, s[j].addr, cur).out| == E820_MAX > |w.out| && map_ != []
    ensures Describes(Emit(w, s[j].addr, cur).out, map_, s[j].addr) && E820_MAX <= 2 * |map_| - 1
    ensures LastEnd(Emit(w, s[j].addr, cur).out) == s[j].addr
  {
    CutShort(map_, s, j, w, cur, if cur > w.lastKind then s[j].entry else opener);
    ShapeFacts(map_, s, j + 1, Emit(w, s[j].addr, cur), if cur > w.lastKind then s[j].entry else opener);
  }

  lemma Close(map_: seq<Entry>, s: seq<Point>, w: Sweep, opener: nat, list: seq<nat>)
    requires SweepOrder(map_, s) && s != [] && map_ != [] && Sweeping(map_, s, |s|, w, opener, list)
    ensures var cut := if w.lastKind > 0 then w.lastAddr else HORIZON; Describes(w.out, map_, cut) && Settled(map_, cut)
    ensures |w.out| <= 2 * |map_| - 1
  {
    Finish(map_, s, w, opener);
    ShapeFacts(map_, s, |s|, w, opener);
  }

  lemma OpenBelow(map_: seq<Entry>, s: seq<Point>, j: nat, w: Sweep, opener: nat, list: seq<nat>)
    requires SweepOrder(map_, s) && j < |s| && Sweeping(map_, s, j, w, opener, list)
    ensures w.lastKind > 0 ==> w.lastAddr <= s[j].addr
  {
    ShapeFacts(map_, s, j, w, opener);
  }

  /** One round of the main loop. */
  method SweepOne(map_: seq<Entry>, s: seq<Point>, j: nat, ov: array<nat>, k0: nat, table: array<Entry>,
      n0: nat, lastKind0: nat, lastAddr0: nat, ghost w: Sweep, ghost opener: nat)
    returns (k: nat, n: nat, lastKind: nat, lastAddr: nat, full: bool, ghost w': Sweep, ghost opener': nat)
    requires SweepOrder(map_, s) && j < |s| && map_ != [] && Slots(map_) <= E820_MAX == ov.Length == table.Length
    requires k0 <= ov.Length && Sweeping(map_, s, j, w, opener, ov[..k0])
    requires Holds(w, table[..], n0, lastKind0, lastAddr0) && n0 < E820_MAX
    modifies ov, table
    ensures !full ==> k <= ov.Length && Sweeping(map_, s, j + 1, w', opener', ov[..k])
    ensures !full ==> Holds(w', table[..], n, lastKind, lastAddr) && n < E820_MAX
    ensures full ==>
      n == E820_MAX <= 2 * |map_| - 1 && Describes(table[..n], map_, s[j].addr) && LastEnd(table[..n]) == s[j].addr
  {
    ghost var l := ov[..k0];
    OpenBelow(map_, s, j, w, opener, l);
    k := Track(map_, s, j, ov, k0);
    var cur := CurrentKind(map_, ov, k, multiset(s[..j + 1]));
    Advance(map_, s, j, w, opener, l, ov[..k], cur);
    hide SweepOrder, Sweeping, Lists, IsTop, Describes, Shape;
    n, lastKind, lastAddr, full := Continue(table, s[j].addr, cur, n0, lastKind0, lastAddr0, w);
    w', opener' := Emit(w, s[j].addr, cur), if cur > w.lastKind then s[j].entry else opener;
    if full {
      Cut(map_, s, j, w, opener, l, ov[..k], cur);
      assert table[..n] == table[..];
    }
  }

  method BuildMap(map_: seq<Entry>, cp: array<Point>, table: array<Entry>) returns (n: nat, ghost cut: nat)
    requires SweepOrder(map_, cp[..]) && map_ != [] && Slots(map_) <= E820_MAX == table.Length
    modifies table
    ensures n <= E820_MAX && Describes(table[..n], map_, cut)
    ensures if n < E820_MAX then Settled(map_, cut) else cut == LastEnd(table[..n])
    ensures n <= 2 * |map_| - 1
  {
    var ov := new nat[E820_MAX];
    var k: nat, lastKind: nat, lastAddr: nat := 0, 0, 0;
    n := 0;
    ghost var s, w, opener: nat := cp[..], Sweep([], 0, 0), 0;
    Begin(map_, s);
    InOrder(map_, s, 0);
    assert ov[..0] == [];
    hide SweepOrder, Sweeping, Lists, IsTop, Describes, Settled, Shape;
    for chgidx := 0 to cp.Length
      invariant k <= ov.Length && cp[..] == s
      invariant Sweeping(map_, s, chgidx, w, opener, ov[..k]) && Holds(w, table[..], n, lastKind, lastAddr)
      invariant n < E820_MAX
    {
      var full;
      k, n, lastKind, lastAddr, full, w, opener :=
        SweepOne(map_, cp[..], chgidx, ov, k, table, n, lastKind, lastAddr, w, opener);
      if full {
        cut := s[chgidx].addr;
        return;
      }
    }
    Close(map_, s, w, opener, ov[..k]);
    cut := if w.lastKind > 0 then w.lastAddr else HORIZON;
  }

  ghost predicate Positive(map_: seq<Entry>) {
    forall i :: 0 <= i < |map_| ==> map_[i].size > 0
  }

  /** The kernel's `unsigned long long` fields. */
  ghost predicate Words(map_: seq<Entry>) {
    forall i :: 0 <= i < |map_| ==> map_[i].addr < U64 && map_[i].size < U64
  }

  /** The routine: refuses maps of fewer than two entries and maps with a wrapping entry, and
      otherwise rewrites the map in place. */
  method Sanitize(biosmap: array<Entry>, nr: int) returns (status: int, newNr: int, ghost cut: nat)
    requires biosmap.Length == E820_MAX && nr <= E820_MAX && Words(biosmap[..])
    requires nr >= 2 ==> Slots(biosmap[..nr]) <= E820_MAX
    modifies biosmap
    ensures status == 0 || (status == -1 && newNr == nr && biosmap[..] == old(biosmap[..]))
    ensures status == 0 <==> nr >= 2 && InRange(old(biosmap[..nr]))
    ensures status == 0 ==> 0 <= newNr <= E820_MAX && newNr <= 2 * nr - 1
    ensures status == 0 ==> biosmap[newNr..] == old(biosmap[..])[newNr..]
    ensures status == 0 ==> Describes(biosmap[..newNr], old(biosmap[..nr]), cut)
    ensures status == 0 ==>
      if newNr < E820_MAX then Settled(old(biosmap[..nr]), cut) else cut == LastEnd(biosmap[..newNr])
    ensures status == 0 && newNr < E820_MAX ==>
      (ExactEverywhere(biosmap[..newNr], old(biosmap[..nr])) <==> EmptiesHarmless(old(biosmap[..nr])))
    ensures status == 0 && newNr < E820_MAX && Positive(old(biosmap[..nr])) ==>
      ExactEverywhere(biosmap[..newNr], old(biosmap[..nr]))
  {
    newNr, cut := nr, 0;
    if nr < 2 {
      return -1, nr, 0;
    }
    var map_ := biosmap[..nr];
    var sane := NoWrap(map_);
    if !sane {
      return -1, nr, 0;
    }
    var table, n, c := Rebuild(map_);
    hide Describes, Settled, Slots, InRange, ExactEverywhere, EmptiesHarmless, LastEnd;
    CopyBack(biosmap, table, n);
    return 0, n, c;
  }

  /** From recording the change points to the finished table. */
  method Rebuild(map_: seq<Entry>) returns (table: array<Entry>, n: nat, ghost cut: nat)
    requires InRange(map_) && map_ != [] && Slots(map_) <= E820_MAX
    ensures fresh(table) && table.Length == E820_MAX >= n && n <= 2 * |map_| - 1
    ensures Describes(table[..n], map_, cut) && if n < E820_MAX then Settled(map_, cut) else cut == LastEnd(table[..n])
    ensures n < E820_MAX ==> (ExactEverywhere(table[..n], map_) <==> EmptiesHarmless(map_))
    ensures n < E820_MAX && Positive(map_) ==> ExactEverywhere(table[..n], map_)
  {
    var cp := RecordPoints(map_);
    RecordedInto(map_);
    SortPoints(map_, cp);
    table := new Entry[E820_MAX](_ => Entry(0, 0, 0));
    n, cut := BuildMap(map_, cp, table);
    hide Describes, Settled, Regular, ExactEverywhere, EmptiesHarmless;
    if n < E820_MAX {
      ZeroSizeExact(table[..n], map_, cut);
      if Positive(map_) { Exact(table[..n], map_, cut); }
    }
  }

  /** The bail-out test on every entry. */
  method NoWrap(map_: seq<Entry>) returns (sane: bool)
    requires Words(map_)
    ensures sane <==> InRange(map_)
  {
    for i := 0 to |map_|
      invariant InRange(map_[..i])
    {
      if (map_[i].addr + map_[i].size) % U64 < map_[i].addr {
        return false;
      }
    }
    assert map_[..|map_|] == map_;
    return true;
  }

  method CopyBack(biosmap: array<Entry>, table: array<Entry>, n: nat)
    requires biosmap != table && n <= biosmap.Length <= table.Length
    modifies biosmap
    ensures biosmap[..n] == table[..n] && biosmap[n..] == old(biosmap[n..])
  {
    ghost var all := biosmap[..];
    for i := 0 to n
      invariant biosmap[..i] == table[..i] && biosmap[i..] == all[i..]
    {
      biosmap[i] := table[i];
      assert biosmap[i + 1..] == biosmap[i..][1..] == all[i..][1..];
    }
  }

  lemma RecordedInto(map_: seq<Entry>)
    requires map_ != []
    ensures PointsInto(map_, Points(map_)) && |Points(map_)| == 2 * |map_|
  {
    PointsLength(map_);
    var s := Points(map_);
    forall i | 0 <= i < |s| ensures s[i].entry < |map_| {
      PointsCount(map_, s[i]);
      assert s[i] in multiset(s);
    }
  }

  // ---------------------------------------------------------------- one map only

  /** The last region of a regular map. */
  lemma LastRegion(out: seq<Entry>)
    requires Regular(out) && out != []
    ensures var n := |out| - 1;
      && Regular(out[..n]) && LastEnd(out[..n]) <= out[n].addr
      && (forall a: nat :: TypeAt(out, a) == if Covers(out[n], a) then out[n].kind else TypeAt(out[..n], a))
      && (forall a: nat :: out[n].addr <= a ==> TypeAt(out[..n], a) == 0)
  {
    var n := |out| - 1;
    var rest, x := out[..n], out[n].addr;
    assert LastEnd(rest) <= x by {
      if n > 0 { assert End(out[n - 1]) <= x; }
    }
    forall a: nat | x <= a ensures TypeAt(rest, a) == 0 { TypeBeyond(rest, a); }
  }

  /** The addresses from `x` up to `end` have one type, and the one below `x` has another. */
  ghost predicate RunAt(out: seq<Entry>, x: nat, end: nat, kind: nat) {
    x < end && (forall a: nat :: x <= a < end ==> TypeAt(out, a) == kind) && (x > 0 ==> TypeAt(out, x - 1) != kind)
  }

  lemma RunOnce(out: seq<Entry>, out': seq<Entry>, x: nat, x': nat, end: nat, kind: nat)
    requires RunAt(out, x, end, kind) && RunAt(out', x', end, kind)
    requires forall a: nat :: TypeAt(out, a) == TypeAt(out', a)
    ensures x == x'
  {
  }

  /** The last region is such a run, and nothing has a type from its end on. */
  lemma LastRun(out: seq<Entry>)
    requires Regular(out) && out != []
    ensures var e := out[|out| - 1];
      RunAt(out, e.addr, End(e), e.kind) && e.kind > 0 && forall a: nat :: End(e) <= a ==> TypeAt(out, a) == 0
  {
    var n := |out| - 1;
    var e := out[n];
    assert e.size > 0 && e.kind > 0;
    LastRegion(out);
    if e.addr > 0 {
      BeforeOpen(Sweep(out[..n], e.kind, e.addr), U64 + e.addr, false, false);
    }
    hide TypeAt, Regular, LastEnd;
  }

  /** A regular map is determined by what it says. */
  lemma {:induction false} SameRegular(out: seq<Entry>, out': seq<Entry>)
    requires Regular(out) && Regular(out') && forall a: nat :: TypeAt(out, a) == TypeAt(out', a)
    ensures out == out'
    decreases |out|
  {
    if out == [] || out' == [] {
      Inhabited(out);
      Inhabited(out');
    } else {
      var n, n' := |out| - 1, |out'| - 1;
      LastRegion(out);
      LastRegion(out');
      SameLast(out, out');
      var e := out[n];
      hide TypeAt, Regular, LastEnd;
      forall a: nat ensures TypeAt(out[..n], a) == TypeAt(out'[..n'], a) {
        assert TypeAt(out, a) == TypeAt(out', a);
        assert e.addr <= a || !Covers(e, a);
      }
      SameRegular(out[..n], out'[..n']);
      assert out == out[..n] + [e] && out' == out'[..n'] + [e];
    }
  }

  lemma SameLast(out: seq<Entry>, out': seq<Entry>)
    requires Regular(out) && Regular(out') && out != [] && out' != []
    requires forall a: nat :: TypeAt(out, a) == TypeAt(out', a)
    ensures out[|out| - 1] == out'[|out'| - 1]
  {
    LastRun(out);
    LastRun(out');
    var e, e' := out[|out| - 1], out'[|out'| - 1];
    hide TypeAt, Regular;
    assert TypeAt(out, End(e) - 1) == e.kind && TypeAt(out', End(e') - 1) == e'.kind;
    RunOnce(out, out', e.addr, e'.addr, End(e), e.kind);
  }

  lemma Inhabited(out: seq<Entry>)
    requires Regular(out)
    ensures out == [] <==> forall a: nat :: TypeAt(out, a) == 0
  {
    if out != [] {
      var e := out[|out| - 1];
      LastRegion(out);
      assert e.size > 0 && e.kind > 0 && Covers(e, e.addr);
      assert TypeAt(out, e.addr) == e.kind;
    }
  }

  /** The contract of the routine leaves no choice: it determines the map that is written. */
  lemma Determined(out: seq<Entry>, out': seq<Entry>, map_: seq<Entry>, cut: nat, cut': nat)
    requires Describes(out, map_, cut) && Describes(out', map_, cut') && Settled(map_, cut) && Settled(map_, cut')
    ensures out == out'
  {
    SettledOnce(map_, cut, cut');
    SameRegular(out, out');
  }

  // ---------------------------------------------------------------- zero-size entries

  /** An empty entry that has a type. */
  predicate Empty(e: Entry) {
    e.size == 0 && e.kind > 0
  }

  /** The largest kind of an empty entry, 0 if there is none. */
  function TopEmpty(map_: seq<Entry>): (k: nat)
    ensures forall e :: 0 <= e < |map_| && Empty(map_[e]) ==> map_[e].kind <= k
    ensures k == 0 || exists e :: 0 <= e < |map_| && Empty(map_[e]) && map_[e].kind == k
  {
    if map_ == [] then 0
    else
      var n := |map_| - 1;
      var k := TopEmpty(map_[..n]);
      if Empty(map_[n]) && map_[n].kind > k then map_[n].kind else k
  }

  /** The least address of an empty entry. */
  function FirstEmpty(map_: seq<Entry>): (m: nat)
    ensures forall e :: 0 <= e < |map_| && Empty(map_[e]) ==> m <= map_[e].addr
    ensures m == HORIZON || exists e :: 0 <= e < |map_| && Empty(map_[e]) && map_[e].addr == m
  {
    if map_ == [] then HORIZON
    else
      var n := |map_| - 1;
      var m := FirstEmpty(map_[..n]);
      if Empty(map_[n]) && map_[n].addr < m then map_[n].addr else m
  }

  /** The end of the last address that has a type. */
  function CoveredEnd(map_: seq<Entry>): (u: nat)
    ensures forall e :: 0 <= e < |map_| && map_[e].size > 0 && map_[e].kind > 0 ==> End(map_[e]) <= u
    ensures u == 0 || exists e :: 0 <= e < |map_| && map_[e].size > 0 && map_[e].kind > 0 && End(map_[e]) == u
  {
    if map_ == [] then 0
    else
      var n := |map_| - 1;
      var u := CoveredEnd(map_[..n]);
      if map_[n].size > 0 && map_[n].kind > 0 && End(map_[n]) > u then End(map_[n]) else u
  }

  function Max(a: nat, b: nat): nat {
    if a > b then a else b
  }

  /** No empty entry outranks the type of an address above it; the greatest of them is in force at
      the end of everything, and the type changes there. */
  ghost predicate EmptiesHarmless(map_: seq<Entry>) {
    var k, edge := TopEmpty(map_), Max(FirstEmpty(map_), CoveredEnd(map_));
    k == 0 || (
      && (forall e, a: nat :: 0 <= e < |map_| && Empty(map_[e]) && map_[e].addr <= a < CoveredEnd(map_) ==>
          map_[e].kind <= TypeAt(map_, a))
      && (exists e :: 0 <= e < |map_| && Empty(map_[e]) && map_[e].kind == k && map_[e].addr <= edge)
      && (edge > 0 ==> TypeAt(map_, edge - 1) != k))
  }

  ghost predicate ExactEverywhere(out: seq<Entry>, map_: seq<Entry>) {
    forall a: nat :: TypeAt(out, a) == TypeAt(map_, a)
  }

  /** The type in force is the true one or that of an empty entry at or below the address. */
  lemma InForce(map_: seq<Entry>, a: nat)
    requires InRange(map_) && a < HORIZON
    ensures var t := TypeAt(EffectiveMap(map_), a);
      && TypeAt(map_, a) <= t
      && (forall e :: 0 <= e < |map_| && Empty(map_[e]) && map_[e].addr <= a ==> map_[e].kind <= t)
      && (t == TypeAt(map_, a)
          || exists e :: 0 <= e < |map_| && Empty(map_[e]) && map_[e].addr <= a && map_[e].kind == t)
  {
    var m := EffectiveMap(map_);
    assert forall e :: 0 <= e < |map_| ==> m[e].kind == map_[e].kind && (Covers(map_[e], a) ==> Covers(m[e], a));
    assert forall e :: 0 <= e < |map_| && Empty(map_[e]) && map_[e].addr <= a ==> Covers(m[e], a);
    assert forall e :: 0 <= e < |map_| && Covers(m[e], a) ==>
      Covers(map_[e], a) || (map_[e].size == 0 && map_[e].addr <= a);
  }

  /** Above the last address that has a type there is none; just below its end there is one. */
  lemma Covered(map_: seq<Entry>, a: nat)
    ensures CoveredEnd(map_) <= a ==> TypeAt(map_, a) == 0
    ensures a + 1 == CoveredEnd(map_) ==> TypeAt(map_, a) > 0
  {
    if a + 1 == CoveredEnd(map_) {
      var e :| 0 <= e < |map_| && map_[e].size > 0 && map_[e].kind > 0 && End(map_[e]) == a + 1;
      assert Covers(map_[e], a);
    }
  }

  /** The sweep ends with an open region, which is never written, exactly when some empty entry has
      a type. */
  lemma OpenEnded(map_: seq<Entry>)
    requires InRange(map_)
    ensures LastType(map_) == TopEmpty(map_)
    ensures CoveredEnd(map_) < HORIZON && (TopEmpty(map_) > 0 ==> FirstEmpty(map_) < HORIZON)
  {
    InForce(map_, HORIZON - 1);
    Covered(map_, HORIZON - 1);
  }

  /** The map that is written says everywhere what the old one does if and only if the empty
      entries are harmless. */
  lemma ZeroSizeExact(out: seq<Entry>, map_: seq<Entry>, cut: nat)
    requires InRange(map_) && Describes(out, map_, cut) && Settled(map_, cut)
    ensures ExactEverywhere(out, map_) <==> EmptiesHarmless(map_)
  {
    OpenEnded(map_);
    if TopEmpty(map_) == 0 {
      forall a: nat ensures TypeAt(out, a) == TypeAt(map_, a) {
        if a < HORIZON { InForce(map_, a); } else { Covered(map_, a); }
      }
    } else {
      if EmptiesHarmless(map_) { HarmlessExact(out, map_, cut); }
      if ExactEverywhere(out, map_) { ExactHarmless(out, map_, cut); }
    }
  }

  lemma HarmlessExact(out: seq<Entry>, map_: seq<Entry>, cut: nat)
    requires InRange(map_) && Describes(out, map_, cut) && Settled(map_, cut) && TopEmpty(map_) > 0
    requires EmptiesHarmless(map_)
    ensures ExactEverywhere(out, map_)
  {
    OpenEnded(map_);
    var edge := Max(FirstEmpty(map_), CoveredEnd(map_));
    forall a: nat | a < edge ensures TypeAt(EffectiveMap(map_), a) == TypeAt(map_, a) { InForce(map_, a); }
    forall a: nat | edge <= a < HORIZON
      ensures TypeAt(EffectiveMap(map_), a) == TopEmpty(map_) && TypeAt(map_, a) == 0 {
      InForce(map_, a);
      Covered(map_, a);
    }
    SettledOnce(map_, cut, edge);
    forall a: nat ensures TypeAt(out, a) == TypeAt(map_, a) { Covered(map_, a); }
  }

  lemma ExactHarmless(out: seq<Entry>, map_: seq<Entry>, cut: nat)
    requires InRange(map_) && Describes(out, map_, cut) && Settled(map_, cut) && TopEmpty(map_) > 0
    requires ExactEverywhere(out, map_)
    ensures EmptiesHarmless(map_)
  {
    OpenEnded(map_);
    CutAtEdge(out, map_, cut);
    InForce(map_, cut);
    assert TypeAt(map_, cut) == 0;
    assert cut > 0 ==> TypeAt(EffectiveMap(map_), cut - 1) == TypeAt(map_, cut - 1);
    forall e, a: nat | 0 <= e < |map_| && Empty(map_[e]) && map_[e].addr <= a < CoveredEnd(map_)
      ensures map_[e].kind <= TypeAt(map_, a) {
      InForce(map_, a);
    }
  }

  /** An exact map stops being written at the first empty entry or the end of everything, whichever
      is later. */
  lemma CutAtEdge(out: seq<Entry>, map_: seq<Entry>, cut: nat)
    requires InRange(map_) && Describes(out, map_, cut) && Settled(map_, cut) && TopEmpty(map_) > 0
    requires ExactEverywhere(out, map_)
    ensures cut == Max(FirstEmpty(map_), CoveredEnd(map_))
  {
    OpenEnded(map_);
    var m, u := FirstEmpty(map_), CoveredEnd(map_);
    assert TypeAt(map_, cut) == TypeAt(out, cut) == 0;
    InForce(map_, cut);
    if u > 0 { Covered(map_, u - 1); }
    if cut > Max(m, u) {
      InForce(map_, Max(m, u));
      Covered(map_, Max(m, u));
    }
  }

  /** The type of every address is kept when no entry is empty. */
  lemma Exact(out: seq<Entry>, map_: seq<Entry>, cut: nat)
    requires InRange(map_) && Positive(map_) && Describes(out, map_, cut) && Settled(map_, cut)
    ensures ExactEverywhere(out, map_)
  {
    ZeroSizeExact(out, map_, cut);
  }

  /** Memory is lost: an empty reserved entry inside usable memory, at 5. */
  lemma UsableLost(out: seq<Entry>, cut: nat)
    requires var m := [Entry(0, 10, 1), Entry(5, 0, 2)]; Describes(out, m, cut) && Settled(m, cut)
    ensures TypeAt([Entry(0, 10, 1), Entry(5, 0, 2)], 7) == 1 && TypeAt(out, 7) == 0
  {
    var m := [Entry(0, 10, 1), Entry(5, 0, 2)];
    assert Covers(m[0], 7) && !Covers(m[1], 7);
    forall a: nat | 5 <= a < HORIZON ensures TypeAt(EffectiveMap(m), a) == 2 {
      assert Covers(EffectiveMap(m)[1], a);
    }
    assert TypeAt(EffectiveMap(m), 7) == LastType(m);
  }

  /** Memory is made up: with empty entries at 20 and 30 the uncovered address 25 becomes reserved. */
  lemma UncoveredReserved(out: seq<Entry>, cut: nat)
    requires var m := [Entry(0, 10, 1), Entry(20, 0, 2), Entry(30, 0, 3)]; Describes(out, m, cut) && Settled(m, cut)
    ensures TypeAt([Entry(0, 10, 1), Entry(20, 0, 2), Entry(30, 0, 3)], 25) == 0 && TypeAt(out, 25) == 2
  {
    var m := [Entry(0, 10, 1), Entry(20, 0, 2), Entry(30, 0, 3)];
    assert !Covers(m[0], 25) && !Covers(m[1], 25) && !Covers(m[2], 25);
    var em := EffectiveMap(m);
    assert Covers(em[1], 25) && !Covers(em[0], 25) && !Covers(em[2], 25);
    var t := TypeAt(em, 25);
    assert t == em[1].kind == 2;
    assert Covers(em[2], HORIZON - 1) && LastType(m) == 3;
    assert cut <= 25 ==> t == LastType(m);
  }

  /** A region is swallowed: an empty entry of the same kind right behind it keeps it open, and
      nothing is written at all. */
  lemma RegionSwallowed(out: seq<Entry>, cut: nat)
    requires var m := [Entry(0, 10, 2), Entry(10, 0, 2)]; Describes(out, m, cut) && Settled(m, cut)
    ensures TypeAt([Entry(0, 10, 2), Entry(10, 0, 2)], 7) == 2 && out == []
  {
    var m := [Entry(0, 10, 2), Entry(10, 0, 2)];
    assert Covers(m[0], 7);
    forall a: nat | a < HORIZON ensures TypeAt(EffectiveMap(m), a) == 2 {
      assert Covers(EffectiveMap(m)[if a < 10 then 0 else 1], a);
    }
    assert cut == 0;
    Inhabited(out);
  }

  /** An empty entry beyond everything is harmless. */
  lemma BeyondHarmless(map_: seq<Entry>, e: Entry)
    requires Positive(map_) && Empty(e) && CoveredEnd(map_) < e.addr < HORIZON
    ensures EmptiesHarmless(map_ + [e])
  {
    var m, n := map_ + [e], |map_|;
    assert m[..n] == map_ && m[n] == e;
    assert TopEmpty(map_) == 0 && FirstEmpty(map_) == HORIZON;
    assert TopEmpty(m) == e.kind && FirstEmpty(m) == e.addr && CoveredEnd(m) == CoveredEnd(map_);
    Covered(m, e.addr - 1);
  }
}
