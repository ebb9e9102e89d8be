/** arch-i386/kernel/setup.c, copy_e820: the BIOS map is copied with the hole between 640K and 1M
    taken out of usable memory. */
module E820Copy {

  import opened E820

  const RAM := 1
  const RESERVED := 2
  const HOLE_START := 0xA0000
  const HOLE_END := 0x100000

  predicate InHole(a: nat) {
    HOLE_START <= a < HOLE_END
  }

  /** The width of the fields. */
  predicate Fits(e: Entry) {
    e.addr < U64 && e.size < U64
  }

  /** Where the routine sees an entry end. */
  function End(e: Entry): nat {
    (e.addr + e.size) % U64
  }

  predicate Wraps(e: Entry) {
    e.addr + e.size >= U64
  }

  predicate MeetsHole(e: Entry) {
    e.kind == RAM && e.addr < HOLE_END && End(e) > HOLE_START
  }

  /** An entry that is copied as it is. */
  predicate LeftAlone(e: Entry) {
    !MeetsHole(e)
  }

  /** Usable memory from the hole up that wraps back into the hole. */
  predicate Swallowed(e: Entry) {
    MeetsHole(e) && Wraps(e)
  }

  predicate Stays(e: Entry) {
    !Swallowed(e)
  }

  /** Usable memory that wraps to an end below the hole. */
  predicate RunsAround(e: Entry) {
    e.kind == RAM && Wraps(e) && End(e) <= HOLE_START
  }

  /** What one entry becomes. */
  function Pieces(e: Entry): seq<Entry> {
    if !MeetsHole(e) then [e]
    else
      var end := End(e);
      (if e.addr < HOLE_START then [Entry(e.addr, HOLE_START - e.addr, RAM)] else [])
      + [if end <= HOLE_END then Entry(HOLE_START, HOLE_END - HOLE_START, RESERVED)
         else Entry(HOLE_END, end - HOLE_END, RAM)]
  }

  function Split(map_: seq<Entry>): seq<Entry> {
    if map_ == [] then [] else Split(map_[..|map_| - 1]) + Pieces(map_[|map_| - 1])
  }

  /** The part of a map that its table has room for. */
  function Kept(map_: seq<Entry>): seq<Entry> {
    if |map_| <= E820_MAX then map_ else map_[..E820_MAX]
  }

  /** The table holds 32 entries, the first ones. */
  lemma KeptFirst(map_: seq<Entry>)
    ensures Kept(map_) <= map_ && |Kept(map_)| == if |map_| < 32 then |map_| else 32
  {
  }

  function Max(a: nat, b: nat): nat {
    if a > b then a else b
  }

  lemma {:induction false} TypeAtAppend(s: seq<Entry>, t: seq<Entry>, a: nat)
    ensures TypeAt(s + t, a) == Max(TypeAt(s, a), TypeAt(t, a))
    decreases |t|
  {
    if t == [] {
      assert s + t == s;
    } else {
      assert (s + t)[..|s + t| - 1] == s + t[..|t| - 1];
      TypeAtAppend(s, t[..|t| - 1], a);
    }
  }

  lemma TypeAtOne(e: Entry, a: nat)
    ensures TypeAt([e], a) == if Covers(e, a) then e.kind else 0
  {
    assert [e][..0] == [];
  }

  lemma WrappedEnd(e: Entry)
    requires Fits(e)
    ensures End(e) == if Wraps(e) then e.addr + e.size - U64 else e.addr + e.size
    ensures Swallowed(e) ==> HOLE_START < End(e) < e.addr
  {
  }

  lemma PiecesMeaning(e: Entry, a: nat)
    requires Fits(e)
    ensures !InHole(a) ==> TypeAt(Pieces(e), a) == if Stays(e) then TypeAt([e], a) else 0
    ensures InHole(a) && !MeetsHole(e) ==> TypeAt(Pieces(e), a) == TypeAt([e], a)
    ensures InHole(a) && MeetsHole(e) ==> TypeAt(Pieces(e), a) == if End(e) <= HOLE_END then RESERVED else 0
  {
    TypeAtOne(e, a);
    WrappedEnd(e);
    if MeetsHole(e) {
      var end := End(e);
      hide End;
      var low := Entry(e.addr, if e.addr < HOLE_START then HOLE_START - e.addr else 0, RAM);
      var high := if end <= HOLE_END then Entry(HOLE_START, HOLE_END - HOLE_START, RESERVED)
        else Entry(HOLE_END, end - HOLE_END, RAM);
      TypeAtOne(low, a);
      TypeAtOne(high, a);
      TypeAtAppend(if e.addr < HOLE_START then [low] else [], [high], a);
    }
  }

  /** The entries of a map that meet a condition. */
  ghost function Those(map_: seq<Entry>, p: Entry -> bool): seq<Entry> {
    if map_ == [] then []
    else
      var n := |map_| - 1;
      Those(map_[..n], p) + if p(map_[n]) then [map_[n]] else []
  }

  lemma ThoseStep(map_: seq<Entry>, p: Entry -> bool, a: nat)
    requires map_ != []
    ensures var n := |map_| - 1;
      TypeAt(Those(map_, p), a)
        == Max(TypeAt(Those(map_[..n], p), a), if p(map_[n]) && Covers(map_[n], a) then map_[n].kind else 0)
  {
    var n := |map_| - 1;
    TypeAtAppend(Those(map_[..n], p), if p(map_[n]) then [map_[n]] else [], a);
    assert Those(map_[..n], p) + [] == Those(map_[..n], p);
    TypeAtOne(map_[n], a);
  }

  lemma SplitStep(map_: seq<Entry>, a: nat)
    requires map_ != []
    ensures var n := |map_| - 1;
      && TypeAt(Split(map_), a) == Max(TypeAt(Split(map_[..n]), a), TypeAt(Pieces(map_[n]), a))
      && TypeAt(map_, a) == Max(TypeAt(map_[..n], a), TypeAt([map_[n]], a))
  {
    hide TypeAt, Pieces;
    var n := |map_| - 1;
    assert Split(map_) == Split(map_[..n]) + Pieces(map_[n]) && map_ == map_[..n] + [map_[n]];
    hide Split;
    TypeAtAppend(Split(map_[..n]), Pieces(map_[n]), a);
    TypeAtAppend(map_[..n], [map_[n]], a);
  }

  ghost predicate AllFit(map_: seq<Entry>) {
    forall i :: 0 <= i < |map_| ==> Fits(map_[i])
  }

  /** An entry that the copy swallows covers the address. */
  ghost predicate SwallowedAt(map_: seq<Entry>, a: nat) {
    exists i :: 0 <= i < |map_| && Swallowed(map_[i]) && Covers(map_[i], a)
  }

  /** Outside the hole the copied map says what the BIOS map says, except at an address that only
      entries swallowed by the copy give a type. */
  lemma SameOutsideHole(map_: seq<Entry>, a: nat)
    requires AllFit(map_) && !InHole(a)
    ensures TypeAt(Split(map_), a) == TypeAt(map_, a) <==>
      !(SwallowedAt(map_, a) && TypeAt(Those(map_, Stays), a) == 0)
  {
    OutsideHole(map_, a);
  }

  lemma {:induction false} OutsideHole(map_: seq<Entry>, a: nat)
    requires AllFit(map_) && !InHole(a)
    ensures TypeAt(Split(map_), a) == TypeAt(Those(map_, Stays), a)
    ensures TypeAt(map_, a) == Max(TypeAt(Those(map_, Stays), a), if SwallowedAt(map_, a) then RAM else 0)
  {
    if map_ != [] {
      var n := |map_| - 1;
      hide TypeAt, Split, Pieces, Those, SwallowedAt, Swallowed, Covers;
      OutsideHole(map_[..n], a);
      PiecesMeaning(map_[n], a);
      TypeAtOne(map_[n], a);
      SplitStep(map_, a);
      ThoseStep(map_, Stays, a);
      SwallowedStep(map_, a);
      SwallowedKind(map_[n]);
    }
  }

  lemma SwallowedKind(e: Entry)
    ensures (Stays(e) <==> !Swallowed(e)) && (Swallowed(e) ==> e.kind == RAM)
  {
  }

  lemma SwallowedStep(map_: seq<Entry>, a: nat)
    requires map_ != []
    ensures var n := |map_| - 1;
      SwallowedAt(map_, a) <==> SwallowedAt(map_[..n], a) || (Swallowed(map_[n]) && Covers(map_[n], a))
  {
    var n := |map_| - 1;
    hide Swallowed, Covers;
    if i :| 0 <= i < |map_| && Swallowed(map_[i]) && Covers(map_[i], a) {
      if i < n { assert map_[..n][i] == map_[i]; }
    }
    if i :| 0 <= i < n && Swallowed(map_[..n][i]) && Covers(map_[..n][i], a) {
      assert map_[..n][i] == map_[i];
    }
  }

  /** Usable memory that ends in the hole makes the whole hole reserved. */
  ghost predicate EndsInHole(map_: seq<Entry>) {
    exists i :: 0 <= i < |map_| && MeetsHole(map_[i]) && End(map_[i]) <= HOLE_END
  }

  /** In the hole an address is what the entries that do not meet it make it, and at least
      reserved exactly if some usable entry ends in the hole. Usable memory that runs through the
      hole leaves it unmentioned. */
  lemma {:induction false} InTheHole(map_: seq<Entry>, a: nat)
    requires AllFit(map_) && InHole(a)
    ensures TypeAt(Split(map_), a)
      == Max(TypeAt(Those(map_, LeftAlone), a), if EndsInHole(map_) then RESERVED else 0)
  {
    if map_ != [] {
      var n := |map_| - 1;
      hide TypeAt, Those, EndsInHole, Pieces, Split;
      InTheHole(map_[..n], a);
      PiecesMeaning(map_[n], a);
      TypeAtOne(map_[n], a);
      SplitStep(map_, a);
      ThoseStep(map_, LeftAlone, a);
      EndsStep(map_);
    }
  }

  /** Usable memory from 0 to 2M runs through the hole, and the copied map does not mention 0xB0000. */
  lemma HoleUnmentioned()
    ensures var m := [Entry(0, 0x200000, RAM)]; TypeAt(m, 0xB0000) == RAM && TypeAt(Split(m), 0xB0000) == 0
  {
    var m := [Entry(0, 0x200000, RAM)];
    TypeAtOne(m[0], 0xB0000);
    InTheHole(m, 0xB0000);
    NoneOf(m[0], LeftAlone, 0xB0000);
  }

  ghost predicate RamAt(map_: seq<Entry>, a: nat) {
    exists i :: 0 <= i < |map_| && map_[i].kind == RAM && Covers(map_[i], a)
  }

  lemma RamAppend(s: seq<Entry>, t: seq<Entry>, a: nat)
    ensures RamAt(s + t, a) <==> RamAt(s, a) || RamAt(t, a)
  {
    hide Covers;
    if i :| 0 <= i < |s| && s[i].kind == RAM && Covers(s[i], a) { assert (s + t)[i] == s[i]; }
    if i :| 0 <= i < |t| && t[i].kind == RAM && Covers(t[i], a) { assert (s + t)[|s| + i] == t[i]; }
  }

  /** In the hole nothing is usable, except what an entry covers that wraps to an end below it. */
  lemma {:induction false} NoRamInHole(map_: seq<Entry>, a: nat)
    requires AllFit(map_) && InHole(a)
    ensures RamAt(Split(map_), a) <==> exists i :: 0 <= i < |map_| && RunsAround(map_[i]) && map_[i].addr <= a
  {
    if map_ != [] {
      var n := |map_| - 1;
      NoRamInHole(map_[..n], a);
      RamAppend(Split(map_[..n]), Pieces(map_[n]), a);
      RamPieces(map_[n], a);
      hide Pieces, Covers, RunsAround, RamAt;
      assert forall i :: 0 <= i < n ==> map_[..n][i] == map_[i];
    }
  }

  lemma RamPieces(e: Entry, a: nat)
    requires Fits(e) && InHole(a)
    ensures RamAt(Pieces(e), a) <==> RunsAround(e) && e.addr <= a
  {
    WrappedEnd(e);
    if RunsAround(e) && e.addr <= a {
      assert Pieces(e)[0] == e;
    }
  }

  const TOP := U64 - 0x10000

  /** Usable memory from 0xF0000 on that wraps covers 2M, of which the copy says nothing. Usable memory
      from 0x20000 on that wraps leaves the hole usable. */
  lemma WrapFails()
    ensures var m := [Entry(0xF0000, TOP, RAM)]; TypeAt(m, 0x200000) == RAM && TypeAt(Split(m), 0x200000) == 0
    ensures var m := [Entry(0x20000, TOP, RAM)]; RamAt(Split(m), 0xB0000)
  {
    hide TypeAt, Split, Those, RamAt, Stays, RunsAround, End;
    var e, f := Entry(0xF0000, TOP, RAM), Entry(0x20000, TOP, RAM);
    WrapAround(e, f);
    TypeAtOne(e, 0x200000);
    OutsideHole([e], 0x200000);
    NoneOf(e, Stays, 0x200000);
    NoRamInHole([f], 0xB0000);
    assert [f][0] == f;
  }

  lemma WrapAround(e: Entry, f: Entry)
    requires e == Entry(0xF0000, TOP, RAM) && f == Entry(0x20000, TOP, RAM)
    ensures Covers(e, 0x200000) && !Stays(e) && RunsAround(f)
  {
    WrappedEnd(e);
    WrappedEnd(f);
    hide End;
  }

  lemma NoneOf(e: Entry, p: Entry -> bool, a: nat)
    requires !p(e)
    ensures TypeAt(Those([e], p), a) == 0
  {
    assert [e][..0] == [] && Those([], p) == [] && TypeAt([], a) == 0;
  }

  lemma EndsStep(map_: seq<Entry>)
    requires map_ != []
    ensures var n := |map_| - 1;
      EndsInHole(map_) <==> EndsInHole(map_[..n]) || (MeetsHole(map_[n]) && End(map_[n]) <= HOLE_END)
  {
    var n := |map_| - 1;
    if i :| 0 <= i < |map_| && MeetsHole(map_[i]) && End(map_[i]) <= HOLE_END {
      if i < n { assert map_[..n][i] == map_[i]; }
    }
    if i :| 0 <= i < n && MeetsHole(map_[..n][i]) && End(map_[..n][i]) <= HOLE_END {
      assert map_[..n][i] == map_[i];
    }
  }

  class E820Map {
    var entries: seq<Entry>      // e820map, whose table holds E820_MAX entries

    constructor ()
      ensures entries == []
    {
      entries := [];
    }

    /** add_memory_region: entries that do not fit are dropped. */
    method AddMemoryRegion(start: nat, size: nat, kind: nat)
      requires |entries| <= E820_MAX
      modifies this
      ensures entries == Kept(old(entries) + [Entry(start, size, kind)]) && |entries| <= E820_MAX
    {
      if |entries| >= E820_MAX {
        assert (entries + [Entry(start, size, kind)])[..E820_MAX] == entries;
        return;
      }
      entries := entries + [Entry(start, size, kind)];
    }

    /** One round of copy_e820. */
    method CopyEntry(e: Entry)
      requires |entries| <= E820_MAX
      modifies this
      ensures entries == Kept(old(entries) + Pieces(e)) && |entries| <= E820_MAX
    {
      var start, size, kind := e.addr, e.size, e.kind;
      var end := (start + size) % U64;
      ghost var was, low := entries, [];
      KeptFits(was);
      hide Kept;
      if kind == RAM {
        if start < HOLE_END && end > HOLE_START {
          if start < HOLE_START {
            size := HOLE_START - start;
            low := [Entry(start, size, kind)];
            AddMemoryRegion(start, size, kind);
          }
          if end <= HOLE_END {
            start := HOLE_START;
            size := HOLE_END - start;
            kind := RESERVED;
          }
          if end > HOLE_END {
            start := HOLE_END;
            size := end - start;
          }
        }
      }
      assert entries == Kept(was + low);
      AddMemoryRegion(start, size, kind);
      assert Pieces(e) == low + [Entry(start, size, kind)];
      KeptTwice(was, low, [Entry(start, size, kind)]);
    }

    /** copy_e820: as many of the pieces as the table holds. */
    method CopyE820(map_: seq<Entry>)
      requires |entries| <= E820_MAX
      modifies this
      ensures entries == Kept(old(entries) + Split(map_))
      ensures old(entries) == [] && 2 * |map_| <= E820_MAX ==> entries == Split(map_)
    {
      ghost var was := entries;
      for i := 0 to |map_|
        invariant |entries| <= E820_MAX && entries == Kept(was + Split(map_[..i]))
      {
        CopyEntry(map_[i]);
        assert map_[..i + 1][..i] == map_[..i];
        KeptTwice(was, Split(map_[..i]), Pieces(map_[i]));
      }
      assert map_[..|map_|] == map_;
      SplitLength(map_);
      assert [] + Split(map_) == Split(map_);
    }
  }

  lemma KeptFits(map_: seq<Entry>)
    ensures |map_| <= E820_MAX ==> Kept(map_ + []) == map_
  {
    assert map_ + [] == map_;
  }

  lemma KeptTwice(a: seq<Entry>, b: seq<Entry>, c: seq<Entry>)
    ensures Kept(Kept(a + b) + c) == Kept(a + (b + c))
  {
    assert a + (b + c) == (a + b) + c;
  }

  lemma {:induction false} SplitLength(map_: seq<Entry>)
    ensures |Split(map_)| <= 2 * |map_|
  {
    if map_ != [] { SplitLength(map_[..|map_| - 1]); }
  }
}
