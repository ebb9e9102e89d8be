/** mm/page_alloc.c: the first-fit page bitmap, with sub-page requests merged into the last page. */
module PageAlloc {

  import opened Common

  const U32 := 0x1_0000_0000
  const I31 := 0x8000_0000
  const SMP_CACHE_ALIGN := 32

  /** A byte range handed out and not yet freed. */
  datatype Block = Block(addr: nat, size: nat)

  datatype Op = Reserve | Clear

  // ---------------------------------------------------------------- bits

  function Count(bits: seq<bool>, v: bool): nat {
    if bits == [] then 0 else Count(bits[..|bits| - 1], v) + if bits[|bits| - 1] == v then 1 else 0
  }

  /** The count is the number of places with the value. */
  lemma {:induction false} CountPlaces(bits: seq<bool>, v: bool)
    ensures Count(bits, v) == |set i | 0 <= i < |bits| && bits[i] == v|
  {
    if bits != [] {
      var n := |bits| - 1;
      CountPlaces(bits[..n], v);
      MorePlaces(bits, v);
    } else {
      assert forall t: set<int> :: t == {} ==> |t| == 0;
    }
  }

  lemma MorePlaces(bits: seq<bool>, v: bool)
    requires bits != []
    ensures var n := |bits| - 1;
      |set i | 0 <= i < |bits| && bits[i] == v|
        == |set i | 0 <= i < n && bits[..n][i] == v| + if bits[n] == v then 1 else 0
  {
    var n := |bits| - 1;
    var s, t := set i | 0 <= i < n && bits[..n][i] == v, set i | 0 <= i < |bits| && bits[i] == v;
    assert t == if bits[n] == v then s + {n} else s;
  }

  lemma {:induction false} CountTotal(bits: seq<bool>)
    ensures Count(bits, true) + Count(bits, false) == |bits|
  {
    if bits != [] { CountTotal(bits[..|bits| - 1]); }
  }

  lemma {:induction false} CountFlip(bits: seq<bool>, i: nat, v: bool)
    requires i < |bits| && bits[i] != v
    ensures Count(bits[i := v], v) == Count(bits, v) + 1 && Count(bits[i := v], !v) == Count(bits, !v) - 1
    decreases |bits|
  {
    var n := |bits| - 1;
    if i < n {
      CountFlip(bits[..n], i, v);
      assert bits[i := v][..n] == bits[..n][i := v];
    } else {
      assert bits[i := v][..n] == bits[..n];
    }
  }

  /** The first `n` bits of the range starting at `s` given the value `v`. */
  function Filled(bits: seq<bool>, s: nat, e: nat, v: bool): (r: seq<bool>)
    requires s <= e <= |bits|
    ensures |r| == |bits|
    ensures forall i :: 0 <= i < |bits| ==> r[i] == if s <= i < e then v else bits[i]
  {
    bits[..s] + seq(e - s, i => v) + bits[e..]
  }

  lemma FilledStep(bits: seq<bool>, s: nat, e: nat, v: bool)
    requires s <= e < |bits|
    ensures Filled(bits, s, e + 1, v) == Filled(bits, s, e, v)[e := v]
  {
  }

  /** A run of `n` clear bits at `s`. */
  ghost predicate FreeRun(bits: seq<bool>, s: nat, n: nat) {
    s + n <= |bits| && forall i :: s <= i < s + n ==> !bits[i]
  }

  /** `start` is where first fit puts a run of `n` pages. */
  ghost predicate FirstFit(bits: seq<bool>, start: nat, n: nat) {
    FreeRun(bits, start, n) && forall s: nat :: s < start ==> !FreeRun(bits, s, n)
  }

  function RoundUp(n: nat): nat {
    (n + PAGE_SIZE - 1) / PAGE_SIZE
  }

  /** The same on `unsigned long`, where the addition can wrap. */
  function PageUp(n: nat): nat {
    (n + PAGE_SIZE - 1) % U32 / PAGE_SIZE
  }

  lemma PageUpExact(n: nat, limit: nat)
    requires n <= limit * PAGE_SIZE && limit * PAGE_SIZE + PAGE_SIZE <= U32
    ensures PageUp(n) == RoundUp(n) <= limit
  {
  }

  /** When the rounded ends of a range are in order and in memory. */
  lemma RangeUp(start: nat, size: nat, end: nat)
    requires start + size < U32 && end * PAGE_SIZE + PAGE_SIZE <= U32
    ensures PageUp(start) <= PageUp(start + size) <= end <==>
      start + size <= end * PAGE_SIZE || (start + size > U32 - PAGE_SIZE && (start == 0 || start > U32 - PAGE_SIZE))
    ensures start + size > U32 - PAGE_SIZE ==> PageUp(start + size) == 0
    ensures end * PAGE_SIZE < start + size <= U32 - PAGE_SIZE ==> PageUp(start + size) > end
  {
  }

  lemma PageUpNonzero(n: nat)
    requires n < U32 && PageUp(n) != 0
    ensures PageUp(n) == RoundUp(n) && n > 0
  {
  }

  lemma PageUpMono(m: nat, n: nat)
    requires m <= n
    ensures RoundUp(m) <= RoundUp(n)
  {
  }

  function Align(offset: nat): nat {
    (offset + SMP_CACHE_ALIGN - 1) / SMP_CACHE_ALIGN * SMP_CACHE_ALIGN
  }

  /** Does the offset break an accepted alignment? With 0 all its bits count. */
  function Misaligned(offset: nat, align: nat): bool {
    if align == 0 then offset != 0 else offset % align != 0
  }

  /** The offset at which a request with the alignment would go on in the last page. */
  function AlignedOffset(offset: nat, align: nat): nat {
    if Misaligned(offset, align) then Align(offset) else offset
  }

  // ---------------------------------------------------------------- safety

  function Base(memStart: nat, page: nat): nat {
    memStart + page * PAGE_SIZE
  }

  predicate Meets(memStart: nat, b: Block, page: nat) {
    b.addr < Base(memStart, page) + PAGE_SIZE && Base(memStart, page) < b.addr + b.size
  }

  predicate Disjoint(b: Block, c: Block) {
    b.addr + b.size <= c.addr || c.addr + c.size <= b.addr
  }

  /** The block lies in memory, and every page it touches is reserved. */
  ghost predicate InReserved(bits: seq<bool>, memStart: nat, b: Block) {
    && b.size > 0 && memStart <= b.addr && b.addr + b.size <= Base(memStart, |bits|)
    && forall p: nat :: p < |bits| && Meets(memStart, b, p) ==> bits[p]
  }

  ghost predicate Safe(bits: seq<bool>, memStart: nat, live: set<Block>) {
    && (forall b :: b in live ==> InReserved(bits, memStart, b))
    && (forall b, c :: b in live && c in live && b != c ==> Disjoint(b, c))
  }

  /** Merging into page `lastPos` after byte `lastOffset` is either harmless or impossible: the
      page that would have to follow is already reserved. */
  ghost predicate TailOk(bits: seq<bool>, memStart: nat, live: set<Block>, lastPos: nat, lastOffset: nat) {
    && lastOffset < PAGE_SIZE
    && (lastOffset > 0 ==> lastPos < |bits| && bits[lastPos])
    && (lastOffset > 0 && lastPos + 1 < |bits| && !bits[lastPos + 1] ==>
          forall b :: b in live && Meets(memStart, b, lastPos) ==>
            b.addr + b.size <= Base(memStart, lastPos) + lastOffset)
  }

  lemma ReservedStays(bits: seq<bool>, bits': seq<bool>, memStart: nat, b: Block)
    requires |bits'| == |bits| && forall p :: 0 <= p < |bits| && bits[p] ==> bits'[p]
    requires InReserved(bits, memStart, b)
    ensures InReserved(bits', memStart, b)
  {
  }

  /** A new block in pages that were clear is apart from every live block. */
  lemma FreshApart(bits: seq<bool>, memStart: nat, b: Block, c: Block, s: nat, n: nat)
    requires InReserved(bits, memStart, b) && FreeRun(bits, s, n) && c.size > 0
    requires Base(memStart, s) <= c.addr && c.addr + c.size <= Base(memStart, s + n)
    ensures Disjoint(b, c)
  {
    if !Disjoint(b, c) {
      var x := if b.addr < c.addr then c.addr else b.addr;
      var p := (x - memStart) / PAGE_SIZE;
      assert Meets(memStart, b, p) && s <= p < s + n;
      assert false;
    }
  }

  lemma PlaceFresh(bits: seq<bool>, memStart: nat, live: set<Block>, start: nat, size: nat)
    requires Safe(bits, memStart, live) && size > 0 && FreeRun(bits, start, RoundUp(size))
    ensures var n, b := RoundUp(size), Block(Base(memStart, start), size);
      var bits' := Filled(bits, start, start + n, true);
      && n > 0 && Safe(bits', memStart, live + {b})
      && TailOk(bits', memStart, live + {b}, start + n - 1, size % PAGE_SIZE)
      && b !in live
  {
    var n, b := RoundUp(size), Block(Base(memStart, start), size);
    var bits' := Filled(bits, start, start + n, true);
    assert (n - 1) * PAGE_SIZE < size <= n * PAGE_SIZE && (size % PAGE_SIZE > 0 ==>
      size == (n - 1) * PAGE_SIZE + size % PAGE_SIZE);
    forall c | c in live
      ensures InReserved(bits', memStart, c) && Disjoint(c, b) && !Meets(memStart, c, start + n - 1) {
      ReservedStays(bits, bits', memStart, c);
      FreshApart(bits, memStart, c, b, start, n);
      assert !bits[start + n - 1];
    }
    assert InReserved(bits', memStart, b);
  }

  /** The block fits into what is left of the last page. */
  lemma PlaceInTail(bits: seq<bool>, memStart: nat, live: set<Block>, lastPos: nat, lastOffset: nat, offset: nat,
      size: nat)
    requires Safe(bits, memStart, live) && TailOk(bits, memStart, live, lastPos, lastOffset)
    requires 0 < lastOffset <= offset && offset + size < PAGE_SIZE && size > 0 && lastPos + 1 < |bits|
    requires !bits[lastPos + 1]
    ensures var b := Block(Base(memStart, lastPos) + offset, size);
      Safe(bits, memStart, live + {b}) && TailOk(bits, memStart, live + {b}, lastPos, offset + size) && b !in live
  {
    var b := Block(Base(memStart, lastPos) + offset, size);
    forall c | c in live ensures Disjoint(c, b) {
      if !Meets(memStart, c, lastPos) { assert Disjoint(c, b); }
    }
    assert forall p: nat :: Meets(memStart, b, p) ==> p == lastPos;
  }

  /** The block starts in the last page and runs on into fresh pages.  The remembered position
      stops one page short, which is what makes it safe: the next page is already reserved. */
  lemma PlaceSpill(bits: seq<bool>, memStart: nat, live: set<Block>, lastPos: nat, lastOffset: nat, offset: nat,
      size: nat)
    requires Safe(bits, memStart, live) && TailOk(bits, memStart, live, lastPos, lastOffset)
    requires 0 < lastOffset <= offset < PAGE_SIZE <= offset + size && FreeRun(bits, lastPos + 1, RoundUp(size))
    ensures var rem := size - (PAGE_SIZE - offset);
      var n, b := RoundUp(rem), Block(Base(memStart, lastPos) + offset, size);
      lastPos + 1 + n <= |bits| &&
      var bits' := Filled(bits, lastPos + 1, lastPos + 1 + n, true);
      && Safe(bits', memStart, live + {b}) && b !in live
      && TailOk(bits', memStart, live + {b}, if n > 0 then lastPos + n - 1 else lastPos, rem % PAGE_SIZE)
  {
    var rem := size - (PAGE_SIZE - offset);
    var n, b := RoundUp(rem), Block(Base(memStart, lastPos) + offset, size);
    assert n <= RoundUp(size) && (n > 0 ==> (n - 1) * PAGE_SIZE < rem) && rem <= n * PAGE_SIZE
      && (n == 0 <==> rem == 0);
    assert !bits[lastPos + 1];
    var bits' := Filled(bits, lastPos + 1, lastPos + 1 + n, true);
    forall c | c in live ensures InReserved(bits', memStart, c) && Disjoint(c, b) {
      ReservedStays(bits, bits', memStart, c);
      SpillApart(bits, memStart, lastPos, lastOffset, offset, c, b, RoundUp(size));
    }
    forall p: nat | p < |bits| && Meets(memStart, b, p) ensures bits'[p] {
      assert lastPos <= p < lastPos + 1 + n;
    }
  }

  lemma SpillApart(bits: seq<bool>, memStart: nat, lastPos: nat, lastOffset: nat, offset: nat, c: Block, b: Block,
      n: nat)
    requires InReserved(bits, memStart, c) && FreeRun(bits, lastPos + 1, n) && b.size > 0
    requires lastOffset <= offset < PAGE_SIZE
    requires Meets(memStart, c, lastPos) ==> c.addr + c.size <= Base(memStart, lastPos) + lastOffset
    requires b.addr == Base(memStart, lastPos) + offset && b.addr + b.size <= Base(memStart, lastPos + 1 + n)
    ensures Disjoint(c, b)
  {
    if b.addr + b.size > Base(memStart, lastPos + 1) {
      FreshApart(bits, memStart, c, Block(Base(memStart, lastPos + 1), b.addr + b.size - Base(memStart, lastPos + 1)),
        lastPos + 1, n);
    }
  }

  /** Where an allocation goes and what is remembered of it. */
  datatype Placement = Placement(addr: nat, pages: nat, pos: nat, off: nat)

  /** What a placement of a `size`-byte block whose scan found `start` has to meet. */
  ghost predicate Placed(bits: seq<bool>, memStart: nat, live: set<Block>, start: nat, size: nat, p: Placement) {
    var b := Block(p.addr, size);
    && b !in live && start + p.pages <= |bits|
    && p.pages == (if p.addr + size <= Base(memStart, start) then 0 else RoundUp(p.addr + size - Base(memStart, start)))
    && Safe(Filled(bits, start, start + p.pages, true), memStart, live + {b})
    && TailOk(Filled(bits, start, start + p.pages, true), memStart, live + {b}, p.pos, p.off)
  }

  /** Storing an unsigned long into an int. */
  function AsInt(n: nat): int {
    if n < I31 then n else n - U32
  }

  /** One past the last page that is reserved for a block, from `start` on. */
  function ReservedEnd(memStart: nat, start: nat, addr: nat, size: nat, merged: bool): nat {
    if addr + size <= Base(memStart, start) || (merged && size >= I31) then start
    else start + RoundUp(addr + size - Base(memStart, start))
  }

  /** An allocation goes on in the last page at `offset` exactly when that page is partly used, has
      room at `offset`, and the run found begins right after it. */
  predicate Merges(pos: nat, off: nat, offset: nat, start: nat) {
    offset < PAGE_SIZE && off > 0 && start == pos + 1
  }

  /** The merge rule. The bytes used in the last page are remembered; after a spill the position is
      one page short. A merged request of 2^31 bytes or more is negative as an int, so that it seems
      to fit the last page. */
  ghost predicate Landing(memStart: nat, pos: nat, off: nat, offset: nat, start: nat, size: nat, addr: nat, pos': nat,
      off': nat) {
    if Merges(pos, off, offset, start) then
      && addr == Base(memStart, pos) + offset
      && if size >= I31 then off' == (offset + size) % U32 && pos' == pos
         else off' == (offset + size) % PAGE_SIZE && pos' == if offset + size <= PAGE_SIZE then pos
           else pos + RoundUp(offset + size - PAGE_SIZE) - 1
    else
      addr == Base(memStart, start) && off' == size % PAGE_SIZE && pos' == start + RoundUp(size) - 1
  }

  /** Where a block goes on in the last page: at once if the bytes used there meet the alignment, else
      at the next multiple of 32. The bytes remembered are those up to the block's end. */
  lemma LandsMerged(memStart: nat, pos: nat, off: nat, align: nat, start: nat, size: nat, addr: nat, pos': nat,
      off': nat)
    requires Landing(memStart, pos, off, AlignedOffset(off, align), start, size, addr, pos', off')
    requires Merges(pos, off, AlignedOffset(off, align), start)
    ensures var o := addr - (memStart + pos * 4096);
      && off <= o < 4096
      && (align > 0 && off % align == 0 ==> o == off)
      && (align == 0 || off % align != 0 ==> o % 32 == 0 && o < off + 32)
  {
    NextLine(off);
    hide Align, RoundUp;
  }

  lemma LandsUpTo(memStart: nat, pos: nat, off: nat, offset: nat, start: nat, size: nat, addr: nat, pos': nat,
      off': nat)
    requires Landing(memStart, pos, off, offset, start, size, addr, pos', off') && Merges(pos, off, offset, start)
    ensures addr == memStart + pos * 4096 + offset
    ensures size >= I31 ==> off' == (offset + size) % U32 && pos' == pos
    ensures size < I31 ==>
      var e := addr + size - memStart;
      && off' == e % 4096
      && (e <= (pos + 1) * 4096 ==> pos' == pos)
      && (e > (pos + 1) * 4096 ==> (pos' + 1) * 4096 < e <= (pos' + 2) * 4096)
  {
  }

  /** Any other block starts with a page, and its last page is remembered. */
  lemma LandsOnPage(memStart: nat, pos: nat, off: nat, offset: nat, start: nat, size: nat, addr: nat, pos': nat,
      off': nat)
    requires Landing(memStart, pos, off, offset, start, size, addr, pos', off') && !Merges(pos, off, offset, start)
    ensures addr == memStart + start * 4096
    ensures off' == (addr + size - memStart) % 4096
    ensures size > 0 ==> pos' * 4096 < addr + size - memStart <= (pos' + 1) * 4096
  {
  }

  lemma NextLine(off: nat)
    ensures Align(off) % 32 == 0 && off <= Align(off) < off + 32
    ensures off % 32 == 0 ==> Align(off) == off
    ensures Align(off) == (off + 31) / 32 * 32
  {
  }

  /** The block has the alignment asked for, counted from the start of memory, unless that is more than 32
      and the block goes on in the last page at a multiple of 32 that does not have it. */
  lemma AlignedBlock(memStart: nat, pos: nat, off: nat, align: nat, start: nat, size: nat, addr: nat, pos': nat,
      off': nat)
    requires Landing(memStart, pos, off, AlignedOffset(off, align), start, size, addr, pos', off')
    requires PowerOfTwo(align) && align < 4096
    ensures (addr - memStart) % align == 0 <==>
      align <= 32 || !Merges(pos, off, AlignedOffset(off, align), start) || (off + 31) / 32 * 32 % align == 0
    ensures addr >= memStart
  {
    Powers();
    PowerDivides(align, 4096);
    if Merges(pos, off, AlignedOffset(off, align), start) {
      var o := AlignedOffset(off, align);
      Multiples(pos, 4096, align);
      AddMultiple(o, pos * 4096, align);
      NextLine(off);
      if align <= 32 {
        PowerDivides(align, 32);
        LineMultiple(o, align);
      } else {
        PowerDivides(32, align);
        if off % align == 0 { MultipleOf(off, align, 32); }
      }
    } else {
      Multiples(start, 4096, align);
    }
  }

  lemma LineMultiple(o: nat, align: nat)
    requires align > 0 && 32 % align == 0
    ensures o % 32 == 0 ==> o % align == 0
  {
    if o % 32 == 0 { MultipleOf(o, 32, align); }
  }

  /** The pages reserved for a block: from the run on, those that the block reaches into. */
  lemma ReservedPages(bits: seq<bool>, memStart: nat, start: nat, addr: nat, size: nat, merged: bool)
    requires ReservedEnd(memStart, start, addr, size, merged) <= |bits| && start <= |bits|
    ensures start <= ReservedEnd(memStart, start, addr, size, merged)
    ensures var bits' := Filled(bits, start, ReservedEnd(memStart, start, addr, size, merged), true);
      |bits'| == |bits| && forall p :: 0 <= p < |bits| ==>
        (bits'[p] <==> bits[p] || (start <= p && memStart + p * 4096 < addr + size && !(merged && size >= I31)))
  {
  }

  /** The least number of pages that hold so many bytes. */
  lemma LeastPages(n: nat)
    ensures n <= RoundUp(n) * 4096 < n + 4096
    ensures n < U32 ==> PageUp(n) == if n > 0xFFFF_F000 then 0 else RoundUp(n)
  {
  }

  /** Such a request is handed out without a page being reserved for it. */
  lemma Overrun(bits: seq<bool>, memStart: nat, live: set<Block>, pos: nat, offset: nat, size: nat)
    requires Safe(bits, memStart, live) && FreeRun(bits, pos + 1, RoundUp(size)) && offset < PAGE_SIZE && size >= I31
    ensures var b := Block(Base(memStart, pos) + offset, size); b !in live && !Safe(bits, memStart, live + {b})
  {
    var b := Block(Base(memStart, pos) + offset, size);
    assert RoundUp(size) > 0 && !bits[pos + 1] && Meets(memStart, b, pos + 1);
  }

  lemma LandsInTail(memStart: nat, pos: nat, off: nat, offset: nat, size: nat)
    requires off > 0 && offset + size < PAGE_SIZE
    ensures Landing(memStart, pos, off, offset, pos + 1, size, Base(memStart, pos) + offset, pos, offset + size)
  {
  }

  lemma LandsBeyond(memStart: nat, pos: nat, off: nat, offset: nat, size: nat)
    requires off > 0 && offset < PAGE_SIZE <= offset + size && size < I31
    ensures var rem := size - (PAGE_SIZE - offset);
      var n := RoundUp(rem);
      Landing(memStart, pos, off, offset, pos + 1, size, Base(memStart, pos) + offset,
        if n > 0 then pos + n - 1 else pos, rem % PAGE_SIZE)
  {
  }

  lemma LandsAt(memStart: nat, pos: nat, off: nat, offset: nat, start: nat, size: nat, addr: nat, pos': nat, off': nat)
    requires Landing(memStart, pos, off, offset, start, size, addr, pos', off') && Merges(pos, off, offset, start)
    ensures addr == Base(memStart, pos) + offset
  {
  }

  lemma RunInside(bits: seq<bool>, start: nat, n: nat)
    requires FreeRun(bits, start, n)
    ensures start + n <= |bits|
  {
  }

  lemma LandsNowhere(memStart: nat, pos: nat, off: nat, offset: nat, size: nat)
    requires off > 0 && offset < PAGE_SIZE && I31 <= size < U32
    ensures Landing(memStart, pos, off, offset, pos + 1, size, Base(memStart, pos) + offset, pos,
        (offset + AsInt(size)) % U32)
  {
  }

  lemma LandsFresh(memStart: nat, pos: nat, off: nat, offset: nat, start: nat, size: nat)
    requires size > 0 && !Merges(pos, off, offset, start)
    ensures RoundUp(size) > 0
    ensures Landing(memStart, pos, off, offset, start, size, Base(memStart, start), start + RoundUp(size) - 1,
        size % PAGE_SIZE)
  {
  }

  lemma PlacedFacts(bits: seq<bool>, memStart: nat, live: set<Block>, start: nat, size: nat, p: Placement)
    requires Placed(bits, memStart, live, start, size, p)
    ensures Block(p.addr, size) !in live && start + p.pages <= |bits|
    ensures var past := p.addr + size - Base(memStart, start);
      start + p.pages == start + if past <= 0 then 0 else RoundUp(past)
    ensures var fin := Filled(bits, start, start + p.pages, true);
      Safe(fin, memStart, live + {Block(p.addr, size)})
      && TailOk(fin, memStart, live + {Block(p.addr, size)}, p.pos, p.off)
  {
  }

  lemma FreshPlaced(bits: seq<bool>, memStart: nat, live: set<Block>, start: nat, size: nat)
    requires Safe(bits, memStart, live) && size > 0 && FreeRun(bits, start, RoundUp(size))
    ensures var n := RoundUp(size);
      n > 0
      && Placed(bits, memStart, live, start, size, Placement(Base(memStart, start), n, start + n - 1, size % PAGE_SIZE))
  {
    PlaceFresh(bits, memStart, live, start, size);
  }

  lemma TailPlaced(bits: seq<bool>, memStart: nat, live: set<Block>, pos: nat, off: nat, offset: nat, size: nat)
    requires Safe(bits, memStart, live) && TailOk(bits, memStart, live, pos, off)
    requires FreeRun(bits, pos + 1, RoundUp(size))
    requires 0 < off <= offset && offset + size < PAGE_SIZE && size > 0
    ensures Placed(bits, memStart, live, pos + 1, size, Placement(Base(memStart, pos) + offset, 0, pos, offset + size))
  {
    assert !bits[pos + 1];
    PlaceInTail(bits, memStart, live, pos, off, offset, size);
    assert Filled(bits, pos + 1, pos + 1, true) == bits;
  }

  lemma SpillPlaced(bits: seq<bool>, memStart: nat, live: set<Block>, pos: nat, off: nat, offset: nat, size: nat)
    requires Safe(bits, memStart, live) && TailOk(bits, memStart, live, pos, off)
    requires FreeRun(bits, pos + 1, RoundUp(size))
    requires 0 < off <= offset < PAGE_SIZE <= offset + size
    ensures var rem := size - (PAGE_SIZE - offset);
      var n := RoundUp(rem);
      Placed(bits, memStart, live, pos + 1, size,
        Placement(Base(memStart, pos) + offset, n, if n > 0 then pos + n - 1 else pos, rem % PAGE_SIZE))
  {
    PlaceSpill(bits, memStart, live, pos, off, offset, size);
  }

  // ---------------------------------------------------------------- the allocator

  class MemAlloc {
    var bitmap: array<bool>
    var end: nat          // one past the last page
    var memStart: nat     // address of page 0
    var lastPos: nat      // last page of the last allocation
    var lastOffset: nat   // bytes used in it, 0 when it is full
    var free: int
    var active: int
    var total: int
    var maxPfn: int
    ghost var live: set<Block>

    ghost predicate Wired()
      reads this, bitmap
    {
      bitmap.Length == end == total <= maxPfn && memStart + end * PAGE_SIZE + PAGE_SIZE <= U32
    }

    /** The statistics are the true counts of clear and set bits. */
    ghost predicate Counted()
      reads this, bitmap
    {
      Wired() && free == Count(bitmap[..], false) && active == Count(bitmap[..], true)
    }

    ghost predicate Valid()
      reads this, bitmap
    {
      Counted() && Safe(bitmap[..], memStart, live) && TailOk(bitmap[..], memStart, live, lastPos, lastOffset)
    }

    /** UPDATE_FREE: the amount added to the free count, with the source's four clamps.  With
        true counts none of the clamps changes a value. */
    method UpdateFree(amount: int)
      modifies this`free, this`active
      ensures old(0 <= active - amount && 0 <= free + amount && free + active == total <= maxPfn) ==>
        free == old(free) + amount && active == old(active) - amount
      ensures total >= 0 ==>
        free == if old(free) + amount < 0 then 0 else if old(free) + amount > total then total else old(free) + amount
      ensures maxPfn >= 0 ==>
        active == if old(active) < amount then 0 else if old(active) - amount > maxPfn then maxPfn
          else old(active) - amount
    {
      free := free + amount;
      active := active - amount;
      if active < 0 { active := 0; }
      if free > total { free := total; }
      if active > maxPfn { active := maxPfn; }
      if free < 0 { free := 0; }
    }

    /** op_mem_allocator: sets or clears the pages from `sidx` up to `eidx`. */
    method Operate(sidx: nat, eidx: nat, op: Op) returns (err: int)
      requires Counted()
      modifies bitmap, this`free, this`active
      ensures Counted()
      ensures sidx > eidx || eidx > end ==>
        err == -1 && bitmap[..] == old(bitmap[..]) && free == old(free) && active == old(active)
      ensures sidx <= eidx <= end ==> err >= 0 && bitmap[..] == Filled(old(bitmap[..]), sidx, eidx, op.Reserve?)
      ensures sidx <= eidx <= end ==> err == if op.Reserve? then old(free) - free else free - old(free)
    {
      if sidx > eidx || eidx > end {
        return -1;
      }
      hide Count, Filled;
      ghost var b0 := bitmap[..];
      var amount := SetBits(sidx, eidx, op.Reserve?);
      CountTotal(b0);
      CountTotal(bitmap[..]);
      if amount != 0 {
        var change: int := amount;
        UpdateFree(if op.Reserve? then -change else change);
      }
      err := amount;
    }

    /** The loop of test_and_set_bit or test_and_clear_bit, counting the bits it changed. */
    method SetBits(sidx: nat, eidx: nat, v: bool) returns (amount: nat)
      requires sidx <= eidx <= bitmap.Length
      modifies bitmap
      ensures bitmap[..] == Filled(old(bitmap[..]), sidx, eidx, v)
      ensures Count(bitmap[..], v) == Count(old(bitmap[..]), v) + amount
    {
      hide Count, Filled;
      amount := 0;
      ghost var b0 := bitmap[..];
      assert Filled(b0, sidx, sidx, v) == b0;
      for i := sidx to eidx
        invariant bitmap[..] == Filled(b0, sidx, i, v)
        invariant Count(bitmap[..], v) == Count(b0, v) + amount
      {
        ghost var b := bitmap[..];
        FilledStep(b0, sidx, i, v);
        if bitmap[i] != v {
          CountFlip(b, i, v);
          amount := amount + 1;
        } else {
          assert b[i := v] == b;
        }
        bitmap[i] := v;
        assert bitmap[..] == b[i := v];
      }
    }

    /** The contiguous scan: lowest start of a run of `pages` clear pages. */
    method Scan(pages: nat) returns (start: Option<nat>)
      requires Wired() && pages > 0
      ensures start.Some? ==> FirstFit(bitmap[..], start.value, pages)
      ensures start.None? ==> forall s: nat :: !FreeRun(bitmap[..], s, pages)
    {
      var i := 0;
      while i < end
        invariant i <= end
        invariant forall s: nat :: s < i ==> !FreeRun(bitmap[..], s, pages)
      {
        if !bitmap[i] {
          var j := i + 1;
          while j < i + pages && j < end && !bitmap[j]
            invariant i < j <= end && j <= i + pages
            invariant forall q :: i <= q < j ==> !bitmap[q]
          {
            j := j + 1;
          }
          if j == i + pages {
            assert FreeRun(bitmap[..], i, pages);
            return Some(i);
          }
          if j >= end {
            forall s: nat | i <= s ensures !FreeRun(bitmap[..], s, pages) {
            }
            return None;
          }
          assert bitmap[..][j];
        }
        i := i + 1;
      }
      return None;
    }

    /** The checks and index arithmetic shared by freeing and reserving an address range. */
    method PageRange(addr: nat, size: nat) returns (ok: bool, sidx: nat, eidx: nat)
      requires Wired() && addr < U32 && size < U32
      ensures ok ==> memStart <= addr && sidx <= eidx <= end
      ensures ok <==>
        memStart <= addr && addr + size < U32 && (addr + size <= Base(memStart, end) || Rewound(addr, size))
      ensures ok && addr + size <= Base(memStart, end) ==>
        sidx == RoundUp(addr - memStart) && eidx == RoundUp(addr + size - memStart)
      ensures ok && addr + size > Base(memStart, end) ==> sidx == eidx == 0
    {
      ok, sidx, eidx := false, 0, 0;
      if (addr + size) % U32 < addr {
        return;
      }
      if addr < memStart {
        return;
      }
      var start := addr - memStart;
      if start + size <= end * PAGE_SIZE {
        PageUpExact(start, end);
        PageUpExact(start + size, end);
        PageUpMono(start, start + size);
      }
      RangeUp(start, size, end);
      hide PageUp, RoundUp;
      sidx := PageUp(start);
      eidx := PageUp(start + size);
      ok := sidx <= eidx <= end;
    }

    /** The end of the range, rounded up to pages, wraps to page 0, and so does its start. Such a
        range beyond the end of memory is taken for an empty one. */
    predicate Rewound(addr: nat, size: nat)
      requires memStart <= addr
      reads this`memStart
    {
      addr - memStart + size > U32 - PAGE_SIZE && (addr == memStart || addr - memStart > U32 - PAGE_SIZE)
    }

    /** free_mem_allocator: whole pages only; a partial page at the start stays, one at the end goes. */
    method FreeMem(addr: nat, size: nat) returns (err: int)
      requires Counted() && addr < U32 && size < U32
      modifies this`free, this`active, this`lastPos, this`lastOffset, bitmap
      ensures Counted()
      ensures err < 0 ==>
        err == -1 && bitmap[..] == old(bitmap[..]) && lastPos == old(lastPos) && lastOffset == old(lastOffset)
      ensures err < 0 ==> free == old(free) && active == old(active)
      ensures err < 0 <==>
        || size < PAGE_SIZE || addr < memStart || addr + size >= U32
        || (addr + size > Base(memStart, end) && !(addr == memStart && size > U32 - PAGE_SIZE))
      ensures addr + size <= Base(memStart, end) && memStart <= addr && PAGE_SIZE <= size ==>
        err >= 0 && lastPos == lastOffset == 0 && err == free - old(free)
        && bitmap[..] == Filled(old(bitmap[..]), RoundUp(addr - memStart), RoundUp(addr + size - memStart), false)
      ensures err >= 0 && addr + size > Base(memStart, end) ==>
        err == 0 && lastPos == lastOffset == 0 && bitmap[..] == old(bitmap[..])
    {
      hide Count, RoundUp, Filled;
      var ok, sidx, eidx := PageRange(addr, size);
      if !ok || size < PAGE_SIZE {
        return -1;
      }
      NothingCleared(bitmap[..]);
      err := Operate(sidx, eidx, Clear);
      lastPos, lastOffset := 0, 0;
    }

    /** reserve_mem_allocator: marks a range used without handing it out. */
    method ReserveMem(addr: nat, size: nat) returns (err: int)
      requires Valid() && addr < U32 && size < U32
      modifies this`free, this`active, bitmap
      ensures Valid()
      ensures forall p: nat :: p < end && old(bitmap[..])[p] ==> bitmap[..][p]
      ensures err < 0 <==>
        || addr < memStart || addr + size >= U32
        || (addr + size > Base(memStart, end) && !Rewound(addr, size))
      ensures err < 0 || addr + size > Base(memStart, end) ==>
        bitmap[..] == old(bitmap[..]) && free == old(free) && active == old(active)
      ensures addr + size <= Base(memStart, end) && memStart <= addr ==>
        bitmap[..] == Filled(old(bitmap[..]), RoundUp(addr - memStart), RoundUp(addr + size - memStart), true)
    {
      hide Count, Filled, Safe, TailOk, RoundUp;
      ghost var b := bitmap[..];
      var ok, sidx, eidx := PageRange(addr, size);
      if !ok {
        return -1;
      }
      NothingFilled(b, 0);
      err := Operate(sidx, eidx, Reserve);
      MoreReserved(b, bitmap[..], memStart, live, lastPos, lastOffset);
    }

    /** Is `align` refused by the sanity test of alloc_mem_allocator? */
    static predicate BadAlign(align: nat) {
      !(align == 0 || PowerOfTwo(align)) || align >= PAGE_SIZE
    }

    function Aligned(align: nat): nat
      reads this`lastOffset
    {
      AlignedOffset(lastOffset, align)
    }

    /** alloc_mem_allocator. The block is apart from all the others, in reserved pages, unless a
        request of 2^31 bytes or more is merged into the last page. */
    method Alloc(size: nat, align: nat) returns (addr: Option<nat>, ghost start: nat)
      requires Valid() && size < U32 && align < U32
      modifies this`free, this`active, this`lastPos, this`lastOffset, this`live, bitmap
      ensures Counted()
      ensures Valid() <==> !(addr.Some? && size >= I31 && old(Merges(lastPos, lastOffset, Aligned(align), start)))
      ensures var pages := PageUp(size);
        addr.None? <==>
          || pages == 0 || !(align == 0 || PowerOfTwo(align)) || align >= 4096
          || forall s: nat :: !FreeRun(old(bitmap[..]), s, pages)
      ensures addr.Some? && align > 0 ==>
        ((addr.value - memStart) % align == 0 <==>
          || align <= 32 || !old(Merges(lastPos, lastOffset, Aligned(align), start))
          || (old(lastOffset) + 31) / 32 * 32 % align == 0)
      ensures addr.None? ==>
        bitmap[..] == old(bitmap[..]) && live == old(live) && lastPos == old(lastPos) && lastOffset == old(lastOffset)
      ensures addr.Some? ==> Block(addr.value, size) !in old(live) && live == old(live) + {Block(addr.value, size)}
      ensures addr.Some? ==> FirstFit(old(bitmap[..]), start, RoundUp(size))
      ensures addr.Some? ==>
        Landing(memStart, old(lastPos), old(lastOffset), old(Aligned(align)), start, size, addr.value, lastPos,
          lastOffset)
      ensures addr.Some? ==>
        var e := Reserved(start, addr.value, size, old(Merges(lastPos, lastOffset, Aligned(align), start)));
        e <= end && bitmap[..] == Filled(old(bitmap[..]), start, e, true)
    {
      hide Safe, TailOk, Count, Filled, RoundUp, Landing;
      addr, start := None, 0;
      var pages := PageUp(size);
      if pages == 0 || pages > free {
        TooFew(bitmap[..], pages);
        return;
      }
      if BadAlign(align) {
        return;
      }
      var offset := lastOffset;
      if Misaligned(offset, align) {
        offset := Align(offset);
      }
      var run := Scan(pages);
      if run.None? {
        return;
      }
      start := run.value;
      assert pages == RoundUp(size) by { PageUpNonzero(size); }
      ghost var pos, off := lastPos, lastOffset;
      addr := Place(size, pages, offset, run.value);
      if align > 0 {
        AlignedBlock(memStart, pos, off, align, start, size, addr.value, lastPos, lastOffset);
      }
    }

    function Reserved(start: nat, addr: nat, size: nat, merged: bool): nat
      reads this`memStart
    {
      ReservedEnd(memStart, start, addr, size, merged)
    }

    /** Merging into the last page, or starting on a fresh one, and reserving the pages. */
    method Place(size: nat, pages0: nat, offset: nat, start: nat) returns (addr: Option<nat>)
      requires Valid() && 0 < size < U32 && pages0 == RoundUp(size) && FreeRun(bitmap[..], start, pages0)
      requires lastOffset <= offset
      modifies this`free, this`active, this`lastPos, this`lastOffset, this`live, bitmap
      ensures Counted() && addr.Some? && Block(addr.value, size) !in old(live)
      ensures live == old(live) + {Block(addr.value, size)}
      ensures Valid() <==> !(size >= I31 && old(Merges(lastPos, lastOffset, offset, start)))
      ensures Landing(memStart, old(lastPos), old(lastOffset), offset, start, size, addr.value, lastPos, lastOffset)
      ensures
        var e := Reserved(start, addr.value, size, old(Merges(lastPos, lastOffset, offset, start)));
        e <= end && bitmap[..] == Filled(old(bitmap[..]), start, e, true)
    {
      hide Safe, TailOk, FreeRun, RoundUp, Count, Filled, Landing;
      ghost var b := bitmap[..];
      ghost var over := size >= I31 && Merges(lastPos, lastOffset, offset, start);
      ghost var pos, off := lastPos, lastOffset;
      if over { Overrun(b, memStart, live, lastPos, offset, size); }
      RunInside(b, start, pages0);
      var at, pages := Choose(size, pages0, offset, start);
      assert bitmap[..] == b;
      if over { LandsAt(memStart, pos, off, offset, start, size, at, lastPos, lastOffset); }
      if !over { PlacedFacts(b, memStart, live, start, size, Placement(at, pages, lastPos, lastOffset)); }
      hide Placed;
      addr := Some(at);
      live := live + {Block(at, size)};
      assert bitmap[..] == b && start <= end;
      var err := Commit(start, pages);
      if over { assert bitmap[..] == b by { NothingFilled(b, start); } }
      if err < 0 {
        addr := None;
      }
    }

    /** Reserves the chosen pages, if any. */
    method Commit(start: nat, pages: nat) returns (err: int)
      requires Counted() && start + pages <= end
      modifies this`free, this`active, bitmap
      ensures err >= 0 && Counted() && bitmap[..] == Filled(old(bitmap[..]), start, start + pages, true)
    {
      hide Count;
      ghost var b := bitmap[..];
      err := 0;
      if pages != 0 {
        err := Operate(start, start + pages, Reserve);
      } else {
        assert Filled(b, start, start, true) == b;
      }
    }

    /** Merging into the last page, or starting on a fresh one. */
    method Choose(size: nat, pages0: nat, offset: nat, start: nat) returns (addr: nat, pages: nat)
      requires Valid() && 0 < size < U32 && pages0 == RoundUp(size) && FreeRun(bitmap[..], start, pages0)
      requires lastOffset <= offset
      modifies this`lastPos, this`lastOffset
      ensures if size >= I31 && old(Merges(lastPos, lastOffset, offset, start)) then pages == 0
        else Placed(bitmap[..], memStart, live, start, size, Placement(addr, pages, lastPos, lastOffset))
      ensures Landing(memStart, old(lastPos), old(lastOffset), offset, start, size, addr, lastPos, lastOffset)
    {
      hide Placed, Safe, TailOk, FreeRun, RoundUp, Landing;
      pages := pages0;
      ghost var b, pos, off := bitmap[..], lastPos, lastOffset;
      if offset < PAGE_SIZE && lastOffset != 0 && start == lastPos + 1 {
        var size_, remaining := AsInt(size), PAGE_SIZE - offset;
        addr := memStart + lastPos * PAGE_SIZE + offset;
        if size_ < remaining {
          if size < I31 {
            TailPlaced(b, memStart, live, pos, off, offset, size);
            LandsInTail(memStart, pos, off, offset, size);
          } else {
            LandsNowhere(memStart, pos, off, offset, size);
          }
          lastOffset := (offset + size_) % U32;
          pages := 0;
        } else {
          SpillPlaced(b, memStart, live, pos, off, offset, size);
          remaining := size - remaining;
          pages := RoundUp(remaining);
          lastOffset := remaining % PAGE_SIZE;
          LandsBeyond(memStart, pos, off, offset, size);
          if pages != 0 {
            lastPos := lastPos + pages - 1;
          }
        }
      } else {
        FreshPlaced(b, memStart, live, start, size);
        LandsFresh(memStart, pos, off, offset, start, size);
        lastPos := start + pages - 1;
        lastOffset := size % PAGE_SIZE;
        addr := memStart + start * PAGE_SIZE;
      }
    }

    /** A live block of a page or more, handed back as a whole. A partly used page at its start stays
        reserved, one at its end is cleared. It is safe exactly when no other live block reaches into
        the last page; when the block ends with a page that is always so. */
    method FreeBlock(b: Block) returns (err: int)
      requires Valid() && b in live && b.size >= PAGE_SIZE
      modifies this`free, this`active, this`lastPos, this`lastOffset, this`live, bitmap
      ensures err >= 0 && live == old(live) - {b} && Counted() && lastPos == lastOffset == 0
      ensures FirstPage(memStart, b) < PastPage(memStart, b) <= end
      ensures bitmap[..] == Filled(old(bitmap[..]), FirstPage(memStart, b), PastPage(memStart, b), false)
      ensures Valid() <==> Untouched(memStart, live, PastPage(memStart, b) - 1)
      ensures b.addr + b.size == Base(memStart, PastPage(memStart, b)) ==> Valid()
    {
      hide Safe, TailOk, Count, Filled, Untouched, FirstPage, PastPage;
      ghost var bits := bitmap[..];
      FreeSafe(bits, memStart, live, b);
      InAddresses(b);
      err := FreeMem(b.addr, b.size);
      live := live - {b};
      EmptyTail(bitmap[..], memStart, live, lastPos);
    }

    /** The arguments of free_mem_allocator are in range, and the pages it computes are the block's. */
    lemma InAddresses(b: Block)
      requires Valid() && b in live
      ensures memStart <= b.addr < U32 && b.size < U32 && b.addr + b.size <= Base(memStart, end)
      ensures RoundUp(b.addr - memStart) == FirstPage(memStart, b)
      ensures RoundUp(b.addr + b.size - memStart) == PastPage(memStart, b)
    {
      LiveBounds(bitmap[..], memStart, live, b);
    }

    /** init_mem_allocator with `start` 0 and `end` at most max_pfn, the way it is called. */
    constructor Init(end: nat, mapStart: nat, memStart: nat, maxPfn: nat)
      requires 0 < mapStart < maxPfn && end <= maxPfn && memStart + end * PAGE_SIZE + PAGE_SIZE <= U32
      ensures Valid() && fresh(bitmap) && live == {} && this.end == end && this.memStart == memStart
      ensures lastPos == lastOffset == 0 && this.maxPfn == maxPfn && total == end
      ensures var e := mapStart + BitmapPages(end);
        bitmap[..] == if e <= end then Filled(seq(end, i => false), mapStart, e, true) else seq(end, i => false)
    {
      this.end, this.memStart, this.maxPfn := end, memStart, maxPfn;
      lastPos, lastOffset, live := 0, 0, {};
      bitmap := new bool[end](_ => false);
      free, active, total := end, 0, end;
      new;
      ghost var clear := seq(end, i => false);
      assert bitmap[..] == clear;
      AllClear(clear);
      hide Count, Filled, Safe, TailOk;
      var err := Operate(mapStart, mapStart + BitmapPages(end), Reserve);
      EmptySafe(bitmap[..], memStart);
    }

    /** __get_free_pages. From order 20 on the size wraps to 0, and no memory has so many pages; at
        order 19 it is 2^31 bytes. */
    method GetFreePages(order: nat) returns (addr: Option<nat>, ghost start: nat)
      requires Valid() && order < 32
      modifies this`free, this`active, this`lastPos, this`lastOffset, this`live, bitmap
      ensures Counted()
      ensures Valid() <==> !(addr.Some? && order == 19 && old(Merges(lastPos, lastOffset, Aligned(0), start)))
      ensures addr.Some? ==>
        var b := Block(addr.value, Pages(order) * PAGE_SIZE); b !in old(live) && live == old(live) + {b}
      ensures addr.None? <==> forall s: nat :: !FreeRun(old(bitmap[..]), s, Pages(order))
      ensures addr.None? ==>
        bitmap[..] == old(bitmap[..]) && live == old(live) && lastPos == old(lastPos) && lastOffset == old(lastOffset)
      ensures addr.Some? && old(lastOffset) == 0 ==>
        FirstFit(old(bitmap[..]), start, Pages(order)) && addr.value == Base(memStart, start) && lastOffset == 0
        && bitmap[..] == Filled(old(bitmap[..]), start, start + Pages(order), true)
    {
      hide Safe, TailOk, Count, Filled, FreeRun, Pages, RoundUp, PageUp, Landing, FirstFit;
      ghost var bits := bitmap[..];
      PagesSize(order);
      if order >= 20 { TooMany(bits, Pages(order)); }
      assert !BadAlign(0);
      addr, start := Alloc(BlockSize(order), 0);
      if addr.Some? {
        LandsWhole(memStart, old(lastPos), old(lastOffset), old(Aligned(0)), start, order, addr.value, lastPos,
          lastOffset);
      }
    }

    /** The size of a block as an unsigned long. */
    static function BlockSize(order: nat): nat {
      Pages(order) * PAGE_SIZE % U32
    }

    /** Where a block of whole pages goes when no page is partly used. */
    lemma LandsWhole(memStart: nat, pos: nat, off: nat, offset: nat, start: nat, order: nat, addr: nat, pos': nat,
        off': nat)
      requires Landing(memStart, pos, off, offset, start, BlockSize(order), addr, pos', off') && order < 20
      ensures off == 0 ==> addr == Base(memStart, start) && off' == 0
      ensures off == 0 ==> addr + BlockSize(order) - Base(memStart, start) == Pages(order) * PAGE_SIZE
    {
      PagesSize(order);
      hide Pages;
    }

    static function Pages(order: nat): (n: nat)
      ensures n > 0
    {
      if order == 0 then 1 else 2 * Pages(order - 1)
    }

    static lemma {:induction false} PagesSum(a: nat, b: nat)
      ensures Pages(a + b) == Pages(a) * Pages(b)
    {
      if b > 0 { PagesSum(a, b - 1); }
    }

    static lemma Pages20()
      ensures Pages(20) == 0x10_0000
    {
      assert Pages(2) == 4 && Pages(3) == 8;
      assert Pages(4) == 16 && Pages(5) == 32;
      PagesSum(5, 5);
      PagesSum(10, 10);
    }

    static lemma PagesSize(order: nat)
      requires order < 32
      ensures order < 20 ==> BlockSize(order) == Pages(order) * PAGE_SIZE && RoundUp(BlockSize(order)) == Pages(order)
      ensures order < 20 ==> PageUp(BlockSize(order)) == Pages(order)
      ensures BlockSize(order) >= I31 <==> order == 19
      ensures order >= 20 ==> BlockSize(order) == PageUp(BlockSize(order)) == 0 && Pages(order) >= 0x10_0000
    {
      hide Pages, RoundUp, PageUp, BlockSize;
      if order < 20 { SmallSize(order); } else { LargeSize(order); }
    }

    static lemma SmallSize(order: nat)
      requires order < 20
      ensures BlockSize(order) == Pages(order) * PAGE_SIZE
      ensures RoundUp(BlockSize(order)) == PageUp(BlockSize(order)) == Pages(order)
      ensures BlockSize(order) >= I31 <==> order == 19
    {
      PagesBelow(order);
      WholeSize(Pages(order));
      hide Pages, RoundUp, PageUp;
    }

    static lemma LargeSize(order: nat)
      requires order >= 20
      ensures BlockSize(order) == PageUp(BlockSize(order)) == 0 && Pages(order) >= 0x10_0000
    {
      PagesAbove(order);
      hide Pages;
    }

    static lemma WholeSize(n: nat)
      requires 0 < n <= 0x8_0000
      ensures n * PAGE_SIZE % U32 == n * PAGE_SIZE && RoundUp(n * PAGE_SIZE) == PageUp(n * PAGE_SIZE) == n
      ensures n * PAGE_SIZE >= I31 <==> n == 0x8_0000
    {
    }

    static lemma PagesBelow(order: nat)
      requires order < 20
      ensures Pages(order) <= 0x8_0000 && (Pages(order) == 0x8_0000 <==> order == 19)
    {
      Pages20();
      PagesSum(order, 19 - order);
      assert Pages(20) == 2 * Pages(19);
      if order < 19 { assert Pages(19 - order) == 2 * Pages(18 - order); }
      hide Pages;
      Factor(Pages(order), Pages(19 - order), 0x8_0000);
    }

    static lemma PagesAbove(order: nat)
      requires order >= 20
      ensures Pages(order) * PAGE_SIZE % U32 == 0 && Pages(order) >= 0x10_0000
    {
      Pages20();
      PagesSum(order - 20, 20);
      hide Pages;
      var n := Pages(order - 20);
      assert Pages(order) == n * 0x10_0000;
      assert Pages(order) * PAGE_SIZE == n * U32;
    }

    static lemma Factor(a: nat, b: nat, n: nat)
      requires a * b == n && b > 0
      ensures a <= n && (b >= 2 ==> 2 * a <= n)
    {
      if b >= 2 { assert a * b == 2 * a + a * (b - 2); } else { assert a * b == a; }
    }

    /** No memory has a run of 2^20 pages. */
    lemma TooMany(bits: seq<bool>, n: nat)
      requires Wired() && bits == bitmap[..] && n >= 0x10_0000
      ensures forall s: nat :: !FreeRun(bits, s, n)
    {
    }
  }

  /** Pages the bitmap itself takes: rounded down, but at least one. */
  function BitmapPages(end: nat): nat {
    var n := (end + 7) / 8 / PAGE_SIZE;
    if n == 0 then 1 else n
  }

  /** The bitmap has a bit for each page. The pages set aside for it are a page at least, and hold it
      exactly if it fits one or fills whole ones; else its end lies in a page that is not reserved. */
  lemma BitmapReserved(end: nat)
    ensures var n, bytes := BitmapPages(end), (end + 7) / 8;
      && n >= 1 && (n > 1 ==> n * 4096 <= bytes) && bytes < (n + 1) * 4096
      && (bytes <= n * 4096 <==> bytes <= 4096 || bytes % 4096 == 0)
  {
  }

  lemma {:induction false} AllClear(bits: seq<bool>)
    requires forall i :: 0 <= i < |bits| ==> !bits[i]
    ensures Count(bits, false) == |bits| && Count(bits, true) == 0
  {
    if bits != [] { AllClear(bits[..|bits| - 1]); }
  }

  lemma NothingFilled(bits: seq<bool>, s: nat)
    requires s <= |bits|
    ensures Filled(bits, s, s, true) == bits
  {
  }

  lemma NothingCleared(bits: seq<bool>)
    ensures Filled(bits, 0, 0, false) == bits
  {
  }

  lemma EmptyTail(bits: seq<bool>, memStart: nat, live: set<Block>, pos: nat)
    ensures TailOk(bits, memStart, live, pos, 0)
  {
  }

  /** No block reaches into the page. */
  ghost predicate Untouched(memStart: nat, live: set<Block>, page: nat) {
    forall c :: c in live ==> !Meets(memStart, c, page)
  }

  lemma LiveBounds(bits: seq<bool>, memStart: nat, live: set<Block>, b: Block)
    requires Safe(bits, memStart, live) && b in live
    ensures memStart <= b.addr && b.addr + b.size <= Base(memStart, |bits|)
  {
  }

  lemma EmptySafe(bits: seq<bool>, memStart: nat)
    ensures Safe(bits, memStart, {}) && TailOk(bits, memStart, {}, 0, 0)
  {
  }

  /** The first page that lies wholly behind the block's start, and the page behind its end. */
  function FirstPage(memStart: nat, b: Block): nat {
    if b.addr < memStart then 0 else RoundUp(b.addr - memStart)
  }

  function PastPage(memStart: nat, b: Block): nat {
    if b.addr + b.size < memStart then 0 else RoundUp(b.addr + b.size - memStart)
  }

  lemma FreeSafe(bits: seq<bool>, memStart: nat, live: set<Block>, b: Block)
    requires Safe(bits, memStart, live) && b in live && b.size >= PAGE_SIZE
    ensures var s, e := FirstPage(memStart, b), PastPage(memStart, b);
      s < e <= |bits| &&
      var bits' := Filled(bits, s, e, false);
      && (Safe(bits', memStart, live - {b}) <==> Untouched(memStart, live - {b}, e - 1))
      && (b.addr + b.size == Base(memStart, e) ==> Safe(bits', memStart, live - {b}))
  {
    var s, e := FirstPage(memStart, b), PastPage(memStart, b);
    assert b.addr <= Base(memStart, s) && Base(memStart, e) - PAGE_SIZE < b.addr + b.size <= Base(memStart, e);
    var bits' := Filled(bits, s, e, false);
    forall c, p: nat | c in live - {b} && s <= p < e && Meets(memStart, c, p)
      ensures p == e - 1 && b.addr + b.size < Base(memStart, e) {
      WholePage(memStart, b, c, p);
    }
    if Untouched(memStart, live - {b}, e - 1) {
      forall c | c in live - {b} ensures InReserved(bits', memStart, c) {
      }
    } else {
      var c :| c in live - {b} && Meets(memStart, c, e - 1);
      assert !bits'[e - 1];
    }
  }

  /** Another block meets none of the pages that lie wholly inside the block. */
  lemma WholePage(memStart: nat, b: Block, c: Block, p: nat)
    requires Disjoint(b, c) && Meets(memStart, c, p) && b.addr <= Base(memStart, p) && c.size > 0
    ensures b.addr + b.size < Base(memStart, p) + PAGE_SIZE
  {
  }

  lemma MoreReserved(b: seq<bool>, b': seq<bool>, memStart: nat, live: set<Block>, lastPos: nat, lastOffset: nat)
    requires Safe(b, memStart, live) && TailOk(b, memStart, live, lastPos, lastOffset)
    requires |b'| == |b| && forall p :: 0 <= p < |b| && b[p] ==> b'[p]
    ensures Safe(b', memStart, live) && TailOk(b', memStart, live, lastPos, lastOffset)
  {
    forall c | c in live ensures InReserved(b', memStart, c) {
      ReservedStays(b, b', memStart, c);
    }
  }

  lemma {:induction false} CountRun(bits: seq<bool>, s: nat, n: nat)
    requires FreeRun(bits, s, n)
    ensures Count(bits, false) >= n
    decreases |bits|
  {
    if bits != [] {
      var k := |bits| - 1;
      if s + n == |bits| && n > 0 {
        CountRun(bits[..k], s, n - 1);
      } else if s + n < |bits| {
        CountRun(bits[..k], s, n);
      }
    }
  }

  /** With fewer clear pages than that there is no run of them. */
  lemma TooFew(bits: seq<bool>, n: nat)
    ensures n > Count(bits, false) ==> forall s: nat :: !FreeRun(bits, s, n)
  {
    forall s: nat | FreeRun(bits, s, n) ensures n <= Count(bits, false) { CountRun(bits, s, n); }
  }

  lemma Aligned32()
    ensures !MemAlloc.BadAlign(32)
  {
    assert PowerOfTwo(2) && PowerOfTwo(4);
    assert PowerOfTwo(8) && PowerOfTwo(16);
  }

  /** The first fit of `n` pages is `s` when that is the first clear page and starts a run. */
  lemma FitsAt(bits: seq<bool>, start: nat, s: nat, n: nat)
    requires FirstFit(bits, start, n) && FreeRun(bits, s, n) && n > 0 && forall i :: 0 <= i < s ==> bits[i]
    ensures start == s
  {
    assert FreeRun(bits, start, n) && !bits[start];
  }

  method MergeExample0() returns (m: MemAlloc)
    ensures fresh(m) && fresh(m.bitmap) && m.Valid() && m.memStart == 0 && m.end == 64 && m.live == {}
    ensures m.lastOffset == 0
    ensures m.free >= 2 && FreeRun(m.bitmap[..], 0, 3)
  {
    m := new MemAlloc.Init(64, 32, 0, 64);
    assert FreeRun(m.bitmap[..], 0, 3) && FreeRun(m.bitmap[..], 0, 2);
    CountRun(m.bitmap[..], 0, 2);
  }

  method MergeExample1() returns (m: MemAlloc)
    ensures fresh(m) && fresh(m.bitmap) && m.Valid() && m.memStart == 0 && m.end == 64
    ensures m.lastPos == 1 && m.lastOffset == 100 && m.live == {Block(0, PAGE_SIZE + 100)}
    ensures m.bitmap[0] && m.bitmap[1] && !m.bitmap[2]
  {
    Aligned32();
    m := MergeExample0();
    hide Count, Safe, TailOk;
    ghost var bits := m.bitmap[..];
    assert FreeRun(bits, 0, 2);
    var a, start := m.Alloc(PAGE_SIZE + 100, 32);
    FitsAt(bits, start, 0, 2);
    assert m.bitmap[..] == Filled(bits, 0, 2, true);
    assert m.bitmap[..][2] == m.bitmap[2];
  }

  method MergeExample2(m: MemAlloc)
    requires m.Valid() && m.memStart == 0 && m.end == 64 && m.lastPos == 1 && m.lastOffset == 100
    requires m.bitmap[0] && m.bitmap[1] && !m.bitmap[2]
    modifies m, m.bitmap
    ensures m.Valid() && m.live == old(m.live) + {Block(PAGE_SIZE + 128, 50)} && m.bitmap == old(m.bitmap)
    ensures m.memStart == 0
  {
    Aligned32();
    ghost var bits := m.bitmap[..];
    assert FreeRun(bits, 2, 1);
    CountRun(bits, 2, 1);
    hide Count, Safe, TailOk;
    var a, start := m.Alloc(50, 32);
    FitsAt(bits, start, 2, 1);
  }

  /** A run after which a live block lies in a free page: 50 bytes merged behind an allocation
      of a page and 100 bytes, and then that allocation freed as a whole. */
  method SharedLastPage() returns (m: MemAlloc, c: Block)
    ensures fresh(m) && m.Counted() && c in m.live && !m.Valid()
  {
    m := MergeExample1();
    MergeExample2(m);
    c := Block(PAGE_SIZE + 128, 50);
    assert Meets(0, c, 1);
    hide Count, Safe, TailOk;
    var err := m.FreeBlock(Block(0, PAGE_SIZE + 100));
  }

  method HugeExample0() returns (m: MemAlloc)
    ensures fresh(m) && fresh(m.bitmap) && m.Valid() && m.memStart == 0 && m.end == 0xA0000 && m.lastOffset == 0
    ensures forall i :: 0 <= i < 0x90000 ==> !m.bitmap[..][i]
  {
    m := new MemAlloc.Init(0xA0000, 0x90000, 0, 0xA0000);
  }

  method HugeExample1() returns (m: MemAlloc)
    ensures fresh(m) && fresh(m.bitmap) && m.Valid() && m.memStart == 0 && m.end == 0xA0000 && m.lastOffset == 100
    ensures m.lastPos == 0
    ensures forall i :: 0 <= i < 0x90000 ==> (m.bitmap[..][i] <==> i == 0)
  {
    Aligned32();
    m := HugeExample0();
    ghost var bits := m.bitmap[..];
    assert FreeRun(bits, 0, 1);
    hide Count, Safe, TailOk, FreeRun;
    var a, start := m.Alloc(100, 32);
    assert start == 0 by { FitsAt(bits, start, 0, 1); }
    assert m.bitmap[..] == Filled(bits, 0, 1, true);
  }

  /** A request of 2^31 bytes behind one of 100 bytes is granted, and no page is reserved for it. */
  method HugeMerge() returns (m: MemAlloc, b: Block)
    ensures fresh(m) && m.Counted() && b in m.live && b.size == I31 && !m.Valid()
    ensures m.bitmap.Length > 1 && !m.bitmap[1] && Base(m.memStart, 1) < b.addr + b.size
  {
    m := HugeExample1();
    Aligned32();
    ghost var bits := m.bitmap[..];
    assert forall i :: 1 <= i < 0x90000 ==> !bits[i];
    assert FreeRun(bits, 1, 0x80000);
    assert RoundUp(I31) == PageUp(I31) == 0x80000;
    hide Count, Safe, TailOk, FreeRun, RoundUp;
    var a, start := m.Alloc(I31, 32);
    FitsAt(bits, start, 1, 0x80000);
    assert m.bitmap[..] == bits && bits[1] == m.bitmap[1];
    b := Block(a.value, I31);
  }

  /** Behind a page and 20 bytes, a request with an alignment of 64 gets a block at byte 32 of a page. */
  method MisalignedBlock() returns (m: MemAlloc, b: Block)
    ensures fresh(m) && m.Valid() && m.memStart == 0 && b in m.live && b == Block(PAGE_SIZE + 32, 50)
  {
    Aligned32();
    m := MisalignedExample();
    hide Count, Safe, TailOk;
    ghost var bits := m.bitmap[..];
    assert FreeRun(bits, 2, 1) && PowerOfTwo(64);
    var a, start := m.Alloc(50, 64);
    FitsAt(bits, start, 2, 1);
    b := Block(a.value, 50);
  }

  method MisalignedExample() returns (m: MemAlloc)
    ensures fresh(m) && fresh(m.bitmap) && m.Valid() && m.memStart == 0 && m.end == 64
    ensures m.lastPos == 1 && m.lastOffset == 20
    ensures m.bitmap[0] && m.bitmap[1] && !m.bitmap[2]
  {
    Aligned32();
    m := MergeExample0();
    hide Count, Safe, TailOk;
    ghost var bits := m.bitmap[..];
    assert FreeRun(bits, 0, 2);
    var a, start := m.Alloc(PAGE_SIZE + 20, 32);
    FitsAt(bits, start, 0, 2);
    assert m.bitmap[..] == Filled(bits, 0, 2, true);
    assert m.bitmap[..][2] == m.bitmap[2];
  }
}
