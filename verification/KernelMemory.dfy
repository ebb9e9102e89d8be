/** The slab allocator on top of the page allocator: mm/slab.c gets its pages from, and returns them
    to, mm/page_alloc.c, which other parts of the kernel use at the same time. */
module KernelMemory {

  import opened Common
  import opened PageAlloc
  import L = SlabLayout
  import opened SlabCaches
  import opened DList

  /** A block of the order has 2^order pages. */
  lemma {:induction false} RoomPages(order: nat)
    ensures L.Room(order) == MemAlloc.Pages(order) * PAGE_SIZE
  {
    if order > 0 { RoomPages(order - 1); }
  }

  /** The pages of a slab, as the page allocator handed them out. */
  function SlabBlock(base: nat, order: nat): Block {
    Block(base, L.Room(order))
  }

  /** The blocks of some slabs. */
  function Blocks(slabs: seq<Slab>, order: nat): set<Block> {
    if slabs == [] then {} else {SlabBlock(slabs[0].base, order)} + Blocks(slabs[1..], order)
  }

  lemma {:induction false} BlocksAre(slabs: seq<Slab>, order: nat, b: Block)
    ensures b in Blocks(slabs, order) <==>
      exists k :: 0 <= k < |slabs| && b.addr == slabs[k].base && b.size == L.Room(order)
  {
    if slabs != [] {
      BlocksAre(slabs[1..], order, b);
      if k :| 0 <= k < |slabs| && b.addr == slabs[k].base && b.size == L.Room(order) && k > 0 {
        assert slabs[1..][k - 1] == slabs[k];
      }
    }
  }

  /** Every slab lies in a block of pages that has been handed out for it. */
  ghost predicate Backed(slabs: seq<Slab>, order: nat, live: set<Block>) {
    forall k :: 0 <= k < |slabs| ==> SlabBlock(slabs[k].base, order) in live && slabs[k].base > 0
  }

  /** One more slab, in these pages. */
  ghost predicate Grown(was: seq<Slab>, slabs: seq<Slab>, addr: nat) {
    |slabs| == |was| + 1 && slabs[..|was|] == was && slabs[|was|].base == addr
  }

  lemma OneMoreBacked(was: seq<Slab>, slabs: seq<Slab>, order: nat, live: set<Block>, addr: nat)
    requires Backed(was, order, live) && Grown(was, slabs, addr) && addr > 0 && SlabBlock(addr, order) in live
    ensures Backed(slabs, order, live)
  {
    forall k | 0 <= k < |slabs| ensures SlabBlock(slabs[k].base, order) in live && slabs[k].base > 0 {
      assert k < |was| ==> slabs[..|was|][k] == was[k];
    }
  }

  lemma StillBacked(slabs: seq<Slab>, order: nat, live: set<Block>, more: set<Block>)
    requires Backed(slabs, order, live)
    ensures Backed(slabs, order, live + more)
  {
  }

  /** There is no run of 2^order free pages. */
  ghost predicate NoRun(bits: seq<bool>, order: nat) {
    forall s: nat :: !FreeRun(bits, s, MemAlloc.Pages(order))
  }

  /** The lowest run of 2^order free pages starts at address 0. */
  ghost predicate AtZero(memStart: nat, bits: seq<bool>, order: nat) {
    memStart == 0 && FreeRun(bits, 0, MemAlloc.Pages(order))
  }

  lemma FirstAtZero(memStart: nat, bits: seq<bool>, start: nat, order: nat)
    requires FirstFit(bits, start, MemAlloc.Pages(order))
    ensures Base(memStart, start) == 0 <==> AtZero(memStart, bits, order)
  {
  }

  lemma NoneAtZero(memStart: nat, bits: seq<bool>, order: nat)
    requires AtZero(memStart, bits, order)
    ensures !NoRun(bits, order)
  {
  }

  class KernelCache {
    const pages: MemAlloc
    const cache: SlabCache

    constructor (pages: MemAlloc, cache: SlabCache)
      requires pages.Valid() && cache.Valid() && cache.slabs == [] && pages.lastOffset == 0
      requires pages.memStart % PAGE_SIZE == 0
      ensures Valid() && this.pages == pages && this.cache == cache
    {
      this.pages, this.cache := pages, cache;
    }

    /** Requests are for whole pages, so no page is ever shared between two of them. */
    ghost predicate Whole()
      reads pages, pages.bitmap
    {
      pages.Valid() && pages.lastOffset == 0 && pages.memStart % PAGE_SIZE == 0
    }

    ghost predicate Valid()
      reads pages, pages.bitmap, cache, cache.slabs
    {
      Whole() && cache.Valid() && Backed(cache.slabs, cache.l.order, pages.live)
    }

    lemma Inside(a: nat) returns (s: Slab)
      requires cache.Valid() && a in cache.live
      ensures s in cache.slabs && s.base <= a && a + cache.l.size <= s.base + L.Room(cache.l.order) && cache.l.size > 0
    {
      assert cache.Owned(cache.slabs, a);
      var t, i :| t in cache.slabs && 0 <= i < cache.l.nr && a == cache.At(t, i);
      L.SlotInside(cache.l, i);
      s := t;
    }

    /** An object in use lies in reserved pages, and shares no byte with a block of pages that has
        been handed out to anyone but the cache. */
    lemma ObjectsApart(a: nat, b: Block)
      requires Valid() && a in cache.live
      ensures InReserved(pages.bitmap[..], pages.memStart, Block(a, cache.l.size))
      ensures b in pages.live && (forall s :: s in cache.slabs ==> b != SlabBlock(s.base, cache.l.order)) ==>
        Disjoint(Block(a, cache.l.size), b)
    {
      var s := Inside(a);
      var whole := SlabBlock(s.base, cache.l.order);
      assert whole in pages.live && InReserved(pages.bitmap[..], pages.memStart, whole);
      forall p: nat | p < |pages.bitmap[..]| && Meets(pages.memStart, Block(a, cache.l.size), p)
        ensures pages.bitmap[..][p] {
        assert Meets(pages.memStart, whole, p);
      }
    }

    /** A new block of pages leaves room for a slab. */
    lemma NewRoom(addr: nat, block: set<Block>, before: set<Block>)
      requires Whole() && addr % PAGE_SIZE == 0 && block !! before && pages.live == before + block
      requires addr == 0 || block == {SlabBlock(addr, cache.l.order)}
      requires Backed(cache.slabs, cache.l.order, before)
      ensures cache.RoomAt(addr)
    {
      if addr != 0 {
        forall s | s in cache.slabs ensures cache.Apart(addr, s.base) {
          assert Disjoint(SlabBlock(addr, cache.l.order), SlabBlock(s.base, cache.l.order));
        }
      }
    }

    /** slab_get_pages: pages for one more slab, 0 if there are none. A block at address 0 counts as none. */
    method GetPages(order: nat) returns (addr: nat, ghost block: set<Block>)
      requires Whole() && order < 32
      modifies pages`free, pages`active, pages`lastPos, pages`lastOffset, pages`live, pages.bitmap
      ensures Whole() && pages.live == old(pages.live) + block && block !! old(pages.live)
      ensures block == {} <==> NoRun(old(pages.bitmap[..]), order)
      ensures block == {} || block == {SlabBlock(addr, order)}
      ensures addr % PAGE_SIZE == 0 && (block == {} ==> addr == 0)
      ensures block != {} ==> (addr == 0 <==> AtZero(pages.memStart, old(pages.bitmap[..]), order))
    {
      RoomPages(order);
      ghost var bits := pages.bitmap[..];
      if AtZero(pages.memStart, bits, order) { NoneAtZero(pages.memStart, bits, order); }
      var a;
      ghost var start;
      hide FreeRun, FirstFit, AtZero, MemAlloc.Pages;
      a, start := pages.GetFreePages(order);
      if a.None? {
        return 0, {};
      }
      FirstAtZero(pages.memStart, bits, start, order);
      addr, block := a.value, {SlabBlock(a.value, order)};
    }

    /** __free_pages: gives a block of whole pages back; address 0 is refused. */
    method PutPages(addr: nat, order: nat) returns (err: int)
      requires Whole() && SlabBlock(addr, order) in pages.live && addr % PAGE_SIZE == 0
      modifies pages`free, pages`active, pages`lastPos, pages`lastOffset, pages`live, pages.bitmap
      ensures Whole() && (err < 0 <==> addr == 0)
      ensures pages.live == if addr == 0 then old(pages.live) else old(pages.live) - {SlabBlock(addr, order)}
    {
      if addr <= 0 {
        return -1;
      }
      EndsWithPage(SlabBlock(addr, order));
      hide MemAlloc.Valid;
      err := pages.FreeBlock(SlabBlock(addr, order));
    }

    /** A block of whole pages on a page boundary ends with a page. */
    lemma EndsWithPage(b: Block)
      requires Whole() && b in pages.live && b.addr % PAGE_SIZE == 0 && b.size % PAGE_SIZE == 0
      ensures b.addr + b.size == Base(pages.memStart, PastPage(pages.memStart, b))
    {
      assert pages.memStart <= b.addr;
      var n := b.addr + b.size - pages.memStart;
      assert n % PAGE_SIZE == 0 && RoundUp(n) * PAGE_SIZE == n;
    }

    lemma CacheOrder()
      requires cache.Valid()
      ensures cache.l.order <= 5
    {
    }

    /** Pages for a slab, if the cache has no slab with room. */
    method Fetch() returns (addr: nat, ghost block: set<Block>)
      requires Valid()
      modifies pages`free, pages`active, pages`lastPos, pages`lastOffset, pages`live, pages.bitmap
      ensures Whole() && cache.Valid() && cache.RoomAt(addr) && pages.live == old(pages.live) + block
      ensures Backed(cache.slabs, cache.l.order, old(pages.live))
      ensures block !! old(pages.live)
      ensures (block == {} ==> addr == 0) && (block == {} || block == {SlabBlock(addr, cache.l.order)})
      ensures addr % PAGE_SIZE == 0
      ensures cache.partial != [] || cache.free != [] ==> block == {}
      ensures cache.partial == [] && cache.free == [] ==>
        (block == {} <==> NoRun(old(pages.bitmap[..]), cache.l.order))
        && (block != {} ==> (addr == 0 <==> AtZero(pages.memStart, old(pages.bitmap[..]), cache.l.order)))
    {
      CacheOrder();
      hide MemAlloc.Valid, SlabCache.Valid, FreeRun, SlabCache.RoomAt, SlabBlock, Backed, NoRun, AtZero;
      ghost var before := pages.live;
      addr, block := 0, {};
      if cache.partial == [] && cache.free == [] {
        addr, block := GetPages(cache.l.order);
      }
      NewRoom(addr, block, before);
    }

    /** slab_cache_alloc with these pages at hand. */
    method AllocWith(addr: nat, header: bool) returns (ok: bool, obj: nat)
      requires Whole() && cache.Valid() && cache.RoomAt(addr)
      modifies cache, cache.slabs
      ensures Whole() && cache.Valid()
      ensures if ok then obj !in old(cache.live) && cache.live == old(cache.live) + {obj}
        else cache.live == old(cache.live)
      ensures ok <==> old(cache.partial) != [] || old(cache.free) != [] || (addr != 0 && (cache.l.offSlab ==> header))
      ensures if old(cache.partial) != [] || old(cache.free) != [] || !ok then cache.slabs == old(cache.slabs)
        else Grown(old(cache.slabs), cache.slabs, addr) && addr != 0
    {
      hide MemAlloc.Valid, SlabCache.Valid, SlabCache.RoomAt, SlabCache.FirstSlot;
      ok, obj := cache.Alloc(addr, header);
    }

    /** slab_cache_alloc, with slab_cache_grow's pages. It fails exactly when no slab has room and there
        are no pages for one more, no structure, or only pages whose lowest run starts at address 0.
        `kept` is the block that the page allocator has handed out for good: a failure keeps one
        exactly in the last case, because address 0 counts as none. */
    method Alloc(header: bool) returns (ok: bool, obj: nat, ghost kept: set<Block>)
      requires Valid()
      modifies cache, cache.slabs, pages`free, pages`active, pages`lastPos, pages`lastOffset, pages`live, pages.bitmap
      ensures Valid() && pages.live == old(pages.live) + kept && kept !! old(pages.live)
      ensures if ok then obj !in old(cache.live) && cache.live == old(cache.live) + {obj}
        else cache.live == old(cache.live)
      ensures old(cache.partial) != [] || old(cache.free) != [] ==> ok && kept == {} && cache.slabs == old(cache.slabs)
      ensures ok <==>
        || old(cache.partial) != [] || old(cache.free) != []
        || (!NoRun(old(pages.bitmap[..]), cache.l.order)
            && !AtZero(pages.memStart, old(pages.bitmap[..]), cache.l.order)
            && (cache.l.offSlab ==> header))
      ensures !ok ==>
        kept == if AtZero(pages.memStart, old(pages.bitmap[..]), cache.l.order) then {SlabBlock(0, cache.l.order)}
          else {}
      ensures ok && old(cache.partial) == [] && old(cache.free) == [] ==>
        cache.slabs != [] && kept == {SlabBlock(cache.slabs[|cache.slabs| - 1].base, cache.l.order)}
    {
      ghost var bits := pages.bitmap[..];
      if AtZero(pages.memStart, bits, cache.l.order) { NoneAtZero(pages.memStart, bits, cache.l.order); }
      hide MemAlloc.Valid, SlabCache.Valid, SlabCache.RoomAt, SlabBlock, Backed, Whole, FreeRun, AtZero, NoRun;
      var addr;
      ghost var block;
      addr, block := Fetch();
      ok, obj, kept := AllocFrom(addr, block, header);
    }

    /** The same with what slab_get_pages has returned. */
    method AllocFrom(addr: nat, ghost block: set<Block>, header: bool)
      returns (ok: bool, obj: nat, ghost kept: set<Block>)
      requires Whole() && cache.Valid() && cache.RoomAt(addr) && block <= pages.live && addr % PAGE_SIZE == 0
      requires Backed(cache.slabs, cache.l.order, pages.live - block)
      requires (block == {} ==> addr == 0) && (block == {} || block == {SlabBlock(addr, cache.l.order)})
      requires cache.partial != [] || cache.free != [] ==> block == {}
      modifies cache, cache.slabs, pages`free, pages`active, pages`lastPos, pages`lastOffset, pages`live, pages.bitmap
      ensures Valid() && pages.live == old(pages.live) - block + kept
      ensures if ok then obj !in old(cache.live) && cache.live == old(cache.live) + {obj}
        else cache.live == old(cache.live)
      ensures ok <==> old(cache.partial) != [] || old(cache.free) != [] || (addr != 0 && (cache.l.offSlab ==> header))
      ensures kept == if ok || addr == 0 then block else {}
      ensures old(cache.partial) != [] || old(cache.free) != [] ==> cache.slabs == old(cache.slabs)
      ensures ok && old(cache.partial) == [] && old(cache.free) == [] ==>
        cache.slabs != [] && kept == {SlabBlock(cache.slabs[|cache.slabs| - 1].base, cache.l.order)}
    {
      hide MemAlloc.Valid, SlabCache.Valid, SlabCache.RoomAt, SlabBlock, Backed, Whole;
      ghost var slabs := cache.slabs;
      kept := block;
      StillBacked(slabs, cache.l.order, pages.live - block, block);
      assert pages.live - block + block == pages.live;
      ok, obj := AllocWith(addr, header);
      if ok {
        if cache.slabs != slabs { OneMoreBacked(slabs, cache.slabs, cache.l.order, pages.live, addr); }
      } else if addr != 0 {
        var err := PutPages(addr, cache.l.order);
        kept := {};
      }
    }

    /** slab_free. */
    method Free(obj: nat)
      requires Valid() && obj in cache.live
      modifies cache, cache.slabs
      ensures Valid() && cache.live == old(cache.live) - {obj} && pages.live == old(pages.live)
    {
      hide MemAlloc.Valid, SlabCache.Valid, Backed;
      cache.Free(obj);
    }

    /** A slab less, and its pages. */
    lemma LessBacked(x: Slab)
      requires cache.Valid() && x in cache.slabs && Backed(cache.slabs, cache.l.order, pages.live)
      ensures Backed(Without(cache.slabs, x), cache.l.order, pages.live - {SlabBlock(x.base, cache.l.order)})
      ensures SlabBlock(x.base, cache.l.order) in pages.live && x.base % PAGE_SIZE == 0
    {
      var rest := Without(cache.slabs, x);
      forall k | 0 <= k < |rest|
        ensures SlabBlock(rest[k].base, cache.l.order) in pages.live - {SlabBlock(x.base, cache.l.order)}
        ensures rest[k].base > 0 {
        InWithout(cache.slabs, x, rest[k]);
        assert cache.Apart(rest[k].base, x.base);
      }
    }

    lemma FreeListed()
      requires cache.Valid()
      ensures forall k :: 0 <= k < |cache.free| ==> cache.free[k] in cache.slabs
    {
    }

    lemma FreeBased()
      requires Valid() && cache.free != []
      ensures cache.free[0].base > 0
    {
      assert cache.free[0] in cache.slabs;
    }

    /** slab_destroy. */
    method Destroy()
      requires Valid() && cache.free != []
      modifies cache`free, cache`slabs, pages`free, pages`active, pages`lastPos, pages`lastOffset, pages`live
      modifies pages.bitmap
      ensures Valid() && cache.free == old(cache.free)[1..]
      ensures pages.live == old(pages.live) - {SlabBlock(old(cache.free)[0].base, cache.l.order)}
    {
      FreeListed();
      LessBacked(cache.free[0]);
      FreeBased();
      hide MemAlloc.Valid, SlabCache.Valid, SlabBlock, Backed, Whole;
      var base := cache.DestroyFirst();
      var err := PutPages(base, cache.l.order);
    }

    /** slab_cache_shrink: exactly the pages of the empty slabs go back to the page allocator. */
    method Shrink() returns (count: nat)
      requires Valid()
      modifies cache`free, cache`slabs, pages`free, pages`active, pages`lastPos, pages`lastOffset, pages`live
      modifies pages.bitmap
      ensures Valid() && cache.free == [] && pages.live == old(pages.live) - Blocks(old(cache.free), cache.l.order)
      ensures count == |old(cache.free)| * MemAlloc.Pages(cache.l.order)
    {
      hide MemAlloc.Valid, SlabCache.Valid, SlabBlock, Backed, Whole;
      var n := 0;
      while cache.free != []
        invariant Valid() && n <= |old(cache.free)| && cache.free == old(cache.free)[n..]
        invariant pages.live - Blocks(cache.free, cache.l.order)
          == old(pages.live) - Blocks(old(cache.free), cache.l.order)
        decreases |cache.free|
      {
        Destroy();
        n := n + 1;
      }
      count := Shifted(n, cache.l.order);
      RoomPages(cache.l.order);
    }

    /** __get_free_pages for another part of the kernel. */
    method TakePages(order: nat) returns (addr: nat, ghost block: set<Block>)
      requires Valid() && order < 32
      modifies pages`free, pages`active, pages`lastPos, pages`lastOffset, pages`live, pages.bitmap
      ensures Valid() && pages.live == old(pages.live) + block && block !! old(pages.live)
      ensures block == {SlabBlock(addr, order)}
        || (addr == 0 && block == {} && NoRun(old(pages.bitmap[..]), order))
      ensures block != {} ==> (addr == 0 <==> AtZero(pages.memStart, old(pages.bitmap[..]), order))
    {
      hide MemAlloc.Valid, SlabCache.Valid, SlabBlock, Backed, FreeRun, AtZero, NoRun;
      ghost var before := pages.live;
      addr, block := GetPages(order);
      StillBacked(cache.slabs, cache.l.order, before, block);
    }

    /** __free_pages by another part of the kernel, of pages that are not a slab's. */
    method ReturnPages(addr: nat, order: nat) returns (err: int)
      requires Valid() && SlabBlock(addr, order) in pages.live && addr % PAGE_SIZE == 0
      requires forall k :: 0 <= k < |cache.slabs| ==>
        SlabBlock(cache.slabs[k].base, cache.l.order) != SlabBlock(addr, order)
      modifies pages`free, pages`active, pages`lastPos, pages`lastOffset, pages`live, pages.bitmap
      ensures Valid() && pages.live == if err < 0 then old(pages.live) else old(pages.live) - {SlabBlock(addr, order)}
      ensures err < 0 <==> addr == 0
    {
      hide MemAlloc.Valid, SlabCache.Valid;
      err := PutPages(addr, order);
    }

    /** The addresses of the free pages. */
    ghost function FreePages(): set<nat>
      reads pages, pages.bitmap
    {
      FreeAt(pages.memStart, pages.bitmap[..])
    }

    /** __get_free_page: takes one page out of the free ones, and fails only when there is none. */
    method TakePage() returns (page: nat)
      requires Valid() && 0 !in FreePages()
      modifies pages`free, pages`active, pages`lastPos, pages`lastOffset, pages`live, pages.bitmap
      ensures Valid() && (page == 0 <==> old(FreePages()) == {})
      ensures page == 0 ==> FreePages() == old(FreePages()) && pages.live == old(pages.live)
      ensures page != 0 ==> page in old(FreePages()) && FreePages() == old(FreePages()) - {page}
      ensures page != 0 ==> PageBlock(page) !in old(pages.live) && pages.live == old(pages.live) + {PageBlock(page)}
    {
      hide MemAlloc.Valid, SlabCache.Valid, Backed, FreeAt, FreeRun, FirstFit, Filled, NoRun;
      ghost var bits, before := pages.bitmap[..], pages.live;
      var a;
      ghost var start;
      a, start := pages.GetFreePages(0);
      RunOfOne(pages.memStart, bits);
      if a.None? {
        return 0;
      }
      StillBacked(cache.slabs, cache.l.order, before, {PageBlock(a.value)});
      OnePageLess(pages.memStart, bits, start);
      page := a.value;
    }

    /** __free_page of a page that is not a slab's: it is free again. */
    method GivePage(page: nat) returns (err: int)
      requires Valid() && PageBlock(page) in pages.live && page > 0 && page % PAGE_SIZE == 0
      requires forall k :: 0 <= k < |cache.slabs| ==>
        SlabBlock(cache.slabs[k].base, cache.l.order) != PageBlock(page)
      modifies pages`free, pages`active, pages`lastPos, pages`lastOffset, pages`live, pages.bitmap
      ensures Valid() && err >= 0 && pages.live == old(pages.live) - {PageBlock(page)}
      ensures page !in old(FreePages()) && FreePages() == old(FreePages()) + {page}
    {
      hide MemAlloc.Valid, SlabCache.Valid, FreeAt, Filled, FirstPage, PastPage, Untouched;
      EndsWithPage(PageBlock(page));
      OnePageMore(PageBlock(page));
      err := pages.FreeBlock(PageBlock(page));
    }

    lemma OnePageMore(b: Block)
      requires Whole() && b in pages.live && b.addr % PAGE_SIZE == 0 && b.size == PAGE_SIZE
      ensures var bits, s, e := pages.bitmap[..], FirstPage(pages.memStart, b), PastPage(pages.memStart, b);
        s < e <= |bits| && b.addr !in FreeAt(pages.memStart, bits)
        && FreeAt(pages.memStart, Filled(bits, s, e, false)) == FreeAt(pages.memStart, bits) + {b.addr}
    {
      var bits, s := pages.bitmap[..], FirstPage(pages.memStart, b);
      assert InReserved(bits, pages.memStart, b);
      var n := b.addr - pages.memStart;
      assert n % PAGE_SIZE == 0 && RoundUp(n) * PAGE_SIZE == n;
      assert b.addr == Base(pages.memStart, s) && PastPage(pages.memStart, b) == s + 1;
      assert Meets(pages.memStart, b, s) && bits[s];
      hide Filled;
      Flipped(pages.memStart, bits, Filled(bits, s, s + 1, false), s);
    }
  }

  function PageBlock(page: nat): Block {
    Block(page, PAGE_SIZE)
  }

  ghost function FreeAt(memStart: nat, bits: seq<bool>): set<nat> {
    set i | 0 <= i < |bits| && !bits[i] :: Base(memStart, i)
  }

  lemma RunOfOne(memStart: nat, bits: seq<bool>)
    ensures MemAlloc.Pages(0) == 1
    ensures (forall s: nat :: !FreeRun(bits, s, 1)) <==> FreeAt(memStart, bits) == {}
  {
    if s: nat :| FreeRun(bits, s, 1) {
      assert !bits[s] && Base(memStart, s) in FreeAt(memStart, bits);
    }
    if a :| a in FreeAt(memStart, bits) {
      var i :| 0 <= i < |bits| && !bits[i] && a == Base(memStart, i);
      assert FreeRun(bits, i, 1);
    }
  }

  /** One bit changed is one page more or less. */
  lemma Flipped(memStart: nat, bits: seq<bool>, bits': seq<bool>, s: nat)
    requires |bits'| == |bits| && s < |bits| && bits[s] && !bits'[s]
    requires forall i :: 0 <= i < |bits| && i != s ==> bits'[i] == bits[i]
    ensures Base(memStart, s) !in FreeAt(memStart, bits)
    ensures FreeAt(memStart, bits') == FreeAt(memStart, bits) + {Base(memStart, s)}
  {
    forall a ensures a in FreeAt(memStart, bits') <==> a in FreeAt(memStart, bits) || a == Base(memStart, s) {
      if i :| 0 <= i < |bits| && a == Base(memStart, i) && i != s { assert bits'[i] == bits[i]; }
    }
  }

  lemma OnePageLess(memStart: nat, bits: seq<bool>, start: nat)
    requires FirstFit(bits, start, MemAlloc.Pages(0))
    ensures start + MemAlloc.Pages(0) <= |bits| && Base(memStart, start) in FreeAt(memStart, bits)
    ensures FreeAt(memStart, Filled(bits, start, start + MemAlloc.Pages(0), true))
      == FreeAt(memStart, bits) - {Base(memStart, start)}
  {
    var bits' := Filled(bits, start, start + 1, true);
    assert !bits[start];
    Flipped(memStart, bits', bits, start);
  }

  method EmptyMemory() returns (m: MemAlloc)
    ensures fresh(m) && fresh(m.bitmap) && m.Valid() && m.memStart == 0 && m.lastOffset == 0
    ensures AtZero(0, m.bitmap[..], 0)
  {
    m := new MemAlloc.Init(64, 32, 0, 64);
    assert FreeRun(m.bitmap[..], 0, MemAlloc.Pages(0));
  }

  method EmptyCache() returns (c: SlabCache)
    ensures fresh(c) && c.Valid() && c.slabs == c.partial == c.free == [] && c.live == {} && c.l.order == 0
  {
    OneSlot();
    hide SlabCache.Valid, L.Holds, L.FirstPage;
    c := new SlabCache(L.Layout(64, 0, 1, false, 64));
  }

  lemma OneSlot()
    ensures var l := L.Layout(64, 0, 1, false, 64); L.Holds(l) && L.FirstPage(l)
  {
    assert L.Room(0) == PAGE_SIZE;
  }

  /** Page 0 of an empty memory is the lowest run. The cache takes it for no page at all and fails,
      although 31 more pages are free, and the page stays handed out. */
  method LostBlock() returns (k: KernelCache, ok: bool)
    ensures fresh(k) && k.Valid() && !ok && k.cache.live == {} && SlabBlock(0, 0) in k.pages.live
  {
    hide AtZero, NoRun, FreeRun, MemAlloc.Valid, SlabCache.Valid;
    var m := EmptyMemory();
    var c := EmptyCache();
    k := new KernelCache(m, c);
    var obj;
    ghost var kept;
    ok, obj, kept := k.Alloc(true);
    assert SlabBlock(0, 0) in kept;
  }
}
