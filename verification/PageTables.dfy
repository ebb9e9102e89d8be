/** include/asm-i386/pgtable.h and the page-table walk of arch-i386/kernel/vmalloc.c: a page
    directory over page tables, a LIFO cache of pages, and the page allocator behind it. */
module PageTables {

  import opened Common
  import opened DList

  const PTRS := 1024                  // entries of a directory and of a table
  const PMD_SIZE := 0x40_0000         // bytes mapped by one table
  const PTE_CACHE_MAX := 0x100

  const VMALLOC_START_ADDR := 0xF400_0000
  const VMALLOC_END := 0xFC00_0000

  /** A page table and the page it occupies; an entry is the page it maps, 0 for none. */
  datatype Table = Table(page: nat, pte: seq<nat>)

  /** Page numbers of the vmalloc window. */
  predicate InWindow(v: nat) {
    VMALLOC_START_ADDR / PAGE_SIZE <= v < VMALLOC_END / PAGE_SIZE
  }

  /** What page number `v` translates to through a directory, 0 for nothing. */
  function FrameIn(dir: map<nat, Table>, v: nat): nat {
    if v / PTRS in dir && v % PTRS < |dir[v / PTRS].pte| then dir[v / PTRS].pte[v % PTRS] else 0
  }

  /** An entry of a table translates the page number of that directory entry and that place. */
  lemma Translated(dir: map<nat, Table>, d: nat, i: nat)
    requires i < 1024
    ensures d in dir && |dir[d].pte| == 1024 ==> FrameIn(dir, d * 1024 + i) == dir[d].pte[i]
    ensures d !in dir ==> FrameIn(dir, d * 1024 + i) == 0
  {
  }

  /** Only translations of page numbers in a range differ, and tables stay where they are. */
  ghost predicate SameOutside(before: map<nat, Table>, after: map<nat, Table>, lo: nat, hi: nat) {
    && (forall d :: d in before ==> d in after && after[d].page == before[d].page)
    && forall v: nat :: !(lo <= v < hi) ==> FrameIn(after, v) == FrameIn(before, v)
  }

  /** Everything in the range is mapped, or nothing is. */
  ghost predicate AllMapped(dir: map<nat, Table>, lo: nat, hi: nat) {
    forall v: nat :: lo <= v < hi ==> FrameIn(dir, v) != 0
  }

  ghost predicate NoneMapped(dir: map<nat, Table>, lo: nat, hi: nat) {
    forall v: nat :: lo <= v < hi ==> FrameIn(dir, v) == 0
  }

  /** Two changes to adjoining ranges are one change. */
  lemma Joined(before: map<nat, Table>, between: map<nat, Table>, after: map<nat, Table>, lo: nat, mid: nat, hi: nat,
      end: nat)
    requires SameOutside(before, between, lo, mid) && SameOutside(between, after, mid, hi) && lo <= mid <= hi <= end
    ensures SameOutside(before, after, lo, hi) && SameOutside(before, after, lo, end)
    ensures AllMapped(between, lo, mid) && AllMapped(after, mid, hi) ==> AllMapped(after, lo, hi)
    ensures NoneMapped(between, lo, mid) && NoneMapped(after, mid, hi) ==> NoneMapped(after, lo, hi)
  {
    forall v: nat | !(lo <= v < hi) ensures FrameIn(after, v) == FrameIn(before, v) {
      assert FrameIn(after, v) == FrameIn(between, v);
    }
  }

  lemma NoChange(dir: map<nat, Table>, lo: nat)
    ensures SameOutside(dir, dir, lo, lo) && AllMapped(dir, lo, lo) && NoneMapped(dir, lo, lo)
  {
  }

  /** Every page of the window that maps something maps a page of its own. */
  ghost predicate OwnPages(dir: map<nat, Table>, place: map<nat, nat>) {
    && (forall v :: InWindow(v) && FrameIn(dir, v) != 0 ==> FrameIn(dir, v) in place && place[FrameIn(dir, v)] == v)
    && (forall p :: p in place ==> p != 0 && InWindow(place[p]) && FrameIn(dir, place[p]) == p)
  }

  lemma OneLess(was: map<nat, Table>, dir: map<nat, Table>, place: map<nat, nat>, v: nat)
    requires OwnPages(was, place) && SameOutside(was, dir, v, v + 1) && InWindow(v) && FrameIn(dir, v) == 0
    ensures OwnPages(dir, place - {FrameIn(was, v)})
  {
  }

  lemma OneMore(was: map<nat, Table>, dir: map<nat, Table>, place: map<nat, nat>, v: nat)
    requires OwnPages(was, place) && SameOutside(was, dir, v, v + 1) && InWindow(v) && FrameIn(was, v) == 0
    requires FrameIn(dir, v) != 0 && FrameIn(dir, v) !in place
    ensures OwnPages(dir, place[FrameIn(dir, v) := v])
  {
  }

  /** A table of empty entries translates nothing. */
  lemma EmptyTable(dir: map<nat, Table>, place: map<nat, nat>, d: nat, page: nat)
    requires OwnPages(dir, place) && d !in dir
    ensures var after := dir[d := Table(page, seq(PTRS, _ => 0))];
      OwnPages(after, place) && forall lo :: SameOutside(dir, after, lo, lo)
  {
    var after := dir[d := Table(page, seq(PTRS, _ => 0))];
    assert forall v: nat :: FrameIn(after, v) == FrameIn(dir, v);
    hide FrameIn;
  }

  function Min(a: nat, b: nat): nat {
    if a < b then a else b
  }

  class Tables {
    var dir: map<nat, Table>             // present directory entries
    var cache: seq<nat>                  // pte_cache, last freed first
    var cacheSize: nat
    var free: set<nat>                   // pages the page allocator can hand out
    ghost var place: map<nat, nat>       // which page of the window a page is mapped at
    ghost var tablePages: set<nat>       // pages that have become tables
    ghost const pages: set<nat>          // all the pages there are

    function Frame(v: nat): nat
      reads this`dir
    {
      FrameIn(dir, v)
    }

    ghost predicate Formed()
      reads this`dir, this`cache, this`cacheSize
    {
      && (forall d :: d in dir ==> |dir[d].pte| == PTRS)
      && cacheSize == |cache| <= PTE_CACHE_MAX && Distinct(cache)
    }

    ghost predicate Owned()
      reads this`dir, this`place
    {
      OwnPages(dir, place)
    }

    /** Every page is in exactly one place: free, cached, a table, mapped in the window, or held
        by the caller. */
    ghost predicate Conserved(held: set<nat>)
      reads this`cache, this`free, this`place, this`tablePages
    {
      && 0 !in pages
      && (forall p :: p in pages ==> p in free || p in cache || p in tablePages || p in place || p in held)
      && (forall p :: p in free ==> p in pages && p !in cache && p !in tablePages && p !in place && p !in held)
      && (forall p :: p in cache ==> p in pages && p !in tablePages && p !in place && p !in held)
      && (forall p :: p in tablePages ==> p in pages && p !in place && p !in held)
      && (forall p :: p in place ==> p in pages && p !in held)
      && (forall p :: p in held ==> p in pages)
    }

    ghost predicate Balanced(held: set<nat>)
      reads this
    {
      Formed() && Owned() && Conserved(held)
    }

    /** No page is lost, and none is in two places. */
    lemma OnePlace(p: nat)
      requires Balanced({}) && p in pages
      ensures p in free || p in cache || p in tablePages || exists v :: InWindow(v) && Frame(v) == p
      ensures p in free ==> p !in cache && p !in tablePages && forall v :: InWindow(v) ==> Frame(v) != p
      ensures p in cache ==> p !in tablePages && forall v :: InWindow(v) ==> Frame(v) != p
      ensures p in tablePages ==> forall v :: InWindow(v) ==> Frame(v) != p
      ensures forall v, w :: InWindow(v) && InWindow(w) && Frame(v) == Frame(w) == p ==> v == w
    {
      assert p in place ==> InWindow(place[p]) && Frame(place[p]) == p;
      assert forall v :: InWindow(v) && Frame(v) == p ==> p in place && place[p] == v;
    }

    /** Without tables or pages in use. */
    constructor (free: set<nat>)
      requires 0 !in free
      ensures Balanced({}) && pages == free && forall v :: Frame(v) == 0
    {
      dir, cache, cacheSize, this.free := map[], [], 0, free;
      place, tablePages, pages := map[], {}, free;
    }

    /** get_free_page. */
    method GetFreePage() returns (page: nat)
      requires Conserved({})
      modifies this`free
      ensures page == 0 <==> old(free) == {}
      ensures page == 0 ==> Conserved({}) && free == old(free)
      ensures page != 0 ==> Conserved({page}) && page in old(free) && free == old(free) - {page}
    {
      if free == {} {
        return 0;
      }
      page :| page in free;
      free := free - {page};
    }

    /** pte_alloc_page: the page freed last, or a fresh one when none is cached. */
    method AllocPage() returns (page: nat)
      requires Formed() && Conserved({})
      modifies this`cache, this`cacheSize, this`free
      ensures Formed() && (page == 0 <==> old(cache) == [] && old(free) == {})
      ensures page == 0 ==> Conserved({}) && cache == old(cache) && free == old(free)
      ensures page != 0 ==> Conserved({page})
      ensures if old(cache) != [] then page == old(cache)[0] && cache == old(cache)[1..] && free == old(free)
              else cache == [] && free == old(free) - {page} && (page != 0 ==> page in old(free))
    {
      if cache != [] {
        page := cache[0];
        assert page in cache;
        cacheSize := cacheSize - 1;
        cache := cache[1..];
        assert forall p :: p in old(cache) <==> p in cache || p == page;
      } else {
        page := GetFreePage();
      }
    }

    /** pte_free_cache: onto the cache, or back to the allocator when the cache is full. */
    method FreeCache(page: nat, ghost held: set<nat>)
      requires Formed() && Conserved(held + {page}) && page !in held
      modifies this`cache, this`cacheSize, this`free
      ensures Formed() && Conserved(held)
      ensures if |old(cache)| < 256 then cache == [page] + old(cache) && free == old(free)
              else cache == old(cache) && free == old(free) + {page}
    {
      assert page in held + {page};
      if cacheSize < PTE_CACHE_MAX {
        PrependMembers(cache, page);
        cacheSize := cacheSize + 1;
        cache := [page] + cache;
      } else {
        free := free + {page};
      }
    }

    /** set_pte on the entry of page number `v`. */
    method SetPte(v: nat, page: nat)
      requires Formed() && v / PTRS in dir
      modifies this`dir
      ensures Formed() && Frame(v) == page && SameOutside(old(dir), dir, v, v + 1) && dir.Keys == old(dir).Keys
    {
      var t := dir[v / PTRS];
      dir := dir[v / PTRS := t.(pte := t.pte[v % PTRS := page])];
      forall w: nat | w != v ensures Frame(w) == old(Frame(w)) {
        assert w / PTRS != v / PTRS || w % PTRS != v % PTRS;
      }
    }

    /** pte_free of a present entry: the page goes to the cache and the entry is cleared. */
    method PteFree(v: nat, ghost held: set<nat>)
      requires Balanced(held) && InWindow(v) && Frame(v) != 0
      modifies this`dir, this`cache, this`cacheSize, this`free, this`place
      ensures Balanced(held) && Frame(v) == 0 && SameOutside(old(dir), dir, v, v + 1) && dir.Keys == old(dir).Keys
      ensures if |old(cache)| < PTE_CACHE_MAX then cache == [old(Frame(v))] + old(cache) && free == old(free)
              else cache == old(cache) && free == old(free) + {old(Frame(v))}
    {
      var page := Frame(v);
      assert page in place && page !in held && v / PTRS in dir;
      hide OwnPages, FrameIn, SameOutside, InWindow;
      place := place - {page};
      FreeCache(page, held);
      ghost var was := dir;
      SetPte(v, 0);
      OneLess(was, dir, old(place), v);
    }

    /** A held page fills an empty entry. */
    method Install(v: nat, page: nat)
      requires Balanced({page}) && InWindow(v) && v / PTRS in dir && Frame(v) == 0
      modifies this`dir, this`place
      ensures Balanced({}) && Frame(v) == page != 0 && SameOutside(old(dir), dir, v, v + 1) && dir.Keys == old(dir).Keys
    {
      assert page in {page} && page !in place && page != 0;
      hide OwnPages, FrameIn, SameOutside, InWindow;
      SetPte(v, page);
      OneMore(old(dir), dir, place, v);
      place := place[page := v];
    }

    /** One round of setup_pte's loop: a page of its own for an entry. */
    method SetupEntry(v: nat) returns (err: int)
      requires Balanced({}) && InWindow(v) && v / PTRS in dir
      modifies this
      ensures Balanced({}) && SameOutside(old(dir), dir, v, v + 1) && dir.Keys == old(dir).Keys
      ensures tablePages == old(tablePages)
      ensures |free| + 1 >= |old(free)|
      ensures err == 0 || err == -1
      ensures if err == 0 then AllMapped(dir, v, v + 1)
        else SameOutside(old(dir), dir, v, v) && cache == [] && free == {}
    {
      hide Owned, Conserved, Formed;
      var page := AllocPage();
      if page == 0 {
        return -1;
      }
      ghost var left := free;
      if Frame(v) != 0 {
        PteFree(v, {page});
        SubsetSize(left, free);
      }
      Install(v, page);
      return 0;
    }

    /** pte_alloc: the table of a directory entry, made from a zeroed page when there is none. */
    method PteAlloc(d: nat) returns (err: int)
      requires Balanced({})
      modifies this`dir, this`free, this`tablePages
      ensures Balanced({}) && forall lo :: SameOutside(old(dir), dir, lo, lo)
      ensures |free| + 1 >= |old(free)|
      ensures err == 0 || err == -1
      ensures if err == 0 then dir.Keys == old(dir).Keys + {d} else dir == old(dir) && d !in dir && free == {}
    {
      if d in dir {
        return 0;
      }
      var page := GetFreePage();
      if page == 0 {
        return -1;
      }
      EmptyTable(dir, place, d, page);
      hide OwnPages, SameOutside;
      dir := dir[d := Table(page, seq(PTRS, _ => 0))];
      tablePages := tablePages + {page};
      return 0;
    }

    /** One round of free_pte's loop: an empty entry is skipped. */
    method FreeEntry(v: nat)
      requires Balanced({}) && InWindow(v)
      modifies this
      ensures Balanced({}) && SameOutside(old(dir), dir, v, v + 1) && dir.Keys == old(dir).Keys
      ensures NoneMapped(dir, v, v + 1)
    {
      hide Balanced;
      if Frame(v) != 0 {
        PteFree(v, {});
      }
    }

    // -------------------------------------------------------------- ranges of addresses

    /** setup_pte: fills the entries of one table from `addr` to the end of the range or of the
        table, whichever is first. */
    method SetupPte(addr: nat, size: nat) returns (err: int)
      requires Balanced({}) && addr % PAGE_SIZE == 0 && size % PAGE_SIZE == 0 && size > 0 && addr / PMD_SIZE in dir
      requires forall v: nat :: addr / PAGE_SIZE <= v < TableEnd(addr, size) ==> InWindow(v)
      modifies this
      ensures Balanced({}) && SameOutside(old(dir), dir, addr / PAGE_SIZE, TableEnd(addr, size))
      ensures dir.Keys == old(dir).Keys && (err == 0 || err == -1)
      ensures |free| + TableEnd(addr, size) - addr / PAGE_SIZE >= |old(free)|
      ensures if err == 0 then AllMapped(dir, addr / PAGE_SIZE, TableEnd(addr, size)) else free == {}
    {
      var a := addr % PMD_SIZE;
      var end := Min(a + size, PMD_SIZE);
      ghost var first := addr / PAGE_SIZE;
      var pte := addr / PAGE_SIZE;
      TableSpan(addr, size);
      NoChange(dir, first);
      hide Balanced, FrameIn, InWindow, SameOutside, AllMapped, NoneMapped, TableEnd;
      while a < end
        invariant Balanced({}) && first <= pte && a == addr % PMD_SIZE + (pte - first) * PAGE_SIZE
        invariant pte <= TableEnd(addr, size) && dir.Keys == old(dir).Keys
        invariant SameOutside(old(dir), dir, first, pte) && AllMapped(dir, first, pte)
        invariant |free| + pte - first >= |old(free)|
      {
        ghost var was := dir;
        err := SetupEntry(pte);
        Joined(old(dir), was, dir, first, pte, pte + 1, TableEnd(addr, size));
        if err < 0 {
          return;
        }
        pte := pte + 1;
        a := a + PAGE_SIZE;
      }
      err := 0;
    }

    /** free_pte: empties the entries of one table likewise. */
    method FreePte(addr: nat, size: nat)
      requires Balanced({}) && addr % PAGE_SIZE == 0 && size % PAGE_SIZE == 0 && size > 0
      requires forall v: nat :: addr / PAGE_SIZE <= v < TableEnd(addr, size) ==> InWindow(v)
      modifies this
      ensures Balanced({}) && SameOutside(old(dir), dir, addr / PAGE_SIZE, TableEnd(addr, size))
      ensures dir.Keys == old(dir).Keys && NoneMapped(dir, addr / PAGE_SIZE, TableEnd(addr, size))
    {
      var a := addr % PMD_SIZE;
      var end := Min(a + size, PMD_SIZE);
      ghost var first := addr / PAGE_SIZE;
      var pte := addr / PAGE_SIZE;
      TableSpan(addr, size);
      NoChange(dir, first);
      hide Balanced, FrameIn, InWindow, SameOutside, AllMapped, NoneMapped, TableEnd;
      while a < end
        invariant Balanced({}) && first <= pte && a == addr % PMD_SIZE + (pte - first) * PAGE_SIZE
        invariant pte <= TableEnd(addr, size) && dir.Keys == old(dir).Keys
        invariant SameOutside(old(dir), dir, first, pte) && NoneMapped(dir, first, pte)
      {
        ghost var was := dir;
        FreeEntry(pte);
        Joined(old(dir), was, dir, first, pte, pte + 1, TableEnd(addr, size));
        pte := pte + 1;
        a := a + PAGE_SIZE;
      }
    }

    /** setup_pgd and setup_pmd: a table for each directory entry of the range, then its entries. */
    method SetupPgd(addr: nat, size: nat) returns (err: int)
      requires Balanced({}) && addr % PAGE_SIZE == 0 && size % PAGE_SIZE == 0 && size > 0
      requires forall v: nat :: addr / PAGE_SIZE <= v < (addr + size) / PAGE_SIZE ==> InWindow(v)
      modifies this
      ensures Balanced({}) && SameOutside(old(dir), dir, addr / PAGE_SIZE, (addr + size) / PAGE_SIZE)
      ensures err == 0 || err == -1
      ensures if err == 0 then AllMapped(dir, addr / PAGE_SIZE, (addr + size) / PAGE_SIZE) else free == {}
      ensures |old(free)| > Demand(addr, size) ==> err == 0
    {
      hide Balanced, FrameIn, InWindow, SameOutside, AllMapped, NoneMapped, TableEnd, Lasts, Demand, Upto;
      var a, end, pgd := addr, addr + size, addr / PMD_SIZE;
      ghost var first := addr / PAGE_SIZE;
      NoChange(dir, first);
      LastsFirst(|free|, addr, end);
      UptoEnds(addr, end);
      while a < end
        invariant Balanced({}) && a >= addr && a % PAGE_SIZE == 0 && pgd == a / PMD_SIZE
        invariant SameOutside(old(dir), dir, first, Upto(a, end))
        invariant AllMapped(dir, first, Upto(a, end))
        invariant Lasts(|old(free)|, |free|, addr, Upto(a, end), pgd)
      {
        NextTable(a, end);
        ghost var was, left := dir, |free|;
        err := SetupTable(pgd, a, end - a);
        Joined(old(dir), was, dir, first, a / PAGE_SIZE, TableEnd(a, end - a), end / PAGE_SIZE);
        LastsOn(|old(free)|, left, |free|, addr, a / PAGE_SIZE, TableEnd(a, end - a), pgd, size);
        if err < 0 {
          return;
        }
        a := (a + PMD_SIZE) / PMD_SIZE * PMD_SIZE;
        pgd := pgd + 1;
      }
      err := 0;
    }

    /** setup_pmd, whose one directory entry has the table: pte_alloc and setup_pte. */
    method SetupTable(d: nat, addr: nat, size: nat) returns (err: int)
      requires Balanced({}) && addr % PAGE_SIZE == 0 && size % PAGE_SIZE == 0 && size > 0 && d == addr / PMD_SIZE
      requires forall v: nat :: addr / PAGE_SIZE <= v < TableEnd(addr, size) ==> InWindow(v)
      modifies this
      ensures Balanced({}) && SameOutside(old(dir), dir, addr / PAGE_SIZE, TableEnd(addr, size))
      ensures err == 0 || err == -1
      ensures |free| + TableEnd(addr, size) - addr / PAGE_SIZE + 1 >= |old(free)|
      ensures if err == 0 then AllMapped(dir, addr / PAGE_SIZE, TableEnd(addr, size)) else free == {}
    {
      TableSpan(addr, size);
      ghost var first, last := addr / PAGE_SIZE, TableEnd(addr, size);
      NoChange(dir, first);
      hide Balanced, FrameIn, InWindow, SameOutside, AllMapped, NoneMapped, TableEnd;
      err := PteAlloc(d);
      ghost var was := dir;
      NoChange(was, first);
      Joined(old(dir), was, dir, first, first, first, last);
      if err < 0 {
        return;
      }
      err := SetupPte(addr, size);
      Joined(old(dir), was, dir, first, first, last, last);
    }

    /** free_pgd and free_pmd: directory entries without a table are skipped. */
    method FreePgd(addr: nat, size: nat)
      requires Balanced({}) && addr % PAGE_SIZE == 0 && size % PAGE_SIZE == 0 && size > 0
      requires forall v: nat :: addr / PAGE_SIZE <= v < (addr + size) / PAGE_SIZE ==> InWindow(v)
      modifies this
      ensures Balanced({}) && SameOutside(old(dir), dir, addr / PAGE_SIZE, (addr + size) / PAGE_SIZE)
      ensures NoneMapped(dir, addr / PAGE_SIZE, (addr + size) / PAGE_SIZE) && dir.Keys == old(dir).Keys
    {
      var a, end, pgd := addr, addr + size, addr / PMD_SIZE;
      ghost var first := addr / PAGE_SIZE;
      NoChange(dir, first);
      hide Balanced, FrameIn, InWindow, SameOutside, AllMapped, NoneMapped, TableEnd;
      while a < end
        invariant Balanced({}) && a >= addr && a % PAGE_SIZE == 0 && pgd == a / PMD_SIZE && dir.Keys == old(dir).Keys
        invariant SameOutside(old(dir), dir, first, Upto(a, end))
        invariant NoneMapped(dir, first, Upto(a, end))
      {
        NextTable(a, end);
        ghost var was := dir;
        FreeTable(pgd, a, end - a);
        Joined(old(dir), was, dir, first, a / PAGE_SIZE, TableEnd(a, end - a), end / PAGE_SIZE);
        a := (a + PMD_SIZE) / PMD_SIZE * PMD_SIZE;
        pgd := pgd + 1;
      }
    }

    /** free_pmd, whose one directory entry has the table. */
    method FreeTable(d: nat, addr: nat, size: nat)
      requires Balanced({}) && addr % PAGE_SIZE == 0 && size % PAGE_SIZE == 0 && size > 0 && d == addr / PMD_SIZE
      requires forall v: nat :: addr / PAGE_SIZE <= v < TableEnd(addr, size) ==> InWindow(v)
      modifies this
      ensures Balanced({}) && SameOutside(old(dir), dir, addr / PAGE_SIZE, TableEnd(addr, size))
      ensures NoneMapped(dir, addr / PAGE_SIZE, TableEnd(addr, size)) && dir.Keys == old(dir).Keys
    {
      TableSpan(addr, size);
      if d in dir {
        FreePte(addr, size);
      }
    }
  }

  /** Pages that mapping a range can take: its own, and a table for each directory entry. */
  function Demand(addr: nat, size: nat): nat {
    (addr + size) / PAGE_SIZE - addr / PAGE_SIZE + (addr + size - 1) / PMD_SIZE - addr / PMD_SIZE + 1
  }

  /** Of `start` pages `now` are left at least, but for one per page number and one per directory
      entry done so far. */
  ghost predicate Lasts(start: nat, now: nat, addr: nat, at: nat, pgd: nat) {
    pgd >= addr / PMD_SIZE && at >= addr / PAGE_SIZE && now + (at - addr / PAGE_SIZE) + (pgd - addr / PMD_SIZE) >= start
  }

  lemma LastsFirst(start: nat, addr: nat, end: nat)
    requires addr <= end
    ensures Lasts(start, start, addr, Upto(addr, end), addr / PMD_SIZE)
  {
  }

  lemma LastsOn(start: nat, now: nat, next: nat, addr: nat, at: nat, upto: nat, pgd: nat, size: nat)
    requires Lasts(start, now, addr, at, pgd) && at <= upto && next + (upto - at) + 1 >= now
    ensures Lasts(start, next, addr, upto, pgd + 1)
    ensures next == 0 && upto <= (addr + size) / PAGE_SIZE && pgd <= (addr + size - 1) / PMD_SIZE ==>
      start <= Demand(addr, size)
  {
  }

  /** The page number where setup_pte stops. */
  function TableEnd(addr: nat, size: nat): nat {
    addr / PAGE_SIZE + (Min(addr % PMD_SIZE + size, PMD_SIZE) - addr % PMD_SIZE) / PAGE_SIZE
  }

  /** The entries up to there are in the table of the address. */
  lemma TableSpan(addr: nat, size: nat)
    requires addr % PAGE_SIZE == 0 && size % PAGE_SIZE == 0
    ensures forall v: nat :: addr / PAGE_SIZE <= v < TableEnd(addr, size) ==> v / PTRS == addr / PMD_SIZE
    ensures addr % PMD_SIZE + (TableEnd(addr, size) - addr / PAGE_SIZE) * PAGE_SIZE
      == Min(addr % PMD_SIZE + size, PMD_SIZE)
  {
    var p := addr / PAGE_SIZE;
    assert addr == p * PAGE_SIZE && PMD_SIZE == PTRS * PAGE_SIZE;
    assert p / PTRS == addr / PMD_SIZE && addr % PMD_SIZE == (p % PTRS) * PAGE_SIZE;
  }

  /** The page number a walk to `end` has come to when it stands at `a`. */
  function Upto(a: nat, end: nat): nat {
    Min(a, end) / PAGE_SIZE
  }

  lemma UptoEnds(addr: nat, end: nat)
    requires addr <= end
    ensures Upto(addr, end) == addr / PAGE_SIZE && forall x: nat :: x >= end ==> Upto(x, end) == end / PAGE_SIZE
  {
  }

  /** From one table to the next. */
  lemma NextTable(a: nat, end: nat)
    requires a < end && a % PAGE_SIZE == 0 && end % PAGE_SIZE == 0
    ensures TableEnd(a, end - a) == Upto((a + PMD_SIZE) / PMD_SIZE * PMD_SIZE, end)
    ensures ((a + PMD_SIZE) / PMD_SIZE * PMD_SIZE) % PAGE_SIZE == 0
    ensures a / PAGE_SIZE < TableEnd(a, end - a) <= end / PAGE_SIZE
    ensures (end - a) % PAGE_SIZE == 0 && (a + PMD_SIZE) / PMD_SIZE * PMD_SIZE / PMD_SIZE == a / PMD_SIZE + 1
    ensures (a + PMD_SIZE) / PMD_SIZE * PMD_SIZE > a && Upto(a, end) == a / PAGE_SIZE
  {
    var p, e, d := a / PAGE_SIZE, end / PAGE_SIZE, a / PMD_SIZE;
    assert a == p * PAGE_SIZE && end == e * PAGE_SIZE && p < e;
    assert (a + PMD_SIZE) / PMD_SIZE == d + 1;
    InTable(p, d);
    var next := (d + 1) * PTRS;
    assert (a + PMD_SIZE) / PMD_SIZE * PMD_SIZE == next * PAGE_SIZE;
    Smaller(e - p, next - p);
    Smaller(next, e);
    assert Min(a % PMD_SIZE + (end - a), PMD_SIZE) - a % PMD_SIZE == Min((e - p) * PAGE_SIZE, (next - p) * PAGE_SIZE);
  }

  lemma Smaller(x: nat, y: nat)
    ensures Min(x * PAGE_SIZE, y * PAGE_SIZE) == Min(x, y) * PAGE_SIZE
    ensures Min(x * PAGE_SIZE, y * PAGE_SIZE) / PAGE_SIZE == Min(x, y)
  {
  }

  lemma InTable(p: nat, d: nat)
    requires d == p * PAGE_SIZE / PMD_SIZE
    ensures (p * PAGE_SIZE) % PMD_SIZE == (p - d * PTRS) * PAGE_SIZE && d * PTRS <= p < (d + 1) * PTRS
  {
    assert PMD_SIZE == PTRS * PAGE_SIZE;
  }
}
