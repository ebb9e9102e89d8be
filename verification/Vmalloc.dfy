/** arch-i386/kernel/vmalloc.c: regions of the vmalloc window, kept sorted on a linked list, and
    the pages mapped there. */
module Vmalloc {

  import opened Common
  import opened DList
  import opened PageTables

  const VMALLOC_RESERVE := 128 * 0x10_0000
  const WORD := 0x1_0000_0000

  /** Sum of two unsigned longs. */
  function Add(a: nat, b: nat): nat {
    (a + b) % WORD
  }

  class Area {
    var next: Area?
    const addr: nat
    const size: nat      // payload and guard page

    constructor (addr: nat, size: nat)
      ensures this.addr == addr && this.size == size && next == null
    {
      this.addr, this.size := addr, size;
      next := null;
    }
  }

  function At(areas: seq<Area>, k: nat): Area? {
    if k < |areas| then areas[k] else null
  }

  ghost predicate Follows(areas: seq<Area>, k: nat)
    requires k < |areas|
    reads areas[k]
  {
    areas[k].next == At(areas, k + 1)
  }

  /** Following `next` from `head` meets exactly these areas. */
  ghost predicate Listed(head: Area?, areas: seq<Area>)
    reads areas
  {
    && head == At(areas, 0)
    && (forall i, j :: 0 <= i < j < |areas| ==> areas[i] != areas[j])
    && forall k :: 0 <= k < |areas| ==> Follows(areas, k)
  }

  predicate Proper(x: Area) {
    && VMALLOC_START_ADDR <= x.addr && x.addr + x.size <= VMALLOC_END
    && x.addr % PAGE_SIZE == 0 && x.size % PAGE_SIZE == 0 && x.size >= PAGE_SIZE
  }

  /** Areas are in the window, whole pages, and follow one another without overlap. */
  ghost predicate Sorted(areas: seq<Area>) {
    && (forall k :: 0 <= k < |areas| ==> Proper(areas[k]))
    && forall i, j :: 0 <= i < j < |areas| ==> areas[i].addr + areas[i].size <= areas[j].addr
  }

  /** A place where a region of the size could go. */
  ghost predicate Fits(areas: seq<Area>, a: nat, size: nat) {
    && VMALLOC_START_ADDR <= a && a + size <= VMALLOC_END
    && forall k :: 0 <= k < |areas| ==> a + size <= areas[k].addr || areas[k].addr + areas[k].size <= a
  }

  /** Where the gap before the area at `k`, or behind the last one, starts. */
  function Start(areas: seq<Area>, k: nat): nat
    requires k <= |areas|
  {
    if k == 0 then VMALLOC_START_ADDR else areas[k - 1].addr + areas[k - 1].size
  }

  /** The search gets past these areas: no gap before them holds the size, and behind none of them
      does the window end. */
  ghost predicate Passed(areas: seq<Area>, k: nat, need: nat)
    requires k <= |areas|
  {
    && (forall i :: 0 <= i < k ==> Start(areas, i) + need > areas[i].addr)
    && forall i :: 0 < i < k ==> Start(areas, i) + need <= VMALLOC_END
  }

  /** It gets to a place where the sum wraps, or to the end of an empty list. */
  ghost predicate OverrunAt(areas: seq<Area>, k: nat, need: nat)
    requires k <= |areas|
  {
    && Passed(areas, k, need)
    && if k == 0 then areas == [] && Start(areas, 0) + need > VMALLOC_END else Start(areas, k) + need >= WORD
  }

  ghost predicate OverrunsWith(areas: seq<Area>, need: nat) {
    exists k :: 0 <= k <= |areas| && OverrunAt(areas, k, need)
  }

  /** The search hands out a region that does not fit. */
  ghost predicate Overruns(areas: seq<Area>, payload: nat) {
    payload <= VMALLOC_RESERVE && OverrunsWith(areas, payload + PAGE_SIZE)
  }

  ghost predicate NoneBelow(areas: seq<Area>, bound: nat, size: nat) {
    forall a: nat | a < bound :: !Fits(areas, a, size)
  }

  /** The page number belongs to some area's payload. */
  ghost predicate Payload(areas: seq<Area>, v: nat) {
    exists k :: 0 <= k < |areas| && Within(areas[k], v)
  }

  predicate Within(x: Area, v: nat) {
    x.size >= PAGE_SIZE && x.addr / PAGE_SIZE <= v < (x.addr + Walked(x.size - PAGE_SIZE)) / PAGE_SIZE
  }

  /** The bytes a walk of the page tables goes over. Its loops test at the end, so that one page is
      done even when there is no payload, and then the guard page is mapped. */
  function Walked(payload: nat): nat {
    if payload == 0 then PAGE_SIZE else payload
  }

  class Space {
    var head: Area?
    const tables: Tables
    ghost var areas: seq<Area>

    constructor (tables: Tables)
      ensures Ordered() && areas == [] && this.tables == tables
    {
      head, areas, this.tables := null, [], tables;
    }

    ghost predicate Ordered()
      reads this, areas
    {
      Listed(head, areas) && Sorted(areas)
    }

    /** The payloads of the areas, and nothing else of the window, are mapped. */
    ghost predicate Valid()
      reads this, tables, areas
    {
      Ordered() && tables.Balanced({}) && MapsExactly(tables.dir, areas)
    }

    /** vmalloc: either maps a page of its own behind every page of a new region, the first that
        fits, and changes no other translation, or changes no translation and no region at all. */
    method Alloc(size: nat, memory: bool) returns (addr: nat, ghost k: nat)
      requires Valid() && size < WORD
      requires size > 0 && memory ==> !Overruns(areas, PageAlign(size))
      modifies this, areas, tables
      ensures Valid()
      ensures var payload := PageAlign(size);
        addr == 0 && memory && 0 < size && payload <= 128 * 0x10_0000
        && |old(tables.free)| > Walked(payload) / 4096 + Walked(payload) / 0x40_0000 + 2 ==>
        NoneBelow(areas, VMALLOC_END, PageAlign(size) + PAGE_SIZE)
      ensures addr == 0 ==> areas == old(areas) && SameOutside(old(tables.dir), tables.dir, 0, 0)
      ensures addr != 0 ==> NewRegion(old(areas), areas, k, addr, PageAlign(size), old(tables.dir), tables.dir)
    {
      hide SameOutside, MapsExactly, Listed, Sorted, NewRegion, PageAlign, Paged, Ample, NoneBelow, Tables.Balanced;
      addr, k := 0, 0;
      AmpleIs(|tables.free|, PageAlign(size));
      Aligned(size);
      NoChange(tables.dir, 0);
      if size == 0 {
        return;
      }
      addr, k := AllocPages(PageAlign(size), memory);
    }

    /** vmalloc of whole pages. */
    method AllocPages(payload: nat, memory: bool) returns (addr: nat, ghost k: nat)
      requires Valid() && Paged(payload) && payload < WORD
      requires memory ==> !Overruns(areas, payload)
      modifies this, areas, tables
      ensures Valid()
      ensures addr == 0 && memory && payload <= VMALLOC_RESERVE && Ample(|old(tables.free)|, payload) ==>
        NoneBelow(areas, VMALLOC_END, payload + PAGE_SIZE)
      ensures addr == 0 ==> areas == old(areas) && SameOutside(old(tables.dir), tables.dir, 0, 0)
      ensures addr != 0 ==> NewRegion(old(areas), areas, k, addr, payload, old(tables.dir), tables.dir)
    {
      hide Fits, NoneBelow, SameOutside, AllMapped, MapsExactly, Listed, Sorted, Inserted, Paged, Tables.Balanced;
      hide Demand, Ample;
      NoChange(tables.dir, 0);
      addr := 0;
      var ptr;
      ptr, k := GetVmallocAddr(payload, memory);
      if ptr == null {
        return;
      }
      NewArea(old(areas), k, ptr);
      AmpleDemand(|tables.free|, ptr.addr, payload);
      var ok := Populate(ptr, payload, old(areas), k);
      if ok {
        addr := ptr.addr;
      }
    }

    /** The page tables of a new area, or its removal when there are not enough pages. */
    method Populate(ptr: Area, payload: nat, ghost before: seq<Area>, ghost k: nat) returns (ok: bool)
      requires Ordered() && tables.Balanced({}) && MapsExactly(tables.dir, before) && Sorted(before)
      requires k <= |before| && areas == Inserted(before, k, ptr)
      requires Paged(payload) && ptr.size == payload + PAGE_SIZE && Fits(before, ptr.addr, ptr.size)
      modifies this, areas, tables
      ensures Valid()
      ensures !ok ==> areas == before && SameOutside(old(tables.dir), tables.dir, 0, 0)
      ensures |old(tables.free)| > Demand(ptr.addr, Walked(payload)) ==> ok
      ensures ok ==>
        areas == old(areas)
        && SameOutside(old(tables.dir), tables.dir, ptr.addr / PAGE_SIZE, (ptr.addr + Walked(payload)) / PAGE_SIZE)
      ensures ok ==> AllMapped(tables.dir, ptr.addr / PAGE_SIZE, (ptr.addr + Walked(payload)) / PAGE_SIZE)
    {
      hide Fits, SameOutside, AllMapped, NoneMapped, MapsExactly, Listed, Sorted, Inserted, Removed, Demand;
      ghost var all := areas;
      NewArea(before, k, ptr);
      AreaPages(all, k);
      GapPages(tables.dir, before, ptr.addr, payload);
      var err := tables.SetupPgd(ptr.addr, Walked(payload));
      if err < 0 {
        ghost var between := tables.dir;
        tables.FreePgd(ptr.addr, Walked(payload));
        Undone(old(tables.dir), between, tables.dir, before, ptr.addr / PAGE_SIZE,
          (ptr.addr + Walked(payload)) / PAGE_SIZE);
        ghost var j;
        var search;
        search, j := SearchVmalloc(ptr.addr);
        OneArea(all, j, k, before);
        return false;
      }
      Mapped(old(tables.dir), tables.dir, before, k, ptr, payload);
      ok := true;
    }

    /** vfree: unmaps the payload of the region that starts at the address, and only that. */
    method Free(addr: nat) returns (address: nat, ghost k: nat)
      requires Valid()
      modifies this, areas, tables
      ensures Valid()
      ensures address == 0 ==> areas == old(areas) && tables.dir == old(tables.dir) && forall k :: 0 <= k < |areas| ==>
        areas[k].addr != addr
      ensures address != 0 ==> address == addr && FreedAt(old(areas), areas, k, addr, old(tables.dir), tables.dir)
    {
      address, k := 0, 0;
      hide SameOutside, AllMapped, NoneMapped, MapsExactly, Listed, Sorted, FreedAt, Removed, Tables.Balanced;
      if addr == 0 {
        NoNull(areas);
        return;
      }
      var ptr;
      ptr, k := SearchVmalloc(addr);
      if ptr == null {
        return;
      }
      Depopulate(ptr, old(areas), k);
      address := addr;
    }

    /** The page tables of an area that has left the list. */
    method Depopulate(ptr: Area, ghost before: seq<Area>, ghost k: nat)
      requires Ordered() && tables.Balanced({}) && MapsExactly(tables.dir, before) && Sorted(before)
      requires k < |before| && ptr == before[k] && areas == Removed(before, k)
      modifies tables
      ensures Valid() && FreedAt(before, areas, k, ptr.addr, old(tables.dir), tables.dir)
    {
      hide SameOutside, NoneMapped, MapsExactly, Listed, Sorted, FreedAt, Removed;
      AreaPages(before, k);
      tables.FreePgd(ptr.addr, Walked(ptr.size - PAGE_SIZE));
      Unmapped(old(tables.dir), tables.dir, before, k);
    }

    /** The search of get_vmalloc_addr: the first gap that holds `need` bytes, and the area
        before it, none at the head of the list. What it finds is a gap unless it overruns. */
    method FindGap(need: nat) returns (found: bool, addr: nat, before: Area?, ghost k: nat)
      requires Ordered() && PAGE_SIZE <= need <= VMALLOC_RESERVE + PAGE_SIZE
      ensures !found ==> NoneBelow(areas, VMALLOC_END, need) && !OverrunsWith(areas, need)
      ensures found ==> k <= |areas| && before == (if k == 0 then null else areas[k - 1]) && addr == Start(areas, k)
      ensures found ==> NoneBelow(areas, addr, need)
      ensures found ==> if OverrunsWith(areas, need) then OverrunAt(areas, k, need) else GapAt(areas, k, addr, need)
    {
      hide Listed, Sorted, NoneBelow, Add, Start, OverrunsWith, OverrunAt, GapAt, Searched;
      addr, before, k := VMALLOC_START_ADDR, null, 0;
      var ptr := head;
      NextListed(0);
      Begin(areas, need);
      while ptr != null
        invariant 0 <= k <= |areas| && ptr == At(areas, k) && before == (if k == 0 then null else areas[k - 1])
        invariant Ordered() && NoneBelow(areas, addr, need) && Searched(areas, k, addr, need)
        decreases |areas| - k
      {
        Round(areas, k, addr, need);
        if Add(addr, need) <= ptr.addr {
          break;
        }
        addr := Add(ptr.addr, ptr.size);
        if Add(addr, need) > VMALLOC_END {
          return false, addr, before, k;
        }
        NextListed(k);
        before, ptr, k := ptr, ptr.next, k + 1;
      }
      Decided(areas, k, addr, need);
      found := true;
    }

    lemma NextListed(k: nat)
      requires Listed(head, areas)
      ensures head == At(areas, 0) && (k < |areas| ==> areas[k].next == At(areas, k + 1))
    {
      assert k < |areas| ==> Follows(areas, k);
    }

    /** get_vmalloc_addr: the first gap that holds the size and a guard page. The list stays sorted if
        and only if the search does not overrun. */
    method GetVmallocAddr(size: nat, memory: bool) returns (next: Area?, ghost k: nat)
      requires Ordered() && Paged(size) && size < WORD
      modifies this, areas
      ensures Listed(head, areas) && (next == null ==> areas == old(areas))
      ensures Sorted(areas) <==> next == null || !Overruns(old(areas), size)
      ensures next == null && memory && size <= VMALLOC_RESERVE ==>
        NoneBelow(areas, VMALLOC_END, size + PAGE_SIZE) && !Overruns(areas, size)
      ensures next != null ==> memory && size <= VMALLOC_RESERVE && next.size == size + PAGE_SIZE && fresh(next)
      ensures next != null ==>
        k <= |old(areas)| && areas == Inserted<Area>(old(areas), k, next) && next.addr == Start(old(areas), k)
      ensures forall i :: 0 <= i < |areas| ==> areas[i] in old(areas) || fresh(areas[i])
      ensures next != null ==> NoneBelow(old(areas), next.addr, next.size)
      ensures next != null && Overruns(old(areas), size) ==> OverrunAt(old(areas), k, next.size)
      ensures next != null && !Overruns(old(areas), size) ==> Fits(old(areas), next.addr, next.size) && next.addr > 0
    {
      next, k := null, 0;
      if size > VMALLOC_RESERVE {
        return;
      }
      hide NoneBelow, Fits, Proper, Add, Listed, Sorted, GapAt, Paged, Inserted, Start, OverrunsWith, OverrunAt;
      GuardPage(size);
      var need := Add(size, PAGE_SIZE);
      var found, addr, before;
      found, addr, before, k := FindGap(need);
      if !found || !memory {
        return;
      }
      Placed(areas, k, addr, need);
      next := Enter(addr, need, before, k);
    }

    /** A new area in the gap. */
    method Enter(addr: nat, need: nat, before: Area?, ghost k: nat) returns (x: Area)
      requires Ordered() && k <= |areas| && addr == Start(areas, k)
      requires before == (if k == 0 then null else areas[k - 1])
      requires Paged(need) && need >= PAGE_SIZE
      modifies this`head, this`areas, areas
      ensures Listed(head, areas) && fresh(x) && x.addr == addr && x.size == need
      ensures areas == Inserted(old(areas), k, x)
      ensures Sorted(areas) <==> GapAt(old(areas), k, addr, need)
      ensures forall i :: 0 <= i < |areas| ==> areas[i] in old(areas) || fresh(areas[i])
    {
      hide Proper, Listed, Sorted, GapAt, Paged, Inserted, Start;
      x := new Area(addr, need);
      InsertSorted(areas, k, x);
      NewArea(areas, k, x);
      Link(x, before, k);
    }

    /** search_vmalloc: unlinks the area that starts at the address. */
    method SearchVmalloc(addr: nat) returns (found: Area?, ghost k: nat)
      requires Ordered()
      modifies this, areas
      ensures Ordered()
      ensures found == null ==> areas == old(areas) && forall j :: 0 <= j < |areas| ==> areas[j].addr != addr
      ensures found != null ==>
        k < |old(areas)| && found == old(areas)[k] && found.addr == addr && areas == Removed(old(areas), k)
    {
      var before: Area? := null;
      found, k := head, 0;
      while found != null
        invariant 0 <= k <= |areas| && found == At(areas, k) && before == if k == 0 then null else areas[k - 1]
        invariant Ordered() && areas == old(areas)
        invariant forall j :: 0 <= j < k ==> areas[j].addr != addr
        decreases |areas| - k
      {
        hide Sorted;
        if found.addr == addr {
          RemoveSorted(areas, k);
          Unlink(found, before, k);
          return;
        }
        assert Follows(areas, k);
        before, found, k := found, found.next, k + 1;
      }
    }

    /** Takes the area at `k` off the list. */
    method Unlink(ptr: Area, before: Area?, ghost k: nat)
      requires Listed(head, areas) && k < |areas| && ptr == areas[k]
      requires before == (if k == 0 then null else areas[k - 1])
      modifies this, areas
      ensures areas == Removed(old(areas), k) && Listed(head, areas)
    {
      assert Follows(areas, k);
      if before == null {
        head := ptr.next;
      } else {
        before.next := ptr.next;
      }
      areas := Removed(areas, k);
      forall i | 0 <= i < |areas| ensures Follows(areas, i) {
        if i < k { assert old(Follows(areas, i)); } else { assert old(Follows(areas, i + 1)); }
      }
    }

    /** Links a new area between the one at `k` and the one before it. */
    method Link(next: Area, before: Area?, ghost k: nat)
      requires Listed(head, areas) && k <= |areas| && before == (if k == 0 then null else areas[k - 1])
      requires next !in areas
      modifies this`head, this`areas, areas, next
      ensures areas == Inserted<Area>(old(areas), k, next) && Listed(head, areas)
    {
      if before == null {
        next.next := head;
        head := next;
        areas := [next] + areas;
        assert areas == Inserted(old(areas), 0, next);
        forall i | 0 <= i < |areas| ensures Follows(areas, i) {
          if i > 0 { assert old(Follows(areas, i - 1)); }
        }
      } else {
        LinkAfter(next, before, k);
      }
    }

    /** The same after an area of the list. */
    method LinkAfter(next: Area, before: Area, ghost k: nat)
      requires Listed(head, areas) && 0 < k <= |areas| && before == areas[k - 1] && next !in areas
      modifies this`areas, before, next
      ensures areas == Inserted<Area>(old(areas), k, next) && Listed(head, areas)
    {
      assert Follows(areas, k - 1);
      next.next := before.next;
      before.next := next;
      areas := Inserted(areas, k, next);
      InsertFollows(old(areas), k, next);
      forall i | 0 <= i < |areas| ensures Follows(areas, i) {
        if i < k { assert old(Follows(areas, i)); } else if i > k { assert old(Follows(areas, i - 1)); }
      }
    }
  }

  lemma InsertFollows(areas: seq<Area>, k: nat, x: Area)
    requires k <= |areas| && x !in areas && forall i, j :: 0 <= i < j < |areas| ==> areas[i] != areas[j]
    ensures forall i, j :: 0 <= i < j < |Inserted(areas, k, x)| ==> Inserted(areas, k, x)[i] != Inserted(areas, k, x)[j]
  {
  }

  lemma RemoveSorted(areas: seq<Area>, k: nat)
    requires Sorted(areas) && k < |areas|
    ensures Sorted(Removed(areas, k))
  {
  }

  predicate Paged(n: nat) {
    n % PAGE_SIZE == 0
  }

  lemma GuardPage(size: nat)
    requires Paged(size)
    ensures Paged(size + PAGE_SIZE)
    ensures size <= VMALLOC_RESERVE ==> Add(size, PAGE_SIZE) == size + PAGE_SIZE
  {
  }

  /** How far the search has come: where it has got to does not lie between the window's end and 2^32. */
  ghost predicate Searched(areas: seq<Area>, k: nat, addr: nat, need: nat)
    requires k <= |areas|
  {
    && Passed(areas, k, need) && addr == Start(areas, k) && VMALLOC_START_ADDR <= addr <= VMALLOC_END
    && (k > 0 ==> addr + need <= VMALLOC_END || addr + need >= WORD)
  }

  lemma Begin(areas: seq<Area>, need: nat)
    ensures Searched(areas, 0, VMALLOC_START_ADDR, need) && NoneBelow(areas, VMALLOC_START_ADDR, need)
  {
  }

  /** One round of the search. */
  lemma Round(areas: seq<Area>, k: nat, addr: nat, need: nat)
    requires Sorted(areas) && k < |areas| && Searched(areas, k, addr, need) && NoneBelow(areas, addr, need)
    requires PAGE_SIZE <= need <= VMALLOC_RESERVE + PAGE_SIZE
    ensures if Add(addr, need) <= areas[k].addr then addr + need <= areas[k].addr || addr + need >= WORD
      else
        var next := Add(areas[k].addr, areas[k].size);
        if Add(next, need) > VMALLOC_END then NoneBelow(areas, VMALLOC_END, need) && !OverrunsWith(areas, need)
        else NoneBelow(areas, next, need) && Searched(areas, k + 1, next, need)
  {
    Sums(areas, k, addr, need);
    if Add(addr, need) > areas[k].addr {
      NoGap(areas, k, addr, need);
      var next := Add(areas[k].addr, areas[k].size);
      hide Add, NoneBelow, Passed, OverrunsWith, Start, Sorted;
      if Add(next, need) > VMALLOC_END {
        NoTail(areas, next, need);
        NotOver(areas, k + 1, need);
      }
    }
  }

  /** The sums of one round: a sum that wraps is below every area. */
  lemma Sums(areas: seq<Area>, k: nat, addr: nat, need: nat)
    requires Sorted(areas) && k < |areas| && Searched(areas, k, addr, need) && need <= VMALLOC_RESERVE + PAGE_SIZE
    ensures Add(addr, need) <= areas[k].addr <==> addr + need <= areas[k].addr || addr + need >= WORD
    ensures Add(areas[k].addr, areas[k].size) == Start(areas, k + 1) <= VMALLOC_END
    ensures Start(areas, k + 1) >= VMALLOC_START_ADDR
    ensures var next := Start(areas, k + 1);
      Add(next, need) > VMALLOC_END <==> VMALLOC_END < next + need < WORD
  {
    assert Proper(areas[k]);
    Sum(addr, need);
    Sum(areas[k].addr, areas[k].size);
    Sum(Start(areas, k + 1), need);
    hide Add, Passed;
  }

  lemma Sum(a: nat, b: nat)
    requires a + b < 2 * WORD
    ensures Add(a, b) == if a + b < 0x1_0000_0000 then a + b else a + b - 0x1_0000_0000
  {
  }

  lemma NoGap(areas: seq<Area>, k: nat, addr: nat, need: nat)
    requires Sorted(areas) && k < |areas| && areas[k].addr < addr + need < WORD && need > 0
    requires Searched(areas, k, addr, need) && NoneBelow(areas, addr, need)
    ensures NoneBelow(areas, Start(areas, k + 1), need) && Passed(areas, k + 1, need)
  {
  }

  lemma NoTail(areas: seq<Area>, addr: nat, need: nat)
    requires addr + need > VMALLOC_END && NoneBelow(areas, addr, need)
    ensures NoneBelow(areas, VMALLOC_END, need)
  {
  }

  /** The search overruns exactly if it does so where it stops. */
  lemma Decided(areas: seq<Area>, k: nat, addr: nat, need: nat)
    requires k <= |areas| && PAGE_SIZE <= need <= VMALLOC_RESERVE + PAGE_SIZE && Searched(areas, k, addr, need)
    requires k == |areas| || addr + need <= areas[k].addr || addr + need >= WORD
    ensures addr == Start(areas, k)
    ensures if OverrunsWith(areas, need) then OverrunAt(areas, k, need) else GapAt(areas, k, addr, need)
  {
    assert OverrunAt(areas, k, need) || GapAt(areas, k, addr, need);
    if j :| 0 <= j <= |areas| && OverrunAt(areas, j, need) {
      assert j == k;
    }
  }

  lemma NotOver(areas: seq<Area>, k: nat, need: nat)
    requires 0 < k <= |areas| && Passed(areas, k, need) && VMALLOC_END < Start(areas, k) + need < WORD
    ensures !OverrunsWith(areas, need)
  {
  }

  /** The gap before the area at `k` starts at `addr` and holds `need` bytes. */
  ghost predicate GapAt(areas: seq<Area>, k: nat, addr: nat, need: nat)
    requires k <= |areas|
  {
    && addr == Start(areas, k)
    && if k < |areas| then addr + need <= areas[k].addr else addr + need <= VMALLOC_END
  }

  /** What the search has found, and what it means. */
  lemma Placed(areas: seq<Area>, k: nat, addr: nat, need: nat)
    requires Sorted(areas) && k <= |areas| && addr == Start(areas, k) && need >= PAGE_SIZE
    ensures GapAt(areas, k, addr, need) ==> Fits(areas, addr, need) && addr > 0
    ensures OverrunAt(areas, k, need) ==> !GapAt(areas, k, addr, need)
  {
    assert k < |areas| ==> Proper(areas[k]);
  }

  lemma GapProper(areas: seq<Area>, k: nat, x: Area)
    requires Sorted(areas) && k <= |areas| && GapAt(areas, k, x.addr, x.size)
    requires Paged(x.size) && x.size >= PAGE_SIZE
    ensures Proper(x)
  {
    if k > 0 { assert Proper(areas[k - 1]); }
  }

  lemma InsertSorted(areas: seq<Area>, k: nat, x: Area)
    requires Sorted(areas) && k <= |areas| && x.addr == Start(areas, k)
    requires Paged(x.size) && x.size >= PAGE_SIZE
    ensures Sorted(Inserted(areas, k, x)) <==> GapAt(areas, k, x.addr, x.size)
  {
    var t := Inserted(areas, k, x);
    if GapAt(areas, k, x.addr, x.size) {
      GapSorted(areas, k, x);
    }
    if Sorted(t) {
      InsertedAt(areas, k, x, k);
      assert Proper(t[k]);
      if k < |areas| {
        InsertedAt(areas, k, x, k + 1);
        assert t[k].addr + t[k].size <= t[k + 1].addr;
      }
    }
  }

  lemma GapSorted(areas: seq<Area>, k: nat, x: Area)
    requires Sorted(areas) && k <= |areas| && GapAt(areas, k, x.addr, x.size)
    requires Paged(x.size) && x.size >= PAGE_SIZE
    ensures Sorted(Inserted(areas, k, x))
  {
    GapProper(areas, k, x);
    assert forall i :: 0 <= i < k ==> areas[i].addr + areas[i].size <= x.addr;
    assert forall i :: k <= i < |areas| ==> x.addr + x.size <= areas[i].addr;
    hide Proper, Fits, GapAt, Inserted, Paged;
    InsertOrdered(areas, k, x);
    var t := Inserted(areas, k, x);
    forall i | 0 <= i < |t| ensures Proper(t[i]) {
      InsertedAt(areas, k, x, i);
    }
  }

  lemma InsertedAt(areas: seq<Area>, k: nat, x: Area, i: nat)
    requires k <= |areas| && i <= |areas|
    ensures var t := Inserted(areas, k, x);
      |t| == |areas| + 1 && t[i] == if i < k then areas[i] else if i == k then x else areas[i - 1]
  {
  }

  lemma InsertOrdered(areas: seq<Area>, k: nat, x: Area)
    requires k <= |areas| && forall i, j :: 0 <= i < j < |areas| ==> areas[i].addr + areas[i].size <= areas[j].addr
    requires forall i :: 0 <= i < k ==> areas[i].addr + areas[i].size <= x.addr
    requires forall i :: k <= i < |areas| ==> x.addr + x.size <= areas[i].addr
    ensures var t := Inserted(areas, k, x);
      |t| == |areas| + 1 && forall i, j :: 0 <= i < j < |t| ==> t[i].addr + t[i].size <= t[j].addr
  {
    var t := Inserted(areas, k, x);
    forall i, j | 0 <= i < j < |t| ensures t[i].addr + t[i].size <= t[j].addr {
      InsertedAt(areas, k, x, i);
      InsertedAt(areas, k, x, j);
    }
  }

  // ---------------------------------------------------------------- areas and translations

  /** PAGE_ALIGN on an unsigned long: within a page of 2^32 the sum wraps, and the result is 0. */
  function PageAlign(size: nat): nat {
    Add(size, PAGE_SIZE - 1) / PAGE_SIZE * PAGE_SIZE
  }

  /** More pages than a payload can take, wherever it is: its own, and its tables. */
  predicate Ample(free: nat, payload: nat) {
    free > Walked(payload) / PAGE_SIZE + Walked(payload) / PMD_SIZE + 2
  }

  lemma AmpleIs(free: nat, payload: nat)
    ensures Ample(free, payload) <==> free > Walked(payload) / 4096 + Walked(payload) / 0x40_0000 + 2
  {
  }

  lemma AmpleDemand(free: nat, addr: nat, payload: nat)
    requires Paged(payload)
    ensures Ample(free, payload) ==> free > Demand(addr, Walked(payload))
  {
    var n := Walked(payload);
    var p := n / PAGE_SIZE;
    assert n == p * PAGE_SIZE;
    assert (addr + n) / PAGE_SIZE == addr / PAGE_SIZE + p;
    assert (addr + n - 1) / PMD_SIZE <= addr / PMD_SIZE + n / PMD_SIZE + 1;
  }

  ghost predicate MapsExactly(dir: map<nat, Table>, areas: seq<Area>) {
    forall v: nat :: InWindow(v) ==> (FrameIn(dir, v) != 0 <==> Payload(areas, v))
  }

  /** One more area, at `k`, with a guard page, in the first place where it fits; its payload is
      mapped and no other translation differs. */
  ghost predicate NewRegion(before: seq<Area>, after: seq<Area>, k: nat, addr: nat, payload: nat, was: map<nat, Table>,
      dir: map<nat, Table>) {
    && k < |after| && k <= |before| && after == Inserted(before, k, after[k])
    && after[k].addr == addr && after[k].size == payload + PAGE_SIZE
    && Fits(before, addr, payload + PAGE_SIZE) && NoneBelow(before, addr, payload + PAGE_SIZE)
    && SameOutside(was, dir, addr / PAGE_SIZE, (addr + Walked(payload)) / PAGE_SIZE)
    && AllMapped(dir, addr / PAGE_SIZE, (addr + Walked(payload)) / PAGE_SIZE)
  }

  /** What an allocation leaves: one more region, in the first place where it fits, with its pages mapped
      and no other translation changed. */
  lemma NewRegionIs(before: seq<Area>, after: seq<Area>, k: nat, addr: nat, payload: nat, was: map<nat, Table>,
      dir: map<nat, Table>, a: nat)
    requires NewRegion(before, after, k, addr, payload, was, dir)
    ensures |after| == |before| + 1 && k <= |before| && after == before[..k] + [after[k]] + before[k..]
    ensures after[k].addr == addr && after[k].size == payload + 4096
    ensures Fits(before, addr, payload + 4096) && (Fits(before, a, payload + 4096) ==> addr <= a)
    ensures var past := (addr + if payload == 0 then 4096 else payload) / 4096;
      forall v: nat :: if addr / 4096 <= v < past then FrameIn(dir, v) != 0 else FrameIn(dir, v) == FrameIn(was, v)
  {
  }

  /** What a free leaves: that region is gone, its pages are unmapped, and no other translation has changed. */
  lemma FreedIs(before: seq<Area>, after: seq<Area>, k: nat, addr: nat, was: map<nat, Table>, dir: map<nat, Table>)
    requires FreedAt(before, after, k, addr, was, dir)
    ensures k < |before| && before[k].addr == addr && after == before[..k] + before[k + 1..]
    ensures before[k].size >= 4096
    ensures var past := (addr + if before[k].size == 4096 then 4096 else before[k].size - 4096) / 4096;
      forall v: nat :: if addr / 4096 <= v < past then FrameIn(dir, v) == 0 else FrameIn(dir, v) == FrameIn(was, v)
  {
  }

  ghost predicate FreedAt(before: seq<Area>, after: seq<Area>, k: nat, addr: nat, was: map<nat, Table>, dir: map<nat,
      Table>) {
    && k < |before| && before[k].addr == addr && before[k].size >= PAGE_SIZE && after == Removed(before, k)
    && SameOutside(was, dir, addr / PAGE_SIZE, (addr + Walked(before[k].size - PAGE_SIZE)) / PAGE_SIZE)
    && NoneMapped(dir, addr / PAGE_SIZE, (addr + Walked(before[k].size - PAGE_SIZE)) / PAGE_SIZE)
  }

  lemma NoNull(areas: seq<Area>)
    requires Sorted(areas)
    ensures forall k :: 0 <= k < |areas| ==> areas[k].addr != 0
  {
  }

  /** An area's payload lies in the window. */
  lemma AreaPages(areas: seq<Area>, k: nat)
    requires Sorted(areas) && k < |areas|
    ensures var x := areas[k];
      && x.addr % PAGE_SIZE == 0 && x.size >= PAGE_SIZE && Walked(x.size - PAGE_SIZE) % PAGE_SIZE == 0 && x.addr > 0
      && forall v: nat :: x.addr / PAGE_SIZE <= v < (x.addr + Walked(x.size - PAGE_SIZE)) / PAGE_SIZE ==> InWindow(v)
  {
    assert Proper(areas[k]);
  }

  /** Of a region of more than one page all pages are mapped but the last one, its guard; a region of one
      page is mapped. */
  lemma RegionMapped(dir: map<nat, Table>, areas: seq<Area>, k: nat, v: nat)
    requires Sorted(areas) && k < |areas| && MapsExactly(dir, areas)
    requires areas[k].addr / 4096 <= v < (areas[k].addr + areas[k].size) / 4096
    ensures FrameIn(dir, v) == 0 <==> areas[k].size > 4096 && v == (areas[k].addr + areas[k].size) / 4096 - 1
  {
    var x := areas[k];
    assert Proper(x) && InWindow(v);
    assert Within(x, v) <==> !(x.size > 4096 && v == (x.addr + x.size) / 4096 - 1);
    assert forall j :: 0 <= j < k ==> Proper(areas[j]) && areas[j].addr + areas[j].size <= x.addr;
    assert forall j :: k < j < |areas| ==> Proper(areas[j]) && x.addr + x.size <= areas[j].addr;
    assert forall j :: 0 <= j < |areas| && Within(areas[j], v) ==> j == k;
  }

  /** Payloads of different areas share no page. */
  lemma PayloadsApart(areas: seq<Area>, i: nat, j: nat, v: nat)
    requires Sorted(areas) && i < |areas| && j < |areas| && Within(areas[i], v) && Within(areas[j], v)
    ensures i == j
  {
    assert Proper(areas[i]) && Proper(areas[j]);
  }

  lemma Unmapped(was: map<nat, Table>, dir: map<nat, Table>, areas: seq<Area>, k: nat)
    requires Sorted(areas) && k < |areas| && MapsExactly(was, areas)
    requires areas[k].size >= PAGE_SIZE
    requires SameOutside(was, dir, areas[k].addr / PAGE_SIZE,
        (areas[k].addr + Walked(areas[k].size - PAGE_SIZE)) / PAGE_SIZE)
    requires NoneMapped(dir, areas[k].addr / PAGE_SIZE, (areas[k].addr + Walked(areas[k].size - PAGE_SIZE)) / PAGE_SIZE)
    ensures MapsExactly(dir, Removed(areas, k))
    ensures FreedAt(areas, Removed(areas, k), k, areas[k].addr, was, dir)
  {
    var x, rest := areas[k], Removed(areas, k);
    forall v: nat | InWindow(v) ensures FrameIn(dir, v) != 0 <==> Payload(rest, v) {
      if Within(x, v) {
        assert FrameIn(dir, v) == 0;
        forall j | 0 <= j < |rest| ensures !Within(rest[j], v) {
          var i := if j < k then j else j + 1;
          assert rest[j] == areas[i];
          if Within(areas[i], v) { PayloadsApart(areas, i, k, v); }
        }
      } else {
        assert FrameIn(dir, v) == FrameIn(was, v);
        RestPayload(areas, k, v);
      }
    }
  }

  lemma Aligned(size: nat)
    requires size < WORD
    ensures Paged(PageAlign(size)) && PageAlign(size) < WORD
    ensures if size <= WORD - PAGE_SIZE then size <= PageAlign(size) < size + PAGE_SIZE else PageAlign(size) == 0
  {
  }

  lemma NewArea(before: seq<Area>, k: nat, x: Area)
    requires k <= |before|
    ensures |Inserted(before, k, x)| == |before| + 1 && Inserted(before, k, x)[k] == x
    ensures Removed(Inserted(before, k, x), k) == before
    ensures forall y :: y in Inserted(before, k, x) ==> y == x || y in before
  {
  }

  /** The area found under the new area's address is the new area. */
  lemma OneArea(all: seq<Area>, j: nat, k: nat, before: seq<Area>)
    requires Sorted(all) && j < |all| && k < |all| && all[j].addr == all[k].addr && Removed(all, k) == before
    ensures j == k && Removed(all, j) == before
  {
    assert Proper(all[j]) && Proper(all[k]);
  }

  /** Nothing is mapped in a gap. */
  lemma GapPages(dir: map<nat, Table>, areas: seq<Area>, addr: nat, payload: nat)
    requires MapsExactly(dir, areas) && Sorted(areas) && Fits(areas, addr, payload + PAGE_SIZE) && addr % PAGE_SIZE == 0
    requires payload % PAGE_SIZE == 0
    ensures NoneMapped(dir, addr / PAGE_SIZE, (addr + Walked(payload)) / PAGE_SIZE)
    ensures forall v: nat :: addr / PAGE_SIZE <= v < (addr + Walked(payload)) / PAGE_SIZE ==> InWindow(v)
  {
    forall v: nat | addr / PAGE_SIZE <= v < (addr + Walked(payload)) / PAGE_SIZE
      ensures InWindow(v) && !Payload(areas, v) {
      forall j | 0 <= j < |areas| ensures !Within(areas[j], v) { assert Proper(areas[j]); }
    }
  }

  lemma Undone(was: map<nat, Table>, between: map<nat, Table>, dir: map<nat, Table>, areas: seq<Area>, lo: nat, hi: nat)
    requires SameOutside(was, between, lo, hi) && SameOutside(between, dir, lo, hi) && NoneMapped(was, lo, hi)
    requires NoneMapped(dir, lo, hi)
    requires MapsExactly(was, areas)
    ensures SameOutside(was, dir, 0, 0) && MapsExactly(dir, areas)
  {
    forall v: nat ensures FrameIn(dir, v) == FrameIn(was, v) {
      if !(lo <= v < hi) { assert FrameIn(dir, v) == FrameIn(between, v); }
    }
  }

  lemma Mapped(was: map<nat, Table>, dir: map<nat, Table>, before: seq<Area>, k: nat, x: Area, payload: nat)
    requires MapsExactly(was, before) && k <= |before| && x.size == payload + PAGE_SIZE
    requires SameOutside(was, dir, x.addr / PAGE_SIZE, (x.addr + Walked(payload)) / PAGE_SIZE)
    requires AllMapped(dir, x.addr / PAGE_SIZE, (x.addr + Walked(payload)) / PAGE_SIZE)
    ensures MapsExactly(dir, Inserted(before, k, x))
  {
    var all := Inserted(before, k, x);
    NewArea(before, k, x);
    forall v: nat | InWindow(v) ensures FrameIn(dir, v) != 0 <==> Payload(all, v) {
      if Within(x, v) {
        assert all[k] == x;
      } else {
        RestPayload(all, k, v);
        assert FrameIn(dir, v) == FrameIn(was, v);
      }
    }
  }

  lemma RestPayload(areas: seq<Area>, k: nat, v: nat)
    requires k < |areas| && !Within(areas[k], v)
    ensures Payload(Removed(areas, k), v) <==> Payload(areas, v)
  {
    var rest := Removed(areas, k);
    if Payload(areas, v) {
      var i :| 0 <= i < |areas| && Within(areas[i], v);
      assert rest[if i < k then i else i - 1] == areas[i];
    }
    if Payload(rest, v) {
      var j :| 0 <= j < |rest| && Within(rest[j], v);
      assert areas[if j < k then j else j + 1] == rest[j];
    }
  }

  // ---------------------------------------------------------------- overruns

  const MEGABYTE := 0x10_0000

  lemma FirstRegion()
    ensures !Overruns([], 66 * MEGABYTE) && Fits([], VMALLOC_START_ADDR, 66 * MEGABYTE + PAGE_SIZE)
    ensures Overruns([], VMALLOC_RESERVE)
  {
    assert OverrunAt([], 0, VMALLOC_RESERVE + PAGE_SIZE);
  }

  /** The only place in an empty window where a region is put. */
  lemma OnlyRegion(k: nat, x: Area)
    requires k == 0 && x.addr == Start([], k) && x.size == 66 * MEGABYTE + PAGE_SIZE
    ensures Inserted([], k, x) == [x] && Overruns([x], 127 * MEGABYTE)
    ensures forall j :: 0 <= j <= 1 && OverrunAt([x], j, 127 * MEGABYTE + PAGE_SIZE) ==> Start([x], j) > x.addr
  {
    assert OverrunAt([x], 1, 127 * MEGABYTE + PAGE_SIZE);
  }

  /** With nothing in the window, a region as large as the window is handed out with its guard page
      outside. */
  method GuardOutside(tables: Tables) returns (s: Space, x: Area?)
    ensures fresh(s) && x != null && s.areas == [x] && x.addr + x.size > VMALLOC_END && !s.Ordered()
  {
    FirstRegion();
    s := new Space(tables);
    ghost var k;
    x, k := s.GetVmallocAddr(VMALLOC_RESERVE, true);
  }

  /** Behind a region of 66M there is no room for 127M, but a sum wraps, and a region that ends beyond
      2^32 is handed out. */
  method WrappedRegion(tables: Tables) returns (s: Space, y: Area?)
    ensures fresh(s) && y != null && |s.areas| == 2 && y in s.areas && y.addr + y.size > WORD && !s.Ordered()
  {
    FirstRegion();
    hide Overruns, OverrunAt, Fits;
    s := new Space(tables);
    var x;
    ghost var k;
    x, k := s.GetVmallocAddr(66 * MEGABYTE, true);
    OnlyRegion(k, x);
    y, k := s.GetVmallocAddr(127 * MEGABYTE, true);
  }
}
