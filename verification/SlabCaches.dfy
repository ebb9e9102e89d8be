/** The object caches of mm/slab.c: index free lists inside slabs, and the three slab lists. */
module SlabCaches {

  import opened Common
  import opened DList
  import opened SlabLayout

  const SLAB_MARKER := -1

  /** The chain that starts at `free` and follows the index buffer visits exactly `chain`, no slot
      twice, and ends in the marker. */
  ghost predicate Chained(free: int, buffer: seq<int>, chain: seq<nat>)
    decreases |chain|
  {
    if chain == [] then free == SLAB_MARKER
    else free == chain[0] && chain[0] < |buffer| && Chained(buffer[chain[0]], buffer, chain[1..])
  }

  /** An entry outside the chain may change. */
  lemma {:induction false} ChainedElsewhere(free: int, buffer: seq<int>, chain: seq<nat>, i: nat, v: int)
    requires Chained(free, buffer, chain) && i !in chain && i < |buffer|
    ensures Chained(free, buffer[i := v], chain)
    decreases |chain|
  {
    if chain != [] { ChainedElsewhere(buffer[chain[0]], buffer, chain[1..], i, v); }
  }

  lemma {:induction false} ChainedBelow(free: int, buffer: seq<int>, chain: seq<nat>)
    requires Chained(free, buffer, chain)
    ensures forall x :: x in chain ==> x < |buffer|
    decreases |chain|
  {
    if chain != [] {
      ChainedBelow(buffer[chain[0]], buffer, chain[1..]);
      assert forall x :: x in chain ==> x == chain[0] || x in chain[1..];
    }
  }

  function UpTo(k: nat, n: nat): (s: seq<nat>)
    ensures |s| == (if k < n then n - k else 0) && forall i :: 0 <= i < |s| ==> s[i] == k + i
    decreases n - k
  {
    if k < n then [k] + UpTo(k + 1, n) else []
  }

  /** The buffer as slab_cache_get_slab fills it chains all the slots in order. */
  lemma {:induction false} ChainedFresh(buffer: seq<int>, k: nat)
    requires k < |buffer| && (forall i :: 0 <= i < |buffer| - 1 ==> buffer[i] == i + 1)
    requires buffer[|buffer| - 1] == SLAB_MARKER
    ensures Chained(k, buffer, UpTo(k, |buffer|))
    decreases |buffer| - k
  {
    if k < |buffer| - 1 { ChainedFresh(buffer, k + 1); }
    assert UpTo(k, |buffer|)[1..] == UpTo(k + 1, |buffer|);
  }

  class Slab {
    const base: nat            // the pages
    const mem: nat             // s_mem
    var used: int              // s_used
    var free: int              // s_free
    var buffer: seq<int>       // slab_buffer
    ghost var chain: seq<nat>  // the free slots, next to be used first

    /** The chain lists exactly the free slots. */
    ghost predicate Ok(nr: nat)
      reads this
    {
      |buffer| == nr && Chained(free, buffer, chain) && Distinct(chain) && used == nr - |chain|
    }

    lemma Counts(nr: nat)
      requires Ok(nr)
      ensures 0 <= used <= nr && (used == nr <==> free == SLAB_MARKER) && (free == SLAB_MARKER <==> chain == [])
      ensures forall i :: 0 <= i < nr && i !in chain ==> used > 0
    {
      ChainedBelow(free, buffer, chain);
      DistinctBound(chain, nr);
    }

    /** slab_cache_get_slab: every slot is free. */
    constructor (base: nat, l: Layout)
      requires l.nr > 0
      ensures this.base == base && mem == base + l.offset && used == 0 && Ok(l.nr)
      ensures forall i :: 0 <= i < l.nr ==> i in chain
    {
      this.base, mem := base, base + l.offset;
      used, free := 0, 0;
      new;
      buffer := [];
      for i := 0 to l.nr
        invariant |buffer| == i && forall j :: 0 <= j < i ==> buffer[j] == j + 1
        invariant used == 0 && free == 0
      {
        buffer := buffer + [i + 1];
      }
      buffer := buffer[l.nr - 1 := SLAB_MARKER];
      ChainedFresh(buffer, 0);
      chain := UpTo(0, l.nr);
      forall i | 0 <= i < l.nr ensures i in chain { assert chain[i] == i; }
    }

    /** Pops the first free slot. */
    method Take(ghost nr: nat) returns (i: nat)
      requires Ok(nr) && chain != []
      modifies this
      ensures Ok(nr) && i == old(chain)[0] && i < nr && chain == old(chain)[1..] && used == old(used) + 1
    {
      i := free;
      free := buffer[i];
      used := used + 1;
      chain := chain[1..];
    }

    /** Pushes a slot that is in use. */
    method Put(i: nat, ghost nr: nat)
      requires Ok(nr) && i < nr && i !in chain
      modifies this
      ensures Ok(nr) && chain == [i] + old(chain) && used == old(used) - 1
    {
      ChainedElsewhere(free, buffer, chain, i, free);
      PrependMembers(chain, i);
      buffer := buffer[i := free];
      free := i;
      used := used - 1;
      chain := [i] + chain;
      assert chain[1..] == old(chain);
    }
  }

  /** A count shifted left by the order. */
  function Shifted(n: nat, order: nat): (r: nat)
    ensures r == n * (Room(order) / PAGE_SIZE)
  {
    if order == 0 then n else 2 * Shifted(n, order - 1)
  }

  /** The objects in use over some slabs. */
  ghost function Usage(s: seq<Slab>): int
    reads s
  {
    if s == [] then 0 else s[0].used + Usage(s[1..])
  }

  lemma {:induction false} UsageAt(s: seq<Slab>, k: nat)
    requires k < |s|
    ensures Usage(s) == Usage(s[..k]) + s[k].used + Usage(s[k + 1..])
  {
    if k == 0 {
      assert s[..0] == [];
    } else {
      UsageAt(s[1..], k - 1);
      assert s[1..][..k - 1] == s[..k][1..];
      assert s[1..][k..] == s[k + 1..];
    }
  }

  class SlabCache {
    const l: Layout
    var full: seq<Slab>
    var partial: seq<Slab>
    var free: seq<Slab>
    var heads: map<nat, Slab>    // the pointers kept at the start of each slab's pages
    var nrUsed: int
    var nrAllocated: int
    ghost var slabs: seq<Slab>   // every slab, in the order of creation
    ghost var live: set<nat>     // addresses handed out and not yet freed

    function At(s: Slab, i: nat): nat {
      s.base + SlotAt(l, i)
    }

    /** The slot a slab hands out next. */
    ghost function FirstSlot(s: Slab): nat
      reads s`chain
    {
      if s.chain == [] then 0 else At(s, s.chain[0])
    }

    ghost predicate Apart(a: nat, b: nat) {
      a + Room(l.order) <= b || b + Room(l.order) <= a
    }

    /** Slabs have blocks of their own, and the head of each block points to its slab. */
    ghost predicate Placed(slabs: seq<Slab>, heads: map<nat, Slab>) {
      && Holds(l) && FirstPage(l) && Distinct(slabs)
      && (forall s :: s in slabs ==>
          s.base % PAGE_SIZE == 0 && s.mem == s.base + l.offset && s.base in heads && heads[s.base] == s)
      && (forall s, t :: s in slabs && t in slabs && s != t ==> Apart(s.base, t.base))
    }

    ghost predicate Owned(slabs: seq<Slab>, a: nat) {
      exists s, i :: s in slabs && 0 <= i < l.nr && a == At(s, i)
    }

    /** Handed out is what is in no chain. */
    ghost predicate Handed(slabs: seq<Slab>, live: set<nat>)
      reads slabs
    {
      && (forall s :: s in slabs ==> s.Ok(l.nr))
      && (forall s, i :: s in slabs && 0 <= i < l.nr ==> (At(s, i) in live <==> i !in s.chain))
      && (forall a :: a in live ==> Owned(slabs, a))
    }

    /** The list a slab is on is determined by its count. */
    ghost predicate Right(s: Slab, full: seq<Slab>, partial: seq<Slab>, free: seq<Slab>)
      reads s
    {
      && (s in full <==> s.used == l.nr)
      && (s in free <==> s.used == 0)
      && (s in partial <==> 0 < s.used < l.nr)
    }

    ghost predicate Lists(full: seq<Slab>, partial: seq<Slab>, free: seq<Slab>, slabs: seq<Slab>) {
      && Distinct(full) && Distinct(partial) && Distinct(free)
      && (forall s :: s in full ==> s in slabs)
      && (forall s :: s in partial ==> s in slabs)
      && (forall s :: s in free ==> s in slabs)
    }

    ghost predicate Listed(full: seq<Slab>, partial: seq<Slab>, free: seq<Slab>, slabs: seq<Slab>)
      reads slabs
    {
      Lists(full, partial, free, slabs) && forall s :: s in slabs ==> Right(s, full, partial, free)
    }

    /** All but the lists. */
    ghost predicate Core()
      reads this`slabs, this`heads, this`live, this`nrUsed, slabs
    {
      Placed(slabs, heads) && Handed(slabs, live) && nrUsed == Usage(slabs) == |live|
    }

    ghost predicate Valid()
      reads this, slabs
    {
      Core() && Listed(full, partial, free, slabs)
    }

    constructor (l: Layout)
      requires Holds(l) && FirstPage(l)
      ensures Valid() && this.l == l && live == {} && slabs == partial == free == [] && nrAllocated == 0
    {
      this.l := l;
      full, partial, free, heads, nrUsed, nrAllocated := [], [], [], map[], 0, 0;
      slabs, live := [], {};
    }

    /** Slots have addresses of their own, and their bytes do not overlap. */
    lemma AtApart(slabs: seq<Slab>, heads: map<nat, Slab>, s: Slab, i: nat, t: Slab, j: nat)
      requires Placed(slabs, heads) && s in slabs && t in slabs && i < l.nr && j < l.nr && (s != t || i != j)
      ensures At(s, i) + l.size <= At(t, j) || At(t, j) + l.size <= At(s, i)
    {
      if s == t {
        SlotsApart(l, i, j);
      } else {
        SlotInside(l, i);
        SlotInside(l, j);
        assert Apart(s.base, t.base);
      }
    }

    /** No two objects in use share a byte. */
    lemma LiveApart(a: nat, b: nat)
      requires Valid() && a in live && b in live && a != b
      ensures a + l.size <= b || b + l.size <= a
    {
      assert Owned(slabs, a) && Owned(slabs, b);
      var s, i :| s in slabs && 0 <= i < l.nr && a == At(s, i);
      var t, j :| t in slabs && 0 <= j < l.nr && b == At(t, j);
      AtApart(slabs, heads, s, i, t, j);
    }

    /** The pages are not those of a slab; 0 stands for no pages. */
    ghost predicate RoomAt(addr: nat)
      reads this`slabs
    {
      addr % PAGE_SIZE == 0 && (addr != 0 ==> forall s :: s in slabs ==> Apart(addr, s.base))
    }

    /** slab_cache_grow: a new empty slab in the given pages, none when there are none or when the
        structure of an off-slab slab cannot be had. */
    method Grow(addr: nat, header: bool) returns (ok: bool)
      requires Valid() && RoomAt(addr)
      modifies this
      ensures Valid() && live == old(live) && nrUsed == old(nrUsed) && full == old(full) && partial == old(partial)
      ensures nrAllocated == old(nrAllocated)
      ensures ok <==> addr != 0 && (l.offSlab ==> header)
      ensures !ok ==> slabs == old(slabs) && free == old(free)
      ensures ok ==>
        |slabs| == |old(slabs)| + 1 && slabs[..|old(slabs)|] == old(slabs) && free == [slabs[|old(slabs)|]] + old(free)
      ensures ok ==> fresh(slabs[|old(slabs)|]) && slabs[|old(slabs)|].base == addr
    {
      if addr == 0 || (l.offSlab && !header) {
        return false;
      }
      hide Core, Listed, Placed, Handed, Usage, RoomAt;
      var s := NewSlab(addr);
      LinkNew(addr, s);
      ok := true;
    }

    /** The new slab goes to the head of the free list. */
    method LinkNew(addr: nat, s: Slab)
      requires Placed(slabs + [s], heads[addr := s]) && Handed(slabs + [s], live)
      requires nrUsed == Usage(slabs + [s]) == |live| && Listed(full, partial, [s] + free, slabs + [s])
      modifies this`heads, this`slabs, this`free
      ensures Valid() && slabs == old(slabs) + [s] && free == [s] + old(free)
    {
      hide Core, Listed, Placed, Handed, Usage;
      heads := heads[addr := s];
      slabs := slabs + [s];
      free := [s] + free;
      Closed();
    }

    /** slab_cache_get_slab, before the slab is linked. */
    method NewSlab(addr: nat) returns (s: Slab)
      requires Valid() && RoomAt(addr) && addr != 0
      ensures fresh(s) && s.base == addr && Placed(slabs + [s], heads[addr := s]) && Handed(slabs + [s], live)
      ensures nrUsed == Usage(slabs + [s]) == |live| && Listed(full, partial, [s] + free, slabs + [s])
    {
      SomeRoom();
      hide Core, Listed;
      s := new Slab(addr, l);
      NewCore(s);
      NewListed(full, partial, free, slabs, s);
      NewUsage(slabs, s);
    }

    lemma NewCore(s: Slab)
      requires Core() && s !in slabs && s.base % PAGE_SIZE == 0 && s.mem == s.base + l.offset
      requires s.Ok(l.nr) && (forall i :: 0 <= i < l.nr ==> i in s.chain)
      requires forall t :: t in slabs ==> Apart(s.base, t.base)
      ensures Placed(slabs + [s], heads[s.base := s]) && Handed(slabs + [s], live) && nrUsed == Usage(slabs) == |live|
      ensures l.nr > 0
    {
      NewPlaced(slabs, heads, s);
      NewHanded(slabs, live, s);
    }

    lemma NewPlaced(slabs: seq<Slab>, heads: map<nat, Slab>, s: Slab)
      requires Placed(slabs, heads) && s !in slabs && s.base % PAGE_SIZE == 0 && s.mem == s.base + l.offset
      requires forall t :: t in slabs ==> Apart(s.base, t.base)
      ensures Placed(slabs + [s], heads[s.base := s])
    {
      AppendNew(slabs, s);
    }

    lemma NewHanded(slabs: seq<Slab>, live: set<nat>, s: Slab)
      requires Handed(slabs, live) && s.Ok(l.nr) && forall i :: 0 <= i < l.nr ==> i in s.chain
      requires Holds(l) && forall t :: t in slabs ==> Apart(s.base, t.base)
      ensures Handed(slabs + [s], live)
    {
      forall a | a in live ensures Owned(slabs + [s], a) {
        assert Owned(slabs, a);
        var t, i :| t in slabs && 0 <= i < l.nr && a == At(t, i);
        assert t in slabs + [s];
      }
      forall i | 0 <= i < l.nr ensures At(s, i) !in live {
        if At(s, i) in live {
          assert Owned(slabs, At(s, i));
          var t, j :| t in slabs && 0 <= j < l.nr && At(s, i) == At(t, j);
          SlotInside(l, i);
          SlotInside(l, j);
          assert false;
        }
      }
    }

    lemma NewListed(full: seq<Slab>, partial: seq<Slab>, free: seq<Slab>, slabs: seq<Slab>, s: Slab)
      requires Listed(full, partial, free, slabs) && s !in slabs && s.used == 0 && l.nr > 0
      ensures Listed(full, partial, [s] + free, slabs + [s])
    {
      PrependMembers(free, s);
    }

    // -------------------------------------------------------------- one slab at a time

    /** What is known of the slabs other than `x`, and what was handed out of `x` when its chain
        was `chain`. */
    ghost predicate HandedBut(slabs: seq<Slab>, live: set<nat>, x: Slab, chain: seq<nat>)
      reads set s | s in slabs && s != x
    {
      && (forall s :: s in slabs && s != x ==> s.Ok(l.nr))
      && (forall s, i :: s in slabs && s != x && 0 <= i < l.nr ==> (At(s, i) in live <==> i !in s.chain))
      && (forall i :: 0 <= i < l.nr ==> (At(x, i) in live <==> i !in chain))
      && (forall a :: a in live ==> Owned(slabs, a))
    }

    ghost predicate RightBut(full: seq<Slab>, partial: seq<Slab>, free: seq<Slab>, slabs: seq<Slab>, x: Slab)
      reads set s | s in slabs && s != x
    {
      Lists(full, partial, free, slabs) && forall s :: s in slabs && s != x ==> Right(s, full, partial, free)
    }

    /** A slot taken from a chain is handed out. */
    lemma Taken(slabs: seq<Slab>, heads: map<nat, Slab>, live: set<nat>, x: Slab, chain: seq<nat>, i: nat)
      requires Placed(slabs, heads) && x in slabs && x.Ok(l.nr) && i < l.nr && HandedBut(slabs, live, x, chain)
      requires chain == [i] + x.chain && i !in x.chain
      ensures Handed(slabs, live + {At(x, i)}) && At(x, i) !in live
    {
      assert [i][0] in [i] + x.chain;
      forall s, j | s in slabs && 0 <= j < l.nr && (s != x || j != i) ensures At(s, j) != At(x, i) {
        AtDiffer(slabs, heads, s, j, x, i);
      }
      assert forall j :: j in [i] + x.chain <==> j == i || j in x.chain;
      assert Owned(slabs, At(x, i));
    }

    /** A slot put back on a chain is no longer handed out. */
    lemma PutBack(slabs: seq<Slab>, heads: map<nat, Slab>, live: set<nat>, x: Slab, chain: seq<nat>, i: nat)
      requires Placed(slabs, heads) && x in slabs && x.Ok(l.nr) && i < l.nr && HandedBut(slabs, live, x, chain)
      requires x.chain == [i] + chain
      ensures Handed(slabs, live - {At(x, i)})
    {
      forall s, j | s in slabs && 0 <= j < l.nr && (s != x || j != i) ensures At(s, j) != At(x, i) {
        AtDiffer(slabs, heads, s, j, x, i);
      }
      assert forall j :: j in [i] + chain <==> j == i || j in chain;
    }

    lemma AtDiffer(slabs: seq<Slab>, heads: map<nat, Slab>, s: Slab, i: nat, t: Slab, j: nat)
      requires Placed(slabs, heads) && s in slabs && t in slabs && i < l.nr && j < l.nr && (s != t || i != j)
      ensures At(s, i) != At(t, j)
    {
      AtApart(slabs, heads, s, i, t, j);
    }

    /** list_del and list_add from one list to another change nothing for the other slabs. */
    lemma Moved(full: seq<Slab>, partial: seq<Slab>, free: seq<Slab>, slabs: seq<Slab>, x: Slab)
      requires RightBut(full, partial, free, slabs, x) && x in slabs
      ensures var f, p, e := Without(full, x), Without(partial, x), Without(free, x);
        && RightBut([x] + f, p, e, slabs, x) && RightBut(f, [x] + p, e, slabs, x) && RightBut(f, p, [x] + e, slabs, x)
        && x !in f && x !in p && x !in e
    {
      var f, p, e := Without(full, x), Without(partial, x), Without(free, x);
      InWithout(full, x, x);
      InWithout(partial, x, x);
      InWithout(free, x, x);
      WithoutMembers(full, x);
      WithoutMembers(partial, x);
      WithoutMembers(free, x);
      PrependMembers(f, x);
      PrependMembers(p, x);
      PrependMembers(e, x);
      hide Distinct, Without;
      SameElems(full, f, x);
      SameElems(partial, p, x);
      SameElems(free, e, x);
    }

    lemma SameElems(s: seq<Slab>, t: seq<Slab>, x: Slab)
      requires Elems(t) == Elems(s) - {x}
      ensures forall y :: y in t ==> y in s
      ensures forall y :: y in s && y != x ==> y in t
    {
      forall y | y in t ensures y in s { assert y in Elems(t); }
      forall y | y in s && y != x ensures y in t { assert y in Elems(t); }
    }

    /** list_del: whichever list it is on. */
    method ListDel(x: Slab)
      modifies this`full, this`partial, this`free
      ensures full == Without(old(full), x) && partial == Without(old(partial), x) && free == Without(old(free), x)
    {
      full, partial, free := Without(full, x), Without(partial, x), Without(free, x);
    }

    /** Taking a slot changes the number of objects in use by one. */
    method Pop(x: Slab) returns (i: nat)
      requires Distinct(slabs) && x in slabs && x.Ok(l.nr) && x.chain != []
      modifies x
      ensures x.Ok(l.nr) && i < l.nr && old(x.chain) == [i] + x.chain && i !in x.chain && x.used == old(x.used) + 1
      ensures Usage(slabs) == old(Usage(slabs)) + 1
    {
      ghost var k :| 0 <= k < |slabs| && slabs[k] == x;
      UsageAt(slabs, k);
      assert x !in slabs[..k] && x !in slabs[k + 1..];
      hide Usage, Chained;
      i := x.Take(l.nr);
      UsageAt(slabs, k);
    }

    /** Putting a slot back changes it back. */
    method Push(x: Slab, i: nat)
      requires Distinct(slabs) && x in slabs && x.Ok(l.nr) && i < l.nr && i !in x.chain
      modifies x
      ensures x.Ok(l.nr) && x.chain == [i] + old(x.chain) && x.used == old(x.used) - 1
      ensures Usage(slabs) == old(Usage(slabs)) - 1
    {
      ghost var k :| 0 <= k < |slabs| && slabs[k] == x;
      UsageAt(slabs, k);
      assert x !in slabs[..k] && x !in slabs[k + 1..];
      hide Usage, Chained;
      x.Put(i, l.nr);
      UsageAt(slabs, k);
    }

    lemma Closed()
      requires Placed(slabs, heads) && Handed(slabs, live) && nrUsed == Usage(slabs) == |live|
      ensures Core()
    {
    }

    lemma Opened(x: Slab)
      requires Core() && x in slabs
      ensures Placed(slabs, heads) && nrUsed == Usage(slabs) == |live| && HandedBut(slabs, live, x, x.chain)
      ensures x.Ok(l.nr) && Distinct(slabs) && x.mem == x.base + l.offset
      ensures forall i :: 0 <= i < l.nr && At(x, i) in live ==> i !in x.chain
    {
    }

    /** How an index becomes the slot's address, and an address the slot's index again. */
    lemma Address(x: Slab, i: nat)
      requires x.mem == x.base + l.offset
      ensures x.mem + i * l.size == At(x, i)
    {
    }

    lemma Index(x: Slab, obj: nat, i: nat)
      requires Core() && x in slabs && i < l.nr && obj == At(x, i)
      ensures l.size > 0 && (obj - x.mem) / l.size == i
    {
      Recovered(l, x.base, i);
    }

    /** The object part of slab_cache_alloc_slab. */
    method TakeObject(x: Slab) returns (obj: nat)
      requires Core() && x in slabs && x.chain != []
      modifies this`nrUsed, this`nrAllocated, this`live, x
      ensures Core() && obj !in old(live) && live == old(live) + {obj} && x.used == old(x.used) + 1
      ensures obj == old(FirstSlot(x)) && x.chain == old(x.chain)[1..] && nrAllocated == old(nrAllocated) + 1
    {
      hide HandedBut, Handed, Placed, Usage, Distinct, Chained, Slab.Ok, At, Core;
      Opened(x);
      ghost var chain := x.chain;
      var i := Pop(x);
      Taken(slabs, heads, live, x, chain, i);
      Address(x, i);
      obj := x.mem + i * l.size;
      nrUsed := nrUsed + 1;
      nrAllocated := nrAllocated + 1;
      live := live + {obj};
      Closed();
    }

    /** The object part of slab_cache_free_slab. */
    method PutObject(x: Slab, i: nat)
      requires Core() && x in slabs && i < l.nr && At(x, i) in live
      modifies this`nrUsed, this`live, x
      ensures Core() && live == old(live) - {At(x, i)} && x.used == old(x.used) - 1 && x.chain == [i] + old(x.chain)
    {
      hide HandedBut, Handed, Placed, Usage, Distinct, Chained, Slab.Ok, At, Core;
      Opened(x);
      ghost var chain := x.chain;
      Push(x, i);
      PutBack(slabs, heads, live, x, chain, i);
      nrUsed := nrUsed - 1;
      live := live - {At(x, i)};
      Closed();
    }

    lemma CoreCounts(x: Slab)
      requires Core() && x in slabs
      ensures 0 <= x.used <= l.nr && (x.used == l.nr <==> x.free == SLAB_MARKER) && (x.used == l.nr <==> x.chain == [])
    {
      x.Counts(l.nr);
    }

    /** slab_cache_alloc_slab, on the first partial slab. */
    method AllocSlab(x: Slab) returns (obj: nat)
      requires Core() && x in slabs && x.chain != []
      requires x in partial && x !in full && x !in free && RightBut(full, partial, free, slabs, x)
      modifies this`full, this`partial, this`free, this`nrUsed, this`nrAllocated, this`live, x
      ensures Valid() && obj !in old(live) && live == old(live) + {obj}
      ensures obj == old(FirstSlot(x)) && x.chain == old(x.chain)[1..] && free == old(free)
      ensures nrAllocated == old(nrAllocated) + 1
      ensures if x.chain == [] then full == [x] + old(full) && partial == Without(old(partial), x)
        else full == old(full) && partial == old(partial)
    {
      hide Core, Listed, RightBut;
      CoreCounts(x);
      obj := TakeObject(x);
      CoreCounts(x);
      CheckFull(x);
    }

    /** A partial slab that has filled up moves to the full list. */
    method CheckFull(x: Slab)
      requires x in partial && x !in full && x !in free && x in slabs && RightBut(full, partial, free, slabs, x)
      requires 0 < x.used <= l.nr && (x.used == l.nr <==> x.free == SLAB_MARKER)
      modifies this`full, this`partial, this`free
      ensures Listed(full, partial, free, slabs) && free == old(free)
      ensures if x.free == SLAB_MARKER then full == [x] + old(full) && partial == Without(old(partial), x)
        else full == old(full) && partial == old(partial)
    {
      if x.free == SLAB_MARKER {
        Moved(full, partial, free, slabs, x);
        WithoutAbsent(full, x);
        WithoutAbsent(free, x);
        hide RightBut, Without;
        ListDel(x);
        full := [x] + full;
      }
      Settled(full, partial, free, slabs, x);
    }

    /** A slab that has become empty, or is no longer full, changes lists. */
    method CheckFreed(x: Slab, used: int)
      requires x in slabs && RightBut(full, partial, free, slabs, x)
      requires used == x.used + 1 && 0 < used <= l.nr
      requires (x in full <==> used == l.nr) && (x in free <==> used == 0) && (x in partial <==> 0 < used < l.nr)
      modifies this`full, this`partial, this`free
      ensures Listed(full, partial, free, slabs)
      ensures if x.used == 0 || used == l.nr then
          && full == Without(old(full), x) && partial == (if x.used == 0 then [] else [x]) + Without(old(partial), x)
          && free == (if x.used == 0 then [x] else []) + Without(old(free), x)
        else full == old(full) && partial == old(partial) && free == old(free)
    {
      Moved(full, partial, free, slabs, x);
      hide RightBut, Without;
      if x.used == 0 {
        ListDel(x);
        free := [x] + free;
      } else if used == l.nr {
        ListDel(x);
        partial := [x] + partial;
      }
      Settled(full, partial, free, slabs, x);
    }

    lemma Unsettled(x: Slab)
      requires Listed(full, partial, free, slabs) && x in slabs
      ensures RightBut(full, partial, free, slabs, x)
      ensures (x in full <==> x.used == l.nr) && (x in free <==> x.used == 0) && (x in partial <==> 0 < x.used < l.nr)
    {
    }

    /** slab_cache_free_slab. */
    method FreeSlab(x: Slab, obj: nat, ghost i: nat)
      requires Valid() && x in slabs && i < l.nr && obj == At(x, i) && obj in live
      modifies this`full, this`partial, this`free, this`nrUsed, this`live, x
      ensures Valid() && live == old(live) - {obj} && x.chain == [i] + old(x.chain)
      ensures if x.used == 0 || x.used + 1 == l.nr then
          && full == Without(old(full), x) && partial == (if x.used == 0 then [] else [x]) + Without(old(partial), x)
          && free == (if x.used == 0 then [x] else []) + Without(old(free), x)
        else full == old(full) && partial == old(partial) && free == old(free)
    {
      hide Core, Listed, RightBut, At;
      Unsettled(x);
      CoreCounts(x);
      Index(x, obj, i);
      var used, index := x.used, (obj - x.mem) / l.size;
      PutObject(x, index);
      CoreCounts(x);
      CheckFreed(x, used);
    }

    /** An empty slab moves from the head of the free list to the partial list. */
    method Promote() returns (x: Slab)
      requires Listed(full, partial, free, slabs) && free != [] && partial == [] && l.nr > 0
      modifies this`partial, this`free
      ensures RightBut(full, partial, free, slabs, x) && x in slabs && x.used == 0
      ensures x == old(free)[0] && partial == [x] && x !in full && x !in free
    {
      x := free[0];
      Moved(full, partial, free, slabs, x);
      Unsettled(x);
      WithoutLength(free, x);
      WithoutAbsent(full, x);
      hide Listed, RightBut, Without;
      free := free[1..];
      partial := [x];
    }

    /** slab_cache_alloc. It fails only when no slab has room and none can be added. */
    method Alloc(addr: nat, header: bool) returns (ok: bool, obj: nat)
      requires Valid() && RoomAt(addr)
      modifies this, slabs
      ensures Valid() && (ok <==> old(partial) != [] || old(free) != [] || (addr != 0 && (l.offSlab ==> header)))
      ensures ok ==> obj !in old(live) && live == old(live) + {obj}
      ensures !ok ==> live == old(live)
      ensures nrAllocated == old(nrAllocated) + if ok then 1 else 0
      ensures old(partial) != [] ==> obj == old(FirstSlot(partial[0]))
      ensures old(partial) == [] && old(free) != [] ==> obj == old(FirstSlot(free[0]))
      ensures old(partial) != [] || old(free) != [] || !ok ==> slabs == old(slabs)
      ensures old(partial) == [] && old(free) == [] && ok ==>
        |slabs| == |old(slabs)| + 1 && slabs[..|old(slabs)|] == old(slabs) && slabs[|old(slabs)|].base == addr
    {
      hide Core, Listed, RightBut;
      var x;
      if partial == [] {
        if free == [] {
          ok := Grow(addr, header);
          if !ok {
            return false, 0;
          }
        }
        SomeRoom();
        x := Promote();
      } else {
        x := partial[0];
        FirstPartial();
      }
      CoreCounts(x);
      obj := AllocSlab(x);
      ok := true;
    }

    lemma SomeRoom()
      requires Core()
      ensures l.nr > 0
    {
    }

    lemma FirstPartial()
      requires Listed(full, partial, free, slabs) && partial != []
      ensures var x := partial[0];
        x in slabs && x !in full && x !in free && x.used < l.nr && RightBut(full, partial, free, slabs, x)
    {
      assert partial[0] in partial;
      assert Right(partial[0], full, partial, free);
    }

    /** slab_free: the page mask finds the slab, wherever the object lies. */
    method Free(obj: nat)
      requires Valid() && obj in live
      modifies this, slabs
      ensures Valid() && live == old(live) - {obj} && slabs == old(slabs) && nrAllocated == old(nrAllocated)
    {
      hide Core, Listed, At;
      ghost var s, i := Holder(obj);
      FreeSlab(heads[obj / PAGE_SIZE * PAGE_SIZE], obj, i);
    }

    /** The slab and the slot of an object in use, and how the page mask leads there. */
    lemma Holder(obj: nat) returns (s: Slab, i: nat)
      requires Core() && obj in live
      ensures s in slabs && i < l.nr && obj == At(s, i)
      ensures obj / PAGE_SIZE * PAGE_SIZE in heads && heads[obj / PAGE_SIZE * PAGE_SIZE] == s
    {
      assert Owned(slabs, obj);
      s, i :| s in slabs && 0 <= i < l.nr && obj == At(s, i);
      Recovered(l, s.base, i);
    }

    /** slab_destroy of the first slab on the free list: its pages hold no object in use. */
    method DestroyFirst() returns (base: nat)
      requires Valid() && free != []
      modifies this`free, this`slabs
      ensures Valid() && free == old(free)[1..] && base == old(free)[0].base
      ensures slabs == Without(old(slabs), old(free)[0])
      ensures forall a :: a in live ==> a + l.size <= base || base + Room(l.order) <= a
    {
      hide Core, Listed, Placed, Handed, Usage, Without, Distinct, Chained, At;
      var x := free[0];
      base := x.base;
      Destroyed();
      free := free[1..];
      slabs := Without(slabs, x);
      Closed();
    }

    /** What is left without the first slab on the free list. */
    lemma Destroyed()
      requires Valid() && free != []
      ensures var x, rest := free[0], Without(slabs, free[0]);
        && Placed(rest, heads) && Handed(rest, live) && nrUsed == Usage(rest) == |live|
        && Listed(full, partial, free[1..], rest)
        && forall a :: a in live ==> a + l.size <= x.base || x.base + Room(l.order) <= a
    {
      var x := free[0];
      hide Core, Listed;
      Unsettled(x);
      LessCore(x);
      LessListed(x);
    }

    lemma LessListed(x: Slab)
      requires Listed(full, partial, free, slabs) && free != [] && x == free[0] && x.used == 0 && Distinct(slabs)
      requires l.nr > 0
      ensures Listed(full, partial, free[1..], Without(slabs, x))
    {
      Moved(full, partial, free, slabs, x);
      WithoutLength(free, x);
      WithoutMembers(slabs, x);
      SameElems(slabs, Without(slabs, x), x);
      var rest := free[1..];
      InWithout(slabs, x, x);
      assert x !in full && x !in partial && x !in rest by { assert Right(x, full, partial, free); }
      assert forall s :: s in rest ==> s in free;
      assert forall s :: s in free ==> s == x || s in rest;
    }

    /** A slab with nothing in use can go. */
    lemma LessCore(x: Slab)
      requires Core() && x in slabs && x.used == 0
      ensures Placed(Without(slabs, x), heads) && Handed(Without(slabs, x), live)
      ensures nrUsed == Usage(Without(slabs, x)) == |live|
      ensures forall a :: a in live ==> a + l.size <= x.base || x.base + Room(l.order) <= a
      ensures Distinct(slabs) && l.nr > 0
    {
      WithoutMembers(slabs, x);
      var rest := Without(slabs, x);
      SameElems(slabs, rest, x);
      forall i | 0 <= i < l.nr ensures At(x, i) !in live { x.Counts(l.nr); }
      forall a | a in live ensures Owned(rest, a) && (a + l.size <= x.base || x.base + Room(l.order) <= a) {
        assert Owned(slabs, a);
        var t, j :| t in slabs && 0 <= j < l.nr && a == At(t, j);
        assert t != x && t in rest && Apart(t.base, x.base);
        SlotInside(l, j);
      }
      LessUsage(slabs, x);
    }

    /** slab_cache_shrink: destroys the empty slabs and touches no object in use; the result counts
        their pages. */
    method Shrink() returns (count: nat, ghost freed: seq<nat>)
      requires Valid()
      modifies this`free, this`slabs
      ensures Valid() && free == [] && count == |old(free)| * (Room(l.order) / PAGE_SIZE)
      ensures |freed| == |old(free)| && forall k :: 0 <= k < |freed| ==> freed[k] == old(free)[k].base
      ensures forall k, a :: 0 <= k < |freed| && a in live ==> a + l.size <= freed[k] || freed[k] + Room(l.order) <= a
    {
      hide Core, Listed;
      var n := 0;
      freed := [];
      while free != []
        invariant Valid() && n == |freed| <= |old(free)| && free == old(free)[n..]
        invariant forall k :: 0 <= k < n ==> freed[k] == old(free)[k].base
        invariant forall k, a :: 0 <= k < n && a in live ==> a + l.size <= freed[k] || freed[k] + Room(l.order) <= a
        decreases |free|
      {
        var base := DestroyFirst();
        freed := freed + [base];
        n := n + 1;
      }
      count := Shifted(n, l.order);
    }

    lemma Settled(full: seq<Slab>, partial: seq<Slab>, free: seq<Slab>, slabs: seq<Slab>, x: Slab)
      requires RightBut(full, partial, free, slabs, x) && Right(x, full, partial, free)
      ensures Listed(full, partial, free, slabs)
    {
    }
  }

  lemma LessUsage(slabs: seq<Slab>, x: Slab)
    requires Distinct(slabs) && x in slabs && x.used == 0
    ensures Usage(Without(slabs, x)) == Usage(slabs)
  {
    var k :| 0 <= k < |slabs| && slabs[k] == x;
    WithoutAt(slabs, k);
    UsageAt(slabs, k);
    JoinUsage(slabs[..k], slabs[k + 1..]);
  }

  lemma {:induction false} JoinUsage(s: seq<Slab>, t: seq<Slab>)
    ensures Usage(s + t) == Usage(s) + Usage(t)
  {
    if s == [] {
      assert s + t == t;
    } else {
      assert (s + t)[1..] == s[1..] + t;
      JoinUsage(s[1..], t);
    }
  }

  lemma NewUsage(slabs: seq<Slab>, s: Slab)
    ensures Usage(slabs + [s]) == Usage(slabs) + s.used
  {
    UsageAt(slabs + [s], |slabs|);
    assert (slabs + [s])[..|slabs|] == slabs;
  }
}
