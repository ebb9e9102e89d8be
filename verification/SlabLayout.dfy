/** The arithmetic of mm/slab.c: how many objects a slab holds, where they lie, and how an
    object's address leads back to its slab. */
module SlabLayout {

  import opened Common

  const MAX_ORDER := 5
  const SLAB_LIMIT := 512
  const SLAB_STRUCT := 24
  const POINTERS := 8

  /** Bytes of a block of the given order. */
  function Room(order: nat): (r: nat)
    ensures r >= PAGE_SIZE && r % PAGE_SIZE == 0
  {
    if order == 0 then PAGE_SIZE else 2 * Room(order - 1)
  }

  lemma {:induction false} RoomGrows(a: nat, b: nat)
    requires a < b
    ensures 2 * Room(a) <= Room(b)
    decreases b
  {
    if a < b - 1 { RoomGrows(a, b - 1); }
  }

  /** ALIGN_VAL for a power of two. */
  function AlignUp(n: nat, a: nat): (r: nat)
    requires a > 0
    ensures n <= r < n + a && r % a == 0
  {
    Multiple((n + a - 1) / a, a);
    (n + a - 1) / a * a
  }

  function L1Align(n: nat): nat {
    AlignUp(n, 32)
  }

  /** Two powers of two in one octave are the same. */
  lemma {:induction false} SamePower(a: nat, p: nat)
    requires PowerOfTwo(a) && PowerOfTwo(p) && p <= a < 2 * p
    ensures a == p
  {
    if p > 1 { SamePower(a / 2, p / 2); }
  }

  lemma PowerMultiple(a: nat)
    requires PowerOfTwo(a) && a >= 32
    ensures a % 32 == 0
  {
    Powers();
    PowerDivides(32, a);
  }

  /** get_order: the least order whose block holds `size` bytes. */
  method GetOrder(size: nat) returns (order: nat)
    requires size > 0
    ensures size <= Room(order) && (order > 0 ==> Room(order - 1) < size)
  {
    var left := (size - 1) / 2048 / 2;
    order := 0;
    assert left * PAGE_SIZE <= size - 1 < (left + 1) * PAGE_SIZE;
    while left > 0
      invariant left * Room(order) <= size - 1 < (left + 1) * Room(order)
      invariant order > 0 ==> Room(order - 1) < size
    {
      HalfOrder(left, order, size - 1);
      left, order := left / 2, order + 1;
    }
  }

  lemma HalfOrder(left: nat, order: nat, n: nat)
    requires left > 0 && left * Room(order) <= n < (left + 1) * Room(order)
    ensures (left / 2) * Room(order + 1) <= n < (left / 2 + 1) * Room(order + 1) && Room(order) <= n
  {
    var h, r := left / 2, Room(order);
    Halves(h, left % 2, r);
    Scaled(left, r, 1);
    assert Room(order + 1) == 2 * r;
  }

  lemma Halves(h: nat, b: nat, r: nat)
    requires b < 2
    ensures (2 * h + b) * r == 2 * (h * r) + (if b == 0 then 0 else r)
    ensures (2 * h + b + 1) * r == 2 * (h * r) + (if b == 0 then r else 2 * r)
    ensures h * (2 * r) == 2 * (h * r) && (h + 1) * (2 * r) == 2 * (h * r) + 2 * r
  {
    assert (2 * h) * r == 2 * (h * r);
    assert (2 * h + b) * r == (2 * h) * r + b * r;
    assert (2 * h + b + 1) * r == (2 * h + b) * r + r;
  }

  /** Bytes that `nr` objects take with what slab_cache_estimate sets aside for the header. */
  function Taken(size: nat, nr: nat): nat {
    nr * size + L1Align(if size < SLAB_LIMIT then SLAB_STRUCT + 4 * nr + POINTERS else POINTERS)
  }

  /** For objects below 512 bytes 24 bytes of slab structure, 8 of pointers and 4 for every object are set
      aside, else only the pointers; in either case in cache lines of 32. */
  lemma TakenBytes(size: nat, nr: nat)
    ensures Taken(size, nr) == nr * size + if size < 512 then (24 + 8 + 4 * nr + 31) / 32 * 32 else 32
  {
  }

  /** A block of order 0 is a page, and each order doubles it. */
  lemma RoomBytes(order: nat)
    ensures Room(0) == 4096 && Room(order + 1) == 2 * Room(order)
  {
  }

  lemma AlignGrows(m: nat, n: nat)
    requires m <= n
    ensures L1Align(m) <= L1Align(n)
  {
    assert (m + 31) / 32 <= (n + 31) / 32;
  }

  lemma TakenGrows(size: nat, a: nat, b: nat)
    requires a <= b
    ensures Taken(size, b) >= Taken(size, a)
  {
    AlignGrows(SLAB_STRUCT + 4 * a + POINTERS, SLAB_STRUCT + 4 * b + POINTERS);
    hide L1Align, AlignUp;
    Scaled(b, size, a);
  }

  lemma TakenAtLeast(size: nat, n: nat)
    requires size > 0
    ensures Taken(size, n) >= n && Taken(size, 0) <= 32
  {
    Scaled(size, n, 1);
    assert n * size == size * n;
  }

  lemma TakenFits(size: nat, room: nat, nr: nat)
    requires Taken(size, nr) <= room < Taken(size, nr + 1)
    ensures forall n: nat :: Taken(size, n) <= room <==> n <= nr
  {
    hide Taken;
    forall n: nat ensures Taken(size, n) <= room <==> n <= nr {
      if n <= nr { TakenGrows(size, n, nr); } else { TakenGrows(size, nr + 1, n); }
    }
  }

  /** slab_cache_estimate: the largest number of objects that fit a block of the order. */
  method Estimate(order: nat, size: nat) returns (nr: nat, wastage: nat)
    requires size > 0
    ensures forall n: nat :: Taken(size, n) <= Room(order) <==> n <= nr
    ensures wastage == Room(order) - Taken(size, nr)
    ensures nr * size + (if size < 512 then (24 + 8 + 4 * nr + 31) / 32 * 32 else 32) <= Room(order)
    ensures (nr + 1) * size + (if size < 512 then (24 + 8 + 4 * (nr + 1) + 31) / 32 * 32 else 32) > Room(order)
  {
    var i, total := 0, Room(order);
    TakenAtLeast(size, 0);
    hide Taken, Room;
    while Taken(size, i) <= total
      invariant i > 0 ==> Taken(size, i - 1) <= total
      decreases total - i + 1
    {
      TakenAtLeast(size, i);
      i := i + 1;
    }
    if i > 0 {
      i := i - 1;
    }
    TakenFits(size, total, i);
    TakenBytes(size, i);
    TakenBytes(size, i + 1);
    return i, total - Taken(size, i);
  }

  /** What slab_get_objects settles on. */
  ghost predicate Sized(size: nat, order: nat, nr: nat, left: nat) {
    && nr > 0 && order <= MAX_ORDER && (forall n: nat :: Taken(size, n) <= Room(order) <==> n <= nr)
    && left == Room(order) - Taken(size, nr) && forall o :: 0 <= o < order ==> Room(o) < Taken(size, 1)
  }

  /** The size rounded up to the alignment, or to the first half of it, quarter and so on that the
      size fills half of. */
  ghost predicate Rounded(size: nat, align: nat, objSize: nat) {
    if align == 0 then objSize == size
    else
      exists a: nat ::
        a > 0 && PowerOfTwo(a) && a <= align && a / 2 <= size && (a == align || size < a) && objSize == AlignUp(size, a)
  }

  /** The alignment fix-up: the alignment shrinks until an object fills half of it. */
  method FinalSize(size: nat, align: nat) returns (objSize: nat)
    requires size > 0 && (align == 0 || PowerOfTwo(align))
    ensures objSize >= size && Rounded(size, align, objSize)
    ensures align == 0 ==> objSize == size
    ensures align > 0 ==> exists a: nat ::
      && 0 < a <= align && PowerOfTwo(a) && a / 2 <= size && (a == align || size < a)
      && size <= objSize < size + a && objSize % a == 0
    ensures align >= 32 ==> objSize % 32 == 0 || objSize < SLAB_LIMIT
  {
    var a := align;
    while size < a / 2
      invariant align == 0 ==> a == 0
      invariant a <= align && (a == align || size < a)
      invariant align > 0 ==> PowerOfTwo(a) && (align >= 32 ==> a >= 32 || size < 16)
    {
      if a >= 32 { PowerMultiple(a); }
      a := a / 2;
    }
    objSize := if a > 0 then AlignUp(size, a) else size;
    Aligned(size, align, a, objSize);
  }

  /** slab_get_objects: the aligned size, and the least order that holds an object. */
  method GetObjects(size: nat, align: nat) returns (nr: nat, order: nat, objSize: nat, left: nat)
    requires size > 0 && (align == 0 || PowerOfTwo(align))
    ensures objSize >= size && Rounded(size, align, objSize)
    ensures align >= 32 ==> objSize % 32 == 0 || objSize < SLAB_LIMIT
    ensures nr > 0 ==> Sized(objSize, order, nr, left)
    ensures nr == 0 ==> order == MAX_ORDER + 1
    ensures nr == 0 <==> Room(MAX_ORDER) < Taken(objSize, 1)
  {
    objSize := FinalSize(size, align);
    hide Taken, PowerOfTwo, Rounded;
    order := 0;
    nr, left := Estimate(order, objSize);
    while nr == 0 && order < MAX_ORDER
      invariant order <= MAX_ORDER && left == Room(order) - Taken(objSize, nr)
      invariant forall n: nat :: Taken(objSize, n) <= Room(order) <==> n <= nr
      invariant forall o :: 0 <= o < order ==> Room(o) < Taken(objSize, 1)
    {
      order := order + 1;
      nr, left := Estimate(order, objSize);
    }
    if nr == 0 {
      order := order + 1;
    } else if order < MAX_ORDER {
      RoomGrows(order, MAX_ORDER);
    }
  }

  lemma Aligned(size: nat, align: nat, a: nat, objSize: nat)
    requires align > 0 ==> PowerOfTwo(a) && (align >= 32 ==> a >= 32 || size < 16)
    requires size >= a / 2 && objSize == if a > 0 then AlignUp(size, a) else size
    ensures align >= 32 ==> objSize % 32 == 0 || objSize < SLAB_LIMIT
  {
    if align >= 32 && a >= 32 {
      PowerMultiple(a);
      MultipleOf(objSize, a, 32);
    }
  }

  /** Where slab_cache_create puts things. */
  datatype Layout = Layout(size: nat, order: nat, nr: nat, offSlab: bool, offset: nat)

  /** Every slot lies in the block, after the two pointers and, unless it is kept elsewhere, the
      slab structure with its index buffer. */
  ghost predicate Holds(l: Layout) {
    && l.size > 0 && l.nr > 0 && l.order <= MAX_ORDER
    && l.offset + l.nr * l.size <= Room(l.order)
    && POINTERS <= l.offset < PAGE_SIZE && (!l.offSlab ==> POINTERS + SLAB_STRUCT + 4 * l.nr <= l.offset)
  }

  function HeaderSize(nr: nat): nat {
    L1Align(SLAB_STRUCT + 4 * nr + POINTERS)
  }

  /** The placement decision of slab_cache_create and the offset of slab_cache_get_slab. */
  function Placed(size: nat, order: nat, nr: nat, wastage: nat): Layout {
    var off := size >= SLAB_LIMIT && wastage <= HeaderSize(nr);
    Layout(size, order, nr, off, if off then L1Align(POINTERS) else HeaderSize(nr))
  }

  /** The slab structure, with 4 bytes for every object, stays in the block for objects below 512 bytes,
      or if what is left over is more than it takes. The first slot is behind it, or in the second
      cache line if it is kept elsewhere. */
  lemma Placement(size: nat, order: nat, nr: nat, wastage: nat)
    ensures var l, header := Placed(size, order, nr, wastage), (24 + 8 + 4 * nr + 31) / 32 * 32;
      && l.size == size && l.order == order && l.nr == nr
      && (l.offSlab <==> size >= 512 && wastage <= header)
      && l.offset == if l.offSlab then 32 else header
  {
  }

  lemma Fits(size: nat, order: nat, nr: nat, wastage: nat)
    requires size > 0 && Sized(size, order, nr, wastage)
    ensures Holds(Placed(size, order, nr, wastage))
    ensures Placed(size, order, nr, wastage).offSlab ==> SLAB_STRUCT + 4 * nr <= 64
  {
    assert Taken(size, nr) <= Room(order);
    Few(size, order, nr, wastage);
    assert size >= SLAB_LIMIT ==> Taken(size, nr) == nr * size + 32;
  }

  /** How many objects there can be, so that the header stays in the first half page. */
  lemma Few(size: nat, order: nat, nr: nat, wastage: nat)
    requires size > 0 && Sized(size, order, nr, wastage)
    ensures order > 0 ==> nr <= 2
    ensures order == 0 ==> size >= SLAB_LIMIT ==> nr <= 7
    ensures order > 0 || size >= SLAB_LIMIT ==> HeaderSize(nr) <= 64
  {
    assert Taken(size, nr) <= Room(order) && nr * size >= nr;
    if order > 0 {
      assert Room(order - 1) < Taken(size, 1);
      Scaled(nr, size, 3);
    } else {
      Scaled(nr, size, 8);
    }
  }

  /** slab_cache_create, up to the layout of its slabs: it fails only for sizes beyond a block of
      the largest order. */
  method Create(size: nat, align: nat) returns (ok: bool, l: Layout)
    requires size > 0 && (align == 0 || PowerOfTwo(align))
    ensures ok ==> Holds(l) && l.size >= size && Rounded(size, align, l.size)
    ensures ok ==> exists left :: Sized(l.size, l.order, l.nr, left) && l == Placed(l.size, l.order, l.nr, left)
    ensures ok && align >= 32 ==> l.size % 32 == 0 || l.size < SLAB_LIMIT
    ensures !ok ==>
      l.size >= size && 0x2_0000 < l.size + 32 && (l.size == size || Rounded(size, align, l.size))
  {
    assert Room(MAX_ORDER) == 0x2_0000 by { assert Room(2) == 0x4000 && Room(4) == 0x1_0000; }
    var needed := GetOrder(size);
    if MAX_ORDER < needed {
      if MAX_ORDER < needed - 1 { RoomGrows(MAX_ORDER, needed - 1); }
      return false, Layout(size, 0, 0, false, 0);
    }
    var nr, order, objSize, left := GetObjects(size, align);
    if nr == 0 || order > MAX_ORDER {
      return false, Layout(objSize, 0, 0, false, 0);
    }
    Fits(objSize, order, nr, left);
    return true, Placed(objSize, order, nr, left);
  }

  // ---------------------------------------------------------------- addresses

  /** Offset of a slot from the slab's pages. */
  function SlotAt(l: Layout, i: nat): nat {
    l.offset + i * l.size
  }

  /** Every object starts in the slab's first page, where the two pointers are. */
  ghost predicate FirstPage(l: Layout) {
    forall i :: 0 <= i < l.nr ==> SlotAt(l, i) < PAGE_SIZE
  }

  lemma {:induction false} SlotsGrow(l: Layout, i: nat, j: nat)
    requires i < j
    ensures SlotAt(l, i) + l.size <= SlotAt(l, j)
  {
    Scaled(j, l.size, i + 1);
    assert (i + 1) * l.size == i * l.size + l.size;
  }

  /** Slots lie in the block and do not overlap. */
  lemma SlotsApart(l: Layout, i: nat, j: nat)
    requires Holds(l) && i < l.nr && j < l.nr && i != j
    ensures l.offset <= SlotAt(l, i) && SlotAt(l, i) + l.size <= Room(l.order)
    ensures SlotAt(l, i) + l.size <= SlotAt(l, j) || SlotAt(l, j) + l.size <= SlotAt(l, i)
  {
    assert SlotAt(l, l.nr) == l.offset + l.nr * l.size && SlotAt(l, i) >= l.offset;
    hide SlotAt;
    SlotsGrow(l, i, l.nr);
    if i < j { SlotsGrow(l, i, j); } else { SlotsGrow(l, j, i); }
  }

  lemma SlotInside(l: Layout, i: nat)
    requires Holds(l) && i < l.nr
    ensures l.offset <= SlotAt(l, i) && SlotAt(l, i) + l.size <= Room(l.order)
  {
    assert SlotAt(l, l.nr) == l.offset + l.nr * l.size && SlotAt(l, i) >= l.offset;
    hide SlotAt;
    SlotsGrow(l, i, l.nr);
  }

  /** The sizes of which two objects just fit a block of several pages. */
  predicate Straddles(size: nat) {
    exists k :: 0 <= k < MAX_ORDER && Room(k) - 32 < size <= Room(k) - 16
  }

  /** The page-mask macros find the pointers of every object exactly when the final size is not
      within 16 to 31 bytes under a power-of-two block. */
  lemma FirstPageIff(size: nat, order: nat, nr: nat, left: nat)
    requires size > 0 && Sized(size, order, nr, left)
    ensures FirstPage(Placed(size, order, nr, left)) <==> !Straddles(size)
  {
    var l := Placed(size, order, nr, left);
    Fits(size, order, nr, left);
    Few(size, order, nr, left);
    if order == 0 {
      forall i | 0 <= i < nr ensures SlotAt(l, i) < PAGE_SIZE { SlotsGrow(l, i, nr); }
      forall k | 0 <= k < MAX_ORDER ensures !(Room(k) - 32 < size <= Room(k) - 16) {
        assert Taken(size, 1) <= PAGE_SIZE;
        if k > 0 { RoomGrows(0, k); }
      }
    } else {
      SeveralPages(size, order, nr, left);
      assert SlotAt(l, 0) == l.offset;
      if nr == 2 {
        assert SlotAt(l, 1) == l.offset + size;
        if order > 1 { RoomGrows(0, order - 1); }
      }
    }
  }

  lemma SeveralPages(size: nat, order: nat, nr: nat, left: nat)
    requires size > 0 && Sized(size, order, nr, left) && order > 0
    ensures nr == 2 <==> Straddles(size)
    ensures nr == 1 || nr == 2
  {
    Few(size, order, nr, left);
    assert Room(order - 1) < Taken(size, 1);
    assert Room(order) == 2 * Room(order - 1);
    assert Taken(size, 2) == 2 * size + 32 && Taken(size, 1) == size + 32;
    assert nr == 2 <==> Taken(size, 2) <= Room(order);
    if nr == 2 {
      assert Room(order - 1) - 32 < size <= Room(order - 1) - 16;
    }
    forall k | 0 <= k < MAX_ORDER && Room(k) - 32 < size <= Room(k) - 16 ensures k == order - 1 {
      if k < order - 1 { RoomGrows(k, order - 1); } else if k > order - 1 { RoomGrows(order - 1, k); }
    }
  }

  /** Objects of a multiple of 32 bytes, or of less than an eighth of a page, are safe: these are
      all the sizes the kernel's aligned caches get. */
  lemma AlignedFirstPage(size: nat, order: nat, nr: nat, left: nat)
    requires size > 0 && Sized(size, order, nr, left) && (size % 32 == 0 || size < SLAB_LIMIT)
    ensures FirstPage(Placed(size, order, nr, left))
  {
    NoStraddle(size);
    FirstPageIff(size, order, nr, left);
  }

  lemma NoStraddle(size: nat)
    requires size % 32 == 0 || size < SLAB_LIMIT
    ensures !Straddles(size)
  {
    forall k | 0 <= k < MAX_ORDER ensures !(Room(k) - 32 < size <= Room(k) - 16) {
      RoomMultiple(k);
    }
  }

  lemma {:induction false} RoomMultiple(k: nat)
    ensures Room(k) % 32 == 0
  {
    if k > 0 { RoomMultiple(k - 1); }
  }

  /** Masking an object's address gives the start of its slab's pages, and the division of
      slab_cache_free_slab gives its index. */
  lemma Recovered(l: Layout, base: nat, i: nat)
    requires Holds(l) && FirstPage(l) && base % PAGE_SIZE == 0 && i < l.nr
    ensures (base + SlotAt(l, i)) / PAGE_SIZE * PAGE_SIZE == base
    ensures ((base + SlotAt(l, i)) - (base + l.offset)) / l.size == i
  {
    Remainder(base + SlotAt(l, i), PAGE_SIZE, base / PAGE_SIZE, SlotAt(l, i));
    Remainder(i * l.size, l.size, i, 0);
  }

  /** A raw size of 4070 bytes gets two objects in two pages, and masking the second one's
      address finds the wrong page. */
  lemma SecondPage(base: nat)
    requires base % PAGE_SIZE == 0
    ensures Sized(4070, 1, 2, 20)
    ensures (base + SlotAt(Placed(4070, 1, 2, 20), 1)) / PAGE_SIZE * PAGE_SIZE == base + PAGE_SIZE
  {
    assert Taken(4070, 1) == 4102 && Taken(4070, 2) == 8172 && Taken(4070, 3) == 12242;
    assert Room(1) == 8192;
    TakenFits(4070, Room(1), 2);
  }
}
