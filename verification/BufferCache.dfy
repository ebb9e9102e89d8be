/** kernel/buffer_head.c over a block device: a hash index, a FIFO list and a bounded pool of
    buffers that never disagree with the disk. */
module BufferCache {

  import opened Common
  import opened DList

  const BUFFER_HEAD_LIMIT := 0x100
  const HASH_TABLE := 301
  const BLOCK_SIZE := 1024

  type Byte = b: int | 0 <= b < 256

  // ---------------------------------------------------------------- the plain disk

  /** Sectors by device and block number; sectors never written read as zeros. */
  type Disk = map<(nat, nat), seq<Byte>>

  function Zeros(n: nat): (z: seq<Byte>)
    ensures |z| == n && forall i :: 0 <= i < n ==> z[i] == 0
  {
    seq(n, _ => 0 as Byte)
  }

  function Sector(disk: Disk, size: nat, dev: nat, block: nat): seq<Byte> {
    if (dev, block) in disk then disk[(dev, block)] else Zeros(size)
  }

  ghost predicate Formatted(disk: Disk, size: nat) {
    size > 0 && forall k :: k in disk ==> |disk[k]| == size
  }

  /** What direct sector reads would return. */
  function DirectRead(disk: Disk, s: nat, dev: nat, block: nat, n: nat): (r: seq<Byte>)
    requires Formatted(disk, s)
    ensures |r| == n
    decreases n
  {
    if n <= s then Sector(disk, s, dev, block)[..n]
    else Sector(disk, s, dev, block) + DirectRead(disk, s, dev, block + 1, n - s)
  }

  /** What direct sector writes would leave, a short last one zero-padded. */
  function DirectWrite(disk: Disk, s: nat, dev: nat, block: nat, data: seq<Byte>): (r: Disk)
    requires Formatted(disk, s)
    ensures Formatted(r, s)
    decreases |data|
  {
    if |data| == 0 then disk
    else if |data| <= s then disk[(dev, block) := data + Zeros(s - |data|)]
    else DirectWrite(disk[(dev, block) := data[..s]], s, dev, block + 1, data[s..])
  }

  /** Sectors outside the written range keep their contents. */
  lemma {:induction false} WriteElsewhere(disk: Disk, s: nat, dev: nat, block: nat, data: seq<Byte>, d: nat, b: nat)
    requires Formatted(disk, s) && (d != dev || b < block || block * s + |data| <= b * s)
    ensures Sector(DirectWrite(disk, s, dev, block, data), s, d, b) == Sector(disk, s, d, b)
    decreases |data|
  {
    if |data| > s {
      assert (block + 1) * s == block * s + s;
      WriteElsewhere(disk[(dev, block) := data[..s]], s, dev, block + 1, data[s..], d, b);
      Apart(s, block, b, |data|, d != dev);
    } else if |data| > 0 {
      Apart(s, block, b, |data|, d != dev);
    }
  }

  lemma Apart(s: nat, block: nat, b: nat, n: nat, other: bool)
    requires s > 0 && n > 0 && (other || b < block || block * s + n <= b * s)
    ensures other || b != block
  {
  }

  // ---------------------------------------------------------------- bytes

  /** The byte at `j` of a sector; a sector never written holds zeros. */
  function ByteOf(disk: Disk, dev: nat, block: nat, j: nat): int
    requires (dev, block) in disk ==> j < |disk[(dev, block)]|
  {
    if (dev, block) in disk then disk[(dev, block)][j] else 0
  }

  lemma SectorBytes(disk: Disk, s: nat, dev: nat, block: nat, j: nat)
    requires Formatted(disk, s) && j < s
    ensures |Sector(disk, s, dev, block)| == s && Sector(disk, s, dev, block)[j] == ByteOf(disk, dev, block, j)
  {
  }

  lemma NextSector(i: nat, s: nat)
    requires 0 < s <= i
    ensures (i - s) / s == i / s - 1 && (i - s) % s == i % s
  {
    var q, r := i / s, i % s;
    assert i == q * s + r;
    assert i - s == (q - 1) * s + r;
    Remainder(i - s, s, q - 1, r);
  }

  /** The bytes of a read lie one behind the other in the sectors from `block` on. */
  lemma {:induction false} ReadBytes(disk: Disk, s: nat, dev: nat, block: nat, n: nat, i: nat)
    requires Formatted(disk, s) && i < n
    ensures DirectRead(disk, s, dev, block, n)[i] == ByteOf(disk, dev, block + i / s, i % s)
    decreases n
  {
    if i < s {
      Remainder(i, s, 0, i);
      SectorBytes(disk, s, dev, block, i);
    } else {
      NextSector(i, s);
      ReadBytes(disk, s, dev, block + 1, n - s, i - s);
    }
  }

  lemma EarlierByte(disk: Disk, s: nat, dev: nat, block: nat, data: seq<Byte>, b: nat, j: nat)
    requires Formatted(disk, s) && b < block && j < s
    ensures ByteOf(DirectWrite(disk, s, dev, block, data), dev, b, j) == ByteOf(disk, dev, b, j)
  {
    WriteElsewhere(disk, s, dev, block, data, dev, b);
    SectorBytes(disk, s, dev, b, j);
    SectorBytes(DirectWrite(disk, s, dev, block, data), s, dev, b, j);
  }

  /** A write stores its bytes one behind the other in the sectors from `block` on, and fills what is left
      of the last one with zeros. */
  lemma {:induction false} WriteBytes(disk: Disk, s: nat, dev: nat, block: nat, data: seq<Byte>, i: nat)
    requires Formatted(disk, s) && i - i % s < |data|
    ensures ByteOf(DirectWrite(disk, s, dev, block, data), dev, block + i / s, i % s)
      == if i < |data| then data[i] else 0
    decreases |data|
  {
    if i < s {
      Remainder(i, s, 0, i);
      FirstBytes(disk, s, dev, block, data, i);
    } else {
      NextSector(i, s);
      assert |data| > s;
      hide ByteOf;
      WriteBytes(disk[(dev, block) := data[..s]], s, dev, block + 1, data[s..], i - s);
    }
  }

  lemma FirstBytes(disk: Disk, s: nat, dev: nat, block: nat, data: seq<Byte>, i: nat)
    requires Formatted(disk, s) && i < s && data != []
    ensures ByteOf(DirectWrite(disk, s, dev, block, data), dev, block, i) == if i < |data| then data[i] else 0
  {
    if |data| > s { EarlierByte(disk[(dev, block) := data[..s]], s, dev, block + 1, data[s..], block, i); }
  }

  /** Reading back a range just written returns what was written. */
  lemma ReadAfterWrite(disk: Disk, s: nat, dev: nat, block: nat, data: seq<Byte>)
    requires Formatted(disk, s)
    ensures DirectRead(DirectWrite(disk, s, dev, block, data), s, dev, block, |data|) == data
  {
    var disk' := DirectWrite(disk, s, dev, block, data);
    forall i | 0 <= i < |data| ensures DirectRead(disk', s, dev, block, |data|)[i] == data[i] {
      ReadBytes(disk', s, dev, block, |data|, i);
      WriteBytes(disk, s, dev, block, data, i);
    }
  }

  /** Behind the end of a write that stops inside a sector, that sector holds zeros. */
  lemma ZeroFilled(disk: Disk, s: nat, dev: nat, block: nat, data: seq<Byte>, j: nat)
    requires Formatted(disk, s) && 0 < |data| % s <= j < s
    ensures ByteOf(DirectWrite(disk, s, dev, block, data), dev, block + |data| / s, j) == 0
  {
    var i := |data| - |data| % s + j;
    assert i == |data| / s * s + j;
    Remainder(i, s, |data| / s, j);
    WriteBytes(disk, s, dev, block, data, i);
  }

  // ---------------------------------------------------------------- runs on the plain disk

  datatype Op = ReadOp(dev: nat, block: nat, size: nat) | WriteOp(dev: nat, block: nat, data: seq<Byte>)

  datatype Outcome = Outcome(disk: Disk, replies: seq<seq<Byte>>)

  /** What a run of direct sector reads and writes leaves and replies; a write has an empty reply. */
  function PlainRun(disk: Disk, s: nat, ops: seq<Op>): (r: Outcome)
    requires Formatted(disk, s)
    ensures Formatted(r.disk, s)
  {
    if ops == [] then Outcome(disk, [])
    else
      var r := PlainRun(disk, s, ops[..|ops| - 1]);
      match ops[|ops| - 1]
      case ReadOp(dev, block, size) => Outcome(r.disk, r.replies + [DirectRead(r.disk, s, dev, block, size)])
      case WriteOp(dev, block, data) => Outcome(DirectWrite(r.disk, s, dev, block, data), r.replies + [[]])
  }

  /** What was written last to the byte `p` of a device, zeros behind the end of a write included. */
  function LastWritten(disk: Disk, s: nat, ops: seq<Op>, d: nat, p: nat): int
    requires Formatted(disk, s)
  {
    if ops == [] then ByteOf(disk, d, p / s, p % s)
    else
      var before := LastWritten(disk, s, ops[..|ops| - 1], d, p);
      match ops[|ops| - 1]
      case ReadOp(_, _, _) => before
      case WriteOp(dev, block, data) =>
        var i := p - block * s;
        if d != dev || i < 0 || i - i % s >= |data| then before else if i < |data| then data[i] else 0
  }

  lemma Shifted(s: nat, block: nat, p: nat)
    requires s > 0
    ensures block * s <= p ==> (p - block * s) / s == p / s - block && (p - block * s) % s == p % s
    ensures block * s <= p <==> block <= p / s
    ensures p == p / s * s + p % s
  {
    var q := p / s;
    assert (q - block) * s == q * s - block * s;
    Remainder(p - block * s, s, q - block, p % s);
    if block <= q { Ordered(s, block, q); } else { Ordered(s, q + 1, block); }
  }

  lemma Ordered(s: nat, a: nat, b: nat)
    requires a <= b
    ensures a * s <= b * s
  {
  }

  lemma OutsideRange(s: nat, block: nat, n: nat, p: nat)
    requires s > 0
    ensures var i := p - block * s;
      && (i < 0 ==> p / s < block)
      && (i >= 0 && i - i % s >= n ==> block * s + n <= p / s * s)
      && (i >= 0 ==> i / s == p / s - block && i % s == p % s)
  {
    Shifted(s, block, p);
  }

  /** One write, byte by byte. */
  lemma WriteByte(disk: Disk, s: nat, dev: nat, block: nat, data: seq<Byte>, d: nat, p: nat)
    requires Formatted(disk, s)
    ensures var i := p - block * s;
      ByteOf(DirectWrite(disk, s, dev, block, data), d, p / s, p % s)
        == if d != dev || i < 0 || i - i % s >= |data| then ByteOf(disk, d, p / s, p % s)
           else if i < |data| then data[i] else 0
  {
    OutsideRange(s, block, |data|, p);
    var i := p - block * s;
    hide DirectWrite, ByteOf;
    if d != dev || i < 0 || i - i % s >= |data| {
      WriteElsewhere(disk, s, dev, block, data, d, p / s);
      SectorBytes(disk, s, d, p / s, p % s);
      SectorBytes(DirectWrite(disk, s, dev, block, data), s, d, p / s, p % s);
    } else {
      WriteBytes(disk, s, dev, block, data, i);
    }
  }

  /** After any run every byte of the disk is the one written there last. */
  lemma {:induction false} RunBytes(disk: Disk, s: nat, ops: seq<Op>, d: nat, p: nat)
    requires Formatted(disk, s)
    ensures ByteOf(PlainRun(disk, s, ops).disk, d, p / s, p % s) == LastWritten(disk, s, ops, d, p)
  {
    hide ByteOf, DirectRead, DirectWrite;
    if ops != [] {
      var r, op := PlainRun(disk, s, ops[..|ops| - 1]), ops[|ops| - 1];
      RunBytes(disk, s, ops[..|ops| - 1], d, p);
      if op.WriteOp? { WriteByte(r.disk, s, op.dev, op.block, op.data, d, p); }
    }
  }

  /** Every operation of a run has its reply. */
  lemma {:induction false} RunReply(disk: Disk, s: nat, ops: seq<Op>, k: nat)
    requires Formatted(disk, s) && k < |ops|
    ensures var r := PlainRun(disk, s, ops).replies;
      && |r| == |ops|
      && r[k] == if ops[k].ReadOp?
         then DirectRead(PlainRun(disk, s, ops[..k]).disk, s, ops[k].dev, ops[k].block, ops[k].size) else []
    decreases |ops|
  {
    hide DirectRead, DirectWrite;
    var n := |ops| - 1;
    if n > 0 { RunReply(disk, s, ops[..n], if k < n then k else 0); }
    if k < n { assert ops[..n][..k] == ops[..k]; }
  }

  /** In any run every byte of a read is the one written there last before it. */
  lemma RunReads(disk: Disk, s: nat, ops: seq<Op>, k: nat, i: nat)
    requires Formatted(disk, s) && k < |ops| && ops[k].ReadOp? && i < ops[k].size
    ensures var r := PlainRun(disk, s, ops).replies;
      && |r| == |ops| && |r[k]| == ops[k].size
      && r[k][i] == LastWritten(disk, s, ops[..k], ops[k].dev, ops[k].block * s + i)
  {
    RunReply(disk, s, ops, k);
    var op, r := ops[k], PlainRun(disk, s, ops[..k]);
    ReadBytes(r.disk, s, op.dev, op.block, op.size, i);
    Shifted(s, op.block, op.block * s + i);
    RunBytes(disk, s, ops[..k], op.dev, op.block * s + i);
    hide PlainRun, LastWritten, ByteOf, DirectRead;
  }

  // ---------------------------------------------------------------- hash index

  /** `^` on non-negative numbers. */
  function Xor(a: nat, b: nat): nat
    decreases a + b
  {
    if a == 0 && b == 0 then 0 else (a % 2 + b % 2) % 2 + 2 * Xor(a / 2, b / 2)
  }

  function Hash(dev: nat, block: nat): (k: nat)
    ensures k < HASH_TABLE
  {
    Xor(dev, block) % HASH_TABLE
  }

  function Min(a: nat, b: nat): nat {
    if a < b then a else b
  }

  datatype State = Clean | Dirty | Init

  class BufferHead {
    var dev: nat
    var block: nat
    var blockSize: nat
    var data: seq<Byte>
    var state: State

    constructor (dev: nat, block: nat)
      ensures this.dev == dev && this.block == block && state == Init && blockSize == 0 && data == []
    {
      this.dev, this.block, blockSize, data, state := dev, block, 0, [], Init;
    }
  }

  predicate HasKey(b: BufferHead, dev: nat, block: nat)
    reads b`dev, b`block
  {
    b.dev == dev && b.block == block
  }

  function Chain(b: BufferHead): nat
    reads b`dev, b`block
  {
    Hash(b.dev, b.block)
  }

  /** The hash table finds exactly the buffers in `bs`, and no key is held twice. */
  ghost predicate Indexed(bs: set<BufferHead>, table: seq<seq<BufferHead>>)
    reads bs`dev, bs`block
  {
    && |table| == HASH_TABLE
    && (forall b, c :: b in bs && c in bs && b != c ==> !HasKey(b, c.dev, c.block))
    && (forall k, b :: 0 <= k < |table| && b in table[k] ==> b in bs && Chain(b) == k)
    && (forall b :: b in bs ==> b in table[Chain(b)])
    && (forall k :: 0 <= k < |table| ==> Distinct(table[k]))
  }

  ghost predicate Absent(bs: set<BufferHead>, dev: nat, block: nat)
    reads bs`dev, bs`block
  {
    forall b :: b in bs ==> !HasKey(b, dev, block)
  }

  lemma LinkIndexed(bs: set<BufferHead>, table: seq<seq<BufferHead>>, b: BufferHead)
    requires Indexed(bs, table) && b !in bs && Absent(bs, b.dev, b.block)
    ensures var h := Chain(b); Indexed(bs + {b}, table[h := [b] + table[h]])
  {
    assert b !in table[Chain(b)];
  }

  lemma UnlinkIndexed(bs: set<BufferHead>, table: seq<seq<BufferHead>>, b: BufferHead)
    requires Indexed(bs, table) && b in bs
    ensures var h := Chain(b); Indexed(bs - {b}, table[h := Without(table[h], b)])
  {
    var h := Chain(b);
    var table' := table[h := Without(table[h], b)];
    forall k, c | 0 <= k < |table| && c in table'[k] ensures c in bs - {b} && Chain(c) == k {
      if k == h { InWithout(table[h], b, c); }
      assert c in table[k];
    }
    forall c | c in bs - {b} ensures c in table'[Chain(c)] {
      if Chain(c) == h { InWithout(table[h], b, c); }
    }
    WithoutMembers(table[h], b);
  }

  class Cache {
    const sectorSize: nat               // block size of the device
    var disk: Disk
    var list: seq<BufferHead>           // the cyclic list, oldest first
    var table: array<seq<BufferHead>>   // hash chains
    var count: nat
    ghost var members: set<BufferHead>  // the linked buffers

    /** The list, its length and the index agree, and the pool is bounded. */
    ghost predicate Wired()
      reads this, table, members
    {
      && count == |list| <= BUFFER_HEAD_LIMIT && Distinct(list) && Elems(list) == members
      && Indexed(members, table[..]) && Formatted(disk, sectorSize)
    }

    /** A clean buffer holds its sector. */
    predicate Synced(b: BufferHead)
      reads this, b
    {
      b.blockSize == |b.data| >= sectorSize && b.state == Clean
      && b.data[..sectorSize] == Sector(disk, sectorSize, b.dev, b.block)
    }

    /** Between calls every listed buffer is clean and agrees with the disk. */
    ghost predicate Valid()
      reads this, table, members
    {
      Wired() && forall b :: b in members ==> Synced(b)
    }

    constructor (sectorSize: nat, disk: Disk)
      requires Formatted(disk, sectorSize)
      ensures Valid() && fresh(table) && list == [] && members == {} && this.disk == disk
      ensures this.sectorSize == sectorSize
    {
      this.sectorSize, this.disk := sectorSize, disk;
      list, count, members := [], 0, {};
      table := new seq<BufferHead>[HASH_TABLE](_ => []);
    }

    method Lookup(dev: nat, block: nat) returns (bh: BufferHead?)
      requires Wired()
      ensures bh != null ==> bh in members && HasKey(bh, dev, block)
      ensures bh == null ==> Absent(members, dev, block)
    {
      var chain := table[Hash(dev, block)];
      assert table[..][Hash(dev, block)] == chain;
      for i := 0 to |chain|
        invariant forall j :: 0 <= j < i ==> !HasKey(chain[j], dev, block)
      {
        assert chain[i] in table[..][Hash(dev, block)];
        if chain[i].dev == dev && chain[i].block == block {
          return chain[i];
        }
      }
      bh := null;
    }

    /** link_buffer_head. */
    method Link(bh: BufferHead) returns (err: int)
      requires Wired() && bh !in members && Absent(members, bh.dev, bh.block)
      modifies this`list, this`count, this`members, table
      ensures Wired() && err == (if |old(list)| >= BUFFER_HEAD_LIMIT then -1 else 0)
      ensures list == (if err == 0 then old(list) + [bh] else old(list))
      ensures members == if err == 0 then old(members) + {bh} else old(members)
    {
      if count >= BUFFER_HEAD_LIMIT {
        return -1;
      }
      ghost var t := table[..];
      var h := Hash(bh.dev, bh.block);
      LinkIndexed(members, t, bh);
      AppendMembers(list, bh);
      hide Indexed, Distinct, Elems;
      list := list + [bh];
      table[h] := [bh] + table[h];
      members := members + {bh};
      count := count + 1;
      assert table[..] == t[h := [bh] + t[h]];
      return 0;
    }

    /** unlink_buffer_head. */
    method Unlink(bh: BufferHead) returns (err: int)
      requires Wired() && bh in members
      modifies this`list, this`count, this`members, table
      ensures Wired() && err == 0 && list == Without(old(list), bh) && members == old(members) - {bh}
      ensures |list| == |old(list)| - 1
    {
      ghost var t := table[..];
      var h := Hash(bh.dev, bh.block);
      UnlinkIndexed(members, t, bh);
      assert bh in Elems(list);
      WithoutLength(list, bh);
      WithoutMembers(list, bh);
      hide Indexed, Distinct, Elems;
      if count == 0 {
        return -1;
      }
      count := count - 1;
      list := Without(list, bh);
      members := members - {bh};
      table[h] := Without(table[h], bh);
      assert table[..] == t[h := Without(t[h], bh)];
      return 0;
    }

    /** The oldest clean buffer, or the oldest if none is clean. */
    ghost predicate Chosen(bh: BufferHead)
      reads this`list, list`state
    {
      || (exists k :: 0 <= k < |list| && bh == list[k] && bh.state == Clean && forall j :: 0 <= j < k ==>
          list[j].state != Clean)
      || (list != [] && bh == list[0] && forall j :: 0 <= j < |list| ==> list[j].state != Clean)
    }

    /** get_buffer_head and its fallback. */
    method Victim() returns (bh: BufferHead)
      requires Wired() && list != []
      ensures bh in members && Chosen(bh)
      ensures bh.state == Clean ==>
        exists k :: 0 <= k < |list| && bh == list[k] && forall j :: 0 <= j < k ==> list[j].state != Clean
      ensures bh.state != Clean ==> bh == list[0] && forall j :: 0 <= j < |list| ==> list[j].state != Clean
      ensures (forall b :: b in members ==> b.state == Clean) ==> bh == list[0]
    {
      assert forall i :: 0 <= i < |list| ==> list[i] in Elems(list);
      for i := 0 to |list|
        invariant forall j :: 0 <= j < i ==> list[j].state != Clean
      {
        if list[i].state == Clean {
          return list[i];
        }
      }
      return list[0];
    }

    /** The device, command READ: fills the buffer. */
    method TransferIn(bh: BufferHead, size: nat)
      requires Formatted(disk, sectorSize)
      modifies bh`data
      ensures bh.data == DirectRead(disk, sectorSize, bh.dev, bh.block, size)
    {
      bh.data := DirectRead(disk, sectorSize, bh.dev, bh.block, size);
    }

    /** The device, command WRITE: stores whole zero-padded sectors. */
    method TransferOut(bh: BufferHead, size: nat)
      requires Formatted(disk, sectorSize) && size <= |bh.data|
      modifies this`disk
      ensures Formatted(disk, sectorSize)
      ensures disk == DirectWrite(old(disk), sectorSize, bh.dev, bh.block, bh.data[..size])
    {
      disk := DirectWrite(disk, sectorSize, bh.dev, bh.block, bh.data[..size]);
    }

    /** release_buffer_head: recycles a buffer of a full pool for another block, written back
        first if dirty. */
    method Release(dev: nat, block: nat) returns (bh: BufferHead?)
      requires Wired() && Absent(members, dev, block) && forall b :: b in members ==> b.blockSize == |b.data|
      modifies this`disk, this`list, this`count, this`members, table, members
      ensures Wired() && members == old(members) && (bh == null <==> |old(list)| < BUFFER_HEAD_LIMIT)
      ensures bh == null ==> list == old(list) && disk == old(disk)
      ensures bh != null ==>
        bh in members && HasKey(bh, dev, block) && bh.state == Init && list == ToTail(old(list), bh)
      ensures bh != null ==> bh.data == old(bh.data) && bh.blockSize == old(bh.blockSize)
      ensures forall b :: b in members && b != bh ==>
        Same(b, old(b.dev), old(b.block), old(b.blockSize), old(b.data), old(b.state))
      ensures bh != null ==> bh in old(members) && old(Chosen(bh))
      ensures bh != null ==>
        disk == if old(bh.state) == Dirty
                then DirectWrite(old(disk), sectorSize, old(bh.dev), old(bh.block), old(bh.data))
                else old(disk)
      ensures old(forall b :: b in members ==> b.state == Clean) ==>
        disk == old(disk) && (bh != null ==> bh == old(list)[0])
    {
      hide Indexed, Formatted, DirectWrite, Distinct, Elems, Chosen;
      if list == [] || count < BUFFER_HEAD_LIMIT {
        return null;
      }
      var victim := Victim();
      assert !HasKey(victim, dev, block);
      WriteBack(victim);
      Recycle(victim, dev, block);
      bh := victim;
    }

    static function ToTail(s: seq<BufferHead>, b: BufferHead): seq<BufferHead> {
      Without(s, b) + [b]
    }

    static ghost predicate Same(b: BufferHead, dev: nat, block: nat, blockSize: nat, data: seq<Byte>, state: State)
      reads b
    {
      b.dev == dev && b.block == block && b.blockSize == blockSize && b.data == data && b.state == state
    }

    /** The write-back of a dirty buffer before it is recycled. */
    method WriteBack(bh: BufferHead)
      requires Wired() && bh in members && bh.blockSize == |bh.data|
      modifies this`disk, bh`state
      ensures Wired() && bh.state == if old(bh.state) == Dirty then Clean else old(bh.state)
      ensures disk == if old(bh.state) == Dirty then DirectWrite(old(disk), sectorSize, bh.dev, bh.block, bh.data)
        else old(disk)
    {
      if bh.state == Dirty {
        TransferOut(bh, bh.blockSize);
        bh.state := Clean;
        assert bh.data[..bh.blockSize] == bh.data;
      }
    }

    /** Unlinks the buffer, gives it its new key and links it at the tail. */
    method Recycle(bh: BufferHead, dev: nat, block: nat)
      requires Wired() && Absent(members, dev, block) && bh in members
      modifies this`list, this`count, this`members, table, bh`dev, bh`block, bh`state
      ensures Wired() && members == old(members) && list == Without(old(list), bh) + [bh]
      ensures HasKey(bh, dev, block) && bh.state == Init
    {
      hide Indexed, Formatted, Distinct, Elems, Without;
      var err := Unlink(bh);
      bh.dev := dev;
      bh.block := block;
      bh.state := Init;
      err := Link(bh);
      assert members == old(members);
    }

    /** add_buffer_head: a new buffer, or null when the pool is full. */
    method AddBuffer(dev: nat, block: nat) returns (bh: BufferHead?)
      requires Valid() && Absent(members, dev, block)
      modifies this`list, this`count, this`members, table
      ensures Wired() && (bh == null <==> |old(list)| >= 256)
      ensures bh == null ==> list == old(list) && members == old(members)
      ensures bh != null ==> fresh(bh) && members == old(members) + {bh} && list == old(list) + [bh]
      ensures bh != null ==> HasKey(bh, dev, block) && bh.state == Init && bh.blockSize == |bh.data| >= sectorSize
      ensures bh != null ==> bh.blockSize == if sectorSize < 1024 then 1024 else sectorSize
      ensures forall b :: b in members && b != bh ==> Synced(b)
    {
      hide Indexed, Formatted, Distinct, Elems;
      var b := new BufferHead(dev, block);
      var err := Link(b);
      if err < 0 {
        return null;
      }
      b.blockSize := if BLOCK_SIZE > sectorSize then BLOCK_SIZE else sectorSize;
      b.data := Zeros(b.blockSize);
      bh := b;
    }

    /** The buffer an absent key gets: a new one at the tail, or the oldest one moved there. */
    ghost predicate Took(before: seq<BufferHead>, bh: BufferHead)
      reads this
    {
      if |before| < BUFFER_HEAD_LIMIT then bh !in before && list == before + [bh]
      else bh == before[0] && list == before[1..] + [bh]
    }

    /** A new buffer or, when the pool is full, a recycled one. There always is one. */
    method Obtain(dev: nat, block: nat) returns (bh: BufferHead)
      requires Valid() && Absent(members, dev, block)
      modifies this`disk, this`list, this`count, this`members, table, members
      ensures Wired() && bh in members && HasKey(bh, dev, block) && disk == old(disk) && fresh(members - old(members))
      ensures bh.state == Init && bh.blockSize == |bh.data| >= sectorSize
      ensures forall b :: b in members && b != bh ==> Synced(b)
      ensures Took(old(list), bh)
    {
      var b := AddBuffer(dev, block);
      if b == null {
        b := Release(dev, block);
        assert old(list)[0] in Elems(old(list));
        WithoutLength(old(list), old(list)[0]);
      } else {
        NewElem(old(list), b, old(members));
      }
      bh := b;
    }

    /** read_buffer_head: afterwards the buffer holds its sector. */
    method Read(dev: nat, block: nat) returns (bh: BufferHead)
      requires Valid()
      modifies this`disk, this`list, this`count, this`members, table, members
      ensures Valid() && disk == old(disk) && fresh(members - old(members))
      ensures bh in members && HasKey(bh, dev, block) && |bh.data| >= sectorSize
      ensures bh.data[..sectorSize] == Sector(disk, sectorSize, dev, block)
      ensures if !old(Absent(members, dev, block)) then list == old(list)
        else if |old(list)| < 256 then bh !in old(list) && list == old(list) + [bh]
        else bh == old(list)[0] && list == old(list)[1..] + [bh]
    {
      var found := Lookup(dev, block);
      if found == null {
        bh := Obtain(dev, block);
        Fill(bh);
      } else {
        bh := found;
        assert Synced(bh);
      }
    }

    /** The transfer that fills a new buffer. */
    method Fill(bh: BufferHead)
      requires Wired() && bh in members && bh.blockSize == |bh.data| >= sectorSize
      requires forall b :: b in members && b != bh ==> Synced(b)
      modifies bh`data, bh`state
      ensures Valid()
    {
      hide Indexed, Distinct, Elems;
      TransferIn(bh, bh.blockSize);
      FirstSector(disk, sectorSize, bh.dev, bh.block, bh.blockSize);
      bh.state := Clean;
    }

    /** write_buffer_head with a block or less: the sector on the disk and the buffer take the
        data, zero-padded. */
    method Write(dev: nat, block: nat, size: nat, data: seq<Byte>) returns (bh: BufferHead)
      requires Valid() && 0 < size <= |data| && size <= sectorSize
      modifies this`disk, this`list, this`count, this`members, table, members
      ensures Valid() && disk == DirectWrite(old(disk), sectorSize, dev, block, data[..size])
      ensures fresh(members - old(members))
      ensures bh in members && HasKey(bh, dev, block)
      ensures if !old(Absent(members, dev, block)) then list == old(list)
        else if |old(list)| < 256 then bh !in old(list) && list == old(list) + [bh]
        else bh == old(list)[0] && list == old(list)[1..] + [bh]
    {
      var found := Lookup(dev, block);
      if found == null {
        bh := Obtain(dev, block);
      } else {
        bh := found;
        assert Synced(bh);
      }
      Store(bh, size, data);
    }

    /** Copies the data into the buffer, which is dirty until it is written through. */
    method Store(bh: BufferHead, size: nat, data: seq<Byte>)
      requires Wired() && bh in members && bh.blockSize == |bh.data| >= sectorSize
      requires 0 < size <= |data| && size <= sectorSize
      requires forall b :: b in members && b != bh ==> Synced(b)
      modifies this`disk, bh`data, bh`state
      ensures Valid() && disk == DirectWrite(old(disk), sectorSize, bh.dev, bh.block, data[..size])
    {
      Padded(disk, sectorSize, bh.dev, bh.block, bh.blockSize, data, size);
      hide Distinct, Elems, Indexed, DirectWrite, Zeros, Sector;
      bh.state := Dirty;
      var n := Min(bh.blockSize, size);
      bh.data := data[..n] + Zeros(bh.blockSize - n);
      WriteThrough(bh, n);
    }

    /** The transfer that makes the buffer clean again. */
    method WriteThrough(bh: BufferHead, n: nat)
      requires Wired() && bh in members && bh.blockSize == |bh.data| >= sectorSize && n <= |bh.data|
      requires bh.state == Dirty
      requires forall b :: b in members && b != bh ==> Synced(b)
      requires DirectWrite(disk, sectorSize, bh.dev, bh.block, bh.data[..n])
        == disk[(bh.dev, bh.block) := bh.data[..sectorSize]]
      modifies this`disk, bh`state
      ensures Valid() && disk == DirectWrite(old(disk), sectorSize, bh.dev, bh.block, bh.data[..n])
    {
      assert forall b :: b in members && b != bh ==> !HasKey(b, bh.dev, bh.block);
      hide Distinct, Elems, Indexed, DirectWrite;
      TransferOut(bh, n);
      bh.state := Clean;
    }

    /** One round of the read loop: a whole block. */
    method ReadOne(dev: nat, block: nat, was: seq<Byte>, ghost blocks: nat, ghost rem: nat) returns (data: seq<Byte>)
      requires Valid() && blocks > 0
      modifies this`disk, this`list, this`count, this`members, table, members
      ensures Valid() && disk == old(disk) && fresh(members - old(members))
      ensures Formatted(disk, sectorSize)
      ensures Onward(data, disk, sectorSize, dev, block + 1, Span(blocks - 1, sectorSize, rem))
           == Onward(was, disk, sectorSize, dev, block, Span(blocks, sectorSize, rem))
    {
      var bh := Read(dev, block);
      data := was + bh.data[..sectorSize];
      ReadStep(disk, sectorSize, dev, block, blocks, rem, was);
    }

    /** The tail of a read: part of one block. */
    method ReadTail(dev: nat, block: nat, was: seq<Byte>, rem: nat) returns (data: seq<Byte>)
      requires Valid() && rem < sectorSize
      modifies this`disk, this`list, this`count, this`members, table, members
      ensures Valid() && disk == old(disk) && fresh(members - old(members))
      ensures Formatted(disk, sectorSize) && data == Onward(was, disk, sectorSize, dev, block, rem)
    {
      var bh := Read(dev, block);
      data := was + bh.data[..rem];
      assert bh.data[..rem] == bh.data[..sectorSize][..rem];
    }

    /** The tail of a write: part of one block. */
    method WriteTail(dev: nat, block: nat, left: seq<Byte>)
      requires Valid() && 0 < |left| < sectorSize
      modifies this`disk, this`list, this`count, this`members, table, members
      ensures Valid() && fresh(members - old(members)) && Formatted(old(disk), sectorSize)
      ensures disk == DirectWrite(old(disk), sectorSize, dev, block, left)
    {
      var bh := Write(dev, block, |left|, left);
      assert left[..|left|] == left;
    }

    /** One round of the write loop: a whole block. */
    method WriteOne(dev: nat, block: nat, data: seq<Byte>, ghost blocks: nat, ghost rem: nat) returns (left: seq<Byte>)
      requires Valid() && blocks > 0 && |data| == Span(blocks, sectorSize, rem)
      modifies this`disk, this`list, this`count, this`members, table, members
      ensures Valid() && fresh(members - old(members))
      ensures Formatted(disk, sectorSize) && Formatted(old(disk), sectorSize)
      ensures |left| == Span(blocks - 1, sectorSize, rem)
      ensures DirectWrite(disk, sectorSize, dev, block + 1, left)
        == DirectWrite(old(disk), sectorSize, dev, block, data)
    {
      assert |data| == Span(blocks - 1, sectorSize, rem) + sectorSize;
      WriteStep(disk, sectorSize, dev, block, data);
      var bh := Write(dev, block, sectorSize, data);
      left := data[sectorSize..];
    }

    /** The loop of block_read_data. */
    method ReadBlocks(dev: nat, block: nat, blocks: nat, ghost rem: nat) returns (at: nat, data: seq<Byte>)
      requires Valid()
      modifies this`disk, this`list, this`count, this`members, table, members
      ensures Valid() && disk == old(disk) && fresh(members - old(members)) && Formatted(disk, sectorSize)
      ensures Onward(data, disk, sectorSize, dev, at, Span(0, sectorSize, rem))
        == Onward([], disk, sectorSize, dev, block, Span(blocks, sectorSize, rem))
    {
      assert Formatted(disk, sectorSize);
      hide Valid, Wired, Took, Absent, Sector, Formatted, DirectRead, DirectWrite, Span, Onward;
      data, at := [], block;
      var left := blocks;
      while left > 0
        invariant Valid() && disk == old(disk) && fresh(members - old(members)) && Formatted(disk, sectorSize)
        invariant Onward(data, disk, sectorSize, dev, at, Span(left, sectorSize, rem))
          == Onward([], disk, sectorSize, dev, block, Span(blocks, sectorSize, rem))
      {
        data := ReadOne(dev, at, data, left, rem);
        at, left := at + 1, left - 1;
      }
    }

    /** block_read_data: what direct sector reads return. */
    method BlockRead(dev: nat, block: nat, size: nat) returns (count: int, data: seq<Byte>)
      requires Valid()
      modifies this`disk, this`list, this`count, this`members, table, members
      ensures Valid() && disk == old(disk) && fresh(members - old(members))
      ensures count == size && data == DirectRead(disk, sectorSize, dev, block, size)
    {
      assert sectorSize > 0 && Formatted(disk, sectorSize);
      OnwardEnds(disk, sectorSize, dev, block, size);
      hide Valid, Wired, Took, Absent, Sector, Formatted, DirectRead, DirectWrite, Span, Onward;
      data := [];
      if size == 0 {
        return 0, data;
      }
      var blocks, rem := Divide(size, sectorSize);
      var at;
      at, data := ReadBlocks(dev, block, blocks, rem);
      if rem > 0 {
        data := ReadTail(dev, at, data, rem);
      }
      count := size;
    }

    /** block_write_data: what direct zero-padded sector writes leave. */
    method BlockWrite(dev: nat, block: nat, data: seq<Byte>) returns (count: int)
      requires Valid()
      modifies this`disk, this`list, this`count, this`members, table, members
      ensures Valid() && disk == DirectWrite(old(disk), sectorSize, dev, block, data) && count == |data|
      ensures fresh(members - old(members))
    {
      assert sectorSize > 0 && Formatted(disk, sectorSize);
      hide Valid, Wired, Took, Absent, Sector, Formatted, DirectRead, DirectWrite, Span;
      if |data| == 0 {
        return 0;
      }
      var blocks: nat, rem: nat := Divide(|data|, sectorSize);
      Untouched(disk, sectorSize, dev, block, rem);
      var at, left;
      at, left, blocks := WriteBlocks(dev, block, data, blocks, rem);
      if rem > 0 {
        WriteTail(dev, at, left);
      }
      return |data| - Span(blocks, sectorSize, 0);
    }

    /** The loop of block_write_data. */
    method WriteBlocks(dev: nat, block: nat, data: seq<Byte>, n: nat, ghost rem: nat)
      returns (at: nat, left: seq<Byte>, blocks: nat)
      requires Valid() && |data| == Span(n, sectorSize, rem)
      modifies this`disk, this`list, this`count, this`members, table, members
      ensures Valid() && fresh(members - old(members)) && blocks == 0 && |left| == Span(0, sectorSize, rem)
      ensures Formatted(disk, sectorSize) && Formatted(old(disk), sectorSize)
      ensures DirectWrite(disk, sectorSize, dev, at, left) == DirectWrite(old(disk), sectorSize, dev, block, data)
    {
      assert Formatted(disk, sectorSize);
      hide Valid, Wired, Took, Absent, Sector, Formatted, DirectRead, DirectWrite, Span;
      at, left, blocks := block, data, n;
      while blocks > 0
        invariant Valid() && fresh(members - old(members)) && |left| == Span(blocks, sectorSize, rem)
        invariant Formatted(disk, sectorSize) && Formatted(old(disk), sectorSize)
        invariant DirectWrite(disk, sectorSize, dev, at, left) == DirectWrite(old(disk), sectorSize, dev, block, data)
      {
        left := WriteOne(dev, at, left, blocks, rem);
        at, blocks := at + 1, blocks - 1;
      }
    }

    /** Any run of reads and writes through the cache replies, and leaves on the disk, what the plain
        disk would. */
    method Run(ops: seq<Op>) returns (replies: seq<seq<Byte>>)
      requires Valid()
      modifies this`disk, this`list, this`count, this`members, table, members
      ensures Valid() && fresh(members - old(members)) && Formatted(old(disk), sectorSize)
      ensures Outcome(disk, replies) == PlainRun(old(disk), sectorSize, ops)
    {
      replies := [];
      assert Formatted(disk, sectorSize);
      hide Valid, Formatted, DirectRead, DirectWrite;
      for i := 0 to |ops|
        invariant Valid() && fresh(members - old(members)) && Formatted(old(disk), sectorSize)
        invariant Outcome(disk, replies) == PlainRun(old(disk), sectorSize, ops[..i])
      {
        assert ops[..i + 1][..i] == ops[..i];
        var count;
        match ops[i] {
          case ReadOp(dev, block, size) =>
            var data;
            count, data := BlockRead(dev, block, size);
            replies := replies + [data];
          case WriteOp(dev, block, data) =>
            count := BlockWrite(dev, block, data);
            replies := replies + [[]];
        }
      }
      assert ops[..|ops|] == ops;
    }
  }

  /** Writing a block or less stores the buffer's first sector. */
  lemma Padded(disk: Disk, s: nat, dev: nat, block: nat, n: nat, data: seq<Byte>, size: nat)
    requires Formatted(disk, s) && 0 < size <= |data| && size <= s <= n
    ensures var buffer := data[..size] + Zeros(n - size);
      buffer[..size] == data[..size]
      && DirectWrite(disk, s, dev, block, data[..size]) == disk[(dev, block) := buffer[..s]]
  {
    assert (data[..size] + Zeros(n - size))[..s] == data[..size] + Zeros(s - size);
  }

  lemma NewElem(s: seq<BufferHead>, b: BufferHead, members: set<BufferHead>)
    requires Elems(s) == members && b !in members
    ensures b !in s
  {
  }

  function Span(blocks: nat, s: nat, rem: nat): nat {
    blocks * s + rem
  }

  /** The whole blocks of a size, and what is left. */
  method Divide(size: nat, s: nat) returns (blocks: nat, rem: nat)
    requires s > 0
    ensures size == Span(blocks, s, rem) && rem < s && Span(0, s, rem) == rem && Span(0, s, 0) == 0
  {
    blocks, rem := size / s, size % s;
  }

  /** What has been read, and what direct reads of the rest return. */
  function Onward(was: seq<Byte>, disk: Disk, s: nat, dev: nat, block: nat, n: nat): seq<Byte>
    requires Formatted(disk, s)
  {
    was + DirectRead(disk, s, dev, block, n)
  }

  lemma OnwardEnds(disk: Disk, s: nat, dev: nat, block: nat, n: nat)
    requires Formatted(disk, s)
    ensures Onward([], disk, s, dev, block, n) == DirectRead(disk, s, dev, block, n)
    ensures DirectRead(disk, s, dev, block, 0) == []
    ensures forall was, b :: Onward(was, disk, s, dev, b, 0) == was
  {
  }

  lemma Untouched(disk: Disk, s: nat, dev: nat, block: nat, rem: nat)
    requires Formatted(disk, s)
    ensures forall d: Disk, b | Formatted(d, s) :: DirectWrite(d, s, dev, b, []) == d
  {
  }

  /** The first sector of a transfer is the block's own. */
  lemma FirstSector(disk: Disk, s: nat, dev: nat, block: nat, n: nat)
    requires Formatted(disk, s) && n >= s
    ensures DirectRead(disk, s, dev, block, n)[..s] == Sector(disk, s, dev, block)
  {
  }

  lemma ReadStep(disk: Disk, s: nat, dev: nat, block: nat, blocks: nat, rem: nat, was: seq<Byte>)
    requires Formatted(disk, s) && blocks > 0
    ensures |Sector(disk, s, dev, block)| == s
    ensures (blocks - 1) * s + rem >= 0
    ensures was + DirectRead(disk, s, dev, block, blocks * s + rem)
         == was + Sector(disk, s, dev, block) + DirectRead(disk, s, dev, block + 1, (blocks - 1) * s + rem)
  {
    assert blocks * s == (blocks - 1) * s + s;
    var rest := DirectRead(disk, s, dev, block + 1, (blocks - 1) * s + rem);
    assert DirectRead(disk, s, dev, block, blocks * s + rem) == Sector(disk, s, dev, block) + rest;
  }

  lemma WriteStep(disk: Disk, s: nat, dev: nat, block: nat, data: seq<Byte>)
    requires Formatted(disk, s) && |data| >= s
    ensures DirectWrite(disk, s, dev, block, data)
      == DirectWrite(DirectWrite(disk, s, dev, block, data[..s]), s, dev, block + 1, data[s..])
  {
    if |data| == s {
      assert data[..s] == data;
    } else {
      assert data[..s] + Zeros(0) == data[..s];
    }
  }
}
