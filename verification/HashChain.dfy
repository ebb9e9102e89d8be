/** include/mir/data_str/myhash.h: chains whose nodes know the pointer that points at them. */
module HashChain {

  import opened DList

  /** What `pprev` points to: the head of a bucket, or the `next` field of a node. */
  datatype Slot = Nowhere | Bucket(key: nat) | NextOf(node: HashNode)

  class HashNode {
    var next: HashNode?
    var pprev: Slot

    constructor ()
      ensures next == null && pprev == Nowhere
    {
      next, pprev := null, Nowhere;
    }
  }

  function At(c: seq<HashNode>, i: nat): HashNode? {
    if i < |c| then c[i] else null
  }

  /** The slot that leads to place `i` of the chain. */
  function SlotAt(c: seq<HashNode>, key: nat, i: nat): Slot
    requires i <= |c|
  {
    if i == 0 then Bucket(key) else NextOf(c[i - 1])
  }

  ghost predicate Hooked(c: seq<HashNode>, key: nat, i: nat)
    requires i < |c|
    reads c[i]
  {
    c[i].next == At(c, i + 1) && c[i].pprev == SlotAt(c, key, i)
  }

  /** From `head` the nodes of `c` follow one another, each pointing back at what points at it. */
  ghost predicate Chained(head: HashNode?, key: nat, c: seq<HashNode>)
    reads c
  {
    head == At(c, 0) && Distinct(c) && forall i :: 0 <= i < |c| ==> Hooked(c, key, i)
  }

  class HashTable {
    const size: nat
    var table: array<HashNode?>
    ghost var chains: seq<seq<HashNode>>
    ghost var nodes: set<HashNode>

    ghost predicate Placed()
      reads this
    {
      && |chains| == size == table.Length
      && (forall k, i :: 0 <= k < size && 0 <= i < |chains[k]| ==> chains[k][i] in nodes)
      && (forall j, k, x :: 0 <= j < k < size && x in chains[j] ==> x !in chains[k])
    }

    ghost predicate Valid()
      reads this, table, nodes
    {
      Placed() && forall k :: 0 <= k < size ==> Chained(table[k], k, chains[k])
    }

    /** init_hash. */
    constructor (size: nat)
      ensures Valid() && this.size == size && fresh(table) && nodes == {}
      ensures forall k :: 0 <= k < size ==> chains[k] == []
    {
      this.size := size;
      table := new HashNode?[size](_ => null);
      chains := seq(size, _ => []);
      nodes := {};
    }

    /** add_hash: at the head of the chain. */
    method Add(node: HashNode, key: nat) returns (err: int)
      requires Valid() && node !in nodes
      modifies this`chains, this`nodes, table, node, nodes
      ensures Valid() && err == if key < size then 0 else -1
      ensures err == 0 ==> chains == old(chains)[key := [node] + old(chains)[key]] && nodes == old(nodes) + {node}
      ensures err != 0 ==> chains == old(chains) && nodes == old(nodes)
    {
      if key >= size {
        return -1;
      }
      Unshared(key);
      hide Chained;
      ghost var c := chains[key];
      AddChain(node, key, c);
      chains := chains[key := [node] + c];
      nodes := nodes + {node};
      forall k | 0 <= k < size && k != key ensures Chained(table[k], k, chains[k]) {
        assert old(Chained(table[k], k, chains[k]));
      }
      err := 0;
    }

    /** What add_hash does to one chain. */
    method AddChain(node: HashNode, key: nat, ghost c: seq<HashNode>)
      requires key < table.Length && Chained(table[key], key, c) && node !in c
      modifies table, node, c
      ensures Chained(table[key], key, [node] + c)
      ensures forall k :: 0 <= k < table.Length && k != key ==> table[k] == old(table[k])
    {
      node.next := null;
      node.pprev := Nowhere;
      node.next := table[key];
      if node.next != null {
        node.next.pprev := NextOf(node);
      }
      node.pprev := Bucket(key);
      table[key] := node;
      PrependMembers(c, node);
      ghost var d := [node] + c;
      forall i | 0 <= i < |d| ensures Hooked(d, key, i) {
        if i > 0 { assert old(Hooked(c, key, i - 1)); }
      }
    }

    /** Another chain has none of this one's nodes. */
    lemma Unshared(key: nat)
      requires Placed() && key < size
      ensures forall k, i :: 0 <= k < size && k != key && 0 <= i < |chains[k]| ==> chains[k][i] !in chains[key]
      ensures forall i :: 0 <= i < |chains[key]| ==> chains[key][i] in nodes
    {
      forall k, i | 0 <= k < size && k != key && 0 <= i < |chains[k]| ensures chains[k][i] !in chains[key] {
        var x := chains[k][i];
        assert x in chains[k];
      }
    }

    /** del_hash: what points at the node comes to point at its successor, wherever the node is. */
    method Del(node: HashNode, ghost key: nat)
      requires Valid() && key < size && node in chains[key]
      modifies this`chains, table, nodes
      ensures Valid() && chains == old(chains)[key := Without(old(chains)[key], node)]
      ensures node.next == null && node.pprev == Nowhere
    {
      Unshared(key);
      hide Chained;
      ghost var c := chains[key];
      DelChain(node, key, c);
      InWithoutAll(c, node);
      chains := chains[key := Without(c, node)];
      forall k | 0 <= k < size && k != key ensures Chained(table[k], k, chains[k]) {
        assert old(Chained(table[k], k, chains[k]));
      }
    }

    /** What del_hash does to the node's chain. */
    method DelChain(node: HashNode, ghost key: nat, ghost c: seq<HashNode>)
      requires key < table.Length && Chained(table[key], key, c) && node in c
      modifies table, c
      ensures Chained(table[key], key, Without(c, node)) && Distinct(c)
      ensures forall k :: 0 <= k < table.Length && k != key ==> table[k] == old(table[k])
      ensures node.next == null && node.pprev == Nowhere
    {
      ghost var p :| 0 <= p < |c| && c[p] == node;
      assert Hooked(c, key, p);
      if p + 1 < |c| { assert Hooked(c, key, p + 1); }
      if p > 0 { assert Hooked(c, key, p - 1); }
      WithoutAt(c, p);
      WithoutMembers(c, node);
      ghost var d := Without(c, node);
      hide Without, Elems;
      if node.next != null {
        node.next.pprev := node.pprev;
      }
      match node.pprev {
        case Bucket(k) => table[k] := node.next;
        case NextOf(before) => before.next := node.next;
      }
      node.next := null;
      node.pprev := Nowhere;
      forall i | 0 <= i < |d| ensures Hooked(d, key, i) {
        if i < p { assert old(Hooked(c, key, i)); } else { assert old(Hooked(c, key, i + 1)); }
      }
    }

    /** search_hash: the first node of the chain that matches. */
    method Search(key: nat, matching: set<HashNode>) returns (found: HashNode?)
      requires Valid()
      ensures found != null ==>
        && key < size && found in matching
        && exists i :: 0 <= i < |chains[key]| && found == chains[key][i] && forall j :: 0 <= j < i ==>
          chains[key][j] !in matching
      ensures found == null && key < size ==> forall i :: 0 <= i < |chains[key]| ==> chains[key][i] !in matching
    {
      if key >= size {
        return null;
      }
      ghost var c := chains[key];
      assert Chained(table[key], key, c);
      found := table[key];
      ghost var i := 0;
      while found != null
        invariant 0 <= i <= |c| && found == At(c, i) && forall j :: 0 <= j < i ==> c[j] !in matching
        decreases |c| - i
      {
        if found in matching {
          return;
        }
        assert Hooked(c, key, i);
        found := found.next;
        i := i + 1;
      }
    }

    lemma InWithoutAll(c: seq<HashNode>, node: HashNode)
      requires Distinct(c)
      ensures forall i :: 0 <= i < |Without(c, node)| ==> Without(c, node)[i] in c
    {
      forall i | 0 <= i < |Without(c, node)|
        ensures Without(c, node)[i] in c { InWithout(c, node, Without(c, node)[i]); }
    }
  }
}
