/** kernel/sched.c: the two ways an area gets into a task's red-black tree, sorted insertion
    and the bulk build that keeps a raw link pointer across rebalancing. */
module VmaTree {
  import opened RbShape
  import opened RbLinks
  import opened RbTree

  /** `struct rbtree **`: the pointer field a new node is stored into. */
  datatype Link = RootOf | LeftOf(node: Node) | RightOf(node: Node)

  function SlotOf(k: Ctx): Link {
    if k.Top? then RootOf else if k.side == L then LeftOf(k.node) else RightOf(k.node)
  }

  function Load(r: RbRoot, link: Link): Node?
    reads r, if link.RootOf? then {} else {link.node}
  {
    match link
    case RootOf => r.root
    case LeftOf(n) => n.left
    case RightOf(n) => n.right
  }

  ghost predicate Sorted(w: seq<Node>) {
    forall i, j :: 0 <= i < j < |w| ==> w[i].key <= w[j].key
  }

  /** Every key in `w` is at most `key`; every key in `w` is above `key`. */
  ghost predicate AtMost(w: seq<Node>, key: int) {
    forall i :: 0 <= i < |w| ==> w[i].key <= key
  }

  ghost predicate Beyond(w: seq<Node>, key: int) {
    forall i :: 0 <= i < |w| ==> key < w[i].key
  }

  /** `m'` is `m` with the red childless node `x` stored into the hole of `k`. */
  lemma AttachedAt(m: Mem, m': Mem, root: Node?, root': Node?, k: Ctx, x: Node)
    requires At(m, root, k, Leaf, null) && x !in m && m'.Keys == m.Keys + {x}
    requires m'[x] == Cell(null, null, Above(k, null), Red)
    requires k.Frame? ==> k.node in m && m'[k.node] == SetPtr(k.side, m[k.node], x)
    requires forall n :: n in m && n != Above(k, null) ==> m'[n] == m[n]
    requires root' == if k.Frame? then root else x
    ensures At(m', root', k, Bin(Red, Leaf, x, Leaf), x)
  {
    if k.Frame? { AroundRepaint(m, m', k, null, x, root, null, k.colour); }
  }

  /** `link_vma_rbtree`: store the node through the link, then rebalance. */
  method LinkVma(r: RbRoot, node: Node, parent: Node?, link: Link, ghost k: Ctx)
    requires r.Focus(k, Leaf, null) && CtxOk(k, 0) && node !in r.nodes
    requires parent == Above(k, null) && link == SlotOf(k)
    modifies r, r.nodes, node
    ensures r.Valid() && r.nodes == old(r.nodes) + {node}
    ensures r.Contents() == Before(k) + [node] + After(k)
    ensures k.Frame? && RightSpine(k) ==> EndsWith(r.tree, k.node, node)
  {
    hide At;
    ghost var m := Snapshot(r.nodes);
    Seen(m, r.root, k, Leaf, null, L);
    node.left, node.right, node.parent := null, null, parent;
    node.colour := Red;
    match link {
      case RootOf => r.root := node;
      case LeftOf(n) => n.left := node;
      case RightOf(n) => n.right := node;
    }
    r.nodes := r.nodes + {node};
    AttachedAt(m, Snapshot(r.nodes), old(r.root), r.root, k, node);
    InOrderPlug(k, Bin(Red, Leaf, node, Leaf));
    assert InOrder(Bin(Red, Leaf, node, Leaf)) == [node] by { assert InOrder(Leaf) == []; }
    r.InsertColour(node, k);
  }

  lemma OpenSlot(r: RbRoot, k: Ctx)
    requires r.Valid() && Plug(k, Leaf) == r.tree
    ensures r.Focus(k, Leaf, null) && CtxOk(k, 0) && Before(k) + After(k) == r.Contents()
  {
    Unplug(Snapshot(r.nodes), r.root, k, Leaf);
    var H: nat :| Ok(r.tree, H);
    var h := OkSplit(k, Leaf, H);
    InOrderPlug(k, Leaf);
    assert Before(k) + [] + After(k) == Before(k) + After(k);
  }

  /** Where the search for `key` stands: what is left behind is on the right side of it. */
  ghost predicate Splits(k: Ctx, key: int) {
    AtMost(Before(k), key) && Beyond(After(k), key)
  }

  lemma SortedSides(w: seq<Node>, a: seq<Node>, b: seq<Node>, x: Node, c: seq<Node>, d: seq<Node>, key: int)
    requires w == a + (b + [x] + c) + d && Sorted(w) && AtMost(a, key) && Beyond(d, key)
    ensures key < x.key ==> Beyond([x] + c + d, key)
    ensures x.key <= key ==> AtMost(a + b + [x], key)
  {
    var i := |a| + |b|;
    assert w == (a + b + [x]) + (c + d) && w == (a + b) + ([x] + c + d);
    assert w[i] == x;
    assert forall j :: 0 <= j < |[x] + c + d| ==> ([x] + c + d)[j] == w[i + j];
    assert forall j :: 0 <= j < |a + b + [x]| ==> (a + b + [x])[j] == w[j];
  }

  lemma Descend(s: Side, k: Ctx, t: Tree, key: int)
    requires t.Bin? && Sorted(InOrder(Plug(k, t))) && Splits(k, key) && (s == L <==> key < t.node.key)
    ensures Plug(Sub(s, k, t), Kid(s, t)) == Plug(k, t) && Splits(Sub(s, k, t), key)
  {
    InOrderPlug(k, t);
    SortedSides(InOrder(Plug(k, t)), Before(k), InOrder(t.left), t.node, InOrder(t.right), After(k), key);
  }

  lemma InsertedSorted(a: seq<Node>, x: Node, d: seq<Node>)
    requires Sorted(a + d) && AtMost(a, x.key) && Beyond(d, x.key)
    ensures Sorted(a + [x] + d)
  {
    var w, v := a + d, a + [x] + d;
    forall i, j | 0 <= i < j < |v| ensures v[i].key <= v[j].key {
      if i != |a| && j != |a| {
        var i', j' := if i < |a| then i else i - 1, if j < |a| then j else j - 1;
        assert v[i] == w[i'] && v[j] == w[j'];
      }
    }
  }

  /** Sorted insertion: the node lands after every area whose end is not larger than its own. */
  method InsertRbtree(r: RbRoot, node: Node) returns (ghost i: nat)
    requires r.Valid() && Sorted(r.Contents()) && node !in r.nodes
    modifies r, r.nodes, node
    ensures r.Valid() && r.nodes == old(r.nodes) + {node} && Sorted(r.Contents())
    ensures var w := old(r.Contents());
      && i <= |w| && r.Contents() == w[..i] + [node] + w[i..]
      && (forall j :: 0 <= j < i ==> w[j].key <= node.key) && forall j :: i <= j < |w| ==> node.key < w[j].key
  {
    hide At;
    var link, parent: Node? := RootOf, null;
    ghost var k, t := Top, r.tree;
    var next := r.root;
    Seen(Snapshot(r.nodes), r.root, k, t, next, L);
    while next != null
      modifies {}
      invariant r.Focus(k, t, next) && Plug(k, t) == r.tree && next == Root(t) && (next != null ==> next in r.nodes)
      invariant parent == Above(k, null) && link == SlotOf(k) && Splits(k, node.key)
      decreases t
    {
      parent := next;
      if node.key < next.key {
        Descend(L, k, t, node.key);
        FocusDown(Snapshot(r.nodes), r.root, k, t, next, L);
        UnlinkedSight(Snapshot(r.nodes), r.root, k, t, next, L);
        link := LeftOf(next);
        next := next.left;
        k, t := Sub(L, k, t), t.left;
      } else {
        Descend(R, k, t, node.key);
        FocusDown(Snapshot(r.nodes), r.root, k, t, next, R);
        UnlinkedSight(Snapshot(r.nodes), r.root, k, t, next, R);
        link := RightOf(next);
        next := next.right;
        k, t := Sub(R, k, t), t.right;
      }
    }
    OpenSlot(r, k);
    i := |Before(k)|;
    InsertedSorted(Before(k), node, After(k));
    LinkVma(r, node, parent, link, k);
  }

  /** The slot right of the last node in order. */
  lemma {:induction false} LastSlot(t: Tree) returns (k: Ctx)
    requires t.Bin?
    ensures Plug(k, Leaf) == t && RightSpine(k) && k.Frame? && After(k) == [] && k.node == InOrder(t)[|InOrder(t)| - 1]
    decreases t
  {
    if t.right.Leaf? {
      k := Sub(R, Top, t);
    } else {
      k := LastSlot(t.right);
      var o := Sub(R, Top, t);
      PlugAppend(k, o, Leaf);
      SpineAppend(k, o);
      k := Append(k, o);
    }
  }

  lemma {:induction false} SpineAppend(k: Ctx, o: Ctx)
    requires RightSpine(k) && RightSpine(o)
    ensures RightSpine(Append(k, o)) && After(Append(k, o)) == After(k) + After(o)
  {
    if k.Frame? { SpineAppend(k.up, o); } else { assert After(o) == [] + After(o); }
  }

  lemma {:induction false} EndsWithLinks(m: Mem, t: Tree, x: Node?, p: Node?, a: Node, z: Node)
    requires Linked(m, t, x, p) && EndsWith(t, a, z)
    ensures a in m && m[a].right == z
  {
    LinkedKids(m, t, x, p, L);
    if t.node == a && t.right.Bin? && t.right == Bin(t.right.colour, Leaf, z, Leaf) {
      LinkedShows(m, t.right, m[a].right, a);
    } else {
      EndsWithLinks(m, t.right, m[t.node].right, t.node, a, z);
    }
  }

  /** After any rebalancing the link the last node was stored through still holds that node. */
  lemma LinkStillLast(r: RbRoot, k: Ctx, node: Node)
    requires r.Valid() && r.Contents() == Before(k) + [node] && RightSpine(k)
    requires k.Frame? ==> EndsWith(r.tree, k.node, node)
    requires k.Top? ==> Before(k) == []
    ensures k.Frame? ==> k.node in r.nodes
    ensures Load(r, SlotOf(k)) == node
  {
    if k.Frame? {
      EndsWithLinks(Snapshot(r.nodes), r.tree, r.root, null, k.node, node);
    } else {
      LinkedShows(Snapshot(r.nodes), r.tree, r.root, null);
      assert |InOrder(r.tree)| == 1;
      assert r.tree.Bin?;
      assert r.tree.node in InOrder(r.tree);
    }
  }

  /** The slot a bulk build appends to: rightmost, or the root of an empty tree. */
  ghost predicate Tail(r: RbRoot, k: Ctx)
    reads r, r.nodes
  {
    r.Valid() && Plug(k, Leaf) == r.tree && RightSpine(k) && After(k) == [] && (k.Top? ==> r.Contents() == [])
  }

  /** One round of the bulk build. */
  method AppendVma(r: RbRoot, node: Node, parent: Node?, link: Link, ghost k: Ctx)
    returns (parent': Node?, link': Link, ghost k': Ctx)
    requires Tail(r, k) && node !in r.nodes && parent == Above(k, null) && link == SlotOf(k)
    modifies r, r.nodes, node
    ensures Tail(r, k') && parent' == node == Above(k', null) && link' == SlotOf(k') == RightOf(node)
    ensures r.Contents() == old(r.Contents()) + [node] && r.nodes == old(r.nodes) + {node}
  {
    hide At;
    OpenSlot(r, k);
    assert r.Contents() == Before(k) by { assert Before(k) + [] == Before(k); }
    LinkVma(r, node, parent, link, k);
    assert r.Contents() == Before(k) + [node] by { assert Before(k) + [node] + [] == Before(k) + [node]; }
    LinkStillLast(r, k, node);
    parent' := Load(r, link);
    link' := RightOf(parent');
    k' := LastSlot(r.tree);
  }

  /** The bulk build over the address-ordered list of areas. */
  method LinkVmas(r: RbRoot, vmas: seq<Node>)
    requires r.Valid() && r.root == null && r.tree == Leaf && r.nodes == {}
    requires forall i, j :: 0 <= i < j < |vmas| ==> vmas[i] != vmas[j]
    modifies r, vmas
    ensures r.Valid() && r.Contents() == vmas && r.nodes == set n | n in vmas
  {
    hide At, Linked, Around;
    var parent: Node?, link := null, RootOf;
    ghost var k := Top;
    for i := 0 to |vmas|
      invariant Tail(r, k) && r.Contents() == vmas[..i] && r.nodes == set n | n in vmas[..i]
      invariant parent == Above(k, null) && link == SlotOf(k)
    {
      parent, link, k := AppendVma(r, vmas[i], parent, link, k);
    }
  }
}
