/** utils/rbtree.c: rotations and insertion fix-up over linked, mutable nodes. */
module RbTree {
  import opened RbShape
  import opened RbLinks

  class RbRoot {
    var root: Node?
    ghost var nodes: set<Node>
    ghost var tree: Tree

    /** The nodes form a red-black tree whose shape is `tree`. */
    ghost predicate Valid()
      reads this, nodes
    {
      Focus(Top, tree, root) && RedBlack(tree)
    }

    ghost function Contents(): seq<Node>
      reads this
    {
      InOrder(tree)
    }

    /** `t` hangs below `x` at the hole of `k`; together they are all the nodes of this tree. */
    ghost predicate Focus(k: Ctx, t: Tree, x: Node?)
      reads this, nodes
    {
      At(Snapshot(nodes), root, k, t, x)
    }

    /** The empty tree. */
    constructor ()
      ensures Valid() && Contents() == [] && nodes == {}
    {
      root, nodes, tree := null, {}, Leaf;
      new;
      assert Ok(Leaf, 0);
    }

    method RotateLeft(node: Node, ghost k: Ctx, ghost t: Tree)
      requires Focus(k, t, node) && t.Bin? && t.right.Bin?
      modifies this`root, nodes
      ensures Focus(k, Rot(L, t), t.right.node)
      ensures InOrder(Rot(L, t)) == InOrder(t)
    {
      ghost var m := Snapshot(nodes);
      PivotAt(m, root, L, k, t, node);
      var right := node.right;
      node.right := right.left;
      if node.right != null {
        right.left.parent := node;
      }
      right.parent := node.parent;
      if right.parent != null {
        if node == node.parent.left {
          node.parent.left := right;
        } else {
          node.parent.right := right;
        }
      } else {
        root := right;
      }
      node.parent := right;
      right.left := node;
      TurnedAt(m, Snapshot(nodes), old(root), root, L, k, t, node);
    }

    method RotateRight(node: Node, ghost k: Ctx, ghost t: Tree)
      requires Focus(k, t, node) && t.Bin? && t.left.Bin?
      modifies this`root, nodes
      ensures Focus(k, Rot(R, t), t.left.node)
      ensures InOrder(Rot(R, t)) == InOrder(t)
    {
      ghost var m := Snapshot(nodes);
      PivotAt(m, root, R, k, t, node);
      var left := node.left;
      node.left := left.right;
      if node.left != null {
        left.right.parent := node;
      }
      left.parent := node.parent;
      if left.parent != null {
        if node == node.parent.left {
          node.parent.left := left;
        } else {
          node.parent.right := left;
        }
      } else {
        root := left;
      }
      left.right := node;
      node.parent := left;
      TurnedAt(m, Snapshot(nodes), old(root), root, R, k, t, node);
    }
  
    ghost predicate Ascending(k: Ctx, t: Tree, x: Node, h: nat)
      reads this, nodes
    {
      Focus(k, t, x) && x in nodes && t.Bin? && t.colour == Red && Ok(t, h) && CtxOk(k, h)
    }

    ghost function Lifted(k: Ctx, t: Tree): Tree
      requires k.Frame? && k.up.Frame? && k.up.sib.Bin?
    {
      Join(k.up.side, Red, k.up.node, Join(k.side, Black, k.node, t, k.sib), k.up.sib.(colour := Black))
    }

    lemma LiftOk(k: Ctx, t: Tree, h: nat)
      requires k.Frame? && k.up.Frame? && k.up.sib.Bin? && Ok(t, h) && CtxOk(k, h) && k.colour == Red
      requires k.up.sib.colour == Red
      ensures Depth(k.up.up) < Depth(k)
      ensures Ok(Lifted(k, t), h + 1) && CtxOk(k.up.up, h + 1)
      ensures InOrder(Plug(k.up.up, Lifted(k, t))) == InOrder(Plug(k, t))
    {
      SameInside(k.up.up, Lifted(k, t), Over(k.up, Over(k, t)));
    }

    /** Case 2: the node is the inner grandchild; rotating its parent outwards makes the
        parent the outer grandchild. */
    ghost function InnerCtx(k: Ctx, t: Tree): Ctx
      requires k.Frame? && k.up.Frame? && t.Bin?
    {
      Frame(k.up.side, t.colour, t.node, Kid(Flip(k.up.side), t), k.up)
    }

    ghost function InnerTree(k: Ctx, t: Tree): Tree
      requires k.Frame? && k.up.Frame? && t.Bin?
    {
      Join(k.up.side, k.colour, k.node, k.sib, Kid(k.up.side, t))
    }

    lemma InnerOk(k: Ctx, t: Tree, h: nat)
      requires k.Frame? && k.up.Frame? && k.side != k.up.side && t.Bin?
      requires Ok(t, h) && CtxOk(k, h) && k.colour == Red && t.colour == Red
      ensures Ok(InnerTree(k, t), h) && CtxOk(InnerCtx(k, t), h) && Depth(InnerCtx(k, t)) == Depth(k)
      ensures var r := Rot(k.up.side, Over(k, t));
        r.Bin? && Sub(k.up.side, k.up, r) == InnerCtx(k, t) && Kid(k.up.side, r) == InnerTree(k, t) && r.node == t.node
      ensures InOrder(Plug(InnerCtx(k, t), InnerTree(k, t))) == InOrder(Plug(k, t))
    {
      var r := Rot(k.up.side, Over(k, t));
      assert InOrder(r) == InOrder(Over(k, t)) by { RotOrder(k.up.side, Over(k, t)); }
      SameInside(k.up, r, Over(k, t));
    }

    /** Case 3: the node is the outer grandchild; its parent takes the grandparent's place. */
    ghost function OuterCtx(k: Ctx): Ctx
      requires k.Frame? && k.up.Frame?
    {
      Frame(k.side, Black, k.node, Join(Flip(k.side), Red, k.up.node, k.up.sib, k.sib), k.up.up)
    }

    lemma OuterOk(k: Ctx, t: Tree, h: nat)
      requires k.Frame? && k.up.Frame? && k.side == k.up.side && t.Bin?
      requires Ok(t, h) && CtxOk(k, h) && k.colour == Red && t.colour == Red && IsBlack(k.up.sib)
      ensures CtxOk(OuterCtx(k), h) && Depth(OuterCtx(k)) < Depth(k)
      ensures var g := Join(k.side, Red, k.up.node, Join(k.side, Black, k.node, t, k.sib), k.up.sib);
        var r := Rot(Flip(k.side), g);
        r.Bin? && Sub(k.side, k.up.up, r) == OuterCtx(k) && Kid(k.side, r) == t && r.node == k.node
      ensures InOrder(Plug(OuterCtx(k), t)) == InOrder(Plug(k, t))
    {
      var g := Join(k.side, Red, k.up.node, Join(k.side, Black, k.node, t, k.sib), k.up.sib);
      RotOrder(Flip(k.side), g);
      SameInside(k.up.up, Rot(Flip(k.side), g), Over(k.up, Over(k, t)));
    }

    /** Case 1 of both fix-up halves: the uncle is red. */
    method BlackenSons(parent: Node, uncle: Node, gparent: Node, ghost s: Side, ghost k: Ctx, ghost g: Tree)
      requires Focus(k, g, gparent) && g.Bin? && Kid(s, g).Bin? && Kid(Flip(s), g).Bin?
      requires parent == Kid(s, g).node && uncle == Kid(Flip(s), g).node && {parent, uncle, gparent} <= nodes
      modifies nodes`colour
      ensures Focus(k, Join(s, Red, gparent, Kid(s, g).(colour := Black), Kid(Flip(s), g).(colour := Black)), gparent)
    {
      ghost var m := Snapshot(nodes);
      uncle.colour := Black;
      PaintKid(m, Snapshot(nodes), root, k, g, gparent, Flip(s), uncle, Black);
      BlackenSon(parent, gparent, s, k, PaintedKid(Flip(s), g, Black));
    }

    /** The recolouring of cases 1 and 3: parent black, grandparent red. */
    method BlackenSon(parent: Node, gparent: Node, ghost s: Side, ghost k: Ctx, ghost g: Tree)
      requires Focus(k, g, gparent) && g.Bin? && Kid(s, g).Bin?
      requires parent == Kid(s, g).node && {parent, gparent} <= nodes
      modifies nodes`colour
      ensures Focus(k, Join(s, Red, gparent, Kid(s, g).(colour := Black), Kid(Flip(s), g)), gparent)
    {
      ghost var m := Snapshot(nodes);
      parent.colour := Black;
      PaintKid(m, Snapshot(nodes), root, k, g, gparent, s, parent, Black);
      m := Snapshot(nodes);
      gparent.colour := Red;
      Paint(m, Snapshot(nodes), root, k, PaintedKid(s, g, Black), gparent, Red);
    }

    /** Case 1: parent and uncle turn black, the grandparent red and becomes the next node. */
    method Lift(node: Node, parent: Node, uncle: Node, gparent: Node, ghost k: Ctx, ghost t: Tree, ghost h: nat)
      requires Climbing(k, t, node, h) && parent == k.node && gparent == k.up.node
      requires k.up.sib.Bin? && uncle == k.up.sib.node && k.up.sib.colour == Red
      modifies nodes`colour
      ensures Ascending(k.up.up, Lifted(k, t), gparent, h + 1) && Depth(k.up.up) < Depth(k)
      ensures InOrder(Plug(k.up.up, Lifted(k, t))) == InOrder(Plug(k, t))
    {
      Grandparent(Snapshot(nodes), root, k, t, node, h);
      BlackenSons(parent, uncle, gparent, k.up.side, k.up.up, Over(k.up, Over(k, t)));
      LiftOk(k, t, h);
    }

    ghost predicate Climbing(k: Ctx, t: Tree, x: Node, h: nat)
      reads this, nodes
    {
      Ascending(k, t, x, h) && k.Frame? && k.colour == Red && k.up.Frame?
    }

    lemma LiftTrailing(k: Ctx, t: Tree, p: Node, x: Node)
      requires k.Frame? && k.up.Frame? && k.up.sib.Bin? && Trailing(k, t, p, x)
      ensures Trailing(k.up.up, Lifted(k, t), p, x)
    {
      assert RightSpine(k.up);
      assert EndsWith(Join(R, Black, k.node, t, k.sib), p, x);
    }

    lemma OuterTrailing(k: Ctx, t: Tree, p: Node, x: Node)
      requires k.Frame? && k.up.Frame? && Trailing(k, t, p, x)
      ensures k.side == k.up.side && Trailing(OuterCtx(k), t, p, x)
    {
      assert RightSpine(k.up);
    }

    /** Cases 2 and 3 when the parent is a left child. */
    method SettleLeft(n: Node, p: Node, gparent: Node, ghost k0: Ctx, ghost t0: Tree, ghost h: nat)
      returns (node: Node, ghost k: Ctx, ghost t: Tree)
      requires Climbing(k0, t0, n, h) && p == k0.node && gparent == k0.up.node && k0.up.side == L && IsBlack(k0.up.sib)
      modifies this`root, nodes
      ensures Ascending(k, t, node, h) && Depth(k) < Depth(k0)
      ensures InOrder(Plug(k, t)) == InOrder(Plug(k0, t0))
      ensures k0.side == k0.up.side ==> k == OuterCtx(k0) && t == t0
    {
      hide At;
      var parent := p;
      node := n;
      k, t := k0, t0;
      Grandparent(Snapshot(nodes), root, k, t, node, h);
      if parent.right == node {
        RotateLeft(parent, k.up, Over(k, t));
        InnerOk(k, t, h);
        FocusDown(Snapshot(nodes), root, k.up, Rot(L, Over(k, t)), node, L);
        node, parent := parent, node;
        k, t := InnerCtx(k, t), InnerTree(k, t);
        Grandparent(Snapshot(nodes), root, k, t, node, h);
      }
      assert k.side == L && gparent == k.up.node && parent == k.node && k.up.side == L;
      BlackenSon(parent, gparent, L, k.up.up, Over(k.up, Over(k, t)));
      ghost var g := Join(L, Red, gparent, Over(k, t).(colour := Black), k.up.sib);
      RotateRight(gparent, k.up.up, g);
      OuterOk(k, t, h);
      FocusDown(Snapshot(nodes), root, k.up.up, Rot(R, g), parent, L);
      k := OuterCtx(k);
    }

    /** Cases 2 and 3 when the parent is a right child. */
    method SettleRight(n: Node, p: Node, gparent: Node, ghost k0: Ctx, ghost t0: Tree, ghost h: nat)
      returns (node: Node, ghost k: Ctx, ghost t: Tree)
      requires Climbing(k0, t0, n, h) && p == k0.node && gparent == k0.up.node && k0.up.side == R && IsBlack(k0.up.sib)
      modifies this`root, nodes
      ensures Ascending(k, t, node, h) && Depth(k) < Depth(k0)
      ensures InOrder(Plug(k, t)) == InOrder(Plug(k0, t0))
      ensures k0.side == k0.up.side ==> k == OuterCtx(k0) && t == t0
    {
      hide At;
      var parent := p;
      node := n;
      k, t := k0, t0;
      Grandparent(Snapshot(nodes), root, k, t, node, h);
      if parent.left == node {
        RotateRight(parent, k.up, Over(k, t));
        InnerOk(k, t, h);
        FocusDown(Snapshot(nodes), root, k.up, Rot(R, Over(k, t)), node, R);
        node, parent := parent, node;
        k, t := InnerCtx(k, t), InnerTree(k, t);
        Grandparent(Snapshot(nodes), root, k, t, node, h);
      }
      assert k.side == R && gparent == k.up.node && parent == k.node && k.up.side == R;
      BlackenSon(parent, gparent, R, k.up.up, Over(k.up, Over(k, t)));
      ghost var g := Join(R, Red, gparent, Over(k, t).(colour := Black), k.up.sib);
      RotateLeft(gparent, k.up.up, g);
      OuterOk(k, t, h);
      FocusDown(Snapshot(nodes), root, k.up.up, Rot(L, g), parent, R);
      k := OuterCtx(k);
    }

    /** What the loop guards read at the focus. */
    ghost predicate Reads(k: Ctx, t: Tree, x: Node)
      reads this, nodes
    {
      && (x == root <==> k.Top?)
      && (k.Frame? ==> k.node in nodes && x in nodes && x.parent == k.node && k.node.colour == k.colour)
    }

    lemma See(k: Ctx, t: Tree, x: Node)
      requires Focus(k, t, x) && x in nodes
      ensures Reads(k, t, x)
    {
      Seen(Snapshot(nodes), root, k, t, x, L);
    }

    method InsertColour(x: Node, ghost k0: Ctx)
      requires Focus(k0, Bin(Red, Leaf, x, Leaf), x) && x in nodes && CtxOk(k0, 0)
      modifies this, nodes
      ensures Valid() && nodes == old(nodes) && Contents() == InOrder(Plug(k0, Bin(Red, Leaf, x, Leaf)))
      ensures k0.Frame? && RightSpine(k0) ==> EndsWith(tree, k0.node, x)
    {
      hide At;
      var node: Node := x;
      ghost var k, t, h := k0, Bin(Red, Leaf, x, Leaf), 0;
      See(k, t, node);
      assert Ok(t, h) by { assert Ok(Leaf, 0); }
      while node != root && node.parent.colour == Red
        invariant Ascending(k, t, node, h) && Reads(k, t, node)
        invariant InOrder(Plug(k, t)) == InOrder(Plug(k0, Bin(Red, Leaf, x, Leaf)))
        invariant k0.Frame? && RightSpine(k0) ==> Trailing(k, t, k0.node, x)
        invariant nodes == old(nodes)
        decreases Depth(k)
      {
        Grandparent(Snapshot(nodes), root, k, t, node, h);
        var parent := node.parent;
        var gparent := parent.parent;
        ghost var spine := k0.Frame? && RightSpine(k0);
        if spine { OuterTrailing(k, t, k0.node, x); }
        if parent == gparent.left {
          if gparent.right != null && gparent.right.colour == Red {
            Lift(node, parent, gparent.right, gparent, k, t, h);
            node := gparent;
            k, t, h := k.up.up, Lifted(k, t), h + 1;
            See(k, t, node);
            continue;
          }
          node, k, t := SettleLeft(node, parent, gparent, k, t, h);
          See(k, t, node);
        } else {
          if gparent.left != null && gparent.left.colour == Red {
            Lift(node, parent, gparent.left, gparent, k, t, h);
            node := gparent;
            if spine { LiftTrailing(k, t, k0.node, x); }
            k, t, h := k.up.up, Lifted(k, t), h + 1;
            See(k, t, node);
            continue;
          }
          node, k, t := SettleRight(node, parent, gparent, k, t, h);
          See(k, t, node);
        }
      }
      if k0.Frame? && RightSpine(k0) { TrailingPlug(k, t, k0.node, x); }
      BlackenRoot(node, k, t, h);
    }

    /** The last statement of the fix-up. */
    method BlackenRoot(node: Node, ghost k: Ctx, ghost t: Tree, ghost h: nat)
      requires Ascending(k, t, node, h) && (k.Frame? ==> k.colour == Black)
      modifies this`tree, nodes`colour
      ensures Plug(k, t).Bin? && tree == Plug(k, t).(colour := Black) && Valid() && Contents() == InOrder(Plug(k, t))
    {
      ghost var m, w := Snapshot(nodes), Plug(k, t);
      PlugAt(m, root, k, t, node);
      Seen(m, root, Top, w, root, L);
      root.colour := Black;
      Paint(m, Snapshot(nodes), root, Top, w, root, Black);
      if k.Top? {
        BlackRoot(t, h);
      } else {
        OkPlug(k, t, h);
      }
      tree := w.(colour := Black);
    }
  
    // -------------------------------------------------------------- erase

    /** The subtree at the hole is one black node short; a red root may have red children. */
    ghost predicate Short(t: Tree, h: nat) {
      if IsBlack(t) then Ok(t, h) else Ok(t.(colour := Black), h + 1)
    }

    ghost predicate Sinking(k: Ctx, t: Tree, x: Node?, h: nat)
      reads this, nodes
    {
      Focus(k, t, x) && Short(t, h) && CtxOk(k, h + 1)
    }

    static ghost function RaisedCtx(k: Ctx): Ctx
      requires k.Frame? && k.sib.Bin?
    {
      Frame(k.side, Red, k.node, Kid(k.side, k.sib), Frame(k.side, Black, k.sib.node, Kid(Flip(k.side), k.sib), k.up))
    }

    lemma RaisedOk(k: Ctx, t: Tree, h: nat)
      requires k.Frame? && CtxOk(k, h + 1) && k.sib.Bin? && k.sib.colour == Red
      ensures k.colour == Black && RaisedCtx(k).sib.Bin? && RaisedCtx(k).sib.colour == Black
      ensures CtxOk(RaisedCtx(k), h + 1)
      ensures var g := Join(k.side, Red, k.node, t, k.sib.(colour := Black));
        var r := Rot(k.side, g); r == Over(RaisedCtx(k).up, Over(RaisedCtx(k), t)) && r.node == k.sib.node && r.Bin?
      ensures InOrder(Plug(RaisedCtx(k), t)) == InOrder(Plug(k, t))
    {
      var g := Join(k.side, Red, k.node, t, k.sib.(colour := Black));
      assert Ok(Kid(k.side, k.sib), h + 1);
      RotOrder(k.side, g);
      SameInside(k.up, Rot(k.side, g), Over(k, t));
    }

    /** The colour changes before `parent` is rotated below a red brother. */
    method SwapColours(parent: Node, brother: Node, ghost k: Ctx, ghost t: Tree, ghost x: Node?)
      requires Focus(k, t, x) && k.Frame? && k.sib.Bin? && parent == k.node && brother == k.sib.node
      requires {parent, brother} <= nodes
      modifies nodes`colour
      ensures Focus(k.up, Join(k.side, Red, parent, t, k.sib.(colour := Black)), parent)
    {
      ghost var m := Snapshot(nodes);
      FocusUp(m, root, k, t, x);
      brother.colour := Black;
      PaintKid(m, Snapshot(nodes), root, k.up, Over(k, t), parent, Flip(k.side), brother, Black);
      m := Snapshot(nodes);
      parent.colour := Red;
      Paint(m, Snapshot(nodes), root, k.up, PaintedKid(Flip(k.side), Over(k, t), Black), parent, Red);
    }

    /** A red brother: after one rotation the parent is red and the new brother black. */
    method RaiseBrotherLeft(parent: Node, brother: Node, ghost k: Ctx, ghost t: Tree, ghost x: Node?, ghost h: nat)
      requires Focus(k, t, x) && x == Root(t) && CtxOk(k, h + 1) && k.Frame? && k.sib.Bin? && k.sib.colour == Red
      requires k.side == L
      requires parent == k.node && brother == k.sib.node && {parent, brother} <= nodes
      modifies this`root, nodes
      ensures Focus(RaisedCtx(k), t, x) && CtxOk(RaisedCtx(k), h + 1) && k.colour == Black
      ensures RaisedCtx(k).sib.Bin? && RaisedCtx(k).sib.colour == Black
      ensures InOrder(Plug(RaisedCtx(k), t)) == InOrder(Plug(k, t))
    {
      hide At;
      SwapColours(parent, brother, k, t, x);
      RaisedOk(k, t, h);
      RotateLeft(parent, k.up, Join(L, Red, parent, t, k.sib.(colour := Black)));
      BackDown(Snapshot(nodes), root, RaisedCtx(k).up, Over(RaisedCtx(k), t));
      BackDown(Snapshot(nodes), root, RaisedCtx(k), t);
    }

    method RaiseBrotherRight(parent: Node, brother: Node, ghost k: Ctx, ghost t: Tree, ghost x: Node?, ghost h: nat)
      requires Focus(k, t, x) && x == Root(t) && CtxOk(k, h + 1) && k.Frame? && k.sib.Bin? && k.sib.colour == Red
      requires k.side == R
      requires parent == k.node && brother == k.sib.node && {parent, brother} <= nodes
      modifies this`root, nodes
      ensures Focus(RaisedCtx(k), t, x) && CtxOk(RaisedCtx(k), h + 1) && k.colour == Black
      ensures RaisedCtx(k).sib.Bin? && RaisedCtx(k).sib.colour == Black
      ensures InOrder(Plug(RaisedCtx(k), t)) == InOrder(Plug(k, t))
    {
      hide At;
      SwapColours(parent, brother, k, t, x);
      RaisedOk(k, t, h);
      RotateRight(parent, k.up, Join(R, Red, parent, t, k.sib.(colour := Black)));
      BackDown(Snapshot(nodes), root, RaisedCtx(k).up, Over(RaisedCtx(k), t));
      BackDown(Snapshot(nodes), root, RaisedCtx(k), t);
    }

    static ghost function Shaded(k: Ctx, t: Tree): Tree
      requires k.Frame? && k.sib.Bin?
    {
      Join(k.side, k.colour, k.node, t, k.sib.(colour := Red))
    }

    lemma ShadedOk(k: Ctx, t: Tree, h: nat)
      requires k.Frame? && CtxOk(k, h + 1) && Ok(t, h) && IsBlack(t) && k.sib.Bin? && k.sib.colour == Black
      requires IsBlack(k.sib.left) && IsBlack(k.sib.right)
      ensures var h' := if k.colour == Black then h + 1 else h; Short(Shaded(k, t), h') && CtxOk(k.up, h' + 1)
      ensures InOrder(Plug(k.up, Shaded(k, t))) == InOrder(Plug(k, t))
    {
      assert Ok(k.sib.(colour := Red), h);
      OkJoin(k.side, Black, k.node, t, k.sib.(colour := Red), h);
      SameInside(k.up, Shaded(k, t), Over(k, t));
    }

    /** Two black nephews: the brother turns red and the shortage moves up. */
    method ShadeBrother(parent: Node, brother: Node, ghost k: Ctx, ghost t: Tree, ghost x: Node?,
        ghost h: nat) returns (ghost h': nat)
      requires Focus(k, t, x) && CtxOk(k, h + 1) && Ok(t, h) && IsBlack(t) && k.Frame? && k.sib.Bin?
      requires k.sib.colour == Black
      requires IsBlack(k.sib.left) && IsBlack(k.sib.right)
      requires parent == k.node && brother == k.sib.node && {parent, brother} <= nodes
      modifies nodes`colour
      ensures Sinking(k.up, Shaded(k, t), parent, h') && Measure(k.up, Shaded(k, t)) < Measure(k, t)
      ensures InOrder(Plug(k.up, Shaded(k, t))) == InOrder(Plug(k, t))
    {
      hide At;
      ghost var m := Snapshot(nodes);
      FocusUp(m, root, k, t, x);
      brother.colour := Red;
      PaintKid(m, Snapshot(nodes), root, k.up, Over(k, t), parent, Flip(k.side), brother, Red);
      ShadedOk(k, t, h);
      h' := if k.colour == Black then h + 1 else h;
    }

    /** The brother recoloured and rotated away from the short side, so that the far nephew is red. */
    static ghost function BentTree(k: Ctx): Tree
      requires k.Frame? && k.sib.Bin? && Kid(k.side, k.sib).Bin?
    {
      Join(k.side, Red, k.sib.node, Kid(k.side, k.sib).(colour := Black), Kid(Flip(k.side), k.sib))
    }

    static ghost function Bent(k: Ctx): Ctx
      requires k.Frame? && k.sib.Bin? && Kid(k.side, k.sib).Bin?
    {
      k.(sib := Rot(Flip(k.side), BentTree(k)))
    }

    lemma BentOk(k: Ctx, t: Tree, h: nat)
      requires k.Frame? && CtxOk(k, h + 1) && k.sib.Bin? && k.sib.colour == Black && Kid(k.side, k.sib).Bin?
      requires Kid(k.side, k.sib).colour == Red && IsBlack(Kid(Flip(k.side), k.sib))
      ensures CtxOk(Bent(k), h + 1) && Bent(k).sib.Bin? && Bent(k).sib.colour == Black
      ensures Kid(Flip(k.side), Bent(k).sib).Bin? && Kid(Flip(k.side), Bent(k).sib).colour == Red
      ensures InOrder(Plug(Bent(k), t)) == InOrder(Plug(k, t))
    {
      var near, far := Kid(k.side, k.sib), Kid(Flip(k.side), k.sib);
      OkKids(k.side, k.sib, h + 1);
      OkKids(k.side, near, h);
      OkJoin(Flip(k.side), Red, k.sib.node, far, Kid(Flip(k.side), near), h);
      RotOrder(Flip(k.side), BentTree(k));
      SameJoin(k.side, k.colour, k.colour, k.node, t, t, Bent(k).sib, k.sib);
      SameInside(k.up, Over(Bent(k), t), Over(k, t));
    }

    /** The colour changes before the brother is rotated. */
    method BendColours(brother: Node, near: Node, ghost k: Ctx, ghost t: Tree, ghost x: Node?)
      requires Focus(k, t, x) && k.Frame? && k.sib.Bin? && Kid(k.side, k.sib).Bin?
      requires brother == k.sib.node && near == Kid(k.side, k.sib).node && {brother, near} <= nodes
      modifies nodes`colour
      ensures Focus(SibCtx(k, t), BentTree(k), brother)
    {
      hide At;
      ghost var m := Snapshot(nodes);
      ToSibling(m, root, k, t, x);
      near.colour := Black;
      PaintKid(m, Snapshot(nodes), root, SibCtx(k, t), k.sib, brother, k.side, near, Black);
      m := Snapshot(nodes);
      brother.colour := Red;
      Paint(m, Snapshot(nodes), root, SibCtx(k, t), PaintedKid(k.side, k.sib, Black), brother, Red);
    }

    /** Only the near nephew is red: a rotation at the brother makes the far one red. */
    method BendLeft(brother: Node, near: Node, ghost k: Ctx, ghost t: Tree, ghost x: Node?, ghost h: nat)
      requires Focus(k, t, x) && x == Root(t) && CtxOk(k, h + 1) && k.Frame? && k.sib.Bin? && k.sib.colour == Black
      requires k.side == L
      requires k.sib.left.Bin? && k.sib.left.colour == Red && IsBlack(k.sib.right)
      requires brother == k.sib.node && near == k.sib.left.node && {brother, near} <= nodes
      modifies this`root, nodes
      ensures Focus(Bent(k), t, x) && CtxOk(Bent(k), h + 1) && Bent(k).sib.Bin? && Bent(k).sib.colour == Black
      ensures Bent(k).sib.right.Bin? && Bent(k).sib.right.colour == Red
      ensures InOrder(Plug(Bent(k), t)) == InOrder(Plug(k, t))
    {
      hide At;
      BendColours(brother, near, k, t, x);
      BentOk(k, t, h);
      RotateRight(brother, SibCtx(k, t), BentTree(k));
      FromSibling(Snapshot(nodes), root, k, t, Bent(k).sib, near);
    }

    method BendRight(brother: Node, near: Node, ghost k: Ctx, ghost t: Tree, ghost x: Node?, ghost h: nat)
      requires Focus(k, t, x) && x == Root(t) && CtxOk(k, h + 1) && k.Frame? && k.sib.Bin? && k.sib.colour == Black
      requires k.side == R
      requires k.sib.right.Bin? && k.sib.right.colour == Red && IsBlack(k.sib.left)
      requires brother == k.sib.node && near == k.sib.right.node && {brother, near} <= nodes
      modifies this`root, nodes
      ensures Focus(Bent(k), t, x) && CtxOk(Bent(k), h + 1) && Bent(k).sib.Bin? && Bent(k).sib.colour == Black
      ensures Bent(k).sib.left.Bin? && Bent(k).sib.left.colour == Red
      ensures InOrder(Plug(Bent(k), t)) == InOrder(Plug(k, t))
    {
      hide At;
      BendColours(brother, near, k, t, x);
      BentOk(k, t, h);
      RotateLeft(brother, SibCtx(k, t), BentTree(k));
      FromSibling(Snapshot(nodes), root, k, t, Bent(k).sib, near);
    }

    static ghost function Repaid(k: Ctx, t: Tree): Tree
      requires k.Frame? && k.sib.Bin? && Kid(Flip(k.side), k.sib).Bin?
    {
      Join(k.side, k.colour, k.sib.node, Join(k.side, Black, k.node, t, Kid(k.side, k.sib)),
        Kid(Flip(k.side), k.sib).(colour := Black))
    }

    lemma RepaidOrder(k: Ctx, t: Tree)
      requires k.Frame? && k.sib.Bin? && Kid(Flip(k.side), k.sib).Bin?
      ensures InOrder(Plug(k.up, Repaid(k, t))) == InOrder(Plug(k, t))
    {
      var near, far := Kid(k.side, k.sib), Kid(Flip(k.side), k.sib);
      var sib := Join(k.side, k.colour, k.sib.node, near, far.(colour := Black));
      SameJoin(k.side, k.colour, k.sib.colour, k.sib.node, near, near, far.(colour := Black), far);
      assert k.sib == Join(k.side, k.sib.colour, k.sib.node, near, far);
      SameJoin(k.side, Black, k.colour, k.node, t, t, sib, k.sib);
      RotOrder(k.side, Join(k.side, Black, k.node, t, sib));
      SameInside(k.up, Repaid(k, t), Over(k, t));
    }

    lemma RepaidOk(k: Ctx, t: Tree, h: nat)
      requires k.Frame? && CtxOk(k, h + 1) && Ok(t, h) && k.sib.Bin? && k.sib.colour == Black
      requires Kid(Flip(k.side), k.sib).Bin? && Kid(Flip(k.side), k.sib).colour == Red
      ensures RedBlack(Plug(k.up, Repaid(k, t))) && InOrder(Plug(k.up, Repaid(k, t))) == InOrder(Plug(k, t))
    {
      var near, far := Kid(k.side, k.sib), Kid(Flip(k.side), k.sib);
      var inner := Join(k.side, Black, k.node, t, near);
      OkKids(k.side, k.sib, h + 1);
      OkKids(L, far, h);
      OkJoin(k.side, Black, k.node, t, near, h);
      assert Ok(far.(colour := Black), h + 1);
      OkJoin(k.side, k.colour, k.sib.node, inner, far.(colour := Black), h + 1);
      RepaidOrder(k, t);
      var h' := if k.colour == Black then h + 2 else h + 1;
      OkPlug(k.up, Repaid(k, t), h');
    }

    /** The colours before the last rotation: the brother takes the parent's colour. */
    method RepayColours(parent: Node, brother: Node, far: Node, ghost k: Ctx, ghost t: Tree, ghost x: Node?)
      requires Focus(k, t, x) && k.Frame? && k.sib.Bin? && Kid(Flip(k.side), k.sib).Bin? && parent.colour == k.colour
      requires parent == k.node && brother == k.sib.node && far == Kid(Flip(k.side), k.sib).node
      requires {parent, brother, far} <= nodes
      modifies nodes`colour
      ensures Focus(k.up, Join(k.side, Black, parent, t,
        Join(k.side, k.colour, brother, Kid(k.side, k.sib), Kid(Flip(k.side), k.sib).(colour := Black))), parent)
    {
      hide At;
      PaintBrother(parent, brother, k, t, x);
      ghost var m := Snapshot(nodes);
      ghost var k' := k.(colour := Black, sib := k.sib.(colour := k.colour));
      far.colour := Black;
      PaintKid(m, Snapshot(nodes), root, SibCtx(k', t), k'.sib, brother, Flip(k.side), far, Black);
      FocusUp(Snapshot(nodes), root, SibCtx(k', t), PaintedKid(Flip(k.side), k'.sib, Black), brother);
    }

    /** The brother takes the parent's colour and the parent turns black. */
    method PaintBrother(parent: Node, brother: Node, ghost k: Ctx, ghost t: Tree, ghost x: Node?)
      requires Focus(k, t, x) && k.Frame? && k.sib.Bin? && parent.colour == k.colour
      requires parent == k.node && brother == k.sib.node && {parent, brother} <= nodes
      modifies nodes`colour
      ensures var k' := k.(colour := Black, sib := k.sib.(colour := k.colour)); Focus(SibCtx(k', t), k'.sib, brother)
    {
      hide At;
      ghost var m := Snapshot(nodes);
      FocusUp(m, root, k, t, x);
      brother.colour := parent.colour;
      PaintKid(m, Snapshot(nodes), root, k.up, Over(k, t), parent, Flip(k.side), brother, k.colour);
      m := Snapshot(nodes);
      parent.colour := Black;
      ghost var k' := k.(colour := Black, sib := k.sib.(colour := k.colour));
      Paint(m, Snapshot(nodes), root, k.up, PaintedKid(Flip(k.side), Over(k, t), k.colour), parent, Black);
      FocusDown(Snapshot(nodes), root, k.up, Over(k', t), parent, Flip(k.side));
    }

    /** The far nephew is red: the tree is balanced again after one rotation at the parent. */
    method RepayLeft(parent: Node, brother: Node, far: Node, ghost k: Ctx, ghost t: Tree, ghost x: Node?, ghost h: nat)
      requires Focus(k, t, x) && CtxOk(k, h + 1) && Ok(t, h) && k.Frame? && k.sib.Bin? && k.sib.colour == Black
      requires k.side == L
      requires k.sib.right.Bin? && k.sib.right.colour == Red && parent.colour == k.colour
      requires parent == k.node && brother == k.sib.node && far == k.sib.right.node && {parent, brother, far} <= nodes
      modifies this`root, nodes
      ensures var w := Plug(k.up, Repaid(k, t)); Focus(Top, w, root) && RedBlack(w) && InOrder(w) == InOrder(Plug(k, t))
    {
      hide At;
      RepayColours(parent, brother, far, k, t, x);
      RepaidOk(k, t, h);
      RotateLeft(parent, k.up,
        Bin(Black, t, parent, Bin(k.colour, k.sib.left, brother, k.sib.right.(colour := Black))));
      PlugAt(Snapshot(nodes), root, k.up, Repaid(k, t), brother);
    }

    method RepayRight(parent: Node, brother: Node, far: Node, ghost k: Ctx, ghost t: Tree, ghost x: Node?, ghost h: nat)
      requires Focus(k, t, x) && CtxOk(k, h + 1) && Ok(t, h) && k.Frame? && k.sib.Bin? && k.sib.colour == Black
      requires k.side == R
      requires k.sib.left.Bin? && k.sib.left.colour == Red && parent.colour == k.colour
      requires parent == k.node && brother == k.sib.node && far == k.sib.left.node && {parent, brother, far} <= nodes
      modifies this`root, nodes
      ensures var w := Plug(k.up, Repaid(k, t)); Focus(Top, w, root) && RedBlack(w) && InOrder(w) == InOrder(Plug(k, t))
    {
      hide At;
      RepayColours(parent, brother, far, k, t, x);
      RepaidOk(k, t, h);
      RotateRight(parent, k.up,
        Bin(Black, Bin(k.colour, k.sib.left.(colour := Black), brother, k.sib.right), parent, t));
      PlugAt(Snapshot(nodes), root, k.up, Repaid(k, t), brother);
    }

    ghost predicate Sees(k: Ctx, t: Tree, x: Node?)
      reads this, nodes
    {
      && Shows(Snapshot(nodes), t, x) && (k.Top? <==> x == root)
      && (k.Frame? ==> k.node in nodes && k.node.parent == Above(k.up, null) && k.node.colour == k.colour)
      && (k.Frame? && k.sib.Bin? ==>
           && (k.node.left == x <==> k.side == L) && (if k.side == L then k.node.right else k.node.left) == k.sib.node
           && k.sib.node in nodes && k.sib.node.colour == k.sib.colour
           && Shows(Snapshot(nodes), k.sib.left, k.sib.node.left)
           && Shows(Snapshot(nodes), k.sib.right, k.sib.node.right))
    }

    lemma LookAround(k: Ctx, t: Tree, x: Node?)
      requires Focus(k, t, x)
      ensures Sees(k, t, x)
    {
      Brother(Snapshot(nodes), root, k, t, x);
    }

    /** One round of the loop when the short subtree is a left child; `done` is its `break`. */
    method StepLeft(n: Node?, p: Node, ghost k0: Ctx, ghost t0: Tree, ghost h0: nat)
      returns (node: Node?, parent: Node?, done: bool, ghost k: Ctx, ghost t: Tree, ghost h: nat)
      requires Sinking(k0, t0, n, h0) && Sees(k0, t0, n) && IsBlack(t0) && k0.Frame? && k0.side == L && p == k0.node
      modifies this`root, nodes
      ensures InOrder(Plug(k, t)) == InOrder(Plug(k0, t0))
      ensures !done ==>
        Sinking(k, t, node, h) && Sees(k, t, node) && parent == Above(k, null) && Measure(k, t) < Measure(k0, t0)
      ensures done ==> k == Top && node == root && Focus(Top, t, node) && RedBlack(t)
    {
      hide At;
      node, parent, done, k, t, h := n, p, false, k0, t0, h0;
      var brother := parent.right;
      if brother.colour == Red {
        RaiseBrotherLeft(parent, brother, k, t, node, h);
        k := RaisedCtx(k);
        LookAround(k, t, node);
        brother := parent.right;
      }
      if (brother.left == null || brother.left.colour == Black)
        && (brother.right == null || brother.right.colour == Black) {
        h := ShadeBrother(parent, brother, k, t, node, h);
        k, t := k.up, Shaded(k, t);
        node := parent;
        LookAround(k, t, node);
        parent := node.parent;
      } else {
        if brother.right == null || brother.right.colour == Black {
          BendLeft(brother, brother.left, k, t, node, h);
          k := Bent(k);
          LookAround(k, t, node);
          brother := parent.right;
        }
        RepayLeft(parent, brother, brother.right, k, t, node, h);
        k, t := Top, Plug(k.up, Repaid(k, t));
        node := root;
        done := true;
      }
    }

    /** One round of the loop when the short subtree is a right child; `done` is its `break`. */
    method StepRight(n: Node?, p: Node, ghost k0: Ctx, ghost t0: Tree, ghost h0: nat)
      returns (node: Node?, parent: Node?, done: bool, ghost k: Ctx, ghost t: Tree, ghost h: nat)
      requires Sinking(k0, t0, n, h0) && Sees(k0, t0, n) && IsBlack(t0) && k0.Frame? && k0.side == R && p == k0.node
      modifies this`root, nodes
      ensures InOrder(Plug(k, t)) == InOrder(Plug(k0, t0))
      ensures !done ==>
        Sinking(k, t, node, h) && Sees(k, t, node) && parent == Above(k, null) && Measure(k, t) < Measure(k0, t0)
      ensures done ==> k == Top && node == root && Focus(Top, t, node) && RedBlack(t)
    {
      hide At;
      node, parent, done, k, t, h := n, p, false, k0, t0, h0;
      var brother := parent.left;
      if brother.colour == Red {
        RaiseBrotherRight(parent, brother, k, t, node, h);
        k := RaisedCtx(k);
        LookAround(k, t, node);
        brother := parent.left;
      }
      if (brother.left == null || brother.left.colour == Black)
        && (brother.right == null || brother.right.colour == Black) {
        h := ShadeBrother(parent, brother, k, t, node, h);
        k, t := k.up, Shaded(k, t);
        node := parent;
        LookAround(k, t, node);
        parent := node.parent;
      } else {
        if brother.left == null || brother.left.colour == Black {
          BendRight(brother, brother.right, k, t, node, h);
          k := Bent(k);
          LookAround(k, t, node);
          brother := parent.left;
        }
        RepayRight(parent, brother, brother.left, k, t, node, h);
        k, t := Top, Plug(k.up, Repaid(k, t));
        node := root;
        done := true;
      }
    }

    static ghost function Measure(k: Ctx, t: Tree): nat {
      if IsBlack(t) then 1 + Depth(k) else 0
    }

    method EraseColour(x: Node?, p: Node?, ghost k0: Ctx, ghost t0: Tree, ghost h0: nat)
      requires Sinking(k0, t0, x, h0) && p == Above(k0, null)
      modifies this`root, nodes
      ensures exists w: Tree :: Focus(Top, w, root) && RedBlack(w) && InOrder(w) == InOrder(Plug(k0, t0))
    {
      hide At;
      var node, parent, done := x, p, false;
      ghost var k, t, h := k0, t0, h0;
      LookAround(k, t, node);
      while (node == null || node.colour == Black) && node != root
        invariant Sinking(k, t, node, h) && Sees(k, t, node) && parent == Above(k, null)
        invariant InOrder(Plug(k, t)) == InOrder(Plug(k0, t0))
        decreases Measure(k, t)
      {
        if node == parent.left {
          node, parent, done, k, t, h := StepLeft(node, parent, k, t, h);
        } else {
          node, parent, done, k, t, h := StepRight(node, parent, k, t, h);
        }
        if done {
          PayableTop(t);
          break;
        }
      }
      if !done { PayableSunk(k, t, h); }
      FinishErase(node, k, t);
    }

    lemma PayableTop(t: Tree)
      requires RedBlack(t)
      ensures Payable(Top, t)
    {
      ghost var h: nat :| Ok(t, h);
      assert CtxOk(Top, h) && Ok(Blackened(t), h);
    }

    lemma PayableSunk(k: Ctx, t: Tree, h: nat)
      requires Short(t, h) && CtxOk(k, h + 1) && (IsBlack(t) ==> k.Top?)
      ensures Payable(k, t)
    {
      ghost var h' := if IsBlack(t) then h else h + 1;
      assert CtxOk(k, h') && Ok(Blackened(t), h');
    }

    static ghost function Blackened(t: Tree): Tree {
      if t.Leaf? then t else t.(colour := Black)
    }

    ghost predicate Payable(k: Ctx, t: Tree) {
      exists h: nat :: CtxOk(k, h) && Ok(Blackened(t), h)
    }

    method FinishErase(node: Node?, ghost k: Ctx, ghost t: Tree)
      requires Focus(k, t, node) && Payable(k, t)
      modifies nodes`colour
      ensures exists w: Tree :: Focus(Top, w, root) && RedBlack(w) && InOrder(w) == InOrder(Plug(k, t))
    {
      ghost var m, w := Snapshot(nodes), Plug(k, Blackened(t));
      LookAround(k, t, node);
      if node != null {
        node.colour := Black;
        Paint(m, Snapshot(nodes), root, k, t, node, Black);
      }
      PlugAt(Snapshot(nodes), root, k, Blackened(t), node);
      SameInside(k, Blackened(t), t);
      ghost var h: nat :| CtxOk(k, h) && Ok(Blackened(t), h);
      OkPlug(k, Blackened(t), h);
      assert Focus(Top, w, root);
    }

    /** Unlinking a node with at most one child; `s` is the side of that child. */
    method Unlink(node: Node, child: Node?, ghost s: Side, ghost k: Ctx, ghost t: Tree) returns (parent: Node?)
      requires Focus(k, t, node) && t.Bin? && Kid(Flip(s), t).Leaf? && child == Root(Kid(s, t))
      modifies this, nodes
      ensures nodes == old(nodes) - {node} && Focus(k, Kid(s, t), child) && parent == Above(k, null)
      ensures node.colour == old(node.colour) && node.left == old(node.left) && node.right == old(node.right)
      ensures node.parent == old(node.parent)
    {
      hide At;
      ghost var m := Snapshot(nodes);
      UnlinkedSight(m, root, k, t, node, s);
      parent := node.parent;
      if child != null {
        child.parent := parent;
      }
      if parent != null {
        if parent.left == node {
          parent.left := child;
        } else {
          parent.right := child;
        }
      } else {
        root := child;
      }
      nodes := nodes - {node};
      UnlinkedAt(m, Snapshot(nodes), old(root), root, k, t, node, s);
    }

    /** The successor `node` takes over all links of `old`, whose place it fills. */
    method Replace(old_: Node, node: Node, ghost k: Ctx, ghost t: Tree)
      requires Focus(k, t, old_) && t.Bin? && t.left.Bin? && node !in nodes
      modifies this, nodes, node
      ensures nodes == old(nodes) - {old_} + {node} && Focus(k, t.(node := node), node)
    {
      hide At;
      ghost var m := Snapshot(nodes);
      NeighboursApart(m, root, k, t, old_);
      node.colour := old_.colour;
      node.left := old_.left;
      node.right := old_.right;
      node.parent := old_.parent;
      if node.parent != null {
        if old_ == old_.parent.left {
          old_.parent.left := node;
        } else {
          old_.parent.right := node;
        }
      } else {
        root := node;
      }
      old_.left.parent := node;
      if old_.right != null {
        old_.right.parent := node;
      }
      nodes := nodes - {old_} + {node};
      SubstitutedAt(m, Snapshot(nodes), old(root), root, k, t, old_, node);
    }

    /** What the tail of an erase finds: the child `c` of a removed node of colour `colour`. */
    static ghost predicate Removed(k: Ctx, c: Tree, colour: Colour, h: nat) {
      CtxOk(k, h) && if colour == Black then h > 0 && Ok(c, h - 1) else Ok(c, h) && IsBlack(c)
    }

    method Rebalance(colour: Colour, child: Node?, parent: Node?, ghost k: Ctx, ghost c: Tree, ghost h: nat)
      requires Focus(k, c, child) && Removed(k, c, colour, h) && parent == Above(k, null)
      modifies this, nodes
      ensures Valid() && nodes == old(nodes) && Contents() == InOrder(Plug(k, c))
    {
      if colour == Black {
        assert Short(c, h - 1);
        EraseColour(child, parent, k, c, h - 1);
        ghost var w: Tree :| Focus(Top, w, root) && RedBlack(w) && InOrder(w) == InOrder(Plug(k, c));
        tree := w;
      } else {
        OkPlug(k, c, h);
        PlugAt(Snapshot(nodes), root, k, c, child);
        tree := Plug(k, c);
      }
    }

    /** Removing the root of the subtree at the hole from the in-order sequence. */
    lemma Spliced(k: Ctx, t: Tree, rest: seq<Node>)
      requires t.Bin? && rest == Before(k) + InOrder(t.left) + InOrder(t.right) + After(k)
      ensures var i, w := |Before(k)| + |InOrder(t.left)|, InOrder(Plug(k, t));
        i < |w| && w[i] == t.node && w[..i] + w[i + 1..] == rest
    {
      InOrderPlug(k, t);
      assert InOrder(t) == InOrder(t.left) + [t.node] + InOrder(t.right);
      hide *;
      Cut(InOrder(Plug(k, t)), Before(k), InOrder(t.left), t.node, InOrder(t.right), After(k), rest);
    }

    lemma SingleOrder(k: Ctx, t: Tree, s: Side)
      requires t.Bin? && Kid(Flip(s), t).Leaf?
      ensures InOrder(Plug(k, Kid(s, t))) == Before(k) + InOrder(t.left) + InOrder(t.right) + After(k)
    {
      InOrderPlug(k, Kid(s, t));
      assert InOrder(Kid(Flip(s), t)) == [];
      assert Before(k) + [] == Before(k) && Before(k) + InOrder(t.left) + [] == Before(k) + InOrder(t.left);
    }

    method EraseSingle(node: Node, child: Node?, ghost s: Side, ghost k: Ctx, ghost t: Tree, ghost h: nat)
      requires Focus(k, t, node) && t.Bin? && Kid(Flip(s), t).Leaf? && child == Root(Kid(s, t))
      requires Ok(t, h) && CtxOk(k, h) && node.colour == t.colour
      modifies this, nodes
      ensures Valid() && nodes == old(nodes) - {node} && Contents() == InOrder(Plug(k, Kid(s, t)))
    {
      hide At;
      var parent := Unlink(node, child, s, k, t);
      Rebalance(node.colour, child, parent, k, Kid(s, t), h);
    }

    method Erase(n: Node) returns (ghost i: nat)
      requires Valid() && n in nodes
      modifies this, nodes
      ensures Valid() && nodes == old(nodes) - {n}
      ensures var w := old(Contents()); i < |w| && w[i] == n && Contents() == w[..i] + w[i + 1..]
    {
      hide At;
      ghost var k, t, h := Locate(n);
      UnlinkedSight(Snapshot(nodes), root, k, t, n, L);
      UnlinkedSight(Snapshot(nodes), root, k, t, n, R);
      i := |Before(k)| + |InOrder(t.left)|;
      if n.left == null {
        SingleOrder(k, t, R);
        EraseSingle(n, n.right, R, k, t, h);
      } else if n.right == null {
        SingleOrder(k, t, L);
        EraseSingle(n, n.left, L, k, t, h);
      } else {
        EraseDouble(n, k, t, h);
      }
      Spliced(k, t, Contents());
    }

    lemma Locate(n: Node) returns (k: Ctx, t: Tree, h: nat)
      requires Valid() && n in nodes
      ensures Focus(k, t, n) && t.Bin? && Plug(k, t) == tree && Ok(t, h) && CtxOk(k, h) && Fits(k, t)
    {
      k, t := PathTo(tree, n);
      Unplug(Snapshot(nodes), root, k, t);
      var H: nat :| Ok(tree, H);
      h := OkSplit(k, t, H);
    }

    /** The context of the slot the successor leaves, once it stands in place of `t.node`. */
    static ghost function Successor(j: Ctx, k: Ctx, t: Tree, s: Node): Ctx
      requires t.Bin?
    {
      Append(j, Frame(R, t.colour, s, t.left, k))
    }

    lemma SuccessorPlug(j: Ctx, k: Ctx, t: Tree, s: Node, v: Tree)
      requires t.Bin?
      ensures Plug(Successor(j, k, t, s), v) == Plug(k, Bin(t.colour, t.left, s, Plug(j, v)))
    {
      PlugAppend(j, Frame(R, t.colour, s, t.left, k), v);
    }

    lemma SuccessorOrder(j: Ctx, k: Ctx, t: Tree, u: Tree)
      requires t.Bin? && t.right == Plug(j, u) && u.Bin? && u.left.Leaf? && LeftSpine(j)
      ensures InOrder(Plug(Successor(j, k, t, u.node), u.right))
        == Before(k) + InOrder(t.left) + InOrder(t.right) + After(k)
    {
      var v := Plug(j, u.right);
      SuccessorPlug(j, k, t, u.node, u.right);
      InOrderPlug(k, Bin(t.colour, t.left, u.node, v));
      SpineOrder(j, u);
      Regroup(Before(k), InOrder(t.left), u.node, InOrder(v), InOrder(t.right), After(k));
    }

    lemma SpineOrder(j: Ctx, u: Tree)
      requires u.Bin? && u.left.Leaf? && LeftSpine(j)
      ensures [u.node] + InOrder(Plug(j, u.right)) == InOrder(Plug(j, u))
    {
      InOrderPlug(j, u);
      InOrderPlug(j, u.right);
      SpineBefore(j);
      assert InOrder(u) == [u.node] + InOrder(u.right);
    }

    static ghost predicate LeftSpine(j: Ctx) {
      j.Frame? ==> j.side == L && LeftSpine(j.up)
    }

    lemma {:induction false} SpineBefore(j: Ctx)
      requires LeftSpine(j)
      ensures Before(j) == []
    {
      if j.Frame? { SpineBefore(j.up); }
    }

    method EraseDouble(old_: Node, ghost k: Ctx, ghost t: Tree, ghost h: nat)
      requires Focus(k, t, old_) && t.Bin? && Ok(t, h) && CtxOk(k, h) && Fits(k, t) && t.left.Bin? && t.right.Bin?
      modifies this, nodes
      ensures Valid() && nodes == old(nodes) - {old_}
      ensures Contents() == Before(k) + InOrder(t.left) + InOrder(t.right) + After(k)
    {
      hide At;
      UnlinkedSight(Snapshot(nodes), root, k, t, old_, R);
      var node := old_.right;
      ghost var j, u: Tree := Top, t.right;
      FocusDown(Snapshot(nodes), root, k, t, old_, R);
      var left := node.left;
      assert Successor(j, k, t, old_) == Sub(R, k, t);
      UnlinkedSight(Snapshot(nodes), root, Successor(j, k, t, old_), u, node, L);
      while left != null
        modifies {}
        invariant node in nodes && Focus(Successor(j, k, t, old_), u, node) && u.Bin?
        invariant t.right == Plug(j, u) && LeftSpine(j)
        invariant left == node.left && Shows(Snapshot(nodes), u.left, left)
        decreases u
      {
        FocusDown(Snapshot(nodes), root, Successor(j, k, t, old_), u, node, L);
        j, u := Frame(L, u.colour, u.node, u.right, j), u.left;
        node := left;
        UnlinkedSight(Snapshot(nodes), root, Successor(j, k, t, old_), u, node, L);
        left := node.left;
      }
      EraseSuccessor(old_, node, j, k, t, u, h);
    }

    static lemma {:induction false} OuterNode(j: Ctx, o: Ctx)
      requires o.Frame?
      ensures o.node in CtxNodes(Append(j, o))
    {
      if j.Frame? { OuterNode(j.up, o); }
    }

    lemma SuccessorAbove(j: Ctx, k: Ctx, t: Tree, u: Tree)
      requires t.Bin? && Focus(Successor(j, k, t, t.node), u, Root(u)) && u.Bin?
      ensures u.node != t.node && t.node in nodes && u.node in nodes
      ensures Above(Successor(j, k, t, t.node), null) == (if j.Top? then t.node else j.node)
      ensures j.Frame? ==> j.node != t.node
    {
      var o := Frame(R, t.colour, t.node, t.left, k);
      OuterNode(j, o);
      assert u.node in Nodes(u);
      if j.Frame? { OuterNode(j.up, o); }
    }

    lemma SuccessorOk(j: Ctx, k: Ctx, t: Tree, u: Tree, h: nat) returns (i: nat)
      requires t.Bin? && Ok(t, h) && CtxOk(k, h) && Fits(k, t) && t.right == Plug(j, u) && u.Bin? && u.left.Leaf?
      ensures Removed(Successor(j, k, t, u.node), u.right, u.colour, i)
    {
      var H := CtxHeight(k, h);
      OkPlug(k, t, h);
      SuccessorPlug(j, k, t, t.node, u);
      var w := Plug(Successor(j, k, t, t.node), u);
      assert w == Plug(k, t);
      ghost var W: nat :| Ok(w, W);
      i := OkSplit(Successor(j, k, t, t.node), u, W);
      CtxOkRename(j, Frame(R, t.colour, t.node, t.left, k), u.node, i);
      assert Ok(u.right, if u.colour == Black then i - 1 else i);
    }

    method EraseSuccessor(old_: Node, node: Node, ghost j: Ctx, ghost k: Ctx, ghost t: Tree, ghost u: Tree,
        ghost h: nat)
      requires t.Bin? && Focus(Successor(j, k, t, old_), u, node) && t.node == old_ && t.left.Bin? && Ok(t, h)
      requires CtxOk(k, h) && Fits(k, t)
      requires t.right == Plug(j, u) && LeftSpine(j) && u.Bin? && u.left.Leaf?
      modifies this, nodes
      ensures Valid() && nodes == old(nodes) - {old_}
      ensures Contents() == Before(k) + InOrder(t.left) + InOrder(t.right) + After(k)
    {
      hide At;
      ghost var k1, k2 := Successor(j, k, t, old_), Successor(j, k, t, node);
      UnlinkedSight(Snapshot(nodes), root, k1, u, node, R);
      SuccessorAbove(j, k, t, u);
      var child, colour := node.right, node.colour;
      var parent := Unlink(node, child, R, k1, u);
      if node.parent == old_ {
        parent := node;
      }
      ghost var t' := Bin(t.colour, t.left, old_, Plug(j, u.right));
      SuccessorPlug(j, k, t, old_, u.right);
      SuccessorPlug(j, k, t, node, u.right);
      Refocus(k1, u.right, k, t', child);
      Replace(old_, node, k, t');
      Refocus(k, t'.(node := node), k2, u.right, node);
      SuccessorOrder(j, k, t, u);
      ghost var i := SuccessorOk(j, k, t, u, h);
      Rebalance(colour, child, parent, k2, u.right, i);
    }

    lemma Refocus(k: Ctx, t: Tree, k': Ctx, t': Tree, x: Node?)
      requires Focus(k, t, x) && Plug(k, t) == Plug(k', t')
      ensures Focus(k', t', Root(t'))
    {
      PlugAt(Snapshot(nodes), root, k, t, x);
      Unplug(Snapshot(nodes), root, k', t');
    }
  }
}
