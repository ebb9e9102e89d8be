/** How a shape is laid out in linked nodes.  The layout is a predicate on a snapshot of the
    nodes' fields, so that what one pass of the source changes is a statement about two maps. */
module RbLinks {
  import opened RbShape

  datatype Cell = Cell(left: Node?, right: Node?, parent: Node?, colour: Colour)

  type Mem = map<Node, Cell>

  ghost function Snapshot(nodes: set<Node>): Mem
    reads nodes
  {
    map n | n in nodes :: Cell(n.left, n.right, n.parent, n.colour)
  }

  function Flip(s: Side): Side {
    if s == L then R else L
  }

  function Ptr(s: Side, c: Cell): Node? {
    if s == L then c.left else c.right
  }

  function Kid(s: Side, t: Tree): Tree
    requires t.Bin?
  {
    if s == L then t.left else t.right
  }

  /** The nodes reachable from `x`, whose parent is `p`, are linked exactly as `t` says. */
  ghost predicate Linked(m: Mem, t: Tree, x: Node?, p: Node?) {
    match t
    case Leaf => x == null
    case Bin(c, l, n, r) =>
      && x == n && n in m && m[n].colour == c && m[n].parent == p
      && Linked(m, l, m[n].left, n) && Linked(m, r, m[n].right, n)
  }

  /** The nodes of `k` are linked as it says; its hole holds the pointer `x`.  The outermost
      node hangs in a slot that holds `r` and belongs to `base`. */
  ghost predicate Around(m: Mem, k: Ctx, x: Node?, r: Node?, base: Node?) {
    match k
    case Top => x == r
    case Frame(s, c, n, sib, up) =>
      && n in m && m[n].colour == c && m[n].parent == Above(up, base)
      && Ptr(s, m[n]) == x && Linked(m, sib, Ptr(Flip(s), m[n]), n)
      && Around(m, up, n, r, base)
  }

  lemma {:induction false} LinkedFrame(m: Mem, m': Mem, t: Tree, x: Node?, p: Node?)
    requires Linked(m, t, x, p)
    requires forall n :: n in Nodes(t) && n in m ==> n in m' && m'[n] == m[n]
    ensures Linked(m', t, x, p)
    decreases t
  {
    if t.Bin? {
      LinkedFrame(m, m', t.left, m[t.node].left, t.node);
      LinkedFrame(m, m', t.right, m[t.node].right, t.node);
    }
  }

  lemma {:induction false} AroundFrame(m: Mem, m': Mem, k: Ctx, x: Node?, r: Node?, base: Node?)
    requires Around(m, k, x, r, base)
    requires forall n :: n in CtxNodes(k) && n in m ==> n in m' && m'[n] == m[n]
    ensures Around(m', k, x, r, base)
    decreases k
  {
    if k.Frame? {
      LinkedFrame(m, m', k.sib, Ptr(Flip(k.side), m[k.node]), k.node);
      AroundFrame(m, m', k.up, k.node, r, base);
    }
  }

  /** Only the root of `t` changes, in its parent pointer and colour. */
  lemma LinkedRepaint(m: Mem, m': Mem, t: Tree, x: Node?, p: Node?, p': Node?, c: Colour)
    requires Linked(m, t, x, p) && t.Bin? && Distinct(t)
    requires forall n :: n in Nodes(t) && n in m && n != x ==> n in m' && m'[n] == m[n]
    requires x in m' && m'[x] == m[x].(parent := p', colour := c)
    ensures Linked(m', t.(colour := c), x, p')
  {
    LinkedFrame(m, m', t.left, m[x].left, x);
    LinkedFrame(m, m', t.right, m[x].right, x);
  }

  /** Only the innermost node of `k` changes, in the pointer at the hole and its colour. */
  lemma AroundRepaint(m: Mem, m': Mem, k: Ctx, x: Node?, x': Node?, r: Node?, base: Node?, c: Colour)
    requires Around(m, k, x, r, base) && k.Frame? && CtxDistinct(k)
    requires forall n :: n in CtxNodes(k) && n in m && n != k.node ==> n in m' && m'[n] == m[n]
    requires k.node in m' && m'[k.node] == SetPtr(k.side, m[k.node], x').(colour := c)
    ensures Around(m', k.(colour := c), x', r, base)
  {
    LinkedFrame(m, m', k.sib, Ptr(Flip(k.side), m[k.node]), k.node);
    AroundFrame(m, m', k.up, k.node, r, base);
  }

  function SetPtr(s: Side, c: Cell, x: Node?): Cell {
    if s == L then c.(left := x) else c.(right := x)
  }

  lemma {:induction false} AroundTop(m: Mem, k: Ctx, x: Node?, r: Node?, base: Node?)
    requires Around(m, k, x, r, base) && k.Frame?
    ensures r != null && r in CtxNodes(k)
    decreases k
  {
    if k.up.Frame? { AroundTop(m, k.up, k.node, r, base); }
  }

  lemma {:induction false} LinkedPlug(m: Mem, k: Ctx, t: Tree, x: Node?, r: Node?, base: Node?)
    requires Around(m, k, x, r, base) && Linked(m, t, x, Above(k, base))
    ensures Linked(m, Plug(k, t), r, base)
    decreases k
  {
    if k.Frame? {
      LinkedPlug(m, k.up, Join(k.side, k.colour, k.node, t, k.sib), k.node, r, base);
    }
  }

  /** The whole picture: `t` hangs below `x` at the hole of `k`, and `k` hangs off `root`. */
  ghost predicate At(m: Mem, root: Node?, k: Ctx, t: Tree, x: Node?) {
    && Apart(k, t) && CtxNodes(k) + Nodes(t) == m.Keys
    && Around(m, k, x, root, null) && Linked(m, t, x, Above(k, null))
  }

  lemma KidParts(s: Side, t: Tree)
    requires t.Bin?
    ensures var a, b := Kid(s, t), Kid(Flip(s), t);
      && Nodes(t) == Nodes(a) + {t.node} + Nodes(b)
      && (Distinct(t) <==>
          Distinct(a) && Distinct(b) && Nodes(a) !! Nodes(b) && t.node !in Nodes(a) && t.node !in Nodes(b))
  {
  }

  lemma JoinParts(s: Side, c: Colour, n: Node, a: Tree, b: Tree)
    ensures Nodes(Join(s, c, n, a, b)) == Nodes(a) + {n} + Nodes(b)
    ensures Distinct(Join(s, c, n, a, b)) <==>
      Distinct(a) && Distinct(b) && Nodes(a) !! Nodes(b) && n !in Nodes(a) && n !in Nodes(b)
  {
  }

  lemma LinkedKids(m: Mem, t: Tree, x: Node?, p: Node?, s: Side)
    requires Linked(m, t, x, p) && t.Bin?
    ensures Linked(m, Kid(s, t), Ptr(s, m[t.node]), t.node)
    ensures Linked(m, Kid(Flip(s), t), Ptr(Flip(s), m[t.node]), t.node)
  {
  }

  /** What the source reads off the pointers at the focus. */
  lemma Seen(m: Mem, root: Node?, k: Ctx, t: Tree, x: Node?, s: Side)
    requires At(m, root, k, t, x)
    ensures x == Root(t)
    ensures k.Frame? ==> k.node in m && m[k.node].parent == Above(k.up, null) && m[k.node].colour == k.colour
    ensures k.Frame? ==> Ptr(k.side, m[k.node]) == x && Ptr(Flip(k.side), m[k.node]) == Root(k.sib)
    ensures k.Frame? && k.sib.Bin? ==> k.sib.node in m && m[k.sib.node].colour == k.sib.colour
    ensures t.Bin? ==>
      x in m && m[x].colour == t.colour && m[x].parent == Above(k, null) && Ptr(s, m[x]) == Root(Kid(s, t))
    ensures t.Bin? && Kid(s, t).Bin? ==>
      var y := Kid(s, t).node;
      y in m && m[y].colour == Kid(s, t).colour && m[y].parent == x
      && m[y].left == Root(Kid(s, t).left) && m[y].right == Root(Kid(s, t).right)
      && (m[y].left != null ==> m[y].left in m) && (m[y].right != null ==> m[y].right in m)
    ensures t.Bin? && Kid(s, t).Bin? ==>
      var y := Kid(s, t).node;
      x != y && y != Above(k, null) && x != Above(k, null)
      && (m[y].left != null ==> m[y].left != x && m[y].left != y && m[y].left != Above(k, null))
      && (m[y].right != null ==> m[y].right != x && m[y].right != y && m[y].right != Above(k, null))
    ensures k.Top? <==> x == root
  {
    if k.Frame? {
      AroundTop(m, k, x, root, null);
      assert k.node in CtxNodes(k);
    }
    if t.Bin? {
      KidParts(s, t);
      LinkedKids(m, t, x, Above(k, null), s);
      if Kid(s, t).Bin? {
        var u := Kid(s, t);
        KidParts(L, u);
        LinkedKids(m, u, u.node, x, L);
        assert u.left.Bin? ==> u.left.node in Nodes(u.left);
        assert u.right.Bin? ==> u.right.node in Nodes(u.right);
      }
    }
  }

  /** Moving the focus to the node above the hole. */
  lemma FocusUp(m: Mem, root: Node?, k: Ctx, t: Tree, x: Node?)
    requires At(m, root, k, t, x) && k.Frame?
    ensures At(m, root, k.up, Over(k, t), k.node)
  {
  }

  lemma PlugAt(m: Mem, root: Node?, k: Ctx, t: Tree, x: Node?)
    requires At(m, root, k, t, x)
    ensures At(m, root, Top, Plug(k, t), root)
    ensures t.Bin? ==> Plug(k, t).Bin?
  {
    LinkedPlug(m, k, t, x, root, null);
    ApartPlug(k, t);
  }

  /** The subtree of the node above the hole. */
  function Over(k: Ctx, t: Tree): (j: Tree)
    requires k.Frame?
    ensures j.Bin? && j.node == k.node && j.colour == k.colour
  {
    Join(k.side, k.colour, k.node, t, k.sib)
  }

  function Sub(s: Side, k: Ctx, t: Tree): Ctx
    requires t.Bin?
  {
    Frame(s, t.colour, t.node, Kid(Flip(s), t), k)
  }

  /** Moving the focus to the `s` child. */
  lemma FocusDown(m: Mem, root: Node?, k: Ctx, t: Tree, x: Node?, s: Side)
    requires At(m, root, k, t, x) && t.Bin?
    ensures x in m && At(m, root, Sub(s, k, t), Kid(s, t), Root(Kid(s, t)))
  {
    KidParts(s, t);
    LinkedKids(m, t, x, Above(k, null), s);
    LinkedRoot(m, Kid(s, t), Ptr(s, m[t.node]), t.node);
  }

  lemma LinkedRoot(m: Mem, t: Tree, x: Node?, p: Node?)
    requires Linked(m, t, x, p)
    ensures x == Root(t)
  {
  }

  /** Writing a colour at the focus. */
  lemma Paint(m: Mem, m': Mem, root: Node?, k: Ctx, t: Tree, x: Node, c: Colour)
    requires At(m, root, k, t, x) && x in m && m' == m[x := m[x].(colour := c)]
    ensures At(m', root, k, t.(colour := c), x)
  {
    LinkedRepaint(m, m', t, x, Above(k, null), Above(k, null), c);
    AroundFrame(m, m', k, x, root, null);
  }

  lemma OkKids(s: Side, t: Tree, h: nat)
    requires Ok(t, h) && t.Bin?
    ensures t.colour == Black ==> h > 0 && Ok(Kid(s, t), h - 1) && Ok(Kid(Flip(s), t), h - 1)
    ensures t.colour == Red ==>
      Ok(Kid(s, t), h) && Ok(Kid(Flip(s), t), h) && IsBlack(Kid(s, t)) && IsBlack(Kid(Flip(s), t))
  {
  }

  lemma OkJoin(s: Side, c: Colour, n: Node, a: Tree, b: Tree, h: nat)
    requires Ok(a, h) && Ok(b, h) && (c == Red ==> IsBlack(a) && IsBlack(b))
    ensures Ok(Join(s, c, n, a, b), if c == Black then h + 1 else h)
  {
  }

  lemma SameJoin(s: Side, c: Colour, c': Colour, n: Node, a: Tree, a': Tree, b: Tree, b': Tree)
    requires InOrder(a) == InOrder(a') && InOrder(b) == InOrder(b')
    ensures InOrder(Join(s, c, n, a, b)) == InOrder(Join(s, c', n, a', b'))
  {
  }

  /** Rotation towards side `s`: the other child of the root becomes the root. */
  function Rot(s: Side, t: Tree): Tree
    requires t.Bin? && Kid(Flip(s), t).Bin?
  {
    var u := Kid(Flip(s), t);
    Join(s, u.colour, u.node, Join(s, t.colour, t.node, Kid(s, t), Kid(s, u)), Kid(Flip(s), u))
  }

  lemma RotOrder(s: Side, t: Tree)
    requires t.Bin? && Kid(Flip(s), t).Bin?
    ensures InOrder(Rot(s, t)) == InOrder(t)
  {
    var u := Kid(Flip(s), t);
    if s == L {
      assert InOrder(t) == InOrder(t.left) + [t.node] + (InOrder(u.left) + [u.node] + InOrder(u.right));
      assert InOrder(Rot(s, t)) == (InOrder(t.left) + [t.node] + InOrder(u.left)) + [u.node] + InOrder(u.right);
    } else {
      assert InOrder(t) == (InOrder(u.left) + [u.node] + InOrder(u.right)) + [t.node] + InOrder(t.right);
      assert InOrder(Rot(s, t)) == InOrder(u.left) + [u.node] + (InOrder(u.right) + [t.node] + InOrder(t.right));
    }
  }

  lemma RotShape(s: Side, k: Ctx, t: Tree)
    requires t.Bin? && Kid(Flip(s), t).Bin? && Apart(k, t)
    ensures Nodes(Rot(s, t)) == Nodes(t) && Apart(k, Rot(s, t))
  {
    var u := Kid(Flip(s), t);
    KidParts(s, t);
    KidParts(s, u);
    JoinParts(s, t.colour, t.node, Kid(s, t), Kid(s, u));
    JoinParts(s, u.colour, u.node, Join(s, t.colour, t.node, Kid(s, t), Kid(s, u)), Kid(Flip(s), u));
  }

  /** The fields a rotation of `x` towards `s` reads: they are distinct nodes of the tree. */
  ghost predicate Pivot(m: Mem, s: Side, x: Node) {
    && x in m && Ptr(Flip(s), m[x]) != null && Ptr(Flip(s), m[x]) in m
    && var y := Ptr(Flip(s), m[x]);
    var b, p := Ptr(s, m[y]), m[x].parent;
    && x != y && (b != null ==> b in m && b != x && b != y && b != p)
    && (p != null ==> p in m && p != x && p != y && (m[p].left == x <==> m[p].right != x))
  }

  /** The fields a rotation of `x` towards `s` leaves behind. */
  ghost predicate Turned(m: Mem, m': Mem, s: Side, x: Node)
    requires Pivot(m, s, x)
  {
    var y := Ptr(Flip(s), m[x]);
    var b, p := Ptr(s, m[y]), m[x].parent;
    && m'.Keys == m.Keys
    && m'[x] == SetPtr(Flip(s), m[x], b).(parent := y)
    && m'[y] == SetPtr(s, m[y], x).(parent := p)
    && (b != null ==> m'[b] == m[b].(parent := x))
    && (p != null ==> m'[p] == SetPtr(if m[p].left == x then L else R, m[p], y))
    && forall n :: n in m && n != x && n != y && n != b && n != p ==> m'[n] == m[n]
  }

  lemma PivotAt(m: Mem, root: Node?, s: Side, k: Ctx, t: Tree, x: Node)
    requires At(m, root, k, t, x) && t.Bin? && Kid(Flip(s), t).Bin?
    ensures Pivot(m, s, x) && Ptr(Flip(s), m[x]) == Kid(Flip(s), t).node
    ensures m[x].parent == Above(k, null)
    ensures k.Frame? ==> (m[k.node].left == x <==> k.side == L)
  {
    var u := Kid(Flip(s), t);
    var b := Kid(s, u);
    KidParts(s, t);
    LinkedKids(m, t, x, Above(k, null), s);
    KidParts(s, u);
    LinkedKids(m, u, u.node, x, s);
    assert b.Bin? ==> b.node in Nodes(b);
    if k.Frame? { Beside(m, k, x, root, null, x); }
  }

  /** The two pointers of the node above the hole differ, for a node `x` outside the context. */
  lemma Beside(m: Mem, k: Ctx, h: Node?, r: Node?, base: Node?, x: Node)
    requires Around(m, k, h, r, base) && k.Frame? && x !in CtxNodes(k)
    ensures k.node in m && k.node in CtxNodes(k) && Ptr(k.side, m[k.node]) == h && Ptr(Flip(k.side), m[k.node]) != x
  {
    assert k.sib.Bin? ==> k.sib.node in Nodes(k.sib);
  }

  /** A rotation at the root of `t` yields the rotated tree. */
  lemma TurnedAt(m: Mem, m': Mem, root: Node?, root': Node?, s: Side, k: Ctx, t: Tree, x: Node)
    requires t.Bin? && Kid(Flip(s), t).Bin? && At(m, root, k, t, x)
    requires Pivot(m, s, x) && Turned(m, m', s, x)
    requires root' == if m[x].parent != null then root else Ptr(Flip(s), m[x])
    ensures At(m', root', k, Rot(s, t), Kid(Flip(s), t).node)
    ensures InOrder(Rot(s, t)) == InOrder(t)
  {
    var u := Kid(Flip(s), t);
    var y := u.node;
    PivotAt(m, root, s, k, t, x);
    RotShape(s, k, t);
    RotOrder(s, t);
    TurnedTree(m, m', s, k, t, x);
    if k.Frame? {
      assert k.node !in Nodes(t);
      assert m'[k.node] == SetPtr(k.side, m[k.node], y);
      BesideRoot(m, s, t, x, Above(k, null));
      AroundRepaint(m, m', k, x, y, root, null, k.colour);
    }
  }

  lemma BesideRoot(m: Mem, s: Side, t: Tree, x: Node, p: Node?)
    requires t.Bin? && Kid(Flip(s), t).Bin? && Linked(m, t, x, p) && Pivot(m, s, x)
    ensures var y := Ptr(Flip(s), m[x]);
      x in Nodes(t) && y in Nodes(t) && (Ptr(s, m[y]) != null ==> Ptr(s, m[y]) in Nodes(t))
  {
    var u := Kid(Flip(s), t);
    KidParts(s, t);
    LinkedKids(m, t, x, p, s);
    KidParts(s, u);
    LinkedKids(m, u, u.node, x, s);
    assert Kid(s, u).Bin? ==> Kid(s, u).node in Nodes(Kid(s, u));
  }

  lemma TurnedTree(m: Mem, m': Mem, s: Side, k: Ctx, t: Tree, x: Node)
    requires t.Bin? && Kid(Flip(s), t).Bin? && Linked(m, t, x, Above(k, null)) && Distinct(t)
    requires k.Frame? ==> k.node !in Nodes(t)
    requires Pivot(m, s, x) && Turned(m, m', s, x)
    ensures Linked(m', Rot(s, t), Kid(Flip(s), t).node, Above(k, null))
  {
    var u := Kid(Flip(s), t);
    var a, b, c, y := Kid(s, t), Kid(s, u), Kid(Flip(s), u), u.node;
    KidParts(s, t);
    KidParts(s, u);
    LinkedKids(m, t, x, Above(k, null), s);
    LinkedKids(m, u, y, x, s);
    assert b.Bin? ==> b.node in Nodes(b);
    LinkedFrame(m, m', a, Ptr(s, m[x]), x);
    LinkedFrame(m, m', c, Ptr(Flip(s), m[y]), y);
    if b.Bin? { LinkedRepaint(m, m', b, b.node, y, x, b.colour); }
  }

  function PaintedKid(s: Side, t: Tree, c: Colour): Tree
    requires t.Bin? && Kid(s, t).Bin?
  {
    Join(s, t.colour, t.node, Kid(s, t).(colour := c), Kid(Flip(s), t))
  }

  /** Writing the colour of a child of the focus. */
  lemma PaintKid(m: Mem, m': Mem, root: Node?, k: Ctx, t: Tree, x: Node?, s: Side, y: Node, c: Colour)
    requires At(m, root, k, t, x) && t.Bin? && Kid(s, t).Bin? && y == Kid(s, t).node
    requires y in m && m' == m[y := m[y].(colour := c)]
    ensures At(m', root, k, PaintedKid(s, t, c), x)
  {
    FocusDown(m, root, k, t, x, s);
    Paint(m, m', root, Sub(s, k, t), Kid(s, t), y, c);
    FocusUp(m', root, Sub(s, k, t), Kid(s, t).(colour := c), y);
  }

  /** What the insertion fix-up reads when the parent is red: a black grandparent exists. */
  lemma Grandparent(m: Mem, root: Node?, k: Ctx, t: Tree, x: Node, h: nat)
    requires At(m, root, k, t, x) && k.Frame? && k.colour == Red && CtxOk(k, h) && t.Bin?
    ensures x == t.node && k.up.Frame? && k.up.colour == Black && CtxOk(k.up, h) && CtxOk(k.up.up, h + 1)
    ensures x in m && k.node in m && k.up.node in m && m[x].parent == k.node && m[k.node].parent == k.up.node
    ensures Ptr(k.side, m[k.node]) == x && (m[k.node].right == x <==> k.side == R)
    ensures (m[k.node].left == x <==> k.side == L)
    ensures (m[k.up.node].left == k.node <==> k.up.side == L) && Ptr(k.up.side, m[k.up.node]) == k.node
    ensures Ptr(Flip(k.up.side), m[k.up.node]) == Root(k.up.sib)
    ensures k.up.sib.Bin? ==> k.up.sib.node in m && m[k.up.sib.node].colour == k.up.sib.colour
    ensures At(m, root, k.up, Over(k, t), k.node)
    ensures At(m, root, k.up.up, Over(k.up, Over(k, t)), k.up.node)
  {
    Seen(m, root, k, t, x, L);
    FocusUp(m, root, k, t, x);
    Seen(m, root, k.up, Over(k, t), k.node, L);
    FocusUp(m, root, k.up, Over(k, t), k.node);
  }

  // ---------------------------------------------------------------- erase fix-up

  function SibCtx(k: Ctx, t: Tree): Ctx
    requires k.Frame?
  {
    Frame(Flip(k.side), k.colour, k.node, t, k.up)
  }

  lemma ToSibling(m: Mem, root: Node?, k: Ctx, t: Tree, x: Node?)
    requires At(m, root, k, t, x) && k.Frame?
    ensures At(m, root, SibCtx(k, t), k.sib, Root(k.sib))
  {
    FocusUp(m, root, k, t, x);
    FocusDown(m, root, k.up, Over(k, t), k.node, Flip(k.side));
  }

  lemma FromSibling(m: Mem, root: Node?, k: Ctx, t: Tree, b: Tree, y: Node?)
    requires k.Frame? && At(m, root, SibCtx(k, t), b, y)
    ensures At(m, root, k.(sib := b), t, Root(t))
  {
    ToSibling(m, root, SibCtx(k, t), b, y);
  }

  lemma BackDown(m: Mem, root: Node?, k: Ctx, t: Tree)
    requires k.Frame? && At(m, root, k.up, Over(k, t), k.node)
    ensures At(m, root, k, t, Root(t))
  {
    FocusDown(m, root, k.up, Over(k, t), k.node, k.side);
  }

  ghost predicate Shows(m: Mem, t: Tree, x: Node?) {
    x == Root(t) && (t.Bin? ==> x in m && m[x].colour == t.colour)
  }

  lemma LinkedShows(m: Mem, t: Tree, x: Node?, p: Node?)
    requires Linked(m, t, x, p)
    ensures Shows(m, t, x)
  {
  }

  /** What the erase fix-up reads at the focus: the parent, the brother and the nephews. */
  lemma Brother(m: Mem, root: Node?, k: Ctx, t: Tree, x: Node?)
    requires At(m, root, k, t, x)
    ensures Shows(m, t, x) && (k.Top? <==> x == root)
    ensures k.Frame? ==> k.node in m && m[k.node].colour == k.colour && m[k.node].parent == Above(k.up, null)
    ensures k.Frame? ==> Ptr(k.side, m[k.node]) == x && Ptr(Flip(k.side), m[k.node]) == Root(k.sib)
    ensures k.Frame? && k.sib.Bin? ==> (m[k.node].left == x <==> k.side == L)
    ensures k.Frame? && k.sib.Bin? ==> k.sib.node in m && m[k.sib.node].colour == k.sib.colour
    ensures k.Frame? && k.sib.Bin? ==>
      Shows(m, k.sib.left, m[k.sib.node].left) && Shows(m, k.sib.right, m[k.sib.node].right)
  {
    LinkedShows(m, t, x, Above(k, null));
    if k.Frame? {
      AroundTop(m, k, x, root, null);
      var y := Ptr(Flip(k.side), m[k.node]);
      LinkedShows(m, k.sib, y, k.node);
      if k.sib.Bin? {
        LinkedKids(m, k.sib, y, k.node, L);
        LinkedShows(m, k.sib.left, m[y].left, y);
        LinkedShows(m, k.sib.right, m[y].right, y);
      }
    }
  }

  // ---------------------------------------------------------------- taking nodes out

  lemma {:induction false} Unplug(m: Mem, root: Node?, k: Ctx, t: Tree)
    requires At(m, root, Top, Plug(k, t), root)
    ensures At(m, root, k, t, Root(t))
    decreases k
  {
    ApartPlug(k, t);
    if k.Top? {
      LinkedShows(m, t, root, null);
    } else {
      Unplug(m, root, k.up, Over(k, t));
      BackDown(m, root, k, t);
    }
  }

  /** `m'` is `m` with `x` taken out, its parent `p` pointing at its only child `c` instead. */
  ghost predicate Unlinked(m: Mem, m': Mem, s: Side, x: Node, c: Node?, p: Node?) {
    && x in m && m'.Keys == m.Keys - {x} && c != x && p != x && (c != null ==> c != p)
    && (c != null ==> c in m && m'[c] == m[c].(parent := p))
    && (p != null ==> p in m && m'[p] == SetPtr(s, m[p], c))
    && forall n :: n in m' && n != c && n != p ==> m'[n] == m[n]
  }

  lemma UnlinkedAt(m: Mem, m': Mem, root: Node?, root': Node?, k: Ctx, t: Tree, x: Node, s: Side)
    requires At(m, root, k, t, x) && t.Bin? && Kid(Flip(s), t).Leaf?
    requires Unlinked(m, m', if k.Frame? then k.side else L, x, Root(Kid(s, t)), Above(k, null))
    requires root' == if k.Frame? then root else Root(Kid(s, t))
    ensures At(m', root', k, Kid(s, t), Root(Kid(s, t)))
  {
    var c := Kid(s, t);
    KidParts(s, t);
    LinkedKids(m, t, x, Above(k, null), s);
    if c.Bin? {
      LinkedRepaint(m, m', c, c.node, x, Above(k, null), c.colour);
    }
    if k.Frame? {
      assert c.Bin? ==> c.node in Nodes(c);
      AroundRepaint(m, m', k, x, Root(c), root, null, k.colour);
    }
  }

  lemma UnlinkedSight(m: Mem, root: Node?, k: Ctx, t: Tree, x: Node?, s: Side)
    requires At(m, root, k, t, x) && t.Bin?
    ensures x == t.node && x in m && m[x].parent == Above(k, null) && m[x].colour == t.colour
    ensures Shows(m, Kid(s, t), Ptr(s, m[x]))
    ensures Root(Kid(s, t)) != x && (Kid(s, t).Bin? ==> Root(Kid(s, t)) != Above(k, null)) && Above(k, null) != x
    ensures k.Frame? ==> k.node in m && (m[k.node].left == x <==> k.side == L)
    ensures k.Top? <==> x == root
  {
    KidParts(s, t);
    LinkedKids(m, t, x, Above(k, null), s);
    LinkedShows(m, Kid(s, t), Ptr(s, m[x]), x);
    assert Kid(s, t).Bin? ==> Kid(s, t).node in Nodes(Kid(s, t));
    if k.Frame? {
      Beside(m, k, x, root, null, x);
      AroundTop(m, k, x, root, null);
    }
  }

  /** `m'` is `m` with `y` in the place of `x`: same fields, same neighbours. */
  ghost predicate Substituted(m: Mem, m': Mem, s: Side, x: Node, y: Node) {
    && x in m && y !in m && m'.Keys == m.Keys - {x} + {y} && m'[y] == m[x]
    && var l, r, p := m[x].left, m[x].right, m[x].parent;
    && (l != null ==> l in m && l != x && l != r && l != p && m'[l] == m[l].(parent := y))
    && (r != null ==> r in m && r != x && r != p && m'[r] == m[r].(parent := y))
    && (p != null ==> p in m && p != x && m'[p] == SetPtr(s, m[p], y))
    && forall n :: n in m && n != x && n != l && n != r && n != p ==> m'[n] == m[n]
  }

  lemma NeighboursApart(m: Mem, root: Node?, k: Ctx, t: Tree, x: Node?)
    requires At(m, root, k, t, x) && t.Bin?
    ensures x == t.node && x in m && m[x].parent == Above(k, null)
    ensures var l, r, p := m[x].left, m[x].right, m[x].parent;
      && l == Root(t.left) && r == Root(t.right)
      && (l != null ==> l in m && l != x && l != r && l != p)
      && (r != null ==> r in m && r != x && r != p)
      && (p != null ==> p in m && p != x && (m[p].left == x <==> k.side == L))
  {
    UnlinkedSight(m, root, k, t, x, L);
    UnlinkedSight(m, root, k, t, x, R);
    assert t.left.Bin? ==> t.left.node in Nodes(t.left);
    assert t.right.Bin? ==> t.right.node in Nodes(t.right);
  }

  lemma SubstitutedAt(m: Mem, m': Mem, root: Node?, root': Node?, k: Ctx, t: Tree, x: Node, y: Node)
    requires At(m, root, k, t, x) && t.Bin?
    requires Substituted(m, m', if k.Frame? then k.side else L, x, y)
    requires root' == if k.Frame? then root else y
    ensures At(m', root', k, t.(node := y), y)
  {
    KidParts(L, t);
    KidParts(L, t.(node := y));
    LinkedKids(m, t, x, Above(k, null), L);
    LinkedShows(m, t.left, m[x].left, x);
    LinkedShows(m, t.right, m[x].right, x);
    assert t.left.Bin? ==> t.left.node in Nodes(t.left);
    assert t.right.Bin? ==> t.right.node in Nodes(t.right);
    if t.left.Bin? { LinkedRepaint(m, m', t.left, t.left.node, x, y, t.left.colour); }
    if t.right.Bin? { LinkedRepaint(m, m', t.right, t.right.node, x, y, t.right.colour); }
    if k.Frame? { AroundRepaint(m, m', k, x, y, root, null, k.colour); }
  }
}
