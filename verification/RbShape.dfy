/** The value side of utils/rbtree.c: the shape of a red-black tree, the context of a
    subtree inside it, and what the colours and the order promise.

    A `Tree` is the abstract value of a subtree of linked nodes.  A `Ctx` is such a value with
    one subtree missing, read from the hole upwards, which is how the fix-up loops of the
    source travel.  Nothing here reads the heap. */
module RbShape {

  datatype Colour = Red | Black

  /** `struct rbtree`.  `key` stands for the `vm_end` of the area the node is embedded in. */
  class Node {
    var left: Node?
    var right: Node?
    var parent: Node?
    var colour: Colour
    const key: int

    constructor (key: int)
      ensures this.key == key
    {
      this.key := key;
      left, right, parent, colour := null, null, null, Red;
    }
  }

  datatype Tree = Leaf | Bin(colour: Colour, left: Tree, node: Node, right: Tree)

  datatype Side = L | R

  /** `Frame(s, c, n, sib, up)`: the hole is the `s` child of node `n`, whose other child is `sib`. */
  datatype Ctx = Top | Frame(side: Side, colour: Colour, node: Node, sib: Tree, up: Ctx)

  function Join(s: Side, c: Colour, n: Node, t: Tree, sib: Tree): (j: Tree)
    ensures j.Bin? && j.node == n && j.colour == c
  {
    if s == L then Bin(c, t, n, sib) else Bin(c, sib, n, t)
  }

  function Plug(k: Ctx, t: Tree): Tree
    decreases k
  {
    match k
    case Top => t
    case Frame(s, c, n, sib, up) => Plug(up, Join(s, c, n, t, sib))
  }

  function Depth(k: Ctx): nat {
    if k.Top? then 0 else 1 + Depth(k.up)
  }

  function Root(t: Tree): (x: Node?)
    ensures x == null <==> t == Leaf
  {
    if t.Leaf? then null else t.node
  }

  function Above(k: Ctx, base: Node?): Node? {
    if k.Top? then base else k.node
  }

  // ---------------------------------------------------------------- in-order sequence

  function InOrder(t: Tree): seq<Node> {
    if t.Leaf? then [] else InOrder(t.left) + [t.node] + InOrder(t.right)
  }

  function Before(k: Ctx): seq<Node> {
    match k
    case Top => []
    case Frame(L, _, n, sib, up) => Before(up)
    case Frame(R, _, n, sib, up) => Before(up) + InOrder(sib) + [n]
  }

  function After(k: Ctx): seq<Node> {
    match k
    case Top => []
    case Frame(L, _, n, sib, up) => [n] + InOrder(sib) + After(up)
    case Frame(R, _, n, sib, up) => After(up)
  }

  lemma {:induction false} InOrderPlug(k: Ctx, t: Tree)
    ensures InOrder(Plug(k, t)) == Before(k) + InOrder(t) + After(k)
    decreases k
  {
    if k.Frame? {
      InOrderPlug(k.up, Join(k.side, k.colour, k.node, t, k.sib));
    }
  }

  /** Removing one element from the middle of a sequence. */
  lemma Cut<T>(w: seq<T>, a: seq<T>, b: seq<T>, x: T, c: seq<T>, d: seq<T>, rest: seq<T>)
    requires w == a + (b + [x] + c) + d && rest == a + b + c + d
    ensures var i := |a| + |b|; i < |w| && w[i] == x && w[..i] + w[i + 1..] == rest
  {
    var i := |a| + |b|;
    assert w == (a + b) + [x] + (c + d);
    assert w[..i] == a + b && w[i + 1..] == c + d;
    assert rest == (a + b) + (c + d);
  }

  lemma Regroup<T>(a: seq<T>, b: seq<T>, x: T, v: seq<T>, c: seq<T>, d: seq<T>)
    requires [x] + v == c
    ensures a + (b + [x] + v) + d == a + b + c + d
  {
    assert b + [x] + v == b + c;
    assert a + (b + c) == a + b + c;
  }

  lemma SameInside(k: Ctx, t: Tree, t': Tree)
    requires InOrder(t) == InOrder(t')
    ensures InOrder(Plug(k, t)) == InOrder(Plug(k, t'))
  {
    InOrderPlug(k, t);
    InOrderPlug(k, t');
  }

  // ---------------------------------------------------------------- nodes and distinctness

  ghost function Nodes(t: Tree): set<Node> {
    if t.Leaf? then {} else Nodes(t.left) + {t.node} + Nodes(t.right)
  }

  ghost predicate Distinct(t: Tree) {
    t.Bin? ==>
      && t.node !in Nodes(t.left) && t.node !in Nodes(t.right)
      && Nodes(t.left) !! Nodes(t.right)
      && Distinct(t.left) && Distinct(t.right)
  }

  ghost function CtxNodes(k: Ctx): set<Node> {
    if k.Top? then {} else {k.node} + Nodes(k.sib) + CtxNodes(k.up)
  }

  ghost predicate CtxDistinct(k: Ctx) {
    k.Frame? ==>
      && k.node !in Nodes(k.sib) && k.node !in CtxNodes(k.up)
      && Nodes(k.sib) !! CtxNodes(k.up)
      && Distinct(k.sib) && CtxDistinct(k.up)
  }

  /** No node occurs twice in the tree obtained by putting `t` into `k`. */
  ghost predicate Apart(k: Ctx, t: Tree) {
    CtxDistinct(k) && Distinct(t) && CtxNodes(k) !! Nodes(t)
  }

  lemma {:induction false} ApartPlug(k: Ctx, t: Tree)
    ensures Nodes(Plug(k, t)) == CtxNodes(k) + Nodes(t)
    ensures Distinct(Plug(k, t)) <==> Apart(k, t)
    decreases k
  {
    if k.Frame? {
      ApartPlug(k.up, Join(k.side, k.colour, k.node, t, k.sib));
    }
  }

  lemma {:induction false} NodesInOrder(t: Tree)
    ensures forall n :: n in Nodes(t) <==> n in InOrder(t)
  {
    if t.Bin? {
      NodesInOrder(t.left);
      NodesInOrder(t.right);
    }
  }

  // ---------------------------------------------------------------- colours

  predicate IsBlack(t: Tree) {
    t.Leaf? || t.colour == Black
  }

  /** Black height `h` on every path, and no red node with a red child. */
  ghost predicate Ok(t: Tree, h: nat) {
    match t
    case Leaf => h == 0
    case Bin(Black, l, _, r) => h > 0 && Ok(l, h - 1) && Ok(r, h - 1)
    case Bin(Red, l, _, r) => Ok(l, h) && Ok(r, h) && IsBlack(l) && IsBlack(r)
  }

  /** A subtree with a black root and black height `h` completes `k` to a red-black tree. */
  ghost predicate CtxOk(k: Ctx, h: nat) {
    match k
    case Top => true
    case Frame(_, Black, _, sib, up) => Ok(sib, h) && CtxOk(up, h + 1)
    case Frame(_, Red, _, sib, up) =>
      Ok(sib, h) && IsBlack(sib) && up.Frame? && up.colour == Black && CtxOk(up, h)
  }

  /** May the hole of `k` hold a tree with the colour of `t` at its root? */
  predicate Fits(k: Ctx, t: Tree) {
    IsBlack(t) || (k.Frame? && k.colour == Black)
  }

  ghost predicate RedBlack(t: Tree) {
    IsBlack(t) && exists h: nat :: Ok(t, h)
  }

  ghost function CtxHeight(k: Ctx, h: nat): nat {
    match k
    case Top => h
    case Frame(_, c, _, _, up) => CtxHeight(up, if c == Black then h + 1 else h)
  }

  lemma {:induction false} OkPlug(k: Ctx, t: Tree, h: nat)
    requires Ok(t, h) && CtxOk(k, h) && Fits(k, t)
    ensures RedBlack(Plug(k, t))
    decreases k
  {
    if k.Frame? {
      OkPlug(k.up, Join(k.side, k.colour, k.node, t, k.sib), if k.colour == Black then h + 1 else h);
    }
  }

  lemma BlackRoot(t: Tree, h: nat)
    requires Ok(t, h) && t.Bin?
    ensures RedBlack(t.(colour := Black))
  {
    assert Ok(t.(colour := Black), if t.colour == Black then h else h + 1);
  }

  /** Taking a red-black tree apart at the hole of `k`. */
  lemma {:induction false} OkSplit(k: Ctx, t: Tree, h: nat) returns (i: nat)
    requires Ok(Plug(k, t), h) && IsBlack(Plug(k, t))
    ensures Ok(t, i) && CtxOk(k, i) && Fits(k, t)
    decreases k
  {
    if k.Top? {
      i := h;
    } else {
      i := OkSplit(k.up, Join(k.side, k.colour, k.node, t, k.sib), h);
      i := if k.colour == Black then i - 1 else i;
    }
  }

  // ---------------------------------------------------------------- nested contexts

  function Append(inner: Ctx, outer: Ctx): Ctx {
    if inner.Top? then outer else inner.(up := Append(inner.up, outer))
  }

  lemma {:induction false} PlugAppend(inner: Ctx, outer: Ctx, t: Tree)
    ensures Plug(Append(inner, outer), t) == Plug(outer, Plug(inner, t))
    decreases inner
  {
    if inner.Frame? { PlugAppend(inner.up, outer, Join(inner.side, inner.colour, inner.node, t, inner.sib)); }
  }

  /** The node at which the inner context hangs does not matter to the colours. */
  lemma {:induction false} CtxOkRename(inner: Ctx, outer: Ctx, n: Node, h: nat)
    requires outer.Frame? && CtxOk(Append(inner, outer), h)
    ensures CtxOk(Append(inner, outer.(node := n)), h)
    decreases inner
  {
    if inner.Frame? { CtxOkRename(inner.up, outer, n, if inner.colour == Black then h + 1 else h); }
  }

  /** Every node of a tree is the root of some subtree. */
  lemma {:induction false} PathTo(t: Tree, n: Node) returns (k: Ctx, u: Tree)
    requires n in Nodes(t)
    ensures Plug(k, u) == t && u.Bin? && u.node == n
    decreases t
  {
    if t.node == n {
      k, u := Top, t;
    } else if n in Nodes(t.left) {
      k, u := PathTo(t.left, n);
      k := Nest(k, Frame(L, t.colour, t.node, t.right, Top), u);
    } else {
      k, u := PathTo(t.right, n);
      k := Nest(k, Frame(R, t.colour, t.node, t.left, Top), u);
    }
  }

  lemma Nest(inner: Ctx, outer: Ctx, t: Tree) returns (k: Ctx)
    ensures k == Append(inner, outer) && Plug(k, t) == Plug(outer, Plug(inner, t))
  {
    k := Append(inner, outer);
    PlugAppend(inner, outer, t);
  }

  // ---------------------------------------------------------------- the right spine

  predicate RightSpine(k: Ctx) {
    k.Frame? ==> k.side == R && RightSpine(k.up)
  }

  /** Following right children from the root of `t` leads to `p` and then to the leaf node `x`. */
  predicate EndsWith(t: Tree, p: Node, x: Node) {
    t.Bin?
    && ((t.node == p && t.right.Bin? && t.right == Bin(t.right.colour, Leaf, x, Leaf)) || EndsWith(t.right, p, x))
  }

  /** The fix-up of a node `x` hung below the rightmost node `p` never separates the two. */
  predicate Trailing(k: Ctx, t: Tree, p: Node, x: Node) {
    RightSpine(k) && ((k.Frame? && k.node == p && t == Bin(Red, Leaf, x, Leaf)) || EndsWith(t, p, x))
  }

  lemma {:induction false} TrailingPlug(k: Ctx, t: Tree, p: Node, x: Node)
    requires Trailing(k, t, p, x)
    ensures EndsWith(Plug(k, t), p, x)
    decreases k
  {
    if k.Frame? { TrailingPlug(k.up, Join(k.side, k.colour, k.node, t, k.sib), p, x); }
  }

  lemma {:induction false} EndsWithLast(t: Tree, p: Node, x: Node)
    requires EndsWith(t, p, x)
    ensures |InOrder(t)| >= 2 && InOrder(t)[|InOrder(t)| - 1] == x && InOrder(t)[|InOrder(t)| - 2] == p
  {
    if t.node == p && t.right.Bin? && t.right == Bin(t.right.colour, Leaf, x, Leaf) {
      assert InOrder(t.right) == [x];
    } else {
      EndsWithLast(t.right, p, x);
    }
  }

  // ---------------------------------------------------------------- height bound

  function Height(t: Tree): nat {
    if t.Leaf? then 0 else 1 + (if Height(t.left) > Height(t.right) then Height(t.left) else Height(t.right))
  }

  function Pow2(n: nat): (p: nat)
    ensures p > 0
  {
    if n == 0 then 1 else 2 * Pow2(n - 1)
  }

  lemma {:induction false} Pow2Mono(m: nat, n: nat)
    requires m <= n
    ensures Pow2(m) <= Pow2(n)
    decreases n
  {
    if m < n { Pow2Mono(m, n - 1); }
  }

  lemma {:induction false} Pow2Add(m: nat, n: nat)
    ensures Pow2(m + n) == Pow2(m) * Pow2(n)
    decreases n
  {
    if n > 0 { Pow2Add(m, n - 1); assert Pow2(m + n) == 2 * Pow2(m + n - 1); }
  }

  lemma {:induction false} BlackHeightBounds(t: Tree, h: nat)
    requires Ok(t, h)
    ensures Height(t) <= 2 * h + (if IsBlack(t) then 0 else 1)
    ensures Pow2(h) <= |InOrder(t)| + 1
    decreases t
  {
    if t.Bin? {
      var h' := if t.colour == Black then h - 1 else h;
      BlackHeightBounds(t.left, h');
      BlackHeightBounds(t.right, h');
    }
  }

  /** height <= 2 * log2(n + 1), written without a logarithm. */
  lemma {:induction false} HeightBound(t: Tree)
    requires RedBlack(t)
    ensures Pow2(Height(t)) <= (|InOrder(t)| + 1) * (|InOrder(t)| + 1)
  {
    var h: nat :| Ok(t, h);
    var n := |InOrder(t)| + 1;
    BlackHeightBounds(t, h);
    Pow2Mono(Height(t), h + h);
    Pow2Add(h, h);
    MulMono(Pow2(h), n);
  }

  lemma MulMono(a: nat, b: nat)
    requires a <= b
    ensures a * a <= b * b
  {
    assert a * a <= a * b <= b * b;
  }
}
