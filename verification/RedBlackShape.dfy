/** Shapes of the red-black trees of ext4fsd/include/drv_common/drv_tree.h.

    A Tree is the ghost picture of a subtree in the heap and a Ctx is the picture of everything
    around one place in it, read from that place up to the root. The heap algorithms of module
    RedBlackTree move a place through the tree; the lemmas here say what holds of the whole.
  */
module RedBlackShape {

  const BLOCK_LIMIT := 0x1_0000_0000_0000_0000

  /** A 64-bit block number. */
  type Block = b: nat | b < BLOCK_LIMIT

  /** A transaction number, 32 bits wide. */
  type Tid = t: nat | t < 0x1_0000_0000

  datatype Color = Red | Black

  /** A revoke entry with its embedded tree header: the node type of the journal's tables. */
  class Node {
    const block: Block
    var tid: Tid
    var refcount: int
    var isNew: bool
    var left: Node?
    var right: Node?
    var parent: Node?
    var color: Color

    constructor (block: Block)
      ensures this.block == block && refcount == 0 && isNew
    {
      this.block := block;
      tid, refcount, isNew := 0, 0, true;
      left, right, parent, color := null, null, null, Red;
    }
  }

  datatype Tree = Leaf | Branch(left: Tree, n: Node, c: Color, right: Tree)

  datatype Ctx =
    | Top
    | InLeft(n: Node, c: Color, right: Tree, up: Ctx)
    | InRight(left: Tree, n: Node, c: Color, up: Ctx)

  ghost function Plug(ctx: Ctx, t: Tree): Tree
    decreases ctx
  {
    match ctx
    case Top => t
    case InLeft(n, c, r, up) => Plug(up, Branch(t, n, c, r))
    case InRight(l, n, c, up) => Plug(up, Branch(l, n, c, t))
  }

  // ----- Nodes and their order -----

  ghost function Nodes(t: Tree): set<Node> {
    match t
    case Leaf => {}
    case Branch(l, n, _, r) => Nodes(l) + {n} + Nodes(r)
  }

  ghost function CtxNodes(ctx: Ctx): set<Node> {
    match ctx
    case Top => {}
    case InLeft(n, _, r, up) => {n} + Nodes(r) + CtxNodes(up)
    case InRight(l, n, _, up) => {n} + Nodes(l) + CtxNodes(up)
  }

  ghost function InOrder(t: Tree): seq<Node> {
    match t
    case Leaf => []
    case Branch(l, n, _, r) => InOrder(l) + [n] + InOrder(r)
  }

  /** Binary search order, all keys strictly between two bounds. */
  ghost predicate Ordered(t: Tree, lo: int, hi: int) {
    match t
    case Leaf => true
    case Branch(l, n, _, r) => lo < n.block < hi && Ordered(l, lo, n.block) && Ordered(r, n.block, hi)
  }

  /** The bounds that the surroundings put on the keys at a place. */
  ghost function Lo(ctx: Ctx): int {
    match ctx
    case Top => -1
    case InLeft(_, _, _, up) => Lo(up)
    case InRight(_, n, _, _) => n.block
  }

  ghost function Hi(ctx: Ctx): int {
    match ctx
    case Top => BLOCK_LIMIT
    case InLeft(n, _, _, _) => n.block
    case InRight(_, _, _, up) => Hi(up)
  }

  ghost predicate CtxOrdered(ctx: Ctx) {
    match ctx
    case Top => true
    case InLeft(n, _, r, up) => Lo(up) < n.block < Hi(up) && Ordered(r, n.block, Hi(up)) && CtxOrdered(up)
    case InRight(l, n, _, up) => Lo(up) < n.block < Hi(up) && Ordered(l, Lo(up), n.block) && CtxOrdered(up)
  }

  lemma {:induction false} OrderedKeys(t: Tree, lo: int, hi: int)
    requires Ordered(t, lo, hi)
    ensures forall n :: n in Nodes(t) ==> lo < n.block < hi
  {
    match t
    case Leaf =>
    case Branch(l, n, _, r) =>
      OrderedKeys(l, lo, n.block);
      OrderedKeys(r, n.block, hi);
  }

  /** The keys around a place lie outside its bounds. */
  lemma {:induction false} CtxKeys(ctx: Ctx)
    requires CtxOrdered(ctx)
    ensures forall n :: n in CtxNodes(ctx) ==> n.block <= Lo(ctx) || n.block >= Hi(ctx)
  {
    match ctx
    case Top =>
    case InLeft(n, _, r, up) =>
      CtxKeys(up);
      OrderedKeys(r, n.block, Hi(up));
    case InRight(l, n, _, up) =>
      CtxKeys(up);
      OrderedKeys(l, Lo(up), n.block);
  }

  lemma NotInside(t: Tree, lo: int, hi: int, n: Node?)
    requires Ordered(t, lo, hi) && (n == null || n.block <= lo || n.block >= hi)
    ensures n !in Nodes(t)
  {
    OrderedKeys(t, lo, hi);
  }

  lemma NotAround(ctx: Ctx, n: Node?)
    requires CtxOrdered(ctx) && (n == null || Lo(ctx) < n.block < Hi(ctx))
    ensures n !in CtxNodes(ctx)
  {
    CtxKeys(ctx);
  }

  lemma {:induction false} PlugOrdered(ctx: Ctx, t: Tree)
    ensures Ordered(Plug(ctx, t), -1, BLOCK_LIMIT) <==> CtxOrdered(ctx) && Ordered(t, Lo(ctx), Hi(ctx))
    decreases ctx
  {
    match ctx
    case Top =>
    case InLeft(n, c, r, up) => PlugOrdered(up, Branch(t, n, c, r));
    case InRight(l, n, c, up) => PlugOrdered(up, Branch(l, n, c, t));
  }

  lemma {:induction false} PlugNodes(ctx: Ctx, t: Tree)
    ensures Nodes(Plug(ctx, t)) == CtxNodes(ctx) + Nodes(t)
    decreases ctx
  {
    match ctx
    case Top =>
    case InLeft(n, c, r, up) => PlugNodes(up, Branch(t, n, c, r));
    case InRight(l, n, c, up) => PlugNodes(up, Branch(l, n, c, t));
  }

  // ----- The heap -----

  /** The tree fields of one node. */
  datatype Links = Links(left: Node?, right: Node?, parent: Node?, color: Color)

  /** A snapshot of the tree fields of a set of nodes. */
  type Heap = map<Node, Links>

  ghost function Snapshot(nodes: set<Node>): (m: Heap)
    reads nodes
    ensures m.Keys == nodes
  {
    map n | n in nodes :: Links(n.left, n.right, n.parent, n.color)
  }

  /** The heap below p, whose parent link is given, looks like t. */
  ghost predicate Is(m: Heap, t: Tree, p: Node?, parent: Node?)
    decreases t
  {
    match t
    case Leaf => p == null
    case Branch(l, n, c, r) =>
      && p == n && n in m && m[n].parent == parent && m[n].color == c
      && Is(m, l, m[n].left, n) && Is(m, r, m[n].right, n)
  }

  ghost function ParentOf(ctx: Ctx, rootParent: Node?): Node? {
    match ctx
    case Top => rootParent
    case InLeft(n, _, _, _) => n
    case InRight(_, n, _, _) => n
  }

  /** The heap from the place held by the pointer hole up to root looks like ctx. */
  ghost predicate CtxIs(m: Heap, ctx: Ctx, hole: Node?, root: Node?, rootParent: Node?)
    decreases ctx
  {
    match ctx
    case Top => hole == root
    case InLeft(n, c, r, up) =>
      && n in m && m[n].left == hole && m[n].color == c && m[n].parent == ParentOf(up, rootParent)
      && Is(m, r, m[n].right, n) && CtxIs(m, up, n, root, rootParent)
    case InRight(l, n, c, up) =>
      && n in m && m[n].right == hole && m[n].color == c && m[n].parent == ParentOf(up, rootParent)
      && Is(m, l, m[n].left, n) && CtxIs(m, up, n, root, rootParent)
  }

  ghost predicate SameOn(m: Heap, m': Heap, nodes: set<Node>) {
    forall n :: n in nodes && n in m ==> n in m' && m'[n] == m[n]
  }

  lemma {:induction false} IsFrame(m: Heap, m': Heap, t: Tree, p: Node?, parent: Node?)
    requires Is(m, t, p, parent) && SameOn(m, m', Nodes(t))
    ensures Is(m', t, p, parent)
    decreases t
  {
    match t
    case Leaf =>
    case Branch(l, n, _, r) =>
      IsFrame(m, m', l, m[n].left, n);
      IsFrame(m, m', r, m[n].right, n);
  }

  lemma {:induction false} CtxFrame(m: Heap, m': Heap, ctx: Ctx, hole: Node?, root: Node?, rootParent: Node?)
    requires CtxIs(m, ctx, hole, root, rootParent) && SameOn(m, m', CtxNodes(ctx))
    ensures CtxIs(m', ctx, hole, root, rootParent)
    decreases ctx
  {
    match ctx
    case Top =>
    case InLeft(n, _, r, up) =>
      IsFrame(m, m', r, m[n].right, n);
      CtxFrame(m, m', up, n, root, rootParent);
    case InRight(l, n, _, up) =>
      IsFrame(m, m', l, m[n].left, n);
      CtxFrame(m, m', up, n, root, rootParent);
  }

  /** Only the topmost node of a subtree changes, in its parent link and its color. */
  lemma IsRetopped(m: Heap, m': Heap, t: Tree, p: Node?, parent: Node?, parent': Node?, c': Color, lo: int, hi: int)
    requires Is(m, t, p, parent) && Ordered(t, lo, hi)
    requires t.Branch? ==> t.n in m' && m'[t.n] == m[t.n].(parent := parent', color := c')
    requires forall n :: n in Nodes(t) && n != p && n in m ==> n in m' && m'[n] == m[n]
    ensures Is(m', Recolored(t, c'), p, parent')
  {
    match t
    case Leaf =>
    case Branch(l, n, _, r) =>
      OrderedKeys(l, lo, n.block);
      OrderedKeys(r, n.block, hi);
      IsFrame(m, m', l, m[n].left, n);
      IsFrame(m, m', r, m[n].right, n);
  }

  /** The link that led to a place leads elsewhere. */
  ghost predicate Relinked(m: Heap, m': Heap, ctx: Ctx, hole': Node?, root: Node?, root': Node?) {
    match ctx
    case Top => root' == hole'
    case InLeft(n, _, _, _) => n in m && n in m' && m'[n] == m[n].(left := hole') && root' == root
    case InRight(_, n, _, _) => n in m && n in m' && m'[n] == m[n].(right := hole') && root' == root
  }

  lemma CtxRelinked(m: Heap, m': Heap, ctx: Ctx, hole: Node?, hole': Node?, root: Node?, root': Node?,
      rootParent: Node?)
    requires CtxIs(m, ctx, hole, root, rootParent) && CtxOrdered(ctx) && Relinked(m, m', ctx, hole', root, root')
    requires forall n :: n in CtxNodes(ctx) && n != ParentOf(ctx, null) && n in m ==> n in m' && m'[n] == m[n]
    ensures CtxIs(m', ctx, hole', root', rootParent)
  {
    match ctx
    case Top =>
    case InLeft(n, _, r, up) =>
      CtxKeys(up);
      OrderedKeys(r, n.block, Hi(up));
      IsFrame(m, m', r, m[n].right, n);
      CtxFrame(m, m', up, n, root, rootParent);
    case InRight(l, n, _, up) =>
      CtxKeys(up);
      OrderedKeys(l, Lo(up), n.block);
      IsFrame(m, m', l, m[n].left, n);
      CtxFrame(m, m', up, n, root, rootParent);
  }

  /** A place whose surroundings and contents are pictured right pictures the whole tree right. */
  lemma {:induction false} PlugIs(m: Heap, ctx: Ctx, t: Tree, p: Node?, root: Node?, rootParent: Node?)
    requires CtxIs(m, ctx, p, root, rootParent) && Is(m, t, p, ParentOf(ctx, rootParent))
    ensures Is(m, Plug(ctx, t), root, rootParent)
    decreases ctx
  {
    match ctx
    case Top =>
    case InLeft(n, c, r, up) => PlugIs(m, up, Branch(t, n, c, r), n, root, rootParent);
    case InRight(l, n, c, up) => PlugIs(m, up, Branch(l, n, c, t), n, root, rootParent);
  }

  // ----- Red-black balance -----

  ghost predicate IsRed(t: Tree) { t.Branch? && t.c.Red? }

  ghost function Recolored(t: Tree, c: Color): Tree {
    match t
    case Leaf => Leaf
    case Branch(l, n, _, r) => Branch(l, n, c, r)
  }

  /** Every path of t to a leaf has h black nodes and no red node has a red child. */
  ghost predicate Balanced(t: Tree, h: nat) {
    match t
    case Leaf => h == 0
    case Branch(l, _, Red, r) => Balanced(l, h) && Balanced(r, h) && !IsRed(l) && !IsRed(r)
    case Branch(l, _, Black, r) => h > 0 && Balanced(l, h - 1) && Balanced(r, h - 1)
  }

  ghost predicate CtxBlack(ctx: Ctx) { ctx.Top? || ctx.c.Black? }

  /** A tree of black height h fits the place: the root is black, and so is the parent of
      every red node. */
  ghost predicate CtxBalanced(ctx: Ctx, h: nat)
    decreases ctx
  {
    match ctx
    case Top => true
    case InLeft(_, Red, r, up) => Balanced(r, h) && !IsRed(r) && !up.Top? && CtxBlack(up) && CtxBalanced(up, h)
    case InRight(l, _, Red, up) => Balanced(l, h) && !IsRed(l) && !up.Top? && CtxBlack(up) && CtxBalanced(up, h)
    case InLeft(_, Black, r, up) => Balanced(r, h) && CtxBalanced(up, h + 1)
    case InRight(l, _, Black, up) => Balanced(l, h) && CtxBalanced(up, h + 1)
  }

  ghost predicate RedBlack(t: Tree) { !IsRed(t) && exists h: nat :: Balanced(t, h) }

  lemma {:induction false} PlugBalanced(ctx: Ctx, t: Tree, h: nat) returns (k: nat)
    requires CtxBalanced(ctx, h) && Balanced(t, h) && (IsRed(t) ==> CtxBlack(ctx))
    ensures Balanced(Plug(ctx, t), k)
    ensures IsRed(Plug(ctx, t)) ==> ctx.Top? && IsRed(t)
    decreases ctx
  {
    match ctx
    case Top =>
      k := h;
    case InLeft(n, c, r, up) =>
      k := PlugBalanced(up, Branch(t, n, c, r), if c.Red? then h else h + 1);
    case InRight(l, n, c, up) =>
      k := PlugBalanced(up, Branch(l, n, c, t), if c.Red? then h else h + 1);
  }

  lemma EmptyRedBlack()
    ensures RedBlack(Leaf)
  {
    assert Balanced(Leaf, 0);
  }

  // ----- Sorted sequences -----

  ghost predicate Sorted(s: seq<Node>) {
    forall i, j :: 0 <= i < j < |s| ==> s[i].block < s[j].block
  }

  ghost function Elements(s: seq<Node>): set<Node> { set n | n in s }

  lemma SortedJoin(a: seq<Node>, n: Node, b: seq<Node>)
    requires Sorted(a) && Sorted(b)
    requires forall x :: x in Elements(a) ==> x.block < n.block
    requires forall x :: x in Elements(b) ==> x.block > n.block
    ensures Sorted(a + [n] + b)
    ensures Elements(a + [n] + b) == Elements(a) + {n} + Elements(b)
  {
    var s := a + [n] + b;
    forall i, j | 0 <= i < j < |s|
      ensures s[i].block < s[j].block
    {
      assert i < |a| ==> s[i] in Elements(a);
      assert i > |a| ==> s[i] == b[i - |a| - 1];
      assert j > |a| ==> s[j] == b[j - |a| - 1] && s[j] in Elements(b);
    }
  }

  // ----- Height -----

  ghost function Max(a: nat, b: nat): nat { if a > b then a else b }

  ghost function Height(t: Tree): nat {
    if t.Leaf? then 0 else 1 + Max(Height(t.left), Height(t.right))
  }

  ghost function Pow2(n: nat): nat { if n == 0 then 1 else 2 * Pow2(n - 1) }

  lemma {:induction false} HeightBounded(t: Tree, h: nat)
    requires Balanced(t, h)
    ensures Height(t) <= 2 * h + if IsRed(t) then 1 else 0
    decreases t
  {
    match t
    case Leaf =>
    case Branch(l, _, c, r) =>
      var k := if c.Red? then h else h - 1;
      HeightBounded(l, k);
      HeightBounded(r, k);
  }

  lemma {:induction false} SizeBounded(t: Tree, h: nat)
    requires Balanced(t, h)
    ensures Pow2(h) <= |InOrder(t)| + 1
    decreases t
  {
    match t
    case Leaf =>
    case Branch(l, _, c, r) =>
      var k := if c.Red? then h else h - 1;
      SizeBounded(l, k);
      SizeBounded(r, k);
  }

  lemma {:induction false} Pow2Adds(a: nat, b: nat)
    ensures Pow2(a + b) == Pow2(a) * Pow2(b)
  {
    if a == 0 {
    } else {
      Pow2Adds(a - 1, b);
    }
  }

  lemma {:induction false} Pow2Grows(a: nat, b: nat)
    requires a <= b
    ensures Pow2(a) <= Pow2(b)
    decreases b - a
  {
    if a == b {
    } else {
      Pow2Grows(a + 1, b);
    }
  }

  /** A tree of n nodes has height at most 2 * log2(n + 1). */
  lemma HeightLogarithmic(t: Tree)
    requires RedBlack(t)
    ensures Pow2(Height(t)) <= (|InOrder(t)| + 1) * (|InOrder(t)| + 1)
  {
    var h: nat :| Balanced(t, h);
    var n := |InOrder(t)| + 1;
    HeightBounded(t, h);
    SizeBounded(t, h);
    Pow2Grows(Height(t), h + h);
    Pow2Adds(h, h);
    MulMonotone(Pow2(h), n);
  }

  lemma MulMonotone(a: nat, b: nat)
    requires a <= b
    ensures a * a <= b * b
  {
    assert b * b - a * a == (b - a) * (b + a);
  }
}
