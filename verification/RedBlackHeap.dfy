/** Places in a red-black tree in the heap: what the links at a place say about the pictured tree,
    and what a change of a few links does to it.
  */
module RedBlackHeap {
  import opened RedBlackShape

  /** The place held by pointer p in a search tree that owns the nodes of m: ctx around the
      place and t below it. */
  ghost predicate At(m: Heap, root: Node?, ctx: Ctx, t: Tree, p: Node?) {
    && CtxOrdered(ctx) && Ordered(t, Lo(ctx), Hi(ctx)) && m.Keys == CtxNodes(ctx) + Nodes(t)
    && CtxIs(m, ctx, p, root, null) && Is(m, t, p, ParentOf(ctx, null))
  }

  /** A red subtree of black height h where one fits: all is well but the parent may be red. */
  ghost predicate RedPlace(m: Heap, root: Node?, ctx: Ctx, t: Tree, p: Node, h: nat) {
    At(m, root, ctx, t, p) && IsRed(t) && Balanced(t, h) && CtxBalanced(ctx, h)
  }

  ghost function RotatedLeft(t: Tree): Tree
    requires t.Branch? && t.right.Branch?
  {
    var r := t.right;
    Branch(Branch(t.left, t.n, t.c, r.left), r.n, r.c, r.right)
  }

  ghost function RotatedRight(t: Tree): Tree
    requires t.Branch? && t.left.Branch?
  {
    var r := t.left;
    Branch(r.left, r.n, r.c, Branch(r.right, t.n, t.c, t.right))
  }

  /** jbd2_generic_table_cmp */
  function Compare(a: Node, b: Node): (r: int)
    ensures r < 0 <==> a.block < b.block
    ensures r > 0 <==> a.block > b.block
  {
    if a.block < b.block then -1 else if a.block > b.block then 1 else 0
  }

  ghost function Root(t: Tree): Node? { if t.Leaf? then null else t.n }

  ghost function ColorOf(t: Tree): Color { if t.Leaf? then Black else t.c }

  /** The subtree one step up from a place. */
  ghost function Filled(ctx: Ctx, t: Tree): Tree
    requires !ctx.Top?
  {
    match ctx
    case InLeft(n, c, r, _) => Branch(t, n, c, r)
    case InRight(l, n, c, _) => Branch(l, n, c, t)
  }

  ghost function Sibling(ctx: Ctx): Tree
    requires !ctx.Top?
  {
    if ctx.InLeft? then ctx.right else ctx.left
  }

  ghost function Depth(ctx: Ctx): nat { if ctx.Top? then 0 else 1 + Depth(ctx.up) }

  ghost function BlackRed(t: Tree, black: Node): Tree
    requires t.Branch?
  {
    if black == Root(t.left) then Branch(Recolored(t.left, Black), t.n, Red, t.right)
    else Branch(t.left, t.n, Red, Recolored(t.right, Black))
  }

  ghost function Painted(t: Tree, c: Color, cl: Color, cr: Color): Tree
    requires t.Branch?
  {
    Branch(Recolored(t.left, cl), t.n, c, Recolored(t.right, cr))
  }

  /** A subtree that is one black node short of what its place needs; a red root makes up for it. */
  ghost predicate Short(ctx: Ctx, t: Tree, h: nat) {
    CtxBalanced(ctx, h + 1) && if IsRed(t) then Balanced(Recolored(t, Black), h + 1) else Balanced(t, h)
  }

  ghost predicate ShortPlace(m: Heap, root: Node?, ctx: Ctx, t: Tree, p: Node?, h: nat) {
    At(m, root, ctx, t, p) && Short(ctx, t, h)
  }

  lemma ShortUpLeft(ctx: Ctx, t: Tree, h: nat)
    requires Short(ctx, t, h) && !IsRed(t) && ctx.InLeft?
    requires ctx.right.Branch? && !IsRed(ctx.right) && !IsRed(ctx.right.left) && !IsRed(ctx.right.right)
    ensures Short(ctx.up, Branch(t, ctx.n, ctx.c, Recolored(ctx.right, Red)), if ctx.c.Red? then h else h + 1)
  {
    assert Balanced(Recolored(ctx.right, Red), h);
  }

  lemma ShortUpRight(ctx: Ctx, t: Tree, h: nat)
    requires Short(ctx, t, h) && !IsRed(t) && ctx.InRight?
    requires ctx.left.Branch? && !IsRed(ctx.left) && !IsRed(ctx.left.right) && !IsRed(ctx.left.left)
    ensures Short(ctx.up, Branch(Recolored(ctx.left, Red), ctx.n, ctx.c, t), if ctx.c.Red? then h else h + 1)
  {
    assert Balanced(Recolored(ctx.left, Red), h);
  }

  /** What the picture says about the pointers at a place. */
  lemma Pointers(m: Heap, root: Node?, ctx: Ctx, t: Tree, p: Node)
    requires At(m, root, ctx, t, p)
    ensures t.Branch? && p == t.n && p in m && Lo(ctx) < p.block < Hi(ctx)
    ensures m[p] == RedBlackShape.Links(Root(t.left), Root(t.right), ParentOf(ctx, null), t.c)
    ensures Is(m, t.left, m[p].left, p) && Is(m, t.right, m[p].right, p)
  {
    assert Is(m, t.left, m[p].left, p) && Is(m, t.right, m[p].right, p);
  }

  lemma Above(m: Heap, root: Node?, ctx: Ctx, t: Tree, p: Node?)
    requires At(m, root, ctx, t, p)
    ensures ctx.Top? ==> root == p
    ensures !ctx.Top? ==> ctx.n in m && (ctx.n.block <= Lo(ctx) || ctx.n.block >= Hi(ctx))
    ensures ctx.InLeft? ==> m[ctx.n] == RedBlackShape.Links(p, Root(ctx.right), ParentOf(ctx.up, null), ctx.c)
    ensures ctx.InRight? ==> m[ctx.n] == RedBlackShape.Links(Root(ctx.left), p, ParentOf(ctx.up, null), ctx.c)
    ensures ctx.InRight? && p != null ==> Root(ctx.left) != p
  {
    CtxKeys(ctx);
    assert ctx.InLeft? ==> Is(m, ctx.right, m[ctx.n].right, ctx.n);
    assert ctx.InRight? ==> Is(m, ctx.left, m[ctx.n].left, ctx.n);
  }

  lemma PointerTo(m: Heap, t: Tree, p: Node?, parent: Node?)
    requires Is(m, t, p, parent)
    ensures p == Root(t)
  {}

  /** The place one step down. */
  lemma Down(m: Heap, root: Node?, ctx: Ctx, t: Tree, p: Node)
    requires At(m, root, ctx, t, p)
    ensures t.Branch? && p == t.n && p in m && m[p].left == Root(t.left) && m[p].right == Root(t.right)
    ensures At(m, root, InLeft(p, t.c, t.right, ctx), t.left, m[p].left)
    ensures At(m, root, InRight(t.left, p, t.c, ctx), t.right, m[p].right)
  {
    Pointers(m, root, ctx, t, p);
  }

  /** The place one step up. */
  lemma Up(m: Heap, root: Node?, ctx: Ctx, t: Tree, p: Node?)
    requires At(m, root, ctx, t, p) && !ctx.Top?
    ensures At(m, root, ctx.up, Filled(ctx, t), ctx.n)
  {}

  /** Nothing changes but the links of up to four nodes. */
  ghost predicate ChangedOn(m: Heap, m': Heap, x: Node, y: Node?, b: Node?, up: Node?) {
    m'.Keys == m.Keys && forall n :: n in m && n != x && n != y && n != b && n != up ==> m'[n] == m[n]
  }

  lemma PartIs(m: Heap, m': Heap, t: Tree, p: Node?, parent: Node?)
    requires Is(m, t, p, parent) && SameOn(m, m', Nodes(t))
    ensures Is(m', t, p, parent)
  {
    IsFrame(m, m', t, p, parent);
  }

  lemma RotationNodes(a: Tree, x: Node, b: Tree, y: Node, c: Tree, cx: Color, cy: Color)
    ensures Nodes(Branch(a, x, cx, Branch(b, y, cy, c))) == Nodes(Branch(Branch(a, x, cx, b), y, cy, c))
  {}

  /** Keys keep three subtrees, two nodes and their surroundings apart. */
  lemma RotationKeys(ctx: Ctx, a: Tree, x: Node, b: Tree, y: Node, c: Tree)
    requires CtxOrdered(ctx) && Lo(ctx) < x.block < y.block < Hi(ctx)
    requires Ordered(a, Lo(ctx), x.block) && Ordered(b, x.block, y.block) && Ordered(c, y.block, Hi(ctx))
    ensures var up, r := ParentOf(ctx, null), Root(b);
            && x !in Nodes(a) && y !in Nodes(a) && r !in Nodes(a) && up !in Nodes(a)
            && x !in Nodes(b) && y !in Nodes(b) && up !in Nodes(b)
            && x !in Nodes(c) && y !in Nodes(c) && r !in Nodes(c) && up !in Nodes(c)
            && x !in CtxNodes(ctx) && y !in CtxNodes(ctx) && r !in CtxNodes(ctx)
  {
    var up, r := ParentOf(ctx, null), Root(b);
    NotInside(a, Lo(ctx), x.block, x);
    NotInside(a, Lo(ctx), x.block, y);
    NotInside(a, Lo(ctx), x.block, r);
    NotInside(a, Lo(ctx), x.block, up);
    NotInside(b, x.block, y.block, x);
    NotInside(b, x.block, y.block, y);
    NotInside(b, x.block, y.block, up);
    NotInside(c, y.block, Hi(ctx), x);
    NotInside(c, y.block, Hi(ctx), y);
    NotInside(c, y.block, Hi(ctx), r);
    NotInside(c, y.block, Hi(ctx), up);
    NotAround(ctx, x);
    NotAround(ctx, y);
    NotAround(ctx, r);
  }

  /** Only the colors of a node and its children change. */
  lemma PaintedIs(m: Heap, m': Heap, root: Node?, ctx: Ctx, t: Tree, p: Node, c: Color, cl: Color, cr: Color)
    requires At(m, root, ctx, t, p) && t.Branch? && p in m
    requires ChangedOn(m, m', p, Root(t.left), Root(t.right), p)
    requires m'[p] == m[p].(color := c)
    requires var x := Root(t.left); x != null ==> x in m && m'[x] == m[x].(color := cl)
    requires var x := Root(t.right); x != null ==> x in m && m'[x] == m[x].(color := cr)
    ensures At(m', root, ctx, Painted(t, c, cl, cr), p)
  {
    var l, r := t.left, t.right;
    PaintKeys(ctx, l, p, r);
    CtxFrame(m, m', ctx, p, root, null);
    IsRetopped(m, m', l, m[p].left, p, p, cl, Lo(ctx), p.block);
    IsRetopped(m, m', r, m[p].right, p, p, cr, p.block, Hi(ctx));
    PaintedShape(l, cl, Lo(ctx), p.block);
    PaintedShape(r, cr, p.block, Hi(ctx));
  }

  lemma BlackRedPainted(t: Tree, black: Node)
    requires t.Branch? && (black == Root(t.left) || black == Root(t.right)) && Root(t.left) != Root(t.right)
    ensures BlackRed(t, black) == Painted(t, Red, if black == Root(t.left) then Black else ColorOf(t.left),
                                          if black == Root(t.right) then Black else ColorOf(t.right))
  {}

  /** The children of a node and their colors. */
  lemma ChildrenOf(m: Heap, root: Node?, ctx: Ctx, t: Tree, p: Node)
    requires At(m, root, ctx, t, p) && t.Branch?
    ensures p in m && m[p] == RedBlackShape.Links(Root(t.left), Root(t.right), ParentOf(ctx, null), t.c)
    ensures var l, r := Root(t.left), Root(t.right);
            && (l != null ==> l in m && l != p && m[l].color == ColorOf(t.left) && l != r)
            && (r != null ==> r in m && r != p && m[r].color == ColorOf(t.right) && l != r)
  {
    Pointers(m, root, ctx, t, p);
    PaintKeys(ctx, t.left, p, t.right);
    assert Is(m, t.left, m[p].left, p) && Is(m, t.right, m[p].right, p);
    assert t.right.Branch? ==> t.right.n in Nodes(t.right);
    assert t.left.Branch? ==> t.left.n in Nodes(t.left);
  }

  lemma PaintedShape(t: Tree, c: Color, lo: int, hi: int)
    requires Ordered(t, lo, hi)
    ensures Nodes(Recolored(t, c)) == Nodes(t) && Ordered(Recolored(t, c), lo, hi)
  {}

  lemma PaintKeys(ctx: Ctx, l: Tree, p: Node, r: Tree)
    requires CtxOrdered(ctx) && Lo(ctx) < p.block < Hi(ctx)
    requires Ordered(l, Lo(ctx), p.block) && Ordered(r, p.block, Hi(ctx))
    ensures p !in Nodes(l) && p !in Nodes(r) && Root(l) !in Nodes(r) && Root(r) !in Nodes(l)
    ensures p !in CtxNodes(ctx) && Root(l) !in CtxNodes(ctx) && Root(r) !in CtxNodes(ctx)
  {
    NotInside(l, Lo(ctx), p.block, p);
    NotInside(l, Lo(ctx), p.block, Root(r));
    NotInside(r, p.block, Hi(ctx), p);
    NotInside(r, p.block, Hi(ctx), Root(l));
    NotAround(ctx, p);
    NotAround(ctx, Root(l));
    NotAround(ctx, Root(r));
  }

  lemma PlacePointers(m: Heap, root: Node?, ctx: Ctx, t: Tree, p: Node)
    requires At(m, root, ctx, t, p)
    ensures p in m && m[p].parent == ParentOf(ctx, null)
    ensures !ctx.Top? ==> ctx.n in m && m[ctx.n].color == ctx.c
  {
    Pointers(m, root, ctx, t, p);
    Above(m, root, ctx, t, p);
  }

  lemma {:induction false} RootKnown(m: Heap, ctx: Ctx, p: Node, root: Node?)
    requires CtxIs(m, ctx, p, root, null)
    ensures root != null && (root == p || root in m)
    decreases ctx
  {
    if !ctx.Top? {
      RootKnown(m, ctx.up, ctx.n, root);
    }
  }

  /** The red parent of a red node has a parent of its own. */
  lemma GrandparentOf(m: Heap, root: Node?, ctx: Ctx, t: Tree, p: Node, h: nat)
    requires RedPlace(m, root, ctx, t, p, h) && !ctx.Top? && ctx.c.Red?
    ensures ctx.n in m && !ctx.up.Top? && ctx.up.n == m[ctx.n].parent && ctx.up.n in m
    ensures m[ctx.up.n] == if ctx.up.InLeft?
        then RedBlackShape.Links(ctx.n, Root(ctx.up.right), ParentOf(ctx.up.up, null), Black)
                           else RedBlackShape.Links(Root(ctx.up.left), ctx.n, ParentOf(ctx.up.up, null), Black)
    ensures ctx.up.InRight? ==> Root(ctx.up.left) != ctx.n
    ensures Sibling(ctx.up).Branch? ==> Sibling(ctx.up).n in m && m[Sibling(ctx.up).n].color == Sibling(ctx.up).c
  {
    Above(m, root, ctx, t, p);
    Up(m, root, ctx, t, p);
    Above(m, root, ctx.up, Filled(ctx, t), ctx.n);
    assert ctx.up.InLeft? ==> Is(m, ctx.up.right, m[ctx.up.n].right, ctx.up.n);
    assert ctx.up.InRight? ==> Is(m, ctx.up.left, m[ctx.up.n].left, ctx.up.n);
  }

  /** Only the color of one node changes. */
  lemma BlackenedIs(m: Heap, m': Heap, root: Node?, ctx: Ctx, t: Tree, p: Node, c: Color)
    requires At(m, root, ctx, t, p) && p in m
    requires ChangedOn(m, m', p, p, p, p) && m'[p] == m[p].(color := c)
    ensures At(m', root, ctx, Recolored(t, c), p)
  {
    hide At, Is, CtxIs, Ordered, CtxOrdered, Nodes, CtxNodes;
    Pointers(m, root, ctx, t, p);
    ChildrenOf(m, root, ctx, t, p);
    PaintedIs(m, m', root, ctx, t, p, c, ColorOf(t.left), ColorOf(t.right));
  }

  lemma InPlace(m: Heap, root: Node?, ctx: Ctx, t: Tree, p: Node?)
    requires At(m, root, ctx, t, p)
    ensures p != null ==> p in m
  {
    if p != null {
      Pointers(m, root, ctx, t, p);
    }
  }

  lemma BlackenedPlace(m: Heap, m': Heap, root: Node?, ctx: Ctx, t: Tree, p: Node?)
    requires At(m, root, ctx, t, p)
    requires if p == null then m' == m else p in m && ChangedOn(m, m', p, p, p, p) && m'[p] == m[p].(color := Black)
    ensures var whole := Plug(ctx, Recolored(t, Black));
            Is(m', whole, root, null) && Ordered(whole, -1, BLOCK_LIMIT) && Nodes(whole) == m.Keys
  {
    if p != null {
      BlackenedIs(m, m', root, ctx, t, p, Black);
    }
    PlugAt(m', root, ctx, Recolored(t, Black), p);
  }

  lemma BlackenedBalanced(done: bool, ctx: Ctx, t: Tree, h: nat)
    requires done ==> ctx.Top? && RedBlack(t)
    requires !done ==> CtxBalanced(ctx, h + 1) && (IsRed(t) || ctx.Top?)
    requires !done ==> if IsRed(t) then Balanced(Recolored(t, Black), h + 1) else Balanced(t, h)
    ensures RedBlack(Plug(ctx, Recolored(t, Black)))
  {
    var b := Recolored(t, Black);
    if !done && IsRed(t) {
      var k := PlugBalanced(ctx, b, h + 1);
    } else {
      assert b == t;
    }
  }

  /** A place that is short of a black node has a sibling. */
  lemma SiblingOf(m: Heap, root: Node?, ctx: Ctx, t: Tree, p: Node?, h: nat)
    requires ShortPlace(m, root, ctx, t, p, h) && !ctx.Top?
    ensures ctx.n in m && m[ctx.n].color == ctx.c
    ensures m[ctx.n].left == (if ctx.InLeft? then p else Root(ctx.left))
    ensures m[ctx.n].right == (if ctx.InLeft? then Root(ctx.right) else p)
    ensures Sibling(ctx).Branch? && Sibling(ctx).n in m && Sibling(ctx).n != p
        && m[Sibling(ctx).n].color == Sibling(ctx).c
    ensures m[ctx.n].left == p <==> ctx.InLeft?
  {
    Above(m, root, ctx, t, p);
    assert ctx.InLeft? ==> Is(m, ctx.right, m[ctx.n].right, ctx.n);
    assert ctx.InRight? ==> Is(m, ctx.left, m[ctx.n].left, ctx.n);
    SiblingRoots(ctx, p, t);
  }

  lemma SiblingRoots(ctx: Ctx, p: Node?, t: Tree)
    requires !ctx.Top? && CtxOrdered(ctx) && Ordered(t, Lo(ctx), Hi(ctx)) && p == Root(t)
    ensures Sibling(ctx).Branch? ==> Sibling(ctx).n != p
  {
    NotAround(ctx, p);
    assert Sibling(ctx).Branch? ==> Sibling(ctx).n in Nodes(Sibling(ctx));
  }

  /** The pointer held by a place is the root exactly at the top. */
  lemma ShortRoot(m: Heap, root: Node?, ctx: Ctx, t: Tree, p: Node?)
    requires At(m, root, ctx, t, p)
    ensures p == root <==> ctx.Top?
    ensures p == null <==> t.Leaf?
    ensures p != null ==> p in m && m[p].color == ColorOf(t)
  {
    if !ctx.Top? {
      RootInside(m, ctx, p, root);
      NotAround(ctx, p);
    }
    if p != null {
      Pointers(m, root, ctx, t, p);
    }
  }

  lemma {:induction false} RootInside(m: Heap, ctx: Ctx, p: Node?, root: Node?)
    requires CtxIs(m, ctx, p, root, null) && !ctx.Top?
    ensures root != null && root in CtxNodes(ctx)
    decreases ctx
  {
    if !ctx.up.Top? {
      RootInside(m, ctx.up, ctx.n, root);
    }
  }

  /** The whole tree around a place. */
  lemma PlugAt(m: Heap, root: Node?, ctx: Ctx, t: Tree, p: Node?)
    requires At(m, root, ctx, t, p)
    ensures At(m, root, Top, Plug(ctx, t), root)
  {
    PlugOrdered(ctx, t);
    PlugNodes(ctx, t);
    PlugIs(m, ctx, t, p, root, null);
  }

  lemma RootBlackened(m: Heap, m': Heap, root: Node?, t: Tree, k: nat)
    requires At(m, root, Top, t, root) && root != null && Balanced(t, k)
    requires ChangedOn(m, m', root, root, root, root) && root in m && m'[root] == m[root].(color := Black)
    ensures Is(m', Recolored(t, Black), root, null) && Ordered(Recolored(t, Black), -1, BLOCK_LIMIT)
    ensures Nodes(Recolored(t, Black)) == Nodes(t) && RedBlack(Recolored(t, Black))
  {
    IsRetopped(m, m', t, root, null, null, Black, -1, BLOCK_LIMIT);
    assert Balanced(Recolored(t, Black), if t.c.Red? then k + 1 else k);
  }

  /** Every place in a red-black tree fits what it holds. */
  lemma {:induction false} Unplug(ctx: Ctx, t: Tree) returns (h: nat)
    requires RedBlack(Plug(ctx, t))
    ensures CtxBalanced(ctx, h) && Balanced(t, h)
    ensures IsRed(t) ==> !ctx.Top? && CtxBlack(ctx)
    decreases ctx
  {
    if ctx.Top? {
      h :| Balanced(t, h);
    } else {
      var k := Unplug(ctx.up, Filled(ctx, t));
      h := if ctx.c.Red? then k else k - 1;
    }
  }

  /** The subtree that is left when a node with at most one child leaves. */
  ghost function Other(t: Tree): Tree
    requires t.Branch?
  {
    if t.left.Leaf? then t.right else t.left
  }

  /** The place of every node. */
  lemma {:induction false} FindPlace(m: Heap, root: Node?, ctx: Ctx, t: Tree, p: Node?, elm: Node)
      returns (ctx': Ctx, t': Tree)
    requires At(m, root, ctx, t, p) && elm in Nodes(t)
    ensures At(m, root, ctx', t', elm) && Plug(ctx', t') == Plug(ctx, t)
    decreases t
  {
    if p == elm {
      ctx', t' := ctx, t;
      Pointers(m, root, ctx, t, p);
    } else {
      Down(m, root, ctx, t, p);
      if elm in Nodes(t.left) {
        ctx', t' := FindPlace(m, root, InLeft(p, t.c, t.right, ctx), t.left, m[p].left, elm);
      } else {
        ctx', t' := FindPlace(m, root, InRight(t.left, p, t.c, ctx), t.right, m[p].right, elm);
      }
    }
  }

  lemma AbovePlace(m: Heap, root: Node?, ctx: Ctx, t: Tree, p: Node)
    requires At(m, root, ctx, t, p)
    ensures !ctx.Top? ==> ctx.n in m && ctx.n != p && ctx.n != Root(t.left) && ctx.n != Root(t.right)
    ensures ctx.InLeft? ==> m[ctx.n].left == p
    ensures ctx.InRight? ==> m[ctx.n].right == p && m[ctx.n].left != p
  {
    Above(m, root, ctx, t, p);
    Pointers(m, root, ctx, t, p);
    PaintKeys(ctx, t.left, p, t.right);
    assert !ctx.Top? ==> ctx.n in CtxNodes(ctx);
  }

  lemma {:induction false} OrderedWider(t: Tree, lo: int, hi: int, lo': int, hi': int)
    requires Ordered(t, lo, hi) && lo' <= lo && hi <= hi'
    ensures Ordered(t, lo', hi')
    decreases t
  {
    match t
    case Leaf =>
    case Branch(l, n, _, r) =>
      OrderedWider(l, lo, n.block, lo', n.block);
      OrderedWider(r, n.block, hi, n.block, hi');
  }

  lemma SplicedIs(m: Heap, m': Heap, root: Node?, root': Node?, ctx: Ctx, t: Tree, elm: Node, child: Node?)
    requires At(m, root, ctx, t, elm) && t.Branch? && (t.left.Leaf? || t.right.Leaf?) && child == Root(Other(t))
    requires m'.Keys == m.Keys - {elm} && Relinked(m, m', ctx, child, root, root')
    requires child != null ==> child in m && child in m' && m'[child] == m[child].(parent := ParentOf(ctx, null))
    requires forall n :: n in m' && n != child && n != ParentOf(ctx, null) ==> m'[n] == m[n]
    ensures At(m', root', ctx, Other(t), child)
  {
    var s := Other(t);
    var lo, hi := if t.left.Leaf? then elm.block else Lo(ctx), if t.left.Leaf? then Hi(ctx) else elm.block;
    Pointers(m, root, ctx, t, elm);
    OrderedWider(s, lo, hi, Lo(ctx), Hi(ctx));
    NotInside(s, lo, hi, elm);
    NotInside(s, Lo(ctx), Hi(ctx), ParentOf(ctx, null));
    NotAround(ctx, elm);
    NotAround(ctx, child);
    IsRetopped(m, m', s, child, elm, ParentOf(ctx, null), ColorOf(s), lo, hi);
    CtxRelinked(m, m', ctx, elm, child, root, root', null);
    assert Recolored(s, ColorOf(s)) == s;
    assert Nodes(t) == Nodes(s) + {elm};
  }

  lemma SplicedBalanced(ctx: Ctx, t: Tree, h: nat)
    requires t.Branch? && (t.left.Leaf? || t.right.Leaf?) && CtxBalanced(ctx, h) && Balanced(t, h)
    ensures t.c.Red? ==> RedBlack(Plug(ctx, Other(t)))
    ensures t.c.Black? ==> h > 0 && var s := Other(t);
        if IsRed(s) then Balanced(Recolored(s, Black), h) else Balanced(s, h - 1)
  {
    if t.c.Red? {
      var k := PlugBalanced(ctx, Other(t), h);
    }
  }

  // ----- Moving a successor -----

  /** One path followed by another. */
  ghost function Joined(inner: Ctx, outer: Ctx): Ctx {
    match inner
    case Top => outer
    case InLeft(n, c, r, up) => InLeft(n, c, r, Joined(up, outer))
    case InRight(l, n, c, up) => InRight(l, n, c, Joined(up, outer))
  }

  ghost predicate LeftSpine(inner: Ctx) {
    match inner
    case Top => true
    case InLeft(_, _, _, up) => LeftSpine(up)
    case InRight(_, _, _, _) => false
  }

  lemma {:induction false} JoinedNodes(inner: Ctx, outer: Ctx)
    ensures CtxNodes(Joined(inner, outer)) == CtxNodes(inner) + CtxNodes(outer)
  {
    match inner
    case Top =>
    case InLeft(n, c, r, up) => JoinedNodes(up, outer);
    case InRight(l, n, c, up) => JoinedNodes(up, outer);
  }

  /** Colors alone decide what fits. */
  lemma {:induction false} JoinedBalanced(inner: Ctx, outer: Ctx, outer': Ctx, h: nat)
    requires CtxBalanced(Joined(inner, outer), h) && outer.InRight? && outer'.InRight?
    requires outer'.left == outer.left && outer'.c == outer.c && outer'.up == outer.up
    ensures CtxBalanced(Joined(inner, outer'), h)
    decreases inner
  {
    match inner
    case Top =>
    case InLeft(n, c, r, up) => JoinedBalanced(up, outer, outer', if c.Red? then h else h + 1);
    case InRight(l, n, c, up) => JoinedBalanced(up, outer, outer', if c.Red? then h else h + 1);
  }

  lemma JoinedParent(inner: Ctx, outer: Ctx, outer': Ctx)
    requires !outer.Top? && !outer'.Top?
    ensures ParentOf(Joined(inner, outer'), null) == if inner.Top? then outer'.n else inner.n
    ensures ParentOf(Joined(inner, outer), null) == if inner.Top? then outer.n else inner.n
  {}

  /** A larger node may stand in for the one at the foot of a left spine while it stays below the place. */
  lemma {:induction false} JoinedOrdered(inner: Ctx, l: Tree, old_: Node, elm: Node, c: Color, ctx: Ctx)
    requires LeftSpine(inner) && CtxOrdered(Joined(inner, InRight(l, old_, c, ctx)))
    requires old_.block < elm.block < Hi(Joined(inner, InRight(l, old_, c, ctx)))
    ensures CtxOrdered(Joined(inner, InRight(l, elm, c, ctx)))
    ensures Hi(Joined(inner, InRight(l, elm, c, ctx))) == Hi(Joined(inner, InRight(l, old_, c, ctx)))
    ensures Lo(Joined(inner, InRight(l, elm, c, ctx))) == elm.block
    ensures Lo(Joined(inner, InRight(l, old_, c, ctx))) == old_.block
    ensures CtxOrdered(InRight(l, old_, c, ctx)) && Hi(Joined(inner, InRight(l, old_, c, ctx))) <= Hi(ctx)
    decreases inner
  {
    match inner
    case Top => OrderedWider(l, Lo(ctx), old_.block, Lo(ctx), elm.block);
    case InLeft(n, _, r, up) => JoinedOrdered(up, l, old_, elm, c, ctx);
  }

  /** The pointer that the foot of the spine hangs from. */
  ghost function TopPointer(inner: Ctx, hole: Node?): Node? {
    match inner
    case Top => hole
    case InLeft(n, _, _, up) => TopPointer(up, n)
    case InRight(_, n, _, up) => TopPointer(up, n)
  }

  lemma {:induction false} JoinedSplit(m: Heap, inner: Ctx, outer: Ctx, hole: Node?, root: Node?)
    requires CtxIs(m, Joined(inner, outer), hole, root, null)
    ensures CtxIs(m, outer, TopPointer(inner, hole), root, null)
    ensures inner.Top? || (TopPointer(inner, hole) != null && TopPointer(inner, hole) in CtxNodes(inner))
    decreases inner
  {
    match inner
    case Top =>
    case InLeft(n, _, _, up) => JoinedSplit(m, up, outer, n, root);
    case InRight(_, n, _, up) => JoinedSplit(m, up, outer, n, root);
  }

  /** The spine hangs from a new foot: only the parent link of its topmost node changes. */
  lemma {:induction false} SpineIs(m: Heap, m': Heap, inner: Ctx, outer: Ctx, outer': Ctx, hole: Node?, root: Node?,
      root': Node?)
    requires LeftSpine(inner) && CtxIs(m, Joined(inner, outer), hole, root, null) && CtxOrdered(Joined(inner, outer))
    requires CtxIs(m', outer', TopPointer(inner, hole), root', null) && !outer.Top? && !outer'.Top?
    requires forall n :: n in CtxNodes(inner) && n in m ==>
               (n in m' && m'[n] == if n == TopPointer(inner, hole) then m[n].(parent := outer'.n) else m[n])
    ensures CtxIs(m', Joined(inner, outer'), hole, root', null)
    decreases inner
  {
    match inner
    case Top =>
    case InLeft(n, _, r, up) =>
      SpineIs(m, m', up, outer, outer', n, root, root');
      JoinedSplit(m, up, outer, n, root);
      NotAround(Joined(up, outer), n);
      NotInside(r, n.block, Hi(Joined(up, outer)), n);
      JoinedNodes(up, outer);
      CtxKeys(Joined(up, outer));
      NotInside(r, n.block, Hi(Joined(up, outer)), TopPointer(inner, hole));
      IsFrame(m, m', r, m[n].right, n);
  }

  lemma TakeOverPointers(m: Heap, root: Node?, inner: Ctx, l: Tree, old_: Node, elm: Node, c: Color, ctx: Ctx,
      t: Tree, child: Node?)
    returns (r: Node?)
    requires LeftSpine(inner) && At(m, root, Joined(inner, InRight(l, old_, c, ctx)), t, child) && l.Branch?
        && elm !in m
    requires old_.block < elm.block < Hi(Joined(inner, InRight(l, old_, c, ctx)))
    ensures r == TopPointer(inner, child)
    ensures old_ in m && m[old_] == RedBlackShape.Links(l.n, r, ParentOf(ctx, null), c)
    ensures l.n in m && l.n != old_ && l.n != elm && l.n != r
    ensures r != null ==> r in m && r != old_ && r != elm
    ensures var up := ParentOf(ctx, null); up != null ==> up in m && up != old_ && up != elm && up != l.n && up != r
    ensures ctx.InLeft? ==> m[ctx.n].left == old_
    ensures ctx.InRight? ==> m[ctx.n].right == old_ && m[ctx.n].left != old_
    ensures CtxIs(m, InRight(l, old_, c, ctx), r, root, null)
  {
    var base := InRight(l, old_, c, ctx);
    r := TopPointer(inner, child);
    JoinedOrdered(inner, l, old_, elm, c, ctx);
    JoinedSplit(m, inner, base, child, root);
    JoinedNodes(inner, base);
    SpineKeys(inner, base, child, t);
    NotInside(l, Lo(ctx), old_.block, old_);
    NotAround(ctx, old_);
    NotAround(ctx, l.n);
    if r != null {
      NotAround(base, r);
      IsNodesHere(m, t, child, ParentOf(Joined(inner, base), null));
    }
    assert Is(m, l, m[old_].left, old_);
    UpPointers(m, ctx, old_, root);
  }

  lemma UpPointers(m: Heap, ctx: Ctx, p: Node, root: Node?)
    requires CtxIs(m, ctx, p, root, null) && CtxOrdered(ctx) && Lo(ctx) < p.block < Hi(ctx)
    ensures !ctx.Top? ==> ctx.n in m
    ensures ctx.InLeft? ==> m[ctx.n].left == p
    ensures ctx.InRight? ==> m[ctx.n].right == p && m[ctx.n].left != p
  {
    NotAround(ctx, p);
    assert ctx.InRight? ==> Is(m, ctx.left, m[ctx.n].left, ctx.n);
    assert ctx.InRight? && ctx.left.Branch? ==> ctx.left.n in Nodes(ctx.left);
  }

  lemma IsNodesHere(m: Heap, t: Tree, p: Node?, parent: Node?)
    requires Is(m, t, p, parent)
    ensures p != null ==> p in m && p in Nodes(t)
  {}

  /** The top of a left spine lies within the bounds of its foot. */
  lemma {:induction false} SpineKeys(inner: Ctx, outer: Ctx, hole: Node?, t: Tree)
    requires LeftSpine(inner) && CtxOrdered(Joined(inner, outer)) && Lo(Joined(inner, outer)) == Lo(outer)
    requires Ordered(t, Lo(Joined(inner, outer)), Hi(Joined(inner, outer))) && hole == Root(t)
    ensures var r := TopPointer(inner, hole); r == null || Lo(outer) < r.block < Hi(outer)
    decreases inner
  {
    match inner
    case Top =>
    case InLeft(n, c, r, up) =>
      SpineKeys(up, outer, n, Branch(t, n, c, r));
  }

  /** A place down a left spine from base, in the tree whole. */
  ghost predicate SpineAt(m: Heap, root: Node?, inner: Ctx, base: Ctx, s: Tree, p: Node?, whole: Tree) {
    LeftSpine(inner) && At(m, root, Joined(inner, base), s, p) && Plug(Joined(inner, base), s) == whole
  }

  lemma SpineStep(m: Heap, root: Node?, inner: Ctx, base: Ctx, s: Tree, p: Node, whole: Tree)
    requires SpineAt(m, root, inner, base, s, p, whole)
    ensures s.Branch? && p in m && m[p].left == Root(s.left)
    ensures SpineAt(m, root, InLeft(p, s.c, s.right, inner), base, s.left, m[p].left, whole)
  {
    Down(m, root, Joined(inner, base), s, p);
  }

  /** Everything about the successor of old_, found at the end of a left spine. */
  lemma SuccessorFacts(m: Heap, root: Node?, inner: Ctx, l: Tree, old_: Node, elm: Node, c: Color, ctx: Ctx, s: Tree)
    requires LeftSpine(inner) && At(m, root, Joined(inner, InRight(l, old_, c, ctx)), s, elm) && s.Branch?
        && s.left.Leaf?
    ensures elm in m && m[elm].right == Root(s.right) && m[elm].color == s.c && elm != old_ && s.n == elm
    ensures m[elm].parent == ParentOf(Joined(inner, InRight(l, old_, c, ctx)), null)
    ensures m[elm].parent == old_ <==> inner.Top?
    ensures old_.block < elm.block < Hi(Joined(inner, InRight(l, old_, c, ctx)))
    ensures Ordered(s.right, elm.block, Hi(Joined(inner, InRight(l, old_, c, ctx))))
  {
    var base := InRight(l, old_, c, ctx);
    Pointers(m, root, Joined(inner, base), s, elm);
    SpineLo(inner, base);
    JoinedParent(inner, base, base);
  }

  lemma {:induction false} SpineLo(inner: Ctx, outer: Ctx)
    requires LeftSpine(inner) && CtxOrdered(Joined(inner, outer))
    ensures Lo(Joined(inner, outer)) == Lo(outer)
    ensures !inner.Top? ==> inner.n.block > Lo(outer)
    decreases inner
  {
    if !inner.Top? {
      SpineLo(inner.up, outer);
    }
  }

  /** What hung at the end of the spine is untouched, but for its parent when the spine is empty. */
  lemma TakenOverBelow(m: Heap, m': Heap, inner: Ctx, base: Ctx, elm: Node, t: Tree, child: Node?, r: Node?,
      root: Node?)
    requires base.InRight? && CtxOrdered(Joined(inner, base)) && LeftSpine(inner)
    requires Ordered(t, Lo(Joined(inner, base)), Hi(Joined(inner, base)))
    requires CtxIs(m, Joined(inner, base), child, root, null) && Is(m, t, child, ParentOf(Joined(inner, base), null))
    requires r == TopPointer(inner, child) && base.left.Branch?
    requires r != null ==> r in m && r in m' && m'[r] == m[r].(parent := elm)
    requires forall n :: n in m && n != base.n && n != base.left.n && n != r && n != ParentOf(base.up, null) ==>
               (n in m' && m'[n] == m[n])
    ensures Is(m', t, child, ParentOf(Joined(inner, InRight(base.left, elm, base.c, base.up)), null))
  {
    var place, up := Joined(inner, base), ParentOf(base.up, null);
    SpineLo(inner, base);
    OuterBounds(inner, base);
    NotInside(t, Lo(place), Hi(place), up);
    NotInside(t, Lo(place), Hi(place), base.left.n);
    NotInside(t, Lo(place), Hi(place), base.n);
    JoinedParent(inner, base, InRight(base.left, elm, base.c, base.up));
    if inner.Top? {
      IsRetopped(m, m', t, child, base.n, elm, ColorOf(t), Lo(place), Hi(place));
      assert Recolored(t, ColorOf(t)) == t;
    } else {
      JoinedSplit(m, inner, base, child, root);
      JoinedNodes(inner, base);
      CtxKeys(place);
      NotInside(t, Lo(place), Hi(place), r);
      IsFrame(m, m', t, child, inner.n);
    }
  }

  lemma {:induction false} OuterBounds(inner: Ctx, outer: Ctx)
    requires LeftSpine(inner) && CtxOrdered(Joined(inner, outer))
    ensures CtxOrdered(outer) && Hi(Joined(inner, outer)) <= Hi(outer)
    decreases inner
  {
    if !inner.Top? {
      OuterBounds(inner.up, outer);
    }
  }

  /** The surroundings after the successor took over the links of old_. */
  lemma TakenOverAround(m: Heap, m': Heap, root: Node?, root': Node?, inner: Ctx, l: Tree, old_: Node, elm: Node,
      c: Color,
                        ctx: Ctx, t: Tree, child: Node?, r: Node?)
    requires LeftSpine(inner) && At(m, root, Joined(inner, InRight(l, old_, c, ctx)), t, child) && l.Branch?
        && elm !in m
    requires old_.block < elm.block < Hi(Joined(inner, InRight(l, old_, c, ctx)))
    requires r == TopPointer(inner, child) && old_ in m
        && m[old_] == RedBlackShape.Links(l.n, r, ParentOf(ctx, null), c)
    requires m'.Keys == m.Keys - {old_} + {elm} && m'[elm] == m[old_]
    requires l.n in m && l.n in m' && m'[l.n] == m[l.n].(parent := elm)
    requires r != null ==> r in m && r in m' && m'[r] == m[r].(parent := elm)
    requires Relinked(m, m', ctx, elm, root, root')
    requires forall n :: n in m && n != old_ && n != l.n && n != r && n != ParentOf(ctx, null) ==> m'[n] == m[n]
    ensures CtxIs(m', Joined(inner, InRight(l, elm, c, ctx)), child, root', null)
  {
    var base, base' := InRight(l, old_, c, ctx), InRight(l, elm, c, ctx);
    SpineLo(inner, base);
    JoinedSplit(m, inner, base, child, root);
    JoinedNodes(inner, base);
    OuterBounds(inner, base);
    PointerTo(m, t, child, ParentOf(Joined(inner, base), null));
    SpineKeys(inner, base, child, t);
    FootIs(m, m', root, root', l, old_, elm, c, ctx, r);
    SpineOutside(inner, base, ParentOf(ctx, null), l.n, old_);
    SpineIs(m, m', inner, base, base', child, root, root');
  }

  lemma TakenOver(m: Heap, m': Heap, root: Node?, root': Node?, inner: Ctx, l: Tree, old_: Node, elm: Node, c: Color,
                  ctx: Ctx, t: Tree, child: Node?, r: Node?)
    requires LeftSpine(inner) && At(m, root, Joined(inner, InRight(l, old_, c, ctx)), t, child) && l.Branch?
        && elm !in m
    requires old_.block < elm.block < Hi(Joined(inner, InRight(l, old_, c, ctx)))
    requires Ordered(t, elm.block, Hi(Joined(inner, InRight(l, old_, c, ctx))))
    requires r == TopPointer(inner, child) && old_ in m
        && m[old_] == RedBlackShape.Links(l.n, r, ParentOf(ctx, null), c)
    requires m'.Keys == m.Keys - {old_} + {elm} && m'[elm] == m[old_]
    requires l.n in m && l.n in m' && m'[l.n] == m[l.n].(parent := elm)
    requires r != null ==> r in m && r in m' && m'[r] == m[r].(parent := elm)
    requires Relinked(m, m', ctx, elm, root, root')
    requires forall n :: n in m && n != old_ && n != l.n && n != r && n != ParentOf(ctx, null) ==> m'[n] == m[n]
    ensures At(m', root', Joined(inner, InRight(l, elm, c, ctx)), t, child)
  {
    var base, base' := InRight(l, old_, c, ctx), InRight(l, elm, c, ctx);
    TakenOverAround(m, m', root, root', inner, l, old_, elm, c, ctx, t, child, r);
    TakenOverBelow(m, m', inner, base, elm, t, child, r, root);
    JoinedOrdered(inner, l, old_, elm, c, ctx);
    TakenOverNodes(inner, base, base', t);
    assert At(m', root', Joined(inner, base'), t, child);
  }

  lemma TakenOverNodes(inner: Ctx, base: Ctx, base': Ctx, t: Tree)
    requires LeftSpine(inner) && CtxOrdered(Joined(inner, base)) && base.InRight? && base'.InRight?
    requires base'.left == base.left && base'.up == base.up
    requires Ordered(t, Lo(Joined(inner, base)), Hi(Joined(inner, base)))
    ensures CtxNodes(Joined(inner, base')) + Nodes(t) == CtxNodes(Joined(inner, base)) + Nodes(t) - {base.n} + {base'.n}
  {
    var a, b, c, d := CtxNodes(inner), Nodes(base.left), CtxNodes(base.up), Nodes(t);
    JoinedNodes(inner, base);
    JoinedNodes(inner, base');
    OldOutside(inner, base, t);
    Exchanged(a, b, c, d, base.n, base'.n);
  }

  lemma Exchanged<T>(a: set<T>, b: set<T>, c: set<T>, d: set<T>, x: T, y: T)
    requires x !in a && x !in b && x !in c && x !in d
    ensures a + ({y} + b + c) + d == a + ({x} + b + c) + d - {x} + {y}
  {}

  lemma OldOutside(inner: Ctx, base: Ctx, t: Tree)
    requires LeftSpine(inner) && CtxOrdered(Joined(inner, base)) && base.InRight?
    requires Ordered(t, Lo(Joined(inner, base)), Hi(Joined(inner, base)))
    ensures base.n !in CtxNodes(inner) && base.n !in Nodes(base.left) && base.n !in CtxNodes(base.up)
        && base.n !in Nodes(t)
  {
    SpineLo(inner, base);
    OuterBounds(inner, base);
    SpineOutside(inner, base, null, base.n, base.n);
    NotInside(t, Lo(Joined(inner, base)), Hi(Joined(inner, base)), base.n);
    NotInside(base.left, Lo(base.up), base.n.block, base.n);
    NotAround(base.up, base.n);
  }

  lemma TakenOverBalanced(inner: Ctx, base: Ctx, base': Ctx, s: Tree, h: nat) returns (h': nat)
    requires base.InRight? && base'.InRight? && base'.left == base.left && base'.c == base.c && base'.up == base.up
    requires CtxBalanced(Joined(inner, base), h) && Balanced(s, h) && s.Branch? && s.left.Leaf?
    ensures s.c.Red? ==> RedBlack(Plug(Joined(inner, base'), s.right))
    ensures s.c.Black? ==> Short(Joined(inner, base'), s.right, h')
  {
    JoinedBalanced(inner, base, base', h);
    SplicedBalanced(Joined(inner, base'), s, h);
    h' := if s.c.Black? then h - 1 else 0;
  }

  /** Nodes at or below the foot of a spine are not on the spine. */
  lemma {:induction false} SpineOutside(inner: Ctx, outer: Ctx, a: Node?, b: Node, d: Node)
    requires LeftSpine(inner) && CtxOrdered(Joined(inner, outer)) && Lo(Joined(inner, outer)) == Lo(outer)
    requires a == null || a.block <= Lo(outer) || a.block >= Hi(outer)
    requires b.block <= Lo(outer) && d.block <= Lo(outer)
    ensures a !in CtxNodes(inner) && b !in CtxNodes(inner) && d !in CtxNodes(inner)
    ensures Hi(Joined(inner, outer)) <= Hi(outer)
    decreases inner
  {
    match inner
    case Top =>
    case InLeft(n, _, r, up) =>
      SpineOutside(up, outer, a, b, d);
      NotInside(r, n.block, Hi(Joined(up, outer)), a);
      NotInside(r, n.block, Hi(Joined(up, outer)), b);
      NotInside(r, n.block, Hi(Joined(up, outer)), d);
  }

  lemma FootIs(m: Heap, m': Heap, root: Node?, root': Node?, l: Tree, old_: Node, elm: Node, c: Color, ctx: Ctx,
      r: Node?)
    requires CtxIs(m, InRight(l, old_, c, ctx), r, root, null) && CtxOrdered(InRight(l, old_, c, ctx)) && l.Branch?
    requires elm !in m && m[old_] == RedBlackShape.Links(l.n, r, ParentOf(ctx, null), c)
    requires elm in m' && m'[elm] == m[old_] && l.n in m && l.n in m' && m'[l.n] == m[l.n].(parent := elm)
    requires Relinked(m, m', ctx, elm, root, root')
    requires r == null || old_.block < r.block < Hi(ctx)
    requires forall n :: n in m && n != old_ && n != l.n && n != r && n != ParentOf(ctx, null) ==>
        n in m' && m'[n] == m[n]
    ensures CtxIs(m', InRight(l, elm, c, ctx), r, root', null)
  {
    var up := ParentOf(ctx, null);
    NotInside(l, Lo(ctx), old_.block, old_);
    NotInside(l, Lo(ctx), old_.block, r);
    NotInside(l, Lo(ctx), old_.block, up);
    NotAround(ctx, old_);
    NotAround(ctx, r);
    NotAround(ctx, l.n);
    IsRetopped(m, m', l, m[old_].left, old_, elm, l.c, Lo(ctx), old_.block);
    CtxRelinked(m, m', ctx, old_, elm, root, root', null);
  }

  lemma NoSuchKey(ctx: Ctx, elm: Node)
    requires CtxOrdered(ctx) && Lo(ctx) < elm.block < Hi(ctx)
    ensures forall n :: n in CtxNodes(ctx) ==> n.block != elm.block
  {
    CtxKeys(ctx);
  }

  lemma InsertedIs(m: Heap, m': Heap, root: Node?, root': Node?, ctx: Ctx, elm: Node)
    requires At(m, root, ctx, Leaf, null) && elm !in m && Lo(ctx) < elm.block < Hi(ctx)
    requires m'.Keys == m.Keys + {elm}
    requires m'[elm] == RedBlackShape.Links(null, null, ParentOf(ctx, null), Red)
    requires Relinked(m, m', ctx, elm, root, root')
    requires forall n :: n in m && n != ParentOf(ctx, null) ==> m'[n] == m[n]
    ensures At(m', root', ctx, Branch(Leaf, elm, Red, Leaf), elm)
  {
    CtxRelinked(m, m', ctx, null, elm, root, root', null);
  }

  lemma UncleBlackened(ctx: Ctx, t: Tree, h: nat)
    requires IsRed(t) && Balanced(t, h) && CtxBalanced(ctx, h)
    requires !ctx.Top? && ctx.c.Red? && !ctx.up.Top?
    requires IsRed(Sibling(ctx.up))
    ensures Balanced(Painted(Filled(ctx.up, Filled(ctx, t)), Red, Black, Black), h + 1)
    ensures CtxBalanced(ctx.up.up, h + 1)
  {
    assert CtxBalanced(ctx.up, h);
  }

  lemma RightPointers(m: Heap, root: Node?, ctx: Ctx, t: Tree, elm: Node)
    requires At(m, root, ctx, t, elm) && t.Branch? && t.right.Branch?
    ensures var tmp, b, up := t.right.n, Root(t.right.left), ParentOf(ctx, null);
            && elm in m && tmp in m && elm != tmp && m[elm].right == tmp && m[tmp].left == b && m[elm].parent == up
            && (b != null ==> b in m && b != elm && b != tmp && b != up)
            && (up != null ==> up in m && up != elm && up != tmp)
            && (ctx.InLeft? ==> m[up].left == elm)
            && (ctx.InRight? ==> m[up].right == elm && m[up].left != elm)
  {
    Pointers(m, root, ctx, t, elm);
    Above(m, root, ctx, t, elm);
    Down(m, root, ctx, t, elm);
    Pointers(m, root, InRight(t.left, elm, t.c, ctx), t.right, t.right.n);
  }

  lemma RotatedLeftIs(m: Heap, m': Heap, root: Node?, root': Node?, ctx: Ctx, t: Tree, elm: Node, tmp: Node)
    requires At(m, root, ctx, t, elm) && t.Branch? && t.right.Branch? && tmp == t.right.n
    requires ChangedOn(m, m', elm, tmp, Root(t.right.left), ParentOf(ctx, null))
    requires tmp in m && m'[tmp] == m[tmp].(parent := m[elm].parent, left := elm)
    requires m'[elm] == m[elm].(parent := tmp, right := m[tmp].left)
    requires var b := Root(t.right.left); b != null ==> b in m && m'[b] == m[b].(parent := elm)
    requires Relinked(m, m', ctx, tmp, root, root')
    ensures At(m', root', ctx, RotatedLeft(t), tmp)
  {
    var a, b, c := t.left, t.right.left, t.right.right;
    assert Ordered(t.right, elm.block, Hi(ctx));
    RotationKeys(ctx, a, elm, b, tmp, c);
    assert Is(m, t.right, m[elm].right, elm);
    CtxRelinked(m, m', ctx, elm, tmp, root, root', null);
    PartIs(m, m', a, m[elm].left, elm);
    PartIs(m, m', c, m[tmp].right, tmp);
    IsRetopped(m, m', b, m[tmp].left, tmp, elm, ColorOf(b), elm.block, tmp.block);
    RotationNodes(a, elm, b, tmp, c, t.c, t.right.c);
    assert Is(m', Branch(a, elm, t.c, b), elm, tmp);
  }

  /** The node that ends on top, and the two subtrees below it, before the last rotation. */
  ghost function ParentAfterLeft(ctx: Ctx, elm: Node): Node
    requires !ctx.Top?
  {
    if ctx.InRight? then elm else ctx.n
  }

  lemma InsertShapeLeft(ctx: Ctx, t: Tree, elm: Node, h: nat) returns (below: Tree, side: Tree)
    requires IsRed(t) && t.n == elm && Balanced(t, h) && CtxBalanced(ctx, h)
    requires !ctx.Top? && ctx.c.Red? && ctx.up.InLeft? && !IsRed(ctx.up.right)
    ensures ctx.up.c.Black? && CtxBalanced(ctx.up.up, h + 1)
    ensures ctx.InLeft? ==> below == t && side == ctx.right
    ensures ctx.InRight? ==> below == Branch(ctx.left, ctx.n, Red, t.left) && side == t.right
    ensures ctx.InRight? ==> RotatedLeft(Filled(ctx, t)) == Branch(below, elm, Red, side)
    ensures IsRed(below) && Balanced(below, h)
    ensures CtxBalanced(InLeft(ParentAfterLeft(ctx, elm), Black, Branch(side, ctx.up.n, Red, ctx.up.right),
        ctx.up.up), h)
  {
    if ctx.InLeft? {
      below, side := t, ctx.right;
    } else {
      below, side := Branch(ctx.left, ctx.n, Red, t.left), t.right;
    }
  }

  ghost function FarRotatedLeft(ctx: Ctx, t: Tree): Tree
    requires ctx.InLeft? && ctx.right.Branch?
  {
    var w := ctx.right;
    Branch(Branch(t, ctx.n, Black, w.left), w.n, ctx.c, Recolored(w.right, Black))
  }

  lemma FarBalancedLeft(ctx: Ctx, t: Tree, h: nat)
    requires CtxBalanced(ctx, h + 1) && Balanced(t, h) && !IsRed(t)
    requires ctx.InLeft? && ctx.right.Branch? && !IsRed(ctx.right) && IsRed(ctx.right.right)
    ensures RedBlack(Plug(ctx.up, FarRotatedLeft(ctx, t)))
  {
    var f := FarRotatedLeft(ctx, t);
    var k := if ctx.c.Red? then h + 1 else h + 2;
    assert Balanced(ctx.right, h + 1);
    assert Balanced(ctx.right.right, h);
    assert Balanced(f.left, h + 1);
    assert Balanced(f.right, h + 1);
    var whole := PlugBalanced(ctx.up, f, k);
  }

  lemma RedSiblingBeforeLeft(m: Heap, root: Node?, ctx: Ctx, t: Tree, p: Node?, h: nat)
    requires ShortPlace(m, root, ctx, t, p, h) && ctx.InLeft? && IsRed(ctx.right)
    ensures At(m, root, ctx.up, Filled(ctx, t), ctx.n)
    ensures BlackRed(Filled(ctx, t), ctx.right.n) == Branch(t, ctx.n, Red, Recolored(ctx.right, Black))
  {
    Up(m, root, ctx, t, p);
    SiblingRoots(ctx, p, t);
  }

  lemma RedSiblingAfterLeft(m: Heap, root: Node?, ctx: Ctx, t: Tree, p: Node?, h: nat) returns (ctx': Ctx)
    requires ctx.InLeft? && IsRed(ctx.right) && CtxBalanced(ctx, h + 1) && Balanced(t, h) && !IsRed(t) && p == Root(t)
    requires At(m, root, ctx.up, Branch(Branch(t, ctx.n, Red, ctx.right.left), ctx.right.n, Black, ctx.right.right),
        ctx.right.n)
    ensures ShortPlace(m, root, ctx', t, p, h) && ctx'.InLeft? && ctx'.n == ctx.n && ctx'.c.Red?
    ensures ctx'.right.Branch? && !IsRed(ctx'.right) && ctx.n in m && m[ctx.n].right == ctx'.right.n
    ensures Depth(ctx'.up) == Depth(ctx)
  {
    var w := ctx.right;
    var below, outer := Branch(t, ctx.n, Red, w.left), InLeft(w.n, Black, w.right, ctx.up);
    ctx' := InLeft(ctx.n, Red, w.left, outer);
    Down(m, root, ctx.up, Branch(below, w.n, Black, w.right), w.n);
    PointerTo(m, below, m[w.n].left, w.n);
    Down(m, root, outer, below, ctx.n);
    PointerTo(m, t, m[ctx.n].left, ctx.n);
    PointerTo(m, w.left, m[ctx.n].right, ctx.n);
  }

  lemma NearChildBeforeLeft(m: Heap, root: Node?, ctx: Ctx, t: Tree, p: Node?, w: Node)
    requires At(m, root, ctx, t, p) && ctx.InLeft? && ctx.right.Branch? && w == ctx.right.n && IsRed(ctx.right.left)
    ensures At(m, root, InRight(t, ctx.n, ctx.c, ctx.up), ctx.right, w)
    ensures w in m && m[w].left == ctx.right.left.n
    ensures BlackRed(ctx.right, ctx.right.left.n) == Branch(Recolored(ctx.right.left, Black), w, Red, ctx.right.right)
  {
    var far := InRight(t, ctx.n, ctx.c, ctx.up);
    Up(m, root, ctx, t, p);
    Down(m, root, ctx.up, Filled(ctx, t), ctx.n);
    PointerTo(m, ctx.right, m[ctx.n].right, ctx.n);
    ChildrenOf(m, root, far, ctx.right, w);
  }

  lemma NearChildAfterLeft(m: Heap, root: Node?, ctx: Ctx, t: Tree, p: Node?, h: nat) returns (ctx': Ctx)
    requires ctx.InLeft? && ctx.right.Branch? && !IsRed(ctx.right) && IsRed(ctx.right.left) && !IsRed(ctx.right.right)
    requires CtxBalanced(ctx, h + 1) && Balanced(t, h) && !IsRed(t) && p == Root(t)
    requires var w := ctx.right;
             At(m, root, InRight(t, ctx.n, ctx.c, ctx.up),
               Branch(w.left.left, w.left.n, Black, Branch(w.left.right, w.n, Red, w.right)), w.left.n)
    ensures ShortPlace(m, root, ctx', t, p, h)
    ensures ctx'.InLeft? && ctx'.n == ctx.n && ctx'.c == ctx.c && ctx'.up == ctx.up
    ensures ctx'.right.Branch? && !IsRed(ctx'.right) && IsRed(ctx'.right.right) && ctx.n in m
        && m[ctx.n].right == ctx'.right.n
  {
    var w := ctx.right;
    var w' := Branch(w.left.left, w.left.n, Black, Branch(w.left.right, w.n, Red, w.right));
    ctx' := InLeft(ctx.n, ctx.c, w', ctx.up);
    Up(m, root, InRight(t, ctx.n, ctx.c, ctx.up), w', w.left.n);
    Down(m, root, ctx.up, Branch(t, ctx.n, ctx.c, w'), ctx.n);
    PointerTo(m, t, m[ctx.n].left, ctx.n);
    PointerTo(m, w', m[ctx.n].right, ctx.n);
    assert Balanced(w, h + 1);
    assert Balanced(w.left, h);
    assert Balanced(w', h + 1);
  }

  lemma FarChildLeft(m: Heap, root: Node?, ctx: Ctx, t: Tree, p: Node)
    requires At(m, root, ctx, t, p) && t.Branch? && t.right.Branch?
    ensures var w, r := t.right.n, Root(t.right.right);
            w in m && w != p && m[w].right == r && (r != null ==> r in m && r != w && r != p)
  {
    Down(m, root, ctx, t, p);
    Pointers(m, root, InRight(t.left, p, t.c, ctx), t.right, t.right.n);
    Down(m, root, InRight(t.left, p, t.c, ctx), t.right, t.right.n);
    ChildrenOf(m, root, InRight(t.left, p, t.c, ctx), t.right, t.right.n);
    NotInside(t.right, p.block, Hi(ctx), p);
    assert t.right.right.Branch? ==> t.right.right.n in Nodes(t.right.right) && t.right.right.n in Nodes(t.right);
  }

  lemma NephewsOfLeft(m: Heap, root: Node?, ctx: Ctx, t: Tree, p: Node?, w: Node)
    requires At(m, root, ctx, t, p) && ctx.InLeft? && ctx.right.Branch? && w == ctx.right.n
    ensures w in m && m[w].left == Root(ctx.right.left) && m[w].right == Root(ctx.right.right)
    ensures m[w].left != null ==> m[w].left in m && m[m[w].left].color == ColorOf(ctx.right.left)
    ensures m[w].right != null ==> m[w].right in m && m[m[w].right].color == ColorOf(ctx.right.right)
  {
    Up(m, root, ctx, t, p);
    Down(m, root, ctx.up, Filled(ctx, t), ctx.n);
    ChildrenOf(m, root, InRight(t, ctx.n, ctx.c, ctx.up), ctx.right, w);
  }

  lemma FarPaintedLeft(m: Heap, m': Heap, root: Node?, ctx: Ctx, t: Tree, p: Node, c: Color)
    requires At(m, root, ctx, t, p) && t.Branch? && t.right.Branch? && t.right.right.Branch?
    requires var w, r := t.right.n, t.right.right.n;
             && w in m && r in m && p in m && p != w && p != r && w != r
             && ChangedOn(m, m', p, w, r, p)
             && m'[p] == m[p].(color := Black) && m'[w] == m[w].(color := c) && m'[r] == m[r].(color := Black)
    ensures At(m', root, ctx,
        Branch(t.left, p, Black, Branch(t.right.left, t.right.n, c, Recolored(t.right.right, Black))), p)
  {
    hide CtxIs, CtxOrdered, Nodes, CtxNodes;
    var w, r := t.right, t.right.right;
    var m1 := m'[r.n := m[r.n]];
    assert m1.Keys == m.Keys;
    ChildrenOf(m, root, ctx, t, p);
    PaintedIs(m, m1, root, ctx, t, p, Black, ColorOf(t.left), c);
    var w1 := Branch(w.left, w.n, c, r);
    var far := InRight(t.left, p, Black, ctx);
    Down(m1, root, ctx, Branch(t.left, p, Black, w1), p);
    Down(m1, root, far, w1, w.n);
    BlackenedIs(m1, m', root, InRight(w.left, w.n, c, far), r, r.n, Black);
    Up(m', root, InRight(w.left, w.n, c, far), Recolored(r, Black), r.n);
    Up(m', root, far, Branch(w.left, w.n, c, Recolored(r, Black)), w.n);
  }


  lemma LeftPointers(m: Heap, root: Node?, ctx: Ctx, t: Tree, elm: Node)
    requires At(m, root, ctx, t, elm) && t.Branch? && t.left.Branch?
    ensures var tmp, b, up := t.left.n, Root(t.left.right), ParentOf(ctx, null);
            && elm in m && tmp in m && elm != tmp && m[elm].left == tmp && m[tmp].right == b && m[elm].parent == up
            && (b != null ==> b in m && b != elm && b != tmp && b != up)
            && (up != null ==> up in m && up != elm && up != tmp)
            && (ctx.InLeft? ==> m[up].left == elm)
            && (ctx.InRight? ==> m[up].right == elm && m[up].left != elm)
  {
    Pointers(m, root, ctx, t, elm);
    Above(m, root, ctx, t, elm);
    Down(m, root, ctx, t, elm);
    Pointers(m, root, InLeft(elm, t.c, t.right, ctx), t.left, t.left.n);
  }

  lemma RotatedRightIs(m: Heap, m': Heap, root: Node?, root': Node?, ctx: Ctx, t: Tree, elm: Node, tmp: Node)
    requires At(m, root, ctx, t, elm) && t.Branch? && t.left.Branch? && tmp == t.left.n
    requires ChangedOn(m, m', elm, tmp, Root(t.left.right), ParentOf(ctx, null))
    requires tmp in m && m'[tmp] == m[tmp].(parent := m[elm].parent, right := elm)
    requires m'[elm] == m[elm].(parent := tmp, left := m[tmp].right)
    requires var b := Root(t.left.right); b != null ==> b in m && m'[b] == m[b].(parent := elm)
    requires Relinked(m, m', ctx, tmp, root, root')
    ensures At(m', root', ctx, RotatedRight(t), tmp)
  {
    var a, b, c := t.right, t.left.right, t.left.left;
    assert Ordered(t.left, Lo(ctx), elm.block);
    RotationKeys(ctx, c, tmp, b, elm, a);
    assert Is(m, t.left, m[elm].left, elm);
    CtxRelinked(m, m', ctx, elm, tmp, root, root', null);
    PartIs(m, m', a, m[elm].right, elm);
    PartIs(m, m', c, m[tmp].left, tmp);
    IsRetopped(m, m', b, m[tmp].right, tmp, elm, ColorOf(b), tmp.block, elm.block);
    RotationNodes(c, tmp, b, elm, a, t.left.c, t.c);
    assert Is(m', Branch(b, elm, t.c, a), elm, tmp);
  }

  /** The node that ends on top, and the two subtrees below it, before the last rotation. */
  ghost function ParentAfterRight(ctx: Ctx, elm: Node): Node
    requires !ctx.Top?
  {
    if ctx.InLeft? then elm else ctx.n
  }

  lemma InsertShapeRight(ctx: Ctx, t: Tree, elm: Node, h: nat) returns (below: Tree, side: Tree)
    requires IsRed(t) && t.n == elm && Balanced(t, h) && CtxBalanced(ctx, h)
    requires !ctx.Top? && ctx.c.Red? && ctx.up.InRight? && !IsRed(ctx.up.left)
    ensures ctx.up.c.Black? && CtxBalanced(ctx.up.up, h + 1)
    ensures ctx.InRight? ==> below == t && side == ctx.left
    ensures ctx.InLeft? ==> below == Branch(t.right, ctx.n, Red, ctx.right) && side == t.left
    ensures ctx.InLeft? ==> RotatedRight(Filled(ctx, t)) == Branch(side, elm, Red, below)
    ensures IsRed(below) && Balanced(below, h)
    ensures CtxBalanced(InRight(Branch(ctx.up.left, ctx.up.n, Red, side), ParentAfterRight(ctx, elm), Black,
        ctx.up.up), h)
  {
    if ctx.InRight? {
      below, side := t, ctx.left;
    } else {
      below, side := Branch(t.right, ctx.n, Red, ctx.right), t.left;
    }
  }

  ghost function FarRotatedRight(ctx: Ctx, t: Tree): Tree
    requires ctx.InRight? && ctx.left.Branch?
  {
    var w := ctx.left;
    Branch(Recolored(w.left, Black), w.n, ctx.c, Branch(w.right, ctx.n, Black, t))
  }

  lemma FarBalancedRight(ctx: Ctx, t: Tree, h: nat)
    requires CtxBalanced(ctx, h + 1) && Balanced(t, h) && !IsRed(t)
    requires ctx.InRight? && ctx.left.Branch? && !IsRed(ctx.left) && IsRed(ctx.left.left)
    ensures RedBlack(Plug(ctx.up, FarRotatedRight(ctx, t)))
  {
    var f := FarRotatedRight(ctx, t);
    var k := if ctx.c.Red? then h + 1 else h + 2;
    assert Balanced(ctx.left, h + 1);
    assert Balanced(ctx.left.left, h);
    assert Balanced(f.right, h + 1);
    assert Balanced(f.left, h + 1);
    var whole := PlugBalanced(ctx.up, f, k);
  }

  lemma RedSiblingBeforeRight(m: Heap, root: Node?, ctx: Ctx, t: Tree, p: Node?, h: nat)
    requires ShortPlace(m, root, ctx, t, p, h) && ctx.InRight? && IsRed(ctx.left)
    ensures At(m, root, ctx.up, Filled(ctx, t), ctx.n)
    ensures BlackRed(Filled(ctx, t), ctx.left.n) == Branch(Recolored(ctx.left, Black), ctx.n, Red, t)
  {
    Up(m, root, ctx, t, p);
    SiblingRoots(ctx, p, t);
  }

  lemma RedSiblingAfterRight(m: Heap, root: Node?, ctx: Ctx, t: Tree, p: Node?, h: nat) returns (ctx': Ctx)
    requires ctx.InRight? && IsRed(ctx.left) && CtxBalanced(ctx, h + 1) && Balanced(t, h) && !IsRed(t) && p == Root(t)
    requires At(m, root, ctx.up, Branch(ctx.left.left, ctx.left.n, Black, Branch(ctx.left.right, ctx.n, Red, t)),
        ctx.left.n)
    ensures ShortPlace(m, root, ctx', t, p, h) && ctx'.InRight? && ctx'.n == ctx.n && ctx'.c.Red?
    ensures ctx'.left.Branch? && !IsRed(ctx'.left) && ctx.n in m && m[ctx.n].left == ctx'.left.n
    ensures Depth(ctx'.up) == Depth(ctx)
  {
    var w := ctx.left;
    var below, outer := Branch(w.right, ctx.n, Red, t), InRight(w.left, w.n, Black, ctx.up);
    ctx' := InRight(w.right, ctx.n, Red, outer);
    Down(m, root, ctx.up, Branch(w.left, w.n, Black, below), w.n);
    PointerTo(m, below, m[w.n].right, w.n);
    Down(m, root, outer, below, ctx.n);
    PointerTo(m, t, m[ctx.n].right, ctx.n);
    PointerTo(m, w.right, m[ctx.n].left, ctx.n);
  }

  lemma NearChildBeforeRight(m: Heap, root: Node?, ctx: Ctx, t: Tree, p: Node?, w: Node)
    requires At(m, root, ctx, t, p) && ctx.InRight? && ctx.left.Branch? && w == ctx.left.n && IsRed(ctx.left.right)
    ensures At(m, root, InLeft(ctx.n, ctx.c, t, ctx.up), ctx.left, w)
    ensures w in m && m[w].right == ctx.left.right.n
    ensures BlackRed(ctx.left, ctx.left.right.n) == Branch(ctx.left.left, w, Red, Recolored(ctx.left.right, Black))
  {
    var far := InLeft(ctx.n, ctx.c, t, ctx.up);
    Up(m, root, ctx, t, p);
    Down(m, root, ctx.up, Filled(ctx, t), ctx.n);
    PointerTo(m, ctx.left, m[ctx.n].left, ctx.n);
    ChildrenOf(m, root, far, ctx.left, w);
  }

  lemma NearChildAfterRight(m: Heap, root: Node?, ctx: Ctx, t: Tree, p: Node?, h: nat) returns (ctx': Ctx)
    requires ctx.InRight? && ctx.left.Branch? && !IsRed(ctx.left) && IsRed(ctx.left.right) && !IsRed(ctx.left.left)
    requires CtxBalanced(ctx, h + 1) && Balanced(t, h) && !IsRed(t) && p == Root(t)
    requires var w := ctx.left;
             At(m, root, InLeft(ctx.n, ctx.c, t, ctx.up),
               Branch(Branch(w.left, w.n, Red, w.right.left), w.right.n, Black, w.right.right), w.right.n)
    ensures ShortPlace(m, root, ctx', t, p, h)
    ensures ctx'.InRight? && ctx'.n == ctx.n && ctx'.c == ctx.c && ctx'.up == ctx.up
    ensures ctx'.left.Branch? && !IsRed(ctx'.left) && IsRed(ctx'.left.left) && ctx.n in m
        && m[ctx.n].left == ctx'.left.n
  {
    var w := ctx.left;
    var w' := Branch(Branch(w.left, w.n, Red, w.right.left), w.right.n, Black, w.right.right);
    ctx' := InRight(w', ctx.n, ctx.c, ctx.up);
    Up(m, root, InLeft(ctx.n, ctx.c, t, ctx.up), w', w.right.n);
    Down(m, root, ctx.up, Branch(w', ctx.n, ctx.c, t), ctx.n);
    PointerTo(m, t, m[ctx.n].right, ctx.n);
    PointerTo(m, w', m[ctx.n].left, ctx.n);
    assert Balanced(w, h + 1);
    assert Balanced(w.right, h);
    assert Balanced(w', h + 1);
  }

  lemma FarChildRight(m: Heap, root: Node?, ctx: Ctx, t: Tree, p: Node)
    requires At(m, root, ctx, t, p) && t.Branch? && t.left.Branch?
    ensures var w, r := t.left.n, Root(t.left.left);
            w in m && w != p && m[w].left == r && (r != null ==> r in m && r != w && r != p)
  {
    Down(m, root, ctx, t, p);
    Pointers(m, root, InLeft(p, t.c, t.right, ctx), t.left, t.left.n);
    Down(m, root, InLeft(p, t.c, t.right, ctx), t.left, t.left.n);
    ChildrenOf(m, root, InLeft(p, t.c, t.right, ctx), t.left, t.left.n);
    NotInside(t.left, Lo(ctx), p.block, p);
    assert t.left.left.Branch? ==> t.left.left.n in Nodes(t.left.left) && t.left.left.n in Nodes(t.left);
  }

  lemma NephewsOfRight(m: Heap, root: Node?, ctx: Ctx, t: Tree, p: Node?, w: Node)
    requires At(m, root, ctx, t, p) && ctx.InRight? && ctx.left.Branch? && w == ctx.left.n
    ensures w in m && m[w].left == Root(ctx.left.left) && m[w].right == Root(ctx.left.right)
    ensures m[w].left != null ==> m[w].left in m && m[m[w].left].color == ColorOf(ctx.left.left)
    ensures m[w].right != null ==> m[w].right in m && m[m[w].right].color == ColorOf(ctx.left.right)
  {
    Up(m, root, ctx, t, p);
    Down(m, root, ctx.up, Filled(ctx, t), ctx.n);
    ChildrenOf(m, root, InLeft(ctx.n, ctx.c, t, ctx.up), ctx.left, w);
  }

  lemma FarPaintedRight(m: Heap, m': Heap, root: Node?, ctx: Ctx, t: Tree, p: Node, c: Color)
    requires At(m, root, ctx, t, p) && t.Branch? && t.left.Branch? && t.left.left.Branch?
    requires var w, r := t.left.n, t.left.left.n;
             && w in m && r in m && p in m && p != w && p != r && w != r
             && ChangedOn(m, m', p, w, r, p)
             && m'[p] == m[p].(color := Black) && m'[w] == m[w].(color := c) && m'[r] == m[r].(color := Black)
    ensures At(m', root, ctx,
        Branch(Branch(Recolored(t.left.left, Black), t.left.n, c, t.left.right), p, Black, t.right), p)
  {
    hide CtxIs, CtxOrdered, Nodes, CtxNodes;
    var w, r := t.left, t.left.left;
    var m1 := m'[r.n := m[r.n]];
    assert m1.Keys == m.Keys;
    ChildrenOf(m, root, ctx, t, p);
    PaintedIs(m, m1, root, ctx, t, p, Black, c, ColorOf(t.right));
    var w1 := Branch(r, w.n, c, w.right);
    var far := InLeft(p, Black, t.right, ctx);
    Down(m1, root, ctx, Branch(w1, p, Black, t.right), p);
    Down(m1, root, far, w1, w.n);
    BlackenedIs(m1, m', root, InLeft(w.n, c, w.right, far), r, r.n, Black);
    Up(m', root, InLeft(w.n, c, w.right, far), Recolored(r, Black), r.n);
    Up(m', root, far, Branch(Recolored(r, Black), w.n, c, w.right), w.n);
  }

  // ----- Neighbours -----

  /** The node whose key is the upper bound of a place. */
  ghost function HiNode(ctx: Ctx): Node? {
    match ctx
    case Top => null
    case InLeft(n, _, _, _) => n
    case InRight(_, _, _, up) => HiNode(up)
  }

  ghost function LoNode(ctx: Ctx): Node? {
    match ctx
    case Top => null
    case InLeft(_, _, _, up) => LoNode(up)
    case InRight(_, n, _, _) => n
  }

  /** r has the least key that is not below k; there is none when r is null. */
  ghost predicate AtLeast(nodes: set<Node>, k: int, r: Node?) {
    if r == null then forall n :: n in nodes ==> n.block < k
    else r in nodes && k <= r.block && forall n :: n in nodes && k <= n.block ==> r.block <= n.block
  }

  /** r has the greatest key that is not above k; there is none when r is null. */
  ghost predicate AtMost(nodes: set<Node>, k: int, r: Node?) {
    if r == null then forall n :: n in nodes ==> n.block > k
    else r in nodes && r.block <= k && forall n :: n in nodes && n.block <= k ==> n.block <= r.block
  }

  lemma {:induction false} Bounds(ctx: Ctx)
    ensures Hi(ctx) == if HiNode(ctx) == null then BLOCK_LIMIT else HiNode(ctx).block
    ensures Lo(ctx) == if LoNode(ctx) == null then -1 else LoNode(ctx).block
    ensures HiNode(ctx) != null ==> HiNode(ctx) in CtxNodes(ctx)
    ensures LoNode(ctx) != null ==> LoNode(ctx) in CtxNodes(ctx)
    decreases ctx
  {
    if !ctx.Top? {
      Bounds(ctx.up);
    }
  }

  /** Which side of its parent a node is on. */
  lemma ClimbedFrom(m: Heap, root: Node?, ctx: Ctx, t: Tree, p: Node)
    requires At(m, root, ctx, t, p)
    ensures p in m && m[p].parent == ParentOf(ctx, null)
    ensures ctx.InLeft? ==> ctx.n in m && m[ctx.n].left == p && m[ctx.n].right != p
    ensures ctx.InRight? ==> ctx.n in m && m[ctx.n].right == p && m[ctx.n].left != p
  {
    PlacePointers(m, root, ctx, t, p);
    Above(m, root, ctx, t, p);
    PointerTo(m, t, p, ParentOf(ctx, null));
    if !ctx.Top? {
      SiblingRoots(ctx, p, t);
    }
  }

  /** The nodes on both sides of an empty place are neighbours. */
  lemma EmptyPlace(m: Heap, root: Node?, ctx: Ctx, k: int)
    requires At(m, root, ctx, Leaf, null) && Lo(ctx) <= k <= Hi(ctx)
    ensures Lo(ctx) < k ==> AtLeast(m.Keys, k, HiNode(ctx))
    ensures k < Hi(ctx) ==> AtMost(m.Keys, k, LoNode(ctx))
  {
    Bounds(ctx);
    CtxKeys(ctx);
  }

  /** Keys are unique in a search tree. */
  lemma {:induction false} KeysUnique(t: Tree, lo: int, hi: int)
    requires Ordered(t, lo, hi)
    ensures forall a, b :: a in Nodes(t) && b in Nodes(t) && a.block == b.block ==> a == b
  {
    match t
    case Leaf =>
    case Branch(l, n, _, r) =>
      KeysUnique(l, lo, n.block);
      KeysUnique(r, n.block, hi);
      OrderedKeys(l, lo, n.block);
      OrderedKeys(r, n.block, hi);
  }

  /** The greatest key below the least key above a is a's own: PREV inverts NEXT, and the reverse. */
  lemma PrevOfNext(t: Tree, a: Node, b: Node, c: Node?)
    requires Ordered(t, -1, BLOCK_LIMIT) && a in Nodes(t) && AtLeast(Nodes(t), a.block + 1, b)
    ensures AtMost(Nodes(t), b.block - 1, c) <==> c == a
  {
    KeysUnique(t, -1, BLOCK_LIMIT);
  }

  lemma NextOfPrev(t: Tree, a: Node, b: Node, c: Node?)
    requires Ordered(t, -1, BLOCK_LIMIT) && a in Nodes(t) && AtMost(Nodes(t), a.block - 1, b)
    ensures AtLeast(Nodes(t), b.block + 1, c) <==> c == a
  {
    KeysUnique(t, -1, BLOCK_LIMIT);
  }
}
