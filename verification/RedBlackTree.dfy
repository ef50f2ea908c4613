/** The red-black tree operations of ext4fsd/include/drv_common/drv_tree.h on nodes in the heap,
    as RB_GENERATE instantiates them for the journal's tables.
  */
module RedBlackTree {
  import opened RedBlackShape
  import opened RedBlackHeap

  class Table {
    var root: Node?
    ghost var nodes: set<Node>
    ghost var tree: Tree

    /** RB_INIT */
    constructor ()
      ensures Valid() && nodes == {}
    {
      root, nodes, tree := null, {}, Leaf;
      new;
      EmptyRedBlack();
    }

    ghost function Links(): Heap
      reads this`nodes, nodes
    {
      Snapshot(nodes)
    }

    ghost predicate Valid()
      reads this, nodes
    {
      && nodes == Nodes(tree) && Is(Links(), tree, root, null)
      && Ordered(tree, -1, BLOCK_LIMIT) && RedBlack(tree)
    }

    /** Only the links matter: the other fields of a node can change at any time. */
    twostate lemma Undisturbed()
      requires old(Valid()) && root == old(root) && nodes == old(nodes) && tree == old(tree)
      requires forall n :: n in nodes ==>
                 n.left == old(n.left) && n.right == old(n.right) && n.parent == old(n.parent)
                   && n.color == old(n.color)
      ensures Valid()
    {
      hide Is, Ordered, RedBlack, Nodes;
      assert Links() == old(Links());
    }

    /** RB_ROTATE_LEFT */
    method RotateLeft(elm: Node, ghost ctx: Ctx, ghost t: Tree) returns (tmp: Node)
      requires At(Links(), root, ctx, t, elm) && t.Branch? && t.right.Branch?
      modifies this`root, nodes`left, nodes`right, nodes`parent
      ensures At(Links(), root, ctx, RotatedLeft(t), tmp) && tmp == t.right.n
    {
      ghost var m, top := Links(), root;
      RightPointers(m, root, ctx, t, elm);
      tmp := elm.right;
      elm.right := tmp.left;
      if tmp.left != null {
        tmp.left.parent := elm;
      }
      tmp.parent := elm.parent;
      if elm.parent != null {
        if elm == elm.parent.left {
          elm.parent.left := tmp;
        } else {
          elm.parent.right := tmp;
        }
      } else {
        root := tmp;
      }
      tmp.left := elm;
      elm.parent := tmp;
      RotatedLeftIs(m, Links(), top, root, ctx, t, elm, tmp);
    }

    /** RB_ROTATE_RIGHT */
    method RotateRight(elm: Node, ghost ctx: Ctx, ghost t: Tree) returns (tmp: Node)
      requires At(Links(), root, ctx, t, elm) && t.Branch? && t.left.Branch?
      modifies this`root, nodes`left, nodes`right, nodes`parent
      ensures At(Links(), root, ctx, RotatedRight(t), tmp) && tmp == t.left.n
    {
      ghost var m, top := Links(), root;
      LeftPointers(m, root, ctx, t, elm);
      tmp := elm.left;
      elm.left := tmp.right;
      if tmp.right != null {
        tmp.right.parent := elm;
      }
      tmp.parent := elm.parent;
      if elm.parent != null {
        if elm == elm.parent.left {
          elm.parent.left := tmp;
        } else {
          elm.parent.right := tmp;
        }
      } else {
        root := tmp;
      }
      tmp.right := elm;
      elm.parent := tmp;
      RotatedRightIs(m, Links(), top, root, ctx, t, elm, tmp);
    }

    /** RB_INSERT_COLOR below a red parent that is a left child, when the uncle is not red: one or
        two rotations. */
    method InsertRotateLeft(elm: Node, parent: Node, gparent: Node, ghost ctx: Ctx, ghost t: Tree, ghost h: nat)
      returns (next: Node, ghost ctx': Ctx, ghost t': Tree)
      requires RedPlace(Links(), root, ctx, t, elm, h) && !ctx.Top? && ctx.c.Red? && ctx.up.InLeft?
      requires parent == ctx.n && gparent == ctx.up.n && !IsRed(ctx.up.right)
      modifies this`root, nodes`left, nodes`right, nodes`parent, nodes`color
      ensures RedPlace(Links(), root, ctx', t', next, h) && !ctx'.Top? && CtxBlack(ctx')
    {
      hide CtxIs, CtxOrdered, Ordered;
      var outer, lower := parent, elm;
      ghost var below, side := InsertShapeLeft(ctx, t, elm, h);
      ghost var f := Branch(below, ParentAfterLeft(ctx, elm), Red, side);
      Above(Links(), root, ctx, t, elm);
      Up(Links(), root, ctx, t, elm);
      if parent.right == elm {
        ghost var x := RotateLeft(parent, ctx.up, Filled(ctx, t));
        outer, lower := elm, parent;
      }
      assert At(Links(), root, ctx.up, f, outer);
      next := lower;
      Up(Links(), root, ctx.up, f, outer);
      ghost var g := Branch(f, gparent, Black, ctx.up.right);
      SetBlackRed(outer, gparent, ctx.up.up, g);
      ghost var y := RotateRight(gparent, ctx.up.up, BlackRed(g, outer));
      Down(Links(), root, ctx.up.up, Branch(below, outer, Black, Branch(side, gparent, Red, ctx.up.right)), outer);
      ctx', t' := InLeft(outer, Black, Branch(side, gparent, Red, ctx.up.right), ctx.up.up), below;
    }

    /** The turn of RB_INSERT_COLOR's loop below a red parent that is a left child. */
    method InsertColorLeft(elm: Node, parent: Node, gparent: Node, ghost ctx: Ctx, ghost t: Tree, ghost h: nat)
      returns (next: Node, ghost ctx': Ctx, ghost t': Tree, ghost h': nat)
      requires RedPlace(Links(), root, ctx, t, elm, h) && !ctx.Top? && ctx.c.Red? && ctx.up.InLeft?
      requires parent == ctx.n && gparent == ctx.up.n
      modifies this`root, nodes`left, nodes`right, nodes`parent, nodes`color
      ensures RedPlace(Links(), root, ctx', t', next, h')
      ensures ctx' == ctx.up.up || CtxBlack(ctx')
    {
      GrandparentOf(Links(), root, ctx, t, elm, h);
      var tmp := gparent.right;
      if tmp != null && tmp.color == Red {
        Recolor(parent, tmp, gparent, elm, ctx, t, h);
        next, h' := gparent, h + 1;
        ctx', t' := ctx.up.up, Painted(Filled(ctx.up, Filled(ctx, t)), Red, Black, Black);
      } else {
        h' := h;
        next, ctx', t' := InsertRotateLeft(elm, parent, gparent, ctx, t, h);
      }
    }

    /** RB_INSERT_COLOR below a red parent that is a right child, when the uncle is not red: one or
        two rotations. */
    method InsertRotateRight(elm: Node, parent: Node, gparent: Node, ghost ctx: Ctx, ghost t: Tree, ghost h: nat)
      returns (next: Node, ghost ctx': Ctx, ghost t': Tree)
      requires RedPlace(Links(), root, ctx, t, elm, h) && !ctx.Top? && ctx.c.Red? && ctx.up.InRight?
      requires parent == ctx.n && gparent == ctx.up.n && !IsRed(ctx.up.left)
      modifies this`root, nodes`left, nodes`right, nodes`parent, nodes`color
      ensures RedPlace(Links(), root, ctx', t', next, h) && !ctx'.Top? && CtxBlack(ctx')
    {
      hide CtxNodes, CtxOrdered;
      var outer, lower := parent, elm;
      ghost var below, side := InsertShapeRight(ctx, t, elm, h);
      ghost var f := Branch(side, ParentAfterRight(ctx, elm), Red, below);
      Above(Links(), root, ctx, t, elm);
      Up(Links(), root, ctx, t, elm);
      if parent.left == elm {
        ghost var x := RotateRight(parent, ctx.up, Filled(ctx, t));
        outer, lower := elm, parent;
      }
      assert At(Links(), root, ctx.up, f, outer);
      next := lower;
      Up(Links(), root, ctx.up, f, outer);
      ghost var g := Branch(ctx.up.left, gparent, Black, f);
      SetBlackRed(outer, gparent, ctx.up.up, g);
      ghost var y := RotateLeft(gparent, ctx.up.up, BlackRed(g, outer));
      Down(Links(), root, ctx.up.up, Branch(Branch(ctx.up.left, gparent, Red, side), outer, Black, below), outer);
      ctx', t' := InRight(Branch(ctx.up.left, gparent, Red, side), outer, Black, ctx.up.up), below;
    }

    /** The turn of RB_INSERT_COLOR's loop below a red parent that is a right child. */
    method InsertColorRight(elm: Node, parent: Node, gparent: Node, ghost ctx: Ctx, ghost t: Tree, ghost h: nat)
      returns (next: Node, ghost ctx': Ctx, ghost t': Tree, ghost h': nat)
      requires RedPlace(Links(), root, ctx, t, elm, h) && !ctx.Top? && ctx.c.Red? && ctx.up.InRight?
      requires parent == ctx.n && gparent == ctx.up.n
      modifies this`root, nodes`left, nodes`right, nodes`parent, nodes`color
      ensures RedPlace(Links(), root, ctx', t', next, h')
      ensures ctx' == ctx.up.up || CtxBlack(ctx')
    {
      GrandparentOf(Links(), root, ctx, t, elm, h);
      var tmp := gparent.left;
      if tmp != null && tmp.color == Red {
        Recolor(parent, tmp, gparent, elm, ctx, t, h);
        next, h' := gparent, h + 1;
        ctx', t' := ctx.up.up, Painted(Filled(ctx.up, Filled(ctx, t)), Red, Black, Black);
      } else {
        h' := h;
        next, ctx', t' := InsertRotateRight(elm, parent, gparent, ctx, t, h);
      }
    }

    /** RB_REMOVE_COLOR with a red sibling: it becomes the grandparent and the place gets a black sibling. */
    method RotateRedSiblingLeft(parent: Node, sibling: Node, ghost elm: Node?, ghost ctx: Ctx, ghost t: Tree,
        ghost h: nat)
      returns (tmp: Node, ghost ctx': Ctx)
      requires ShortPlace(Links(), root, ctx, t, elm, h) && !IsRed(t) && ctx.InLeft? && parent == ctx.n
      requires IsRed(ctx.right) && sibling == ctx.right.n
      modifies this`root, nodes`left, nodes`right, nodes`parent, nodes`color
      ensures ShortPlace(Links(), root, ctx', t, elm, h)
      ensures ctx'.InLeft? && ctx'.n == parent && ctx'.c.Red? && ctx'.right.Branch? && !IsRed(ctx'.right)
          && tmp == ctx'.right.n
    {
      RedSiblingBeforeLeft(Links(), root, ctx, t, elm, h);
      SetBlackRed(sibling, parent, ctx.up, Filled(ctx, t));
      ghost var x := RotateLeft(parent, ctx.up, Branch(t, parent, Red, Recolored(ctx.right, Black)));
      ctx' := RedSiblingAfterLeft(Links(), root, ctx, t, elm, h);
      tmp := parent.right;
    }

    /** RB_REMOVE_COLOR with a black sibling whose only red child is on the near side: a rotation
        brings a red child to the far side. */
    method RotateNearChildLeft(parent: Node, sibling: Node, ghost elm: Node?, ghost ctx: Ctx, ghost t: Tree,
        ghost h: nat)
      returns (tmp: Node, ghost ctx': Ctx)
      requires ShortPlace(Links(), root, ctx, t, elm, h) && !IsRed(t) && ctx.InLeft? && parent == ctx.n
      requires ctx.right.Branch? && !IsRed(ctx.right) && sibling == ctx.right.n && !IsRed(ctx.right.right)
          && IsRed(ctx.right.left)
      modifies this`root, nodes`left, nodes`right, nodes`parent, nodes`color
      ensures ShortPlace(Links(), root, ctx', t, elm, h)
      ensures ctx'.InLeft? && ctx'.n == parent && ctx'.c == ctx.c && ctx'.up == ctx.up
      ensures ctx'.right.Branch? && !IsRed(ctx'.right) && tmp == ctx'.right.n && IsRed(ctx'.right.right)
    {
      ghost var far, w := InRight(t, parent, ctx.c, ctx.up), ctx.right;
      NearChildBeforeLeft(Links(), root, ctx, t, elm, sibling);
      var near := sibling.left;
      if near != null {
        SetBlackRed(near, sibling, far, w);
      }
      tmp := RotateRight(sibling, far, Branch(Recolored(w.left, Black), sibling, Red, w.right));
      ctx' := NearChildAfterLeft(Links(), root, ctx, t, elm, h);
      tmp := parent.right;
    }

    /** RB_REMOVE_COLOR with a black sibling whose children are not red: the sibling turns red and the
        shortage moves up. */
    method RedSiblingLeft(parent: Node, sibling: Node, ghost elm: Node?, ghost ctx: Ctx, ghost t: Tree, ghost h: nat)
      requires ShortPlace(Links(), root, ctx, t, elm, h) && !IsRed(t) && ctx.InLeft? && parent == ctx.n
      requires ctx.right.Branch? && !IsRed(ctx.right) && sibling == ctx.right.n && !IsRed(ctx.right.right)
          && !IsRed(ctx.right.left)
      modifies nodes`color
      ensures ShortPlace(Links(), root, ctx.up, Branch(t, parent, ctx.c, Recolored(ctx.right, Red)), parent,
                         if ctx.c.Red? then h else h + 1)
    {
      hide At, Is, CtxIs, Ordered, CtxOrdered, Nodes, CtxNodes;
      ghost var m, f := Links(), Filled(ctx, t);
      Up(m, root, ctx, t, elm);
      ChildrenOf(m, root, ctx.up, f, parent);
      sibling.color := Red;
      PaintedIs(m, Links(), root, ctx.up, f, parent, ctx.c, ColorOf(t), Red);
      assert Painted(f, ctx.c, ColorOf(t), Red) == Branch(t, parent, ctx.c, Recolored(ctx.right, Red));
      ShortUpLeft(ctx, t, h);
    }

    /** RB_REMOVE_COLOR with a red child on the far side: one rotation ends the shortage. */
    method RotateFarChildLeft(parent: Node, sibling: Node, ghost elm: Node?, ghost ctx: Ctx, ghost t: Tree,
        ghost h: nat)
      returns (ghost whole: Tree)
      requires ShortPlace(Links(), root, ctx, t, elm, h) && !IsRed(t) && ctx.InLeft? && parent == ctx.n
      requires ctx.right.Branch? && !IsRed(ctx.right) && sibling == ctx.right.n && IsRed(ctx.right.right)
      modifies this`root, nodes`left, nodes`right, nodes`parent, nodes`color
      ensures At(Links(), root, Top, whole, root) && RedBlack(whole)
    {
      ghost var m, f, w := Links(), Filled(ctx, t), ctx.right;
      Up(m, root, ctx, t, elm);
      ChildrenOf(m, root, ctx.up, f, parent);
      FarChildLeft(m, root, ctx.up, f, parent);
      sibling.color := parent.color;
      parent.color := Black;
      if sibling.right != null {
        sibling.right.color := Black;
      }
      FarPaintedLeft(m, Links(), root, ctx.up, f, parent, ctx.c);
      ghost var x := RotateLeft(parent, ctx.up,
          Branch(t, parent, Black, Branch(w.left, sibling, ctx.c, Recolored(w.right, Black))));
      PlugAt(Links(), root, ctx.up, FarRotatedLeft(ctx, t), sibling);
      FarBalancedLeft(ctx, t, h);
      whole := Plug(ctx.up, FarRotatedLeft(ctx, t));
    }

    /** The turn of RB_REMOVE_COLOR's loop for a left child. */
    method RemoveColorLeft(parent: Node, elm: Node?, ghost ctx0: Ctx, ghost t: Tree, ghost h: nat)
      returns (done: bool, next: Node?, above: Node?, ghost ctx': Ctx, ghost t': Tree, ghost h': nat)
      requires ShortPlace(Links(), root, ctx0, t, elm, h) && !IsRed(t) && ctx0.InLeft? && parent == ctx0.n
      modifies this`root, nodes`left, nodes`right, nodes`parent, nodes`color
      ensures !done ==> ShortPlace(Links(), root, ctx', t', next, h') && above == ParentOf(ctx', null)
      ensures !done ==> IsRed(t') || Depth(ctx') < Depth(ctx0)
      ensures done ==> next == root && At(Links(), root, Top, t', root) && RedBlack(t')
    {
      ghost var ctx := ctx0;
      SiblingOf(Links(), root, ctx, t, elm, h);
      var tmp: Node := parent.right;
      if tmp.color == Red {
        tmp, ctx := RotateRedSiblingLeft(parent, tmp, elm, ctx, t, h);
      }
      done, next, above, ctx', t', h' := RemoveColorBlackSiblingLeft(parent, tmp, elm, ctx, t, h);
    }

    method RemoveColorBlackSiblingLeft(parent: Node, sibling: Node, elm: Node?, ghost ctx: Ctx, ghost t: Tree,
        ghost h: nat)
      returns (done: bool, next: Node?, above: Node?, ghost ctx': Ctx, ghost t': Tree, ghost h': nat)
      requires ShortPlace(Links(), root, ctx, t, elm, h) && !IsRed(t) && ctx.InLeft? && parent == ctx.n
      requires ctx.right.Branch? && !IsRed(ctx.right) && sibling == ctx.right.n
      modifies this`root, nodes`left, nodes`right, nodes`parent, nodes`color
      ensures !done ==> ShortPlace(Links(), root, ctx', t', next, h') && above == ParentOf(ctx', null)
      ensures !done ==> ctx' == ctx.up && (IsRed(t') <==> ctx.c.Red?)
      ensures done ==> next == root && At(Links(), root, Top, t', root) && RedBlack(t')
    {
      NephewsOfLeft(Links(), root, ctx, t, elm, sibling);
      ctx', h' := ctx.up, if ctx.c.Red? then h else h + 1;
      if (sibling.left == null || sibling.left.color == Black)
        && (sibling.right == null || sibling.right.color == Black) {
        RedSiblingLeft(parent, sibling, elm, ctx, t, h);
        t' := Branch(t, parent, ctx.c, Recolored(ctx.right, Red));
        Pointers(Links(), root, ctx', t', parent);
        done, next, above := false, parent, parent.parent;
      } else {
        var tmp := sibling;
        ghost var place := ctx;
        if tmp.right == null || tmp.right.color == Black {
          tmp, place := RotateNearChildLeft(parent, tmp, elm, ctx, t, h);
        }
        t' := RotateFarChildLeft(parent, tmp, elm, place, t, h);
        done, next, above := true, root, null;
      }
    }

    /** RB_REMOVE_COLOR with a red sibling: it becomes the grandparent and the place gets a black sibling. */
    method RotateRedSiblingRight(parent: Node, sibling: Node, ghost elm: Node?, ghost ctx: Ctx, ghost t: Tree,
        ghost h: nat)
      returns (tmp: Node, ghost ctx': Ctx)
      requires ShortPlace(Links(), root, ctx, t, elm, h) && !IsRed(t) && ctx.InRight? && parent == ctx.n
      requires IsRed(ctx.left) && sibling == ctx.left.n
      modifies this`root, nodes`left, nodes`right, nodes`parent, nodes`color
      ensures ShortPlace(Links(), root, ctx', t, elm, h)
      ensures ctx'.InRight? && ctx'.n == parent && ctx'.c.Red? && ctx'.left.Branch? && !IsRed(ctx'.left)
          && tmp == ctx'.left.n
    {
      RedSiblingBeforeRight(Links(), root, ctx, t, elm, h);
      SetBlackRed(sibling, parent, ctx.up, Filled(ctx, t));
      ghost var x := RotateRight(parent, ctx.up, Branch(Recolored(ctx.left, Black), parent, Red, t));
      ctx' := RedSiblingAfterRight(Links(), root, ctx, t, elm, h);
      tmp := parent.left;
    }

    /** RB_REMOVE_COLOR with a black sibling whose only red child is on the near side: a rotation
        brings a red child to the far side. */
    method RotateNearChildRight(parent: Node, sibling: Node, ghost elm: Node?, ghost ctx: Ctx, ghost t: Tree,
        ghost h: nat)
      returns (tmp: Node, ghost ctx': Ctx)
      requires ShortPlace(Links(), root, ctx, t, elm, h) && !IsRed(t) && ctx.InRight? && parent == ctx.n
      requires ctx.left.Branch? && !IsRed(ctx.left) && sibling == ctx.left.n && !IsRed(ctx.left.left)
          && IsRed(ctx.left.right)
      modifies this`root, nodes`left, nodes`right, nodes`parent, nodes`color
      ensures ShortPlace(Links(), root, ctx', t, elm, h)
      ensures ctx'.InRight? && ctx'.n == parent && ctx'.c == ctx.c && ctx'.up == ctx.up
      ensures ctx'.left.Branch? && !IsRed(ctx'.left) && tmp == ctx'.left.n && IsRed(ctx'.left.left)
    {
      ghost var far, w := InLeft(parent, ctx.c, t, ctx.up), ctx.left;
      NearChildBeforeRight(Links(), root, ctx, t, elm, sibling);
      var near := sibling.right;
      if near != null {
        SetBlackRed(near, sibling, far, w);
      }
      tmp := RotateLeft(sibling, far, Branch(w.left, sibling, Red, Recolored(w.right, Black)));
      ctx' := NearChildAfterRight(Links(), root, ctx, t, elm, h);
      tmp := parent.left;
    }

    /** RB_REMOVE_COLOR with a black sibling whose children are not red: the sibling turns red and the
        shortage moves up. */
    method RedSiblingRight(parent: Node, sibling: Node, ghost elm: Node?, ghost ctx: Ctx, ghost t: Tree, ghost h: nat)
      requires ShortPlace(Links(), root, ctx, t, elm, h) && !IsRed(t) && ctx.InRight? && parent == ctx.n
      requires ctx.left.Branch? && !IsRed(ctx.left) && sibling == ctx.left.n && !IsRed(ctx.left.left)
          && !IsRed(ctx.left.right)
      modifies nodes`color
      ensures ShortPlace(Links(), root, ctx.up, Branch(Recolored(ctx.left, Red), parent, ctx.c, t), parent,
                         if ctx.c.Red? then h else h + 1)
    {
      hide At, Is, CtxIs, Ordered, CtxOrdered, Nodes, CtxNodes;
      ghost var m, f := Links(), Filled(ctx, t);
      Up(m, root, ctx, t, elm);
      ChildrenOf(m, root, ctx.up, f, parent);
      sibling.color := Red;
      PaintedIs(m, Links(), root, ctx.up, f, parent, ctx.c, Red, ColorOf(t));
      assert Painted(f, ctx.c, Red, ColorOf(t)) == Branch(Recolored(ctx.left, Red), parent, ctx.c, t);
      ShortUpRight(ctx, t, h);
    }

    /** RB_REMOVE_COLOR with a red child on the far side: one rotation ends the shortage. */
    method RotateFarChildRight(parent: Node, sibling: Node, ghost elm: Node?, ghost ctx: Ctx, ghost t: Tree,
        ghost h: nat)
      returns (ghost whole: Tree)
      requires ShortPlace(Links(), root, ctx, t, elm, h) && !IsRed(t) && ctx.InRight? && parent == ctx.n
      requires ctx.left.Branch? && !IsRed(ctx.left) && sibling == ctx.left.n && IsRed(ctx.left.left)
      modifies this`root, nodes`left, nodes`right, nodes`parent, nodes`color
      ensures At(Links(), root, Top, whole, root) && RedBlack(whole)
    {
      ghost var m, f, w := Links(), Filled(ctx, t), ctx.left;
      Up(m, root, ctx, t, elm);
      ChildrenOf(m, root, ctx.up, f, parent);
      FarChildRight(m, root, ctx.up, f, parent);
      sibling.color := parent.color;
      parent.color := Black;
      if sibling.left != null {
        sibling.left.color := Black;
      }
      FarPaintedRight(m, Links(), root, ctx.up, f, parent, ctx.c);
      ghost var x := RotateRight(parent, ctx.up,
          Branch(Branch(Recolored(w.left, Black), sibling, ctx.c, w.right), parent, Black, t));
      PlugAt(Links(), root, ctx.up, FarRotatedRight(ctx, t), sibling);
      FarBalancedRight(ctx, t, h);
      whole := Plug(ctx.up, FarRotatedRight(ctx, t));
    }

    /** The turn of RB_REMOVE_COLOR's loop for a right child. */
    method RemoveColorRight(parent: Node, elm: Node?, ghost ctx0: Ctx, ghost t: Tree, ghost h: nat)
      returns (done: bool, next: Node?, above: Node?, ghost ctx': Ctx, ghost t': Tree, ghost h': nat)
      requires ShortPlace(Links(), root, ctx0, t, elm, h) && !IsRed(t) && ctx0.InRight? && parent == ctx0.n
      modifies this`root, nodes`left, nodes`right, nodes`parent, nodes`color
      ensures !done ==> ShortPlace(Links(), root, ctx', t', next, h') && above == ParentOf(ctx', null)
      ensures !done ==> IsRed(t') || Depth(ctx') < Depth(ctx0)
      ensures done ==> next == root && At(Links(), root, Top, t', root) && RedBlack(t')
    {
      ghost var ctx := ctx0;
      SiblingOf(Links(), root, ctx, t, elm, h);
      var tmp: Node := parent.left;
      if tmp.color == Red {
        tmp, ctx := RotateRedSiblingRight(parent, tmp, elm, ctx, t, h);
      }
      done, next, above, ctx', t', h' := RemoveColorBlackSiblingRight(parent, tmp, elm, ctx, t, h);
    }

    method RemoveColorBlackSiblingRight(parent: Node, sibling: Node, elm: Node?, ghost ctx: Ctx, ghost t: Tree,
        ghost h: nat)
      returns (done: bool, next: Node?, above: Node?, ghost ctx': Ctx, ghost t': Tree, ghost h': nat)
      requires ShortPlace(Links(), root, ctx, t, elm, h) && !IsRed(t) && ctx.InRight? && parent == ctx.n
      requires ctx.left.Branch? && !IsRed(ctx.left) && sibling == ctx.left.n
      modifies this`root, nodes`left, nodes`right, nodes`parent, nodes`color
      ensures !done ==> ShortPlace(Links(), root, ctx', t', next, h') && above == ParentOf(ctx', null)
      ensures !done ==> ctx' == ctx.up && (IsRed(t') <==> ctx.c.Red?)
      ensures done ==> next == root && At(Links(), root, Top, t', root) && RedBlack(t')
    {
      NephewsOfRight(Links(), root, ctx, t, elm, sibling);
      ctx', h' := ctx.up, if ctx.c.Red? then h else h + 1;
      if (sibling.right == null || sibling.right.color == Black)
        && (sibling.left == null || sibling.left.color == Black) {
        RedSiblingRight(parent, sibling, elm, ctx, t, h);
        t' := Branch(Recolored(ctx.left, Red), parent, ctx.c, t);
        Pointers(Links(), root, ctx', t', parent);
        done, next, above := false, parent, parent.parent;
      } else {
        var tmp := sibling;
        ghost var place := ctx;
        if tmp.left == null || tmp.left.color == Black {
          tmp, place := RotateNearChildRight(parent, tmp, elm, ctx, t, h);
        }
        t' := RotateFarChildRight(parent, tmp, elm, place, t, h);
        done, next, above := true, root, null;
      }
    }

    /** RB_SET_BLACKRED on a node and one of its children. */
    method SetBlackRed(black: Node, red: Node, ghost ctx: Ctx, ghost t: Tree)
      requires At(Links(), root, ctx, t, red) && t.Branch? && (black == Root(t.left) || black == Root(t.right))
      modifies nodes`color
      ensures At(Links(), root, ctx, BlackRed(t, black), red)
    {
      ghost var m := Links();
      ChildrenOf(m, root, ctx, t, red);
      black.color := Black;
      red.color := Red;
      PaintedIs(m, Links(), root, ctx, t, red, Red,
                if black == Root(t.left) then Black else ColorOf(t.left),
                if black == Root(t.right) then Black else ColorOf(t.right));
      BlackRedPainted(t, black);
    }

    /** RB_INSERT_COLOR with a red uncle: parent and uncle turn black, the grandparent red. */
    method Recolor(parent: Node, uncle: Node, gparent: Node, ghost elm: Node, ghost ctx: Ctx, ghost t: Tree,
        ghost h: nat)
      requires RedPlace(Links(), root, ctx, t, elm, h) && !ctx.Top? && ctx.c.Red? && !ctx.up.Top?
      requires parent == ctx.n && gparent == ctx.up.n && IsRed(Sibling(ctx.up)) && uncle == Sibling(ctx.up).n
      modifies nodes`color
      ensures RedPlace(Links(), root, ctx.up.up, Painted(Filled(ctx.up, Filled(ctx, t)), Red, Black, Black), gparent,
          h + 1)
    {
      ghost var m, up, g := Links(), ctx.up, Filled(ctx.up, Filled(ctx, t));
      Up(m, root, ctx, t, elm);
      Up(m, root, up, Filled(ctx, t), parent);
      ChildrenOf(m, root, up.up, g, gparent);
      uncle.color := Black;
      parent.color := Black;
      gparent.color := Red;
      PaintedIs(m, Links(), root, up.up, g, gparent, Red, Black, Black);
      UncleBlackened(ctx, t, h);
    }

    /** RB_INSERT_COLOR */
    method InsertColor(elm0: Node, ghost ctx0: Ctx, ghost t0: Tree, ghost h0: nat)
      requires RedPlace(Links(), root, ctx0, t0, elm0, h0)
      modifies this`root, this`tree, nodes`left, nodes`right, nodes`parent, nodes`color
      ensures Valid()
    {
      var elm: Node := elm0;
      ghost var ctx, t, h := ctx0, t0, h0;
      PlacePointers(Links(), root, ctx, t, elm);
      while elm.parent != null && elm.parent.color == Red
        invariant RedPlace(Links(), root, ctx, t, elm, h)
        invariant elm.parent == ParentOf(ctx, null) && (!ctx.Top? ==> ctx.n in nodes && ctx.n.color == ctx.c)
        decreases if CtxBlack(ctx) then 0 else 1 + Depth(ctx)
      {
        var parent := elm.parent;
        GrandparentOf(Links(), root, ctx, t, elm, h);
        var gparent := parent.parent;
        assert Depth(ctx) == 2 + Depth(ctx.up.up);
        if parent == gparent.left {
          elm, ctx, t, h := InsertColorLeft(elm, parent, gparent, ctx, t, h);
        } else {
          elm, ctx, t, h := InsertColorRight(elm, parent, gparent, ctx, t, h);
        }
        PlacePointers(Links(), root, ctx, t, elm);
      }
      BlackenRoot(elm, ctx, t, h);
    }

    method BlackenRoot(ghost elm: Node, ghost ctx: Ctx, ghost t: Tree, ghost h: nat)
      requires RedPlace(Links(), root, ctx, t, elm, h) && CtxBlack(ctx)
      modifies this`tree, nodes`color
      ensures Valid()
    {
      ghost var m := Links();
      ghost var k := PlugBalanced(ctx, t, h);
      PlugAt(m, root, ctx, t, elm);
      RootKnown(m, ctx, elm, root);
      root.color := Black;
      tree := Recolored(Plug(ctx, t), Black);
      RootBlackened(m, Links(), root, Plug(ctx, t), k);
    }

    /** RB_REMOVE_COLOR */
    method RemoveColor(parent0: Node?, elm0: Node?, ghost ctx0: Ctx, ghost t0: Tree, ghost h0: nat)
      requires ShortPlace(Links(), root, ctx0, t0, elm0, h0) && parent0 == ParentOf(ctx0, null)
      modifies this`root, this`tree, nodes`left, nodes`right, nodes`parent, nodes`color
      ensures Valid()
    {
      var elm, parent, done := elm0, parent0, false;
      ghost var ctx, t, h := ctx0, t0, h0;
      ShortRoot(Links(), root, ctx, t, elm);
      while (elm == null || elm.color == Black) && elm != root
        invariant !done && ShortPlace(Links(), root, ctx, t, elm, h) && parent == ParentOf(ctx, null)
        invariant (elm == root <==> ctx.Top?) && (elm != null ==> elm in nodes && elm.color == ColorOf(t))
        invariant elm == null <==> t.Leaf?
        decreases if IsRed(t) then 0 else 1 + Depth(ctx)
      {
        SiblingOf(Links(), root, ctx, t, elm, h);
        if parent.left == elm {
          done, elm, parent, ctx, t, h := RemoveColorLeft(parent, elm, ctx, t, h);
        } else {
          done, elm, parent, ctx, t, h := RemoveColorRight(parent, elm, ctx, t, h);
        }
        if done {
          break;
        }
        ShortRoot(Links(), root, ctx, t, elm);
      }
      BlackenElm(done, elm, ctx, t, h);
    }

    method BlackenElm(done: bool, elm: Node?, ghost ctx: Ctx, ghost t: Tree, ghost h: nat)
      requires done ==> elm == root && At(Links(), root, Top, t, root) && RedBlack(t)
      requires !done ==> ShortPlace(Links(), root, ctx, t, elm, h) && (IsRed(t) || ctx.Top?)
      modifies this`tree, nodes`color
      ensures Valid()
    {
      hide Is, CtxIs, Ordered, CtxOrdered, Nodes, CtxNodes, Balanced, CtxBalanced;
      ghost var m := Links();
      ghost var place := if done then Top else ctx;
      InPlace(m, root, place, t, elm);
      if elm != null {
        elm.color := Black;
      }
      BlackenedPlace(m, Links(), root, place, t, elm);
      BlackenedBalanced(done, place, t, h);
      tree := Plug(place, Recolored(t, Black));
    }

    /** RB_REMOVE */
    method Remove(elm: Node) returns (old_: Node)
      requires Valid() && elm in nodes
      modifies this, nodes`left, nodes`right, nodes`parent, nodes`color
      ensures Valid() && nodes == old(nodes) - {elm} && old_ == elm
    {
      old_ := elm;
      ghost var ctx, t := FindPlace(Links(), root, Top, tree, root, elm);
      Pointers(Links(), root, ctx, t, elm);
      var child, parent, color;
      ghost var h;
      if elm.left == null || elm.right == null {
        child, parent, color, ctx, t, h := RemoveOuter(elm, ctx, t);
      } else {
        child, parent, color, ctx, t, h := RemoveInner(elm, ctx, t);
      }
      if color == Black {
        RemoveColor(parent, child, ctx, t, h);
      } else {
        Settle(child, ctx, t);
      }
    }

    ghost method Settle(p: Node?, ctx: Ctx, t: Tree)
      requires At(Links(), root, ctx, t, p) && RedBlack(Plug(ctx, t))
      modifies this`tree
      ensures Valid()
    {
      PlugAt(Links(), root, ctx, t, p);
      tree := Plug(ctx, t);
    }

    /** RB_REMOVE of a node with at most one child, up to the rebalancing. */
    method RemoveOuter(elm: Node, ghost ctx: Ctx, ghost t: Tree)
      returns (child: Node?, parent: Node?, color: Color, ghost ctx': Ctx, ghost t': Tree, ghost h': nat)
      requires At(Links(), root, ctx, t, elm) && (t.left.Leaf? || t.right.Leaf?) && RedBlack(Plug(ctx, t))
      modifies this`root, this`nodes, nodes`left, nodes`right, nodes`parent
      ensures nodes == old(nodes) - {elm} && At(Links(), root, ctx', t', child) && parent == ParentOf(ctx', null)
      ensures color.Black? ==> Short(ctx', t', h')
      ensures color.Red? ==> RedBlack(Plug(ctx', t'))
    {
      Pointers(Links(), root, ctx, t, elm);
      child := if elm.left == null then elm.right else elm.left;
      parent, color := elm.parent, elm.color;
      h' := Unplug(ctx, t);
      SplicedBalanced(ctx, t, h');
      Splice(elm, child, parent, ctx, t);
      ctx', t', h' := ctx, Other(t), if color.Black? then h' - 1 else h';
    }

    /** RB_REMOVE of a node with two children, up to the rebalancing: its successor leaves its own
        place and takes over the links and the color of the node. */
    method RemoveInner(old_: Node, ghost ctx: Ctx, ghost t: Tree)
      returns (child: Node?, parent: Node?, color: Color, ghost ctx': Ctx, ghost t': Tree, ghost h': nat)
      requires At(Links(), root, ctx, t, old_) && t.left.Branch? && t.right.Branch? && RedBlack(Plug(ctx, t))
      modifies this`root, this`nodes, nodes`left, nodes`right, nodes`parent, nodes`color
      ensures nodes == old(nodes) - {old_} && At(Links(), root, ctx', t', child) && parent == ParentOf(ctx', null)
      ensures color.Black? ==> Short(ctx', t', h')
      ensures color.Red? ==> RedBlack(Plug(ctx', t'))
    {
      var elm: Node;
      ghost var inner, s;
      elm, inner, s := Successor(old_, ctx, t);
      ghost var base, base' := InRight(t.left, old_, t.c, ctx), InRight(t.left, elm, t.c, ctx);
      h' := Unplug(Joined(inner, base), s);
      h' := TakenOverBalanced(inner, base, base', s, h');
      child, parent, color := MoveSuccessor(elm, old_, inner, t.left, t.c, ctx, s);
      ctx', t' := Joined(inner, base'), s.right;
    }

    method MoveSuccessor(elm: Node, old_: Node, ghost inner: Ctx, ghost l: Tree, ghost c: Color, ghost ctx: Ctx,
        ghost s: Tree)
      returns (child: Node?, parent: Node?, color: Color)
      requires LeftSpine(inner) && At(Links(), root, Joined(inner, InRight(l, old_, c, ctx)), s, elm)
      requires l.Branch? && s.Branch? && s.left.Leaf?
      modifies this`root, this`nodes, nodes`left, nodes`right, nodes`parent, nodes`color
      ensures nodes == old(nodes) - {old_} && At(Links(), root, Joined(inner, InRight(l, elm, c, ctx)), s.right, child)
      ensures parent == ParentOf(Joined(inner, InRight(l, elm, c, ctx)), null) && color == s.c
    {
      hide At, Is, CtxIs, Ordered, CtxOrdered, Nodes, CtxNodes;
      ghost var base := InRight(l, old_, c, ctx);
      SuccessorFacts(Links(), root, inner, l, old_, elm, c, ctx, s);
      JoinedParent(inner, base, InRight(l, elm, c, ctx));
      child, parent, color := elm.right, elm.parent, elm.color;
      Splice(elm, child, parent, Joined(inner, base), s);
      if elm.parent == old_ {
        parent := elm;
      }
      TakeOver(elm, old_, child, inner, l, c, ctx, s);
    }

    /** The walk to the leftmost node of the right subtree. */
    method Successor(old_: Node, ghost ctx: Ctx, ghost t: Tree) returns (elm: Node, ghost inner: Ctx, ghost s: Tree)
      requires At(Links(), root, ctx, t, old_) && t.left.Branch? && t.right.Branch?
      ensures s.Branch? && s.left.Leaf?
      ensures SpineAt(Links(), root, inner, InRight(t.left, old_, t.c, ctx), s, elm, Plug(ctx, t))
    {
      ghost var m, base := Links(), InRight(t.left, old_, t.c, ctx);
      Down(m, root, ctx, t, old_);
      PointerTo(m, t.right, old_.right, old_);
      elm, inner, s := old_.right, Top, t.right;
      while true
        invariant m == Links() && SpineAt(m, root, inner, base, s, elm, Plug(ctx, t))
        decreases s
      {
        SpineStep(m, root, inner, base, s, elm, Plug(ctx, t));
        var left := elm.left;
        if left == null {
          break;
        }
        inner, s, elm := InLeft(elm, s.c, s.right, inner), s.left, left;
      }
    }

    /** A node with at most one child leaves; the child takes its place. */
    method Splice(elm: Node, child: Node?, parent: Node?, ghost ctx: Ctx, ghost t: Tree)
      requires At(Links(), root, ctx, t, elm) && (t.left.Leaf? || t.right.Leaf?)
      requires child == Root(Other(t)) && parent == ParentOf(ctx, null)
      modifies this`root, this`nodes, nodes`left, nodes`right, nodes`parent
      ensures nodes == old(nodes) - {elm} && At(Links(), root, ctx, Other(t), child)
      ensures elm.parent == old(elm.parent)
    {
      ghost var m, top := Links(), root;
      ChildrenOf(m, root, ctx, t, elm);
      AbovePlace(m, root, ctx, t, elm);
      if child != null {
        child.parent := parent;
      }
      if parent != null {
        if parent.left == elm {
          parent.left := child;
        } else {
          parent.right := child;
        }
      } else {
        root := child;
      }
      nodes := nodes - {elm};
      SplicedIs(m, Links(), top, root, ctx, t, elm, child);
    }

    /** A node outside the tree takes over the links and the color of one inside. */
    method TakeOver(elm: Node, old_: Node, ghost child: Node?, ghost inner: Ctx, ghost l: Tree, ghost c: Color,
        ghost ctx: Ctx, ghost s: Tree)
      requires LeftSpine(inner) && l.Branch? && s.Branch? && s.n == elm && elm !in nodes
      requires At(Links(), root, Joined(inner, InRight(l, old_, c, ctx)), s.right, child)
      requires old_.block < elm.block < Hi(Joined(inner, InRight(l, old_, c, ctx)))
      requires Ordered(s.right, elm.block, Hi(Joined(inner, InRight(l, old_, c, ctx))))
      modifies this`root, this`nodes, nodes`left, nodes`right, nodes`parent
      modifies elm`left, elm`right, elm`parent, elm`color
      ensures nodes == old(nodes) - {old_} + {elm}
      ensures At(Links(), root, Joined(inner, InRight(l, elm, c, ctx)), s.right, child)
    {
      hide At, CtxOrdered, Ordered, Is, CtxIs;
      ghost var m, top := Links(), root;
      ghost var r := TakeOverPointers(m, root, inner, l, old_, elm, c, ctx, s.right, child);
      elm.left, elm.right, elm.parent, elm.color := old_.left, old_.right, old_.parent, old_.color;
      if old_.parent != null {
        if old_.parent.left == old_ {
          old_.parent.left := elm;
        } else {
          old_.parent.right := elm;
        }
      } else {
        root := elm;
      }
      old_.left.parent := elm;
      if old_.right != null {
        old_.right.parent := elm;
      }
      nodes := nodes - {old_} + {elm};
      TakenOver(m, Links(), top, root, inner, l, old_, elm, c, ctx, s.right, child, r);
    }

    /** RB_INSERT */
    method Insert(elm: Node) returns (found: Node?)
      requires Valid() && elm !in nodes
      modifies this, nodes`left, nodes`right, nodes`parent, nodes`color
      modifies elm`left, elm`right, elm`parent, elm`color
      ensures Valid()
      ensures found != null ==> found in old(nodes) && found.block == elm.block
      ensures found != null ==> nodes == old(nodes) && Links() == old(Links()) && root == old(root)
      ensures found == null ==> nodes == old(nodes) + {elm}
      ensures found == null ==> forall n :: n in old(nodes) ==> n.block != elm.block
    {
      var parent: Node?, comp: int;
      ghost var ctx;
      found, parent, comp, ctx := Descend(elm);
      if found == null {
        NoSuchKey(ctx, elm);
        PlugNodes(ctx, Leaf);
        ghost var h := Link(elm, parent, comp, ctx);
        InsertColor(elm, ctx, Branch(Leaf, elm, Red, Leaf), h);
      }
    }

    /** The search of RB_INSERT: the node with an equal key, or where a new node belongs. */
    method Descend(elm: Node) returns (found: Node?, parent: Node?, comp: int, ghost ctx: Ctx)
      requires Valid()
      ensures found != null ==> found in nodes && found.block == elm.block
      ensures found == null ==> At(Links(), root, ctx, Leaf, null) && Plug(ctx, Leaf) == tree
      ensures found == null ==> Lo(ctx) < elm.block < Hi(ctx) && parent == ParentOf(ctx, null)
      ensures found == null && parent != null ==> (comp < 0 <==> ctx.InLeft?)
    {
      var tmp := root;
      ghost var t := tree;
      parent, comp, ctx := null, 0, Top;
      while tmp != null
        invariant At(Links(), root, ctx, t, tmp) && Plug(ctx, t) == tree
        invariant Lo(ctx) < elm.block < Hi(ctx)
        invariant parent == ParentOf(ctx, null)
        invariant parent != null ==> (comp < 0 <==> ctx.InLeft?)
        decreases t
      {
        parent := tmp;
        Pointers(Links(), root, ctx, t, tmp);
        Down(Links(), root, ctx, t, tmp);
        comp := Compare(elm, parent);
        if comp < 0 {
          tmp := tmp.left;
          ctx, t := InLeft(parent, t.c, t.right, ctx), t.left;
        } else if comp > 0 {
          tmp := tmp.right;
          ctx, t := InRight(t.left, parent, t.c, ctx), t.right;
        } else {
          return tmp, parent, comp, ctx;
        }
      }
      found := null;
    }

    /** RB_SET and the link from the parent: the new node joins as a red leaf. */
    method Link(elm: Node, parent: Node?, comp: int, ghost ctx: Ctx) returns (ghost h: nat)
      requires At(Links(), root, ctx, Leaf, null) && RedBlack(Plug(ctx, Leaf))
      requires Lo(ctx) < elm.block < Hi(ctx) && elm !in nodes
      requires parent == ParentOf(ctx, null) && (parent != null ==> (comp < 0 <==> ctx.InLeft?))
      modifies this`root, this`nodes, nodes`left, nodes`right
      modifies elm`left, elm`right, elm`parent, elm`color
      ensures nodes == old(nodes) + {elm}
      ensures RedPlace(Links(), root, ctx, Branch(Leaf, elm, Red, Leaf), elm, h)
    {
      ghost var m, top := Links(), root;
      h := Unplug(ctx, Leaf);
      Above(m, root, ctx, Leaf, null);
      elm.parent, elm.left, elm.right, elm.color := parent, null, null, Red;
      if parent != null {
        if comp < 0 {
          parent.left := elm;
        } else {
          parent.right := elm;
        }
      } else {
        root := elm;
      }
      nodes := nodes + {elm};
      InsertedIs(m, Links(), top, root, ctx, elm);
    }

    /** RB_FIND */
    method Find(elm: Node) returns (found: Node?)
      requires Valid()
      ensures found != null ==> found in nodes && found.block == elm.block
      ensures found == null ==> forall n :: n in nodes ==> n.block != elm.block
    {
      var tmp := root;
      ghost var m, ctx, t := Links(), Top, tree;
      while tmp != null
        invariant m == Links() && At(m, root, ctx, t, tmp) && Lo(ctx) < elm.block < Hi(ctx)
        decreases t
      {
        Pointers(m, root, ctx, t, tmp);
        Down(m, root, ctx, t, tmp);
        var comp := Compare(elm, tmp);
        if comp < 0 {
          ctx, t, tmp := InLeft(tmp, t.c, t.right, ctx), t.left, tmp.left;
        } else if comp > 0 {
          ctx, t, tmp := InRight(t.left, tmp, t.c, ctx), t.right, tmp.right;
        } else {
          return tmp;
        }
      }
      CtxKeys(ctx);
      found := null;
    }

    /** RB_NFIND */
    method NFind(elm: Node) returns (res: Node?)
      requires Valid()
      ensures AtLeast(nodes, elm.block, res)
    {
      var tmp := root;
      ghost var m, ctx, t := Links(), Top, tree;
      res := null;
      while tmp != null
        invariant m == Links() && At(m, root, ctx, t, tmp) && Lo(ctx) < elm.block < Hi(ctx)
        invariant res == HiNode(ctx)
        decreases t
      {
        Pointers(m, root, ctx, t, tmp);
        Down(m, root, ctx, t, tmp);
        var comp := Compare(elm, tmp);
        if comp < 0 {
          res := tmp;
          ctx, t, tmp := InLeft(tmp, t.c, t.right, ctx), t.left, tmp.left;
        } else if comp > 0 {
          ctx, t, tmp := InRight(t.left, tmp, t.c, ctx), t.right, tmp.right;
        } else {
          return tmp;
        }
      }
      EmptyPlace(m, root, ctx, elm.block);
    }

    /** RB_MINMAX */
    method MinMax(val: int) returns (parent: Node?)
      requires Valid()
      ensures val < 0 ==> AtLeast(nodes, 0, parent)
      ensures val >= 0 ==> AtMost(nodes, BLOCK_LIMIT - 1, parent)
    {
      var tmp := root;
      ghost var m, ctx, t := Links(), Top, tree;
      parent := null;
      while tmp != null
        invariant m == Links() && At(m, root, ctx, t, tmp)
        invariant val < 0 ==> Lo(ctx) == -1 && parent == HiNode(ctx)
        invariant val >= 0 ==> Hi(ctx) == BLOCK_LIMIT && parent == LoNode(ctx)
        decreases t
      {
        parent := tmp;
        Down(m, root, ctx, t, tmp);
        if val < 0 {
          ctx, t, tmp := InLeft(tmp, t.c, t.right, ctx), t.left, tmp.left;
        } else {
          ctx, t, tmp := InRight(t.left, tmp, t.c, ctx), t.right, tmp.right;
        }
      }
      Bounds(ctx);
      EmptyPlace(m, root, ctx, if val < 0 then 0 else BLOCK_LIMIT - 1);
    }

    /** RB_NEXT */
    method Next(elm0: Node) returns (elm: Node?)
      requires Valid() && elm0 in nodes
      ensures AtLeast(nodes, elm0.block + 1, elm)
    {
      ghost var ctx, t := FindPlace(Links(), root, Top, tree, root, elm0);
      Down(Links(), root, ctx, t, elm0);
      if elm0.right != null {
        elm := LeftMost(elm0.right, InRight(t.left, elm0, t.c, ctx), t.right);
      } else {
        EmptyPlace(Links(), root, InRight(t.left, elm0, t.c, ctx), elm0.block + 1);
        elm := ClimbRight(elm0, ctx, t);
      }
    }

    method LeftMost(elm0: Node, ghost ctx0: Ctx, ghost t0: Tree) returns (elm: Node)
      requires At(Links(), root, ctx0, t0, elm0)
      ensures AtLeast(nodes, Lo(ctx0) + 1, elm)
    {
      ghost var m, ctx, t := Links(), ctx0, t0;
      elm := elm0;
      Down(m, root, ctx, t, elm);
      while elm.left != null
        invariant m == Links() && At(m, root, ctx, t, elm) && Lo(ctx) == Lo(ctx0)
        invariant elm in m && t.Branch? && elm.left == Root(t.left)
        decreases t
      {
        Down(m, root, ctx, t, elm);
        ctx, t, elm := InLeft(elm, t.c, t.right, ctx), t.left, elm.left;
        Down(m, root, ctx, t, elm);
      }
      Down(m, root, ctx, t, elm);
      EmptyPlace(m, root, InLeft(elm, t.c, t.right, ctx), Lo(ctx0) + 1);
    }

    /** Up to the first node that the walk comes to from the left. */
    method ClimbRight(elm0: Node, ghost ctx0: Ctx, ghost t0: Tree) returns (elm: Node?)
      requires At(Links(), root, ctx0, t0, elm0)
      ensures elm == HiNode(ctx0)
    {
      ghost var m, ctx, t := Links(), ctx0, t0;
      elm := elm0;
      PlacePointers(m, root, ctx, t, elm);
      if elm.parent != null && elm == elm.parent.left {
        Above(m, root, ctx, t, elm);
        return elm.parent;
      }
      while elm.parent != null && elm == elm.parent.right
        invariant m == Links() && At(m, root, ctx, t, elm) && HiNode(ctx) == HiNode(ctx0)
        invariant elm in nodes && elm.parent == ParentOf(ctx, null) && (!ctx.Top? ==> ctx.n in nodes)
        decreases ctx
      {
        AbovePlace(m, root, ctx, t, elm);
        ClimbedFrom(m, root, ctx, t, elm);
        Up(m, root, ctx, t, elm);
        ctx, t, elm := ctx.up, Filled(ctx, t), elm.parent;
        PlacePointers(m, root, ctx, t, elm);
      }
      ClimbedFrom(m, root, ctx, t, elm);
      elm := elm.parent;
    }

    /** RB_PREV */
    method Prev(elm0: Node) returns (elm: Node?)
      requires Valid() && elm0 in nodes
      ensures AtMost(nodes, elm0.block - 1, elm)
    {
      ghost var ctx, t := FindPlace(Links(), root, Top, tree, root, elm0);
      Down(Links(), root, ctx, t, elm0);
      if elm0.left != null {
        elm := RightMost(elm0.left, InLeft(elm0, t.c, t.right, ctx), t.left);
      } else {
        EmptyPlace(Links(), root, InLeft(elm0, t.c, t.right, ctx), elm0.block - 1);
        elm := ClimbLeft(elm0, ctx, t);
      }
    }

    method RightMost(elm0: Node, ghost ctx0: Ctx, ghost t0: Tree) returns (elm: Node)
      requires At(Links(), root, ctx0, t0, elm0)
      ensures AtMost(nodes, Hi(ctx0) - 1, elm)
    {
      ghost var m, ctx, t := Links(), ctx0, t0;
      elm := elm0;
      Down(m, root, ctx, t, elm);
      while elm.right != null
        invariant m == Links() && At(m, root, ctx, t, elm) && Hi(ctx) == Hi(ctx0)
        invariant elm in m && t.Branch? && elm.right == Root(t.right)
        decreases t
      {
        Down(m, root, ctx, t, elm);
        ctx, t, elm := InRight(t.left, elm, t.c, ctx), t.right, elm.right;
        Down(m, root, ctx, t, elm);
      }
      Down(m, root, ctx, t, elm);
      EmptyPlace(m, root, InRight(t.left, elm, t.c, ctx), Hi(ctx0) - 1);
    }

    /** Up to the first node that the walk comes to from the right. */
    method ClimbLeft(elm0: Node, ghost ctx0: Ctx, ghost t0: Tree) returns (elm: Node?)
      requires At(Links(), root, ctx0, t0, elm0)
      ensures elm == LoNode(ctx0)
    {
      ghost var m, ctx, t := Links(), ctx0, t0;
      elm := elm0;
      PlacePointers(m, root, ctx, t, elm);
      if elm.parent != null && elm == elm.parent.right {
        ClimbedFrom(m, root, ctx, t, elm);
        return elm.parent;
      }
      while elm.parent != null && elm == elm.parent.left
        invariant m == Links() && At(m, root, ctx, t, elm) && LoNode(ctx) == LoNode(ctx0)
        invariant elm in nodes && elm.parent == ParentOf(ctx, null) && (!ctx.Top? ==> ctx.n in nodes)
        decreases ctx
      {
        ClimbedFrom(m, root, ctx, t, elm);
        Up(m, root, ctx, t, elm);
        ctx, t, elm := ctx.up, Filled(ctx, t), elm.parent;
        PlacePointers(m, root, ctx, t, elm);
      }
      ClimbedFrom(m, root, ctx, t, elm);
      elm := elm.parent;
    }

    /** RB_FOREACH: every node once, in the order of the keys. */
    method Listing() returns (s: seq<Node>)
      requires Valid()
      ensures Sorted(s) && Elements(s) == nodes
    {
      s := [];
      var x := MinMax(-1);
      ghost var rest := nodes;
      while x != null
        invariant Sorted(s) && Elements(s) == nodes - rest
        invariant x == null ==> rest == {}
        invariant x != null ==> x in rest && rest <= nodes
        invariant x != null ==> forall n :: n in nodes ==> (n in rest <==> x.block <= n.block)
        decreases rest
      {
        var y := Next(x);
        KeysUnique(tree, -1, BLOCK_LIMIT);
        Appended(s, x);
        s := s + [x];
        rest := rest - {x};
        x := y;
      }
    }
  }

  lemma Appended(s: seq<Node>, x: Node)
    requires Sorted(s) && forall n :: n in Elements(s) ==> n.block < x.block
    ensures Sorted(s + [x]) && Elements(s + [x]) == Elements(s) + {x}
  {
    assert s + [x] == s + [x] + [];
    SortedJoin(s, x, []);
  }
}
