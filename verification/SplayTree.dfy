/** The splay tree operations of ext4fsd/include/drv_common/drv_tree.h on nodes in the heap. */
module SplayTree {
  import opened SplayShape
  import opened SplayPaths

  /** The comparison that SPLAY_GENERATE is given. */
  function Compare(a: Node, b: Node): (r: int)
    ensures r < 0 <==> a.key < b.key
    ensures r > 0 <==> a.key > b.key
  {
    if a.key < b.key then -1 else if a.key > b.key then 1 else 0
  }

  class Head {
    var root: Node?
    ghost var nodes: set<Node>
    ghost var tree: Tree

    ghost predicate Valid()
      reads this, nodes
    {
      nodes == Nodes(tree) && Is(Snapshot(nodes), tree, root) && Ordered(tree, LOW, HIGH)
    }

    /** SPLAY_INIT */
    constructor ()
      ensures Valid() && nodes == {} && root == null
    {
      root, nodes, tree := null, {}, Leaf;
    }

    /** The parts of a splay under way, in the heap. */
    ghost predicate Splaying(header: Node, left: Node, right: Node, ls: Spine, t: Tree, rs: Spine, k: int,
        all: seq<Node>)
      reads this, nodes, header
    {
      && header !in nodes && nodes == SpineNodes(ls) + SpineNodes(rs) + Nodes(t) && t.Branch?
      && Parts(Snapshot(nodes + {header}), header, root, left, right, ls, t, rs, k)
      && LeftOrder(ls) + InOrder(t) + RightOrder(rs) == all
    }

    /** SPLAY_ROTATE_RIGHT */
    method RotateRight(tmp: Node, header: Node, left: Node, right: Node, ghost ls: Spine, ghost t: Tree,
        ghost rs: Spine, ghost k: int,
                     ghost all: seq<Node>)
      requires Splaying(header, left, right, ls, t, rs, k, all) && t.left.Branch? && tmp == t.left.n
      modifies this`root, nodes`left, nodes`right
      ensures Splaying(header, left, right, ls, RotatedRight(t), rs, k, all) && root == tmp
    {
      hide LeftIs, RightIs, LeftOrdered, RightOrdered, Ordered, Parts, Nodes, SpineNodes, Is, InOrder, LeftOrder,
        RightOrder;
      ghost var m, top := Snapshot(nodes + {header}), root;
      Rotatable(m, header, root, left, right, ls, t, rs, k);
      root.left := tmp.right;
      tmp.right := root;
      root := tmp;
      ghost var m' := Snapshot(nodes + {header});
      assert m' == m[top := m[top].(left := m[tmp].right)][tmp := m[tmp].(right := top)];
      RotatedRightIs(m, m', t, Lo(ls), Hi(rs), top, tmp);
      RotationOrder(t);
      PartsKept(m, m', header, top, root, left, right, ls, t, RotatedRight(t), rs, k);
    }

    /** SPLAY_ROTATE_LEFT */
    method RotateLeft(tmp: Node, header: Node, left: Node, right: Node, ghost ls: Spine, ghost t: Tree,
        ghost rs: Spine, ghost k: int,
                     ghost all: seq<Node>)
      requires Splaying(header, left, right, ls, t, rs, k, all) && t.right.Branch? && tmp == t.right.n
      modifies this`root, nodes`left, nodes`right
      ensures Splaying(header, left, right, ls, RotatedLeft(t), rs, k, all) && root == tmp
    {
      hide LeftIs, RightIs, LeftOrdered, RightOrdered, Ordered, Parts, Nodes, SpineNodes, Is, InOrder, LeftOrder,
        RightOrder;
      ghost var m, top := Snapshot(nodes + {header}), root;
      Rotatable(m, header, root, left, right, ls, t, rs, k);
      root.right := tmp.left;
      tmp.left := root;
      root := tmp;
      ghost var m' := Snapshot(nodes + {header});
      assert m' == m[top := m[top].(right := m[tmp].left)][tmp := m[tmp].(left := top)];
      RotatedLeftIs(m, m', t, Lo(ls), Hi(rs), top, tmp);
      RotationOrder(t);
      PartsKept(m, m', header, top, root, left, right, ls, t, RotatedLeft(t), rs, k);
    }

    /** SPLAY_LINKLEFT */
    method LinkLeft(header: Node, left: Node, right: Node, ghost ls: Spine, ghost t: Tree, ghost rs: Spine,
        ghost k: int, ghost all: seq<Node>)
      returns (new_: Node)
      requires Splaying(header, left, right, ls, t, rs, k, all) && k < t.n.key && t.left.Branch?
      modifies this`root, nodes`left, header`left
      ensures Splaying(header, left, new_, ls, t.left, Link(t.n, t.right, rs), k, all)
    {
      hide LeftIs, RightIs, LeftOrdered, RightOrdered, Ordered, Parts, Is, Nodes, SpineNodes, InOrder, LeftOrder,
        RightOrder;
      ghost var m, top := Snapshot(nodes + {header}), root;
      Rotatable(m, header, root, left, right, ls, t, rs, k);
      right.left := root;
      new_ := root;
      ghost var m' := Snapshot(nodes + {header});
      assert m' == m[right := m[right].(left := top)];
      LinkedLeft(m, m', header, top, left, right, ls, t, rs, k);
      Rotatable(m, header, top, left, right, ls, t, rs, k);
      root := root.left;
      LinkedOrder(ls, t, rs);
    }

    /** SPLAY_LINKRIGHT */
    method LinkRight(header: Node, left: Node, right: Node, ghost ls: Spine, ghost t: Tree, ghost rs: Spine,
        ghost k: int, ghost all: seq<Node>)
      returns (new_: Node)
      requires Splaying(header, left, right, ls, t, rs, k, all) && k > t.n.key && t.right.Branch?
      modifies this`root, nodes`right, header`right
      ensures Splaying(header, new_, right, Link(t.n, t.left, ls), t.right, rs, k, all)
    {
      hide LeftIs, RightIs, LeftOrdered, RightOrdered, Ordered, Parts, Is, Nodes, SpineNodes, InOrder, LeftOrder,
        RightOrder;
      ghost var m, top := Snapshot(nodes + {header}), root;
      Rotatable(m, header, root, left, right, ls, t, rs, k);
      left.right := root;
      new_ := root;
      ghost var m' := Snapshot(nodes + {header});
      assert m' == m[left := m[left].(right := top)];
      LinkedRight(m, m', header, top, left, right, ls, t, rs, k);
      Rotatable(m, header, top, left, right, ls, t, rs, k);
      root := root.right;
      LinkedOrder(ls, t, rs);
    }

    /** The first two links of SPLAY_ASSEMBLE. */
    method AttachTails(ghost header: Node, left: Node, right: Node)
      requires root != null && root in nodes && root != left && root != right && left in nodes + {header}
          && right in nodes + {header}
      modifies left`right, right`left
      ensures Snapshot(nodes + {header}) == Tails(old(Snapshot(nodes + {header})), root, left, right)
    {
      left.right := root.left;
      right.left := root.right;
    }

    /** SPLAY_ASSEMBLE */
    method Assemble(header: Node, left: Node, right: Node, ghost ls: Spine, ghost t: Tree, ghost rs: Spine,
        ghost k: int, ghost all: seq<Node>)
      requires Splaying(header, left, right, ls, t, rs, k, all) && Ends(t, k)
      modifies this`tree, nodes`left, nodes`right, header
      ensures Valid() && InOrder(tree) == all && root != null && tree.Branch? && root == tree.n
          && Nearest(nodes, k, root)
      ensures tree == Assembled(ls, t, rs)
    {
      hide LeftIs, RightIs, LeftOrdered, RightOrdered, Ordered, Is, Nodes, SpineNodes, InOrder, LeftOrder, RightOrder,
        Parts, Nearest, Assembled;
      ghost var m := Snapshot(nodes + {header});
      Rotatable(m, header, root, left, right, ls, t, rs, k);
      AttachTails(header, left, right);
      ghost var m2 := Snapshot(nodes + {header});
      root.left := header.right;
      root.right := header.left;
      ghost var m3 := Snapshot(nodes + {header});
      assert m3 == m2[root := Links(m2[header].right, m2[header].left)];
      AssembledIs(m, m3, header, root, left, right, ls, t, rs, k);
      AssembledFacts(m, header, root, left, right, ls, t, rs, k);
      tree := Assembled(ls, t, rs);
      IsFrame(m3, Snapshot(nodes), tree, root);
    }

    /** The turn of SPLAY's loop when the sought key is below the root's. */
    method StepLeft(elm: Node, header: Node, left0: Node, right0: Node, ghost ls0: Spine, ghost t0: Tree,
        ghost rs0: Spine, ghost all: seq<Node>)
      returns (stop: bool, right: Node, ghost t: Tree, ghost rs: Spine)
      requires Splaying(header, left0, right0, ls0, t0, rs0, elm.key, all) && elm.key < t0.n.key
      modifies this`root, nodes`left, nodes`right, header`left
      ensures Splaying(header, left0, right, ls0, t, rs, elm.key, all)
      ensures if stop then Ends(t, elm.key) else t.n in Nodes(t0) && Size(t) < Size(t0)
      ensures TopDown(ls0, t0, rs0, elm.key) == if stop then Assembled(ls0, t, rs) else TopDown(ls0, t, rs, elm.key)
    {
      hide LeftIs, RightIs, LeftOrdered, RightOrdered, Ordered, Is, SpineNodes, InOrder, LeftOrder, RightOrder, Parts;
      stop, right, t, rs := false, right0, t0, rs0;
      Rotatable(Snapshot(nodes + {header}), header, root, left0, right, ls0, t, rs, elm.key);
      var tmp := root.left;
      if tmp == null {
        stop := true;
        return;
      }
      if Compare(elm, tmp) < 0 {
        RotateRight(tmp, header, left0, right, ls0, t, rs, elm.key, all);
        t := RotatedRight(t);
        Rotatable(Snapshot(nodes + {header}), header, root, left0, right, ls0, t, rs, elm.key);
        if root.left == null {
          stop := true;
          return;
        }
      }
      right := LinkLeft(header, left0, right, ls0, t, rs, elm.key, all);
      rs := Link(t.n, t.right, rs);
      t := t.left;
    }

    /** The turn of SPLAY's loop when the sought key is above the root's. */
    method StepRight(elm: Node, header: Node, left0: Node, right0: Node, ghost ls0: Spine, ghost t0: Tree,
        ghost rs0: Spine, ghost all: seq<Node>)
      returns (stop: bool, left: Node, ghost t: Tree, ghost ls: Spine)
      requires Splaying(header, left0, right0, ls0, t0, rs0, elm.key, all) && elm.key > t0.n.key
      modifies this`root, nodes`left, nodes`right, header`right
      ensures Splaying(header, left, right0, ls, t, rs0, elm.key, all)
      ensures if stop then Ends(t, elm.key) else t.n in Nodes(t0) && Size(t) < Size(t0)
      ensures TopDown(ls0, t0, rs0, elm.key) == if stop then Assembled(ls, t, rs0) else TopDown(ls, t, rs0, elm.key)
    {
      hide LeftIs, RightIs, LeftOrdered, RightOrdered, Ordered, Is, SpineNodes, InOrder, LeftOrder, RightOrder, Parts;
      stop, left, t, ls := false, left0, t0, ls0;
      Rotatable(Snapshot(nodes + {header}), header, root, left, right0, ls, t, rs0, elm.key);
      var tmp := root.right;
      if tmp == null {
        stop := true;
        return;
      }
      if Compare(elm, tmp) > 0 {
        RotateLeft(tmp, header, left, right0, ls, t, rs0, elm.key, all);
        t := RotatedLeft(t);
        Rotatable(Snapshot(nodes + {header}), header, root, left, right0, ls, t, rs0, elm.key);
        if root.right == null {
          stop := true;
          return;
        }
      }
      left := LinkRight(header, left, right0, ls, t, rs0, elm.key, all);
      ls := Link(t.n, t.left, ls);
      t := t.right;
    }

    /** SPLAY */
    method Splay(elm: Node)
      requires Valid() && root != null
      modifies this`root, this`tree, nodes`left, nodes`right
      ensures Valid() && InOrder(tree) == old(InOrder(tree)) && root != null && tree.Branch? && root == tree.n
      ensures Nearest(nodes, elm.key, root) && tree == TopDown(End, old(tree), End, elm.key)
      ensures var path := Path(old(tree), elm.key);
        forall i :: 0 <= i < |path| ==> Within(tree, path[i], i / 2 + 2)
    {
      hide LeftIs, RightIs, LeftOrdered, RightOrdered, Ordered, Is, Nodes, InOrder, Parts, Nearest;
      var header := new Node(0);
      var left, right, stop := header, header, false;
      ghost var ls, t, rs, all := End, tree, End, InOrder(tree);
      SplayStarts(Snapshot(nodes), Snapshot(nodes + {header}), header, root, tree, elm.key);
      while Compare(elm, root) != 0 && !stop
        invariant Splaying(header, left, right, ls, t, rs, elm.key, all) && root == t.n && (stop ==> Ends(t, elm.key))
        invariant TopDown(End, old(tree), End, elm.key) ==
            if stop then Assembled(ls, t, rs) else TopDown(ls, t, rs, elm.key)
        decreases !stop, Size(t)
      {
        var comp := Compare(elm, root);
        if comp < 0 {
          stop, right, t, rs := StepLeft(elm, header, left, right, ls, t, rs, all);
        } else {
          stop, left, t, ls := StepRight(elm, header, left, right, ls, t, rs, all);
        }
        Rotatable(Snapshot(nodes + {header}), header, root, left, right, ls, t, rs, elm.key);
      }
      TopDownEnds(ls, t, rs, elm.key);
      SplayHalves(old(tree), elm.key);
      Assemble(header, left, right, ls, t, rs, elm.key, all);
    }

    /** SPLAY_MINMAX for a negative or a positive value. */
    method SplayMinMax(val: int)
      requires Valid() && root != null && val != 0
      modifies this`root, this`tree, nodes`left, nodes`right
      ensures Valid() && InOrder(tree) == old(InOrder(tree)) && root != null && tree.Branch? && root == tree.n
      ensures Nearest(nodes, if val < 0 then -1 else KEY_LIMIT, root)
      ensures var path := Path(old(tree), if val < 0 then -1 else KEY_LIMIT);
        forall i :: 0 <= i < |path| ==> Within(tree, path[i], i / 2 + 2)
    {
      hide LeftIs, RightIs, LeftOrdered, RightOrdered, Ordered, Is, Nodes, InOrder, Parts, Nearest;
      var header := new Node(0);
      var left, right, stop := header, header, false;
      ghost var k := if val < 0 then -1 else KEY_LIMIT;
      ghost var ls, t, rs, all := End, tree, End, InOrder(tree);
      SplayStarts(Snapshot(nodes), Snapshot(nodes + {header}), header, root, tree, k);
      while !stop
        invariant Splaying(header, left, right, ls, t, rs, k, all) && root == t.n && (stop ==> Ends(t, k))
        invariant TopDown(End, old(tree), End, k) == if stop then Assembled(ls, t, rs) else TopDown(ls, t, rs, k)
        decreases !stop, Size(t)
      {
        if val < 0 {
          stop, right, t, rs := MinStep(header, left, right, ls, t, rs, all);
        } else {
          stop, left, t, ls := MaxStep(header, left, right, ls, t, rs, all);
        }
        Rotatable(Snapshot(nodes + {header}), header, root, left, right, ls, t, rs, k);
      }
      SplayHalves(old(tree), k);
      Assemble(header, left, right, ls, t, rs, k, all);
    }

    method MinStep(header: Node, left0: Node, right0: Node, ghost ls0: Spine, ghost t0: Tree, ghost rs0: Spine,
        ghost all: seq<Node>)
      returns (stop: bool, right: Node, ghost t: Tree, ghost rs: Spine)
      requires Splaying(header, left0, right0, ls0, t0, rs0, -1, all)
      modifies this`root, nodes`left, nodes`right, header`left
      ensures Splaying(header, left0, right, ls0, t, rs, -1, all)
      ensures if stop then Ends(t, -1) else Size(t) < Size(t0)
      ensures TopDown(ls0, t0, rs0, -1) == if stop then Assembled(ls0, t, rs) else TopDown(ls0, t, rs, -1)
    {
      hide LeftIs, RightIs, LeftOrdered, RightOrdered, Ordered, Is, SpineNodes, InOrder, LeftOrder, RightOrder, Parts;
      stop, right, t, rs := false, right0, t0, rs0;
      Rotatable(Snapshot(nodes + {header}), header, root, left0, right, ls0, t, rs, -1);
      var tmp := root.left;
      if tmp == null {
        stop := true;
        return;
      }
      RotateRight(tmp, header, left0, right, ls0, t, rs, -1, all);
      t := RotatedRight(t);
      Rotatable(Snapshot(nodes + {header}), header, root, left0, right, ls0, t, rs, -1);
      if root.left == null {
        stop := true;
        return;
      }
      right := LinkLeft(header, left0, right, ls0, t, rs, -1, all);
      rs := Link(t.n, t.right, rs);
      t := t.left;
    }

    method MaxStep(header: Node, left0: Node, right0: Node, ghost ls0: Spine, ghost t0: Tree, ghost rs0: Spine,
        ghost all: seq<Node>)
      returns (stop: bool, left: Node, ghost t: Tree, ghost ls: Spine)
      requires Splaying(header, left0, right0, ls0, t0, rs0, KEY_LIMIT, all)
      modifies this`root, nodes`left, nodes`right, header`right
      ensures Splaying(header, left, right0, ls, t, rs0, KEY_LIMIT, all)
      ensures if stop then Ends(t, KEY_LIMIT) else Size(t) < Size(t0)
      ensures TopDown(ls0, t0, rs0, KEY_LIMIT) == if stop then Assembled(ls, t, rs0) else TopDown(ls, t, rs0, KEY_LIMIT)
    {
      hide LeftIs, RightIs, LeftOrdered, RightOrdered, Ordered, Is, SpineNodes, InOrder, LeftOrder, RightOrder, Parts;
      stop, left, t, ls := false, left0, t0, ls0;
      Rotatable(Snapshot(nodes + {header}), header, root, left, right0, ls, t, rs0, KEY_LIMIT);
      var tmp := root.right;
      if tmp == null {
        stop := true;
        return;
      }
      RotateLeft(tmp, header, left, right0, ls, t, rs0, KEY_LIMIT, all);
      t := RotatedLeft(t);
      Rotatable(Snapshot(nodes + {header}), header, root, left, right0, ls, t, rs0, KEY_LIMIT);
      if root.right == null {
        stop := true;
        return;
      }
      left := LinkRight(header, left, right0, ls, t, rs0, KEY_LIMIT, all);
      ls := Link(t.n, t.left, ls);
      t := t.right;
    }

    /** SPLAY_FIND */
    method Find(elm: Node) returns (found: Node?)
      requires Valid()
      modifies this`root, this`tree, nodes`left, nodes`right
      ensures Valid() && InOrder(tree) == old(InOrder(tree))
      ensures found != null ==> found in nodes && found.key == elm.key && root == found
      ensures found == null ==> forall n :: n in nodes ==> n.key != elm.key
    {
      if root == null {
        return null;
      }
      Splay(elm);
      if Compare(elm, root) == 0 {
        return root;
      }
      return null;
    }

    /** SPLAY_MIN and SPLAY_MAX */
    method MinMax(val: int) returns (n: Node?)
      requires Valid() && val != 0
      modifies this`root, this`tree, nodes`left, nodes`right
      ensures Valid() && InOrder(tree) == old(InOrder(tree)) && (n == null <==> nodes == {})
      ensures n != null ==> n in nodes && forall x :: x in nodes ==> if val < 0 then n.key <= x.key else x.key <= n.key
    {
      if root == null {
        return null;
      }
      SplayMinMax(val);
      n := root;
    }

    /** SPLAY_INSERT */
    method Insert(elm: Node) returns (found: Node?)
      requires Valid() && elm !in nodes
      modifies this, nodes`left, nodes`right, elm`left, elm`right
      ensures Valid()
      ensures found != null ==>
                && found in old(nodes) && found.key == elm.key
                && nodes == old(nodes) && InOrder(tree) == old(InOrder(tree))
      ensures found == null ==> nodes == old(nodes) + {elm} && root == elm && forall n :: n in old(nodes) ==>
          n.key != elm.key
    {
      if root == null {
        elm.left, elm.right := null, null;
        nodes, tree := {elm}, Branch(Leaf, elm, Leaf);
        root := elm;
        found := null;
      } else {
        Splay(elm);
        if Compare(elm, root) == 0 {
          return root;
        }
        PutOnTop(elm);
        found := null;
      }
    }

    method PutOnTop(elm: Node)
      requires Valid() && elm !in nodes && root != null && Nearest(nodes, elm.key, root) && root.key != elm.key
      modifies this, nodes`left, nodes`right, elm`left, elm`right
      ensures Valid() && nodes == old(nodes) + {elm} && root == elm && forall n :: n in old(nodes) ==> n.key != elm.key
    {
      hide Is, Ordered, Nodes, Nearest;
      ghost var m, t, top := Snapshot(nodes), tree, root;
      RootLinks(m, t, root);
      OnTopOrdered(t, elm);
      if Compare(elm, root) < 0 {
        elm.left := root.left;
        elm.right := root;
        root.left := null;
      } else {
        elm.right := root.right;
        elm.left := root;
        root.right := null;
      }
      root := elm;
      nodes := nodes + {elm};
      tree := OnTop(t, elm);
      OnTopIs(m, Snapshot(nodes), t, top, elm);
    }

    /** SPLAY_REMOVE. The source gives back its argument, which need not be the node that left the tree. */
    method Remove(elm: Node) returns (removed: Node?, ghost gone: Node?)
      requires Valid()
      modifies this, nodes`left, nodes`right
      ensures Valid() && (removed == null <==> gone == null) && (removed != null ==> removed == elm)
      ensures gone == null ==>
          nodes == old(nodes) && InOrder(tree) == old(InOrder(tree)) && forall n :: n in nodes ==> n.key != elm.key
      ensures gone != null ==> gone in old(nodes) && gone.key == elm.key && nodes == old(nodes) - {gone}
    {
      gone := null;
      if root == null {
        return null, null;
      }
      Splay(elm);
      if Compare(elm, root) == 0 {
        gone := root;
        TakeRoot(elm);
        return elm, gone;
      }
      removed := null;
    }

    method TakeRoot(elm: Node)
      requires Valid() && root != null && root.key == elm.key
      modifies this, nodes`left, nodes`right
      ensures Valid() && nodes == old(nodes) - {old(root)}
    {
      hide Is, Ordered, Nodes;
      ghost var m, t, top, all := Snapshot(nodes), tree, root, nodes;
      RootLinks(m, t, root);
      Halves(m, t, root);
      if root.left == null {
        root := root.right;
        tree, nodes := t.right, nodes - {top};
        IsFrame(m, Snapshot(nodes), tree, root);
      } else {
        var tmp := root.right;
        root := root.left;
        tree, nodes := t.left, Nodes(t.left);
        IsFrame(m, Snapshot(nodes), tree, root);
        Splay(elm);
        IsFrame(m, Snapshot(Nodes(t.right)), t.right, tmp);
        Rejoin(elm.key, tmp, t.right);
      }
    }

    /** The splayed left subtree has no right child, so the right subtree finds room there. */
    method Rejoin(ghost key: Key, tmp: Node?, ghost r: Tree)
      requires Valid() && root != null && Nearest(nodes, key, root) && tree.Branch? && tree.n == root
          && forall n :: n in nodes ==> n.key < key
      requires Nodes(r) !! nodes && Is(Snapshot(Nodes(r)), r, tmp) && Ordered(r, key, HIGH)
      modifies this`tree, this`nodes, root`right
      ensures Valid() && nodes == old(nodes) + Nodes(r)
    {
      hide Is, Ordered, Nodes;
      ghost var l, all := tree, nodes + Nodes(r);
      ghost var m := Snapshot(all);
      IsFrame(Snapshot(nodes), m, l, root);
      IsFrame(Snapshot(Nodes(r)), m, r, tmp);
      NearestExtreme(l, key);
      KeysNarrow(l, LOW, HIGH, LOW, key);
      root.right := tmp;
      tree, nodes := Branch(l.left, l.n, r), all;
      JoinedIs(m, Snapshot(nodes), l, r, LOW, key, HIGH, root, tmp);
    }

    /** SPLAY_NEXT for a node of the tree. */
    method Next(elm0: Node) returns (elm: Node?)
      requires Valid() && elm0 in nodes
      modifies this`root, this`tree, nodes`left, nodes`right
      ensures Valid() && InOrder(tree) == old(InOrder(tree)) && root == elm0
      ensures elm == null ==> forall x :: x in nodes ==> x.key <= elm0.key
      ensures elm != null ==> elm in nodes && elm.key > elm0.key && forall x :: x in nodes && x.key > elm0.key ==>
          x.key >= elm.key
    {
      hide Is, Ordered, Nodes, InOrder, Nearest;
      InTree(Snapshot(nodes), tree, root, elm0);
      Splay(elm0);
      SplayedRoot(tree, root, elm0);
      RootLinks(Snapshot(nodes), tree, root);
      RightPart(tree, elm0);
      elm := null;
      if elm0.right != null {
        elm := LeftMost(elm0.right, tree.right, elm0.key);
      }
    }

    method LeftMost(elm0: Node, ghost t0: Tree, ghost lo: int) returns (elm: Node)
      requires Is(Snapshot(nodes), t0, elm0) && Ordered(t0, lo, HIGH) && Nodes(t0) <= nodes
      requires forall x :: x in nodes && x.key > lo ==> x in Nodes(t0)
      ensures elm in nodes && elm.key > lo && forall x :: x in nodes && x.key > lo ==> x.key >= elm.key
    {
      hide Is, Ordered, Nodes;
      ghost var m, t := Snapshot(nodes), t0;
      elm := elm0;
      RootLinks(m, t, elm);
      while elm.left != null
        invariant m == Snapshot(nodes) && t.Branch? && Is(m, t, elm) && elm == t.n && elm in nodes
        invariant elm.left == (if t.left.Leaf? then null else t.left.n) && Ordered(t, lo, HIGH) && Nodes(t) <= nodes
        invariant forall x :: x in nodes && x.key > lo && x !in Nodes(t) ==> x.key > t.n.key
        decreases t
      {
        RootLinks(m, t, elm);
        LeftPart(t, lo);
        elm := elm.left;
        t := t.left;
        RootLinks(m, t, elm);
      }
      LeastIs(t, lo);
    }
  }
}
