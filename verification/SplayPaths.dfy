/** What splaying is for: the search path is folded in half.

    TopDown is the splay of ext4fsd/include/drv_common/drv_tree.h on trees as values. Every node on the
    search path ends at about half its old depth.
  */
module SplayPaths {
  import opened SplayShape

  // ----- The splay on trees -----

  /** The middle part after the rotation of a turn: one is made when the search goes the same way twice. */
  ghost function Turned(t: Tree, k: int): Tree
    requires t.Branch?
  {
    if k < t.n.key && t.left.Branch? && k < t.left.n.key then RotatedRight(t)
    else if k > t.n.key && t.right.Branch? && k > t.right.n.key then RotatedLeft(t)
    else t
  }

  /** The whole splay, from a middle part and two spines. */
  ghost function TopDown(ls: Spine, t: Tree, rs: Spine, k: int): Tree
    requires t.Branch?
    decreases Size(t)
  {
    TurnedSmaller(t, k);
    var u := Turned(t, k);
    if Ends(t, k) then Assembled(ls, t, rs)
    else if k < t.n.key then
      if u.left.Leaf? then Assembled(ls, u, rs) else TopDown(ls, u.left, Link(u.n, u.right, rs), k)
    else
      if u.right.Leaf? then Assembled(ls, u, rs) else TopDown(Link(u.n, u.left, ls), u.right, rs, k)
  }

  lemma TurnedSmaller(t: Tree, k: int)
    requires t.Branch?
    ensures var u := Turned(t, k); u.Branch? && Size(u.left) < Size(t) && Size(u.right) < Size(t)
  {}

  lemma TopDownEnds(ls: Spine, t: Tree, rs: Spine, k: int)
    requires t.Branch?
    ensures Ends(t, k) ==> TopDown(ls, t, rs, k) == Assembled(ls, t, rs)
  {}

  // ----- Depths -----

  /** The nodes that a search for k comes to. */
  ghost function Path(t: Tree, k: int): seq<Node> {
    if t.Leaf? then []
    else [t.n] + if k < t.n.key then Path(t.left, k) else if k > t.n.key then Path(t.right, k) else []
  }

  /** x is in t, at most d links below its root. */
  ghost predicate Within(t: Tree, x: Node, d: int)
    decreases t
  {
    t.Branch? && d >= 0 && (t.n == x || Within(t.left, x, d - 1) || Within(t.right, x, d - 1))
  }

  lemma {:induction false} WithinMore(t: Tree, x: Node, d: int, e: int)
    requires Within(t, x, d) && d <= e
    ensures Within(t, x, e)
    decreases t
  {
    if t.n != x {
      if Within(t.left, x, d - 1) {
        WithinMore(t.left, x, d - 1, e - 1);
      } else {
        WithinMore(t.right, x, d - 1, e - 1);
      }
    }
  }

  ghost function Count(s: Spine): nat { if s.End? then 0 else 1 + Count(s.rest) }

  /** x is on a spine or in a subtree it keeps, at most d links below the root that the spines will hang
      from. */
  ghost predicate OnSpine(s: Spine, x: Node, d: int) {
    s.Link? && ((x == s.n && Count(s) <= d) || Within(s.sub, x, d - Count(s) - 1) || OnSpine(s.rest, x, d))
  }

  lemma {:induction false} TailWithin(s: Spine, t: Tree, x: Node, d: int)
    requires Within(t, x, d)
    ensures Within(LeftTree(s, t), x, d + Count(s)) && Within(RightTree(s, t), x, d + Count(s))
    decreases s
  {
    if s.Link? {
      TailWithin(s.rest, Branch(s.sub, s.n, t), x, d + 1);
      TailWithin(s.rest, Branch(t, s.n, s.sub), x, d + 1);
    }
  }

  lemma {:induction false} SpineWithin(s: Spine, t: Tree, x: Node, d: int)
    requires OnSpine(s, x, d)
    ensures Within(LeftTree(s, t), x, d - 1) && Within(RightTree(s, t), x, d - 1)
    decreases s
  {
    var a, b := Branch(s.sub, s.n, t), Branch(t, s.n, s.sub);
    if x == s.n && Count(s) <= d {
      assert Within(a, x, 0) && Within(b, x, 0);
      TailWithin(s.rest, a, x, 0);
      TailWithin(s.rest, b, x, 0);
      WithinMore(LeftTree(s, t), x, Count(s.rest), d - 1);
      WithinMore(RightTree(s, t), x, Count(s.rest), d - 1);
    } else if Within(s.sub, x, d - Count(s) - 1) {
      var e := d - Count(s);
      assert Within(a, x, e) && Within(b, x, e);
      TailWithin(s.rest, a, x, e);
      TailWithin(s.rest, b, x, e);
    } else {
      SpineWithin(s.rest, a, x, d);
      SpineWithin(s.rest, b, x, d);
    }
  }

  lemma AssembledWithin(ls: Spine, t: Tree, rs: Spine, x: Node, d: int)
    requires t.Branch? && (OnSpine(ls, x, d) || OnSpine(rs, x, d))
    ensures Within(Assembled(ls, t, rs), x, d)
  {
    if OnSpine(ls, x, d) {
      SpineWithin(ls, t.left, x, d);
    } else {
      SpineWithin(rs, t.right, x, d);
    }
    SpinePositive(ls, x, d);
    SpinePositive(rs, x, d);
  }

  lemma {:induction false} SpinePositive(s: Spine, x: Node, d: int)
    ensures OnSpine(s, x, d) ==> d > 0
  {
    if s.Link? {
      SpinePositive(s.rest, x, d);
    }
  }

  /** What is on a spine stays at its depth until the end. */
  lemma {:induction false} SpineStays(ls: Spine, t: Tree, rs: Spine, k: int, x: Node, d: int)
    requires t.Branch? && (OnSpine(ls, x, d) || OnSpine(rs, x, d))
    ensures Within(TopDown(ls, t, rs, k), x, d)
    decreases Size(t)
  {
    hide Assembled, Within;
    TurnedSmaller(t, k);
    var u := Turned(t, k);
    if Ends(t, k) {
      AssembledWithin(ls, t, rs, x, d);
    } else if k < t.n.key {
      if u.left.Leaf? {
        AssembledWithin(ls, u, rs, x, d);
      } else {
        SpineStays(ls, u.left, Link(u.n, u.right, rs), k, x, d);
      }
    } else {
      if u.right.Leaf? {
        AssembledWithin(ls, u, rs, x, d);
      } else {
        SpineStays(Link(u.n, u.left, ls), u.right, rs, k, x, d);
      }
    }
  }

  // ----- Halving -----

  ghost function Larger(a: int, b: int): int { if a > b then a else b }

  /** Twice the depth that the spines have reached; the spine that the search does not go on with may be
      half a link longer. */
  ghost function Reached(ls: Spine, t: Tree, rs: Spine, k: int): int
    requires t.Branch?
  {
    if k < t.n.key then Larger(2 * Count(rs), 2 * Count(ls) - 1) else Larger(2 * Count(ls), 2 * Count(rs) - 1)
  }

  lemma {:induction false} PathHalved(ls: Spine, t: Tree, rs: Spine, k: int, i: nat)
    requires t.Branch? && i < |Path(t, k)|
    ensures Within(TopDown(ls, t, rs, k), Path(t, k)[i], (i + Reached(ls, t, rs, k)) / 2 + 2)
    decreases Size(t)
  {
    hide Within;
    TurnedSmaller(t, k);
    var d := (i + Reached(ls, t, rs, k)) / 2 + 2;
    if Ends(t, k) {
      RootWithin(Assembled(ls, t, rs), d);
    } else if k < t.n.key {
      HalvedBelow(ls, t, rs, k, i, d);
    } else {
      HalvedAbove(ls, t, rs, k, i, d);
    }
  }

  lemma RootWithin(t: Tree, d: int)
    requires t.Branch? && d >= 0
    ensures Within(t, t.n, d)
  {}

  lemma SizeOf(t: Tree)
    requires t.Branch?
    ensures Size(t.left) < Size(t) && Size(t.right) < Size(t)
  {}

  lemma NoPath(t: Tree, k: int)
    requires t.Leaf?
    ensures Path(t, k) == []
  {}

  lemma OnlyRoot(t: Tree, k: int)
    requires t.Branch? && k == t.n.key
    ensures Path(t, k) == [t.n]
  {}

  lemma OnLinkFirst(s: Spine, d: int)
    requires s.Link? && Count(s) <= d
    ensures OnSpine(s, s.n, d)
  {}

  /** The two nodes of a rotation, with the lower one on the spine. */
  lemma OnLink(s: Spine, x: Node, y: Node, d: int)
    requires s.Link? && s.sub.Branch? && x == s.sub.n && y == s.n && Count(s) + 1 <= d
    ensures OnSpine(s, x, d) && OnSpine(s, y, d)
  {
    RootWithin(s.sub, d - Count(s) - 1);
  }

  lemma BelowTwice(ls: Spine, t: Tree, rs: Spine, k: int)
    requires t.Branch? && t.left.Branch? && k < t.n.key && k < t.left.n.key
    ensures t.left.left.Branch? ==>
              TopDown(ls, t.left.left, Link(t.left.n, Branch(t.left.right, t.n, t.right), rs), k) ==
                TopDown(ls, t, rs, k)
    ensures t.left.left.Leaf? ==> TopDown(ls, t, rs, k) == Assembled(ls, RotatedRight(t), rs)
    ensures Path(t, k) == [t.n, t.left.n] + Path(t.left.left, k)
  {
    hide Assembled, Size, Path, Nodes, InOrder, Ordered;
    BelowPath(t, k);
    assert !Ends(t, k) && Turned(t, k) == RotatedRight(t);
  }

  lemma BelowPath(t: Tree, k: int)
    requires t.Branch? && t.left.Branch? && k < t.n.key && k < t.left.n.key
    ensures Path(t, k) == [t.n, t.left.n] + Path(t.left.left, k)
  {
    assert Path(t, k) == [t.n] + Path(t.left, k) && Path(t.left, k) == [t.left.n] + Path(t.left.left, k);
  }

  lemma BelowOnce(ls: Spine, t: Tree, rs: Spine, k: int)
    requires t.Branch? && t.left.Branch? && k < t.n.key && k >= t.left.n.key
    ensures TopDown(ls, t, rs, k) == TopDown(ls, t.left, Link(t.n, t.right, rs), k)
    ensures Path(t, k) == [t.n] + Path(t.left, k)
  {}

  lemma {:induction false} HalvedBelow(ls: Spine, t: Tree, rs: Spine, k: int, i: nat, d: int)
    requires t.Branch? && i < |Path(t, k)| && !Ends(t, k) && k < t.n.key
    requires d == (i + Reached(ls, t, rs, k)) / 2 + 2
    ensures Within(TopDown(ls, t, rs, k), Path(t, k)[i], d)
    decreases Size(t), 0
  {
    hide Within, TopDown, Path, Assembled, OnSpine, Size;
    var u := t.left;
    SizeOf(t);
    if k < u.n.key {
      SizeOf(u);
      BelowTwice(ls, t, rs, k);
      var two := Link(t.left.n, Branch(t.left.right, t.n, t.right), rs);
      if u.left.Leaf? {
        NoPath(u.left, k);
        if i == 0 {
          EndsBelow(ls, RotatedRight(t), rs, d);
        } else {
          EndsAt(ls, RotatedRight(t), rs, d);
        }
      } else if i < 2 {
        OnLink(two, t.n, u.n, d);
        SpineStays(ls, u.left, two, k, Path(t, k)[i], d);
      } else {
        PathHalved(ls, u.left, two, k, i - 2);
        WithinMore(TopDown(ls, t, rs, k), Path(t, k)[i],
          (i - 2 + Reached(ls, u.left, two, k)) / 2 + 2, d);
      }
    } else {
      BelowOnce(ls, t, rs, k);
      var one := Link(t.n, t.right, rs);
      if i == 0 {
        OnLinkFirst(one, d);
        SpineStays(ls, u, one, k, t.n, d);
      } else if k == u.n.key {
        OnlyRoot(u, k);
        FoundRoot(ls, u, one, k, d);
      } else {
        PathHalved(ls, u, one, k, i - 1);
        WithinMore(TopDown(ls, t, rs, k), Path(t, k)[i],
          (i - 1 + Reached(ls, u, one, k)) / 2 + 2, d);
      }
    }
  }

  lemma FoundRoot(ls: Spine, t: Tree, rs: Spine, k: int, d: int)
    requires t.Branch? && k == t.n.key && d >= 0
    ensures Within(TopDown(ls, t, rs, k), t.n, d)
  {
    RootWithin(Assembled(ls, t, rs), d);
  }

  lemma EndsAt(ls: Spine, t: Tree, rs: Spine, d: int)
    requires t.Branch? && d >= 0
    ensures Within(Assembled(ls, t, rs), t.n, d)
  {
    RootWithin(Assembled(ls, t, rs), d);
  }

  lemma EndsBelow(ls: Spine, t: Tree, rs: Spine, d: int)
    requires t.Branch? && t.right.Branch? && Count(rs) + 1 <= d
    ensures Within(Assembled(ls, t, rs), t.right.n, d)
  {
    TailWithin(rs, t.right, t.right.n, 0);
    WithinMore(RightTree(rs, t.right), t.right.n, Count(rs), d - 1);
  }

  lemma EndsAbove(ls: Spine, t: Tree, rs: Spine, d: int)
    requires t.Branch? && t.left.Branch? && Count(ls) + 1 <= d
    ensures Within(Assembled(ls, t, rs), t.left.n, d)
  {
    TailWithin(ls, t.left, t.left.n, 0);
    WithinMore(LeftTree(ls, t.left), t.left.n, Count(ls), d - 1);
  }

  lemma AboveTwice(ls: Spine, t: Tree, rs: Spine, k: int)
    requires t.Branch? && t.right.Branch? && k > t.n.key && k > t.right.n.key
    ensures t.right.right.Branch? ==>
              TopDown(Link(t.right.n, Branch(t.left, t.n, t.right.left), ls), t.right.right, rs, k) ==
                TopDown(ls, t, rs, k)
    ensures t.right.right.Leaf? ==> TopDown(ls, t, rs, k) == Assembled(ls, RotatedLeft(t), rs)
    ensures Path(t, k) == [t.n, t.right.n] + Path(t.right.right, k)
  {
    hide Assembled, Size, Path, Nodes, InOrder, Ordered;
    AbovePath(t, k);
    assert !Ends(t, k) && Turned(t, k) == RotatedLeft(t);
  }

  lemma AbovePath(t: Tree, k: int)
    requires t.Branch? && t.right.Branch? && k > t.n.key && k > t.right.n.key
    ensures Path(t, k) == [t.n, t.right.n] + Path(t.right.right, k)
  {
    assert Path(t, k) == [t.n] + Path(t.right, k) && Path(t.right, k) == [t.right.n] + Path(t.right.right, k);
  }

  lemma AboveOnce(ls: Spine, t: Tree, rs: Spine, k: int)
    requires t.Branch? && t.right.Branch? && k > t.n.key && k <= t.right.n.key
    ensures TopDown(ls, t, rs, k) == TopDown(Link(t.n, t.left, ls), t.right, rs, k)
    ensures Path(t, k) == [t.n] + Path(t.right, k)
  {}

  lemma {:induction false} HalvedAbove(ls: Spine, t: Tree, rs: Spine, k: int, i: nat, d: int)
    requires t.Branch? && i < |Path(t, k)| && !Ends(t, k) && k > t.n.key
    requires d == (i + Reached(ls, t, rs, k)) / 2 + 2
    ensures Within(TopDown(ls, t, rs, k), Path(t, k)[i], d)
    decreases Size(t), 0
  {
    hide Within, TopDown, Path, Assembled, OnSpine, Size;
    var u := t.right;
    SizeOf(t);
    if k > u.n.key {
      SizeOf(u);
      AboveTwice(ls, t, rs, k);
      var two := Link(t.right.n, Branch(t.left, t.n, t.right.left), ls);
      if u.right.Leaf? {
        NoPath(u.right, k);
        if i == 0 {
          EndsAbove(ls, RotatedLeft(t), rs, d);
        } else {
          EndsAt(ls, RotatedLeft(t), rs, d);
        }
      } else if i < 2 {
        OnLink(two, t.n, u.n, d);
        SpineStays(two, u.right, rs, k, Path(t, k)[i], d);
      } else {
        PathHalved(two, u.right, rs, k, i - 2);
        WithinMore(TopDown(ls, t, rs, k), Path(t, k)[i],
          (i - 2 + Reached(two, u.right, rs, k)) / 2 + 2, d);
      }
    } else {
      AboveOnce(ls, t, rs, k);
      var one := Link(t.n, t.left, ls);
      if i == 0 {
        OnLinkFirst(one, d);
        SpineStays(one, u, rs, k, t.n, d);
      } else if k == u.n.key {
        OnlyRoot(u, k);
        FoundRoot(one, u, rs, k, d);
      } else {
        PathHalved(one, u, rs, k, i - 1);
        WithinMore(TopDown(ls, t, rs, k), Path(t, k)[i],
          (i - 1 + Reached(one, u, rs, k)) / 2 + 2, d);
      }
    }
  }

  /** After a splay, node number i of the search path is at most i/2 + 2 links below the root. */
  lemma SplayHalves(t: Tree, k: int)
    requires t.Branch?
    ensures forall i :: 0 <= i < |Path(t, k)| ==> Within(TopDown(End, t, End, k), Path(t, k)[i], i / 2 + 2)
  {
    hide Within, TopDown, Path;
    forall i | 0 <= i < |Path(t, k)|
      ensures Within(TopDown(End, t, End, k), Path(t, k)[i], i / 2 + 2)
    {
      PathHalved(End, t, End, k, i);
    }
  }
}
