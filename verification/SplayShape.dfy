/** Shapes of the splay trees of ext4fsd/include/drv_common/drv_tree.h.

    A top-down splay takes a tree apart into two spines that hang from a header node: on the left the
    nodes below the sought key, each with its left subtree, on the right those above it, each with its
    right subtree. The lemmas here say what one step does to the three parts.
  */
module SplayShape {

  const KEY_LIMIT := 0x1_0000_0000_0000_0000

  type Key = k: nat | k < KEY_LIMIT

  /** Bounds with room for a search key below and above all keys. */
  const LOW := -2
  const HIGH := KEY_LIMIT + 1

  class Node {
    const key: Key
    var left: Node?
    var right: Node?

    constructor (key: Key)
      ensures this.key == key && left == null && right == null
    {
      this.key := key;
      left, right := null, null;
    }
  }

  datatype Tree = Leaf | Branch(left: Tree, n: Node, right: Tree)

  /** A spine from its last node to its first: each node with the subtree it keeps. */
  datatype Spine = End | Link(n: Node, sub: Tree, rest: Spine)

  ghost function Nodes(t: Tree): set<Node> {
    match t
    case Leaf => {}
    case Branch(l, n, r) => Nodes(l) + {n} + Nodes(r)
  }

  ghost function SpineNodes(s: Spine): set<Node> {
    match s
    case End => {}
    case Link(n, t, rest) => {n} + Nodes(t) + SpineNodes(rest)
  }

  ghost function InOrder(t: Tree): seq<Node> {
    match t
    case Leaf => []
    case Branch(l, n, r) => InOrder(l) + [n] + InOrder(r)
  }

  ghost function LeftOrder(s: Spine): seq<Node> {
    match s
    case End => []
    case Link(n, t, rest) => LeftOrder(rest) + InOrder(t) + [n]
  }

  ghost function RightOrder(s: Spine): seq<Node> {
    match s
    case End => []
    case Link(n, t, rest) => [n] + InOrder(t) + RightOrder(rest)
  }

  /** The tree of a left spine whose last node gets the right subtree t. */
  ghost function LeftTree(s: Spine, t: Tree): Tree
    decreases s
  {
    match s
    case End => t
    case Link(n, sub, rest) => LeftTree(rest, Branch(sub, n, t))
  }

  ghost function RightTree(s: Spine, t: Tree): Tree
    decreases s
  {
    match s
    case End => t
    case Link(n, sub, rest) => RightTree(rest, Branch(t, n, sub))
  }

  lemma {:induction false} LeftTreeOrder(s: Spine, t: Tree)
    ensures InOrder(LeftTree(s, t)) == LeftOrder(s) + InOrder(t)
    decreases s
  {
    match s
    case End =>
    case Link(n, sub, rest) =>
      LeftTreeOrder(rest, Branch(sub, n, t));
      Four(LeftOrder(rest), InOrder(sub), n, InOrder(t));
  }

  lemma {:induction false} RightTreeOrder(s: Spine, t: Tree)
    ensures InOrder(RightTree(s, t)) == InOrder(t) + RightOrder(s)
    decreases s
  {
    match s
    case End =>
    case Link(n, sub, rest) =>
      RightTreeOrder(rest, Branch(t, n, sub));
      Four2(InOrder(t), n, InOrder(sub), RightOrder(rest));
  }

  lemma Four<T>(a: seq<T>, b: seq<T>, x: T, c: seq<T>)
    ensures a + (b + [x] + c) == (a + b + [x]) + c
  {}

  lemma Four2<T>(a: seq<T>, x: T, b: seq<T>, c: seq<T>)
    ensures (a + [x] + b) + c == a + ([x] + b + c)
  {}

  lemma {:induction false} SpineTreeNodes(s: Spine, t: Tree)
    ensures Nodes(LeftTree(s, t)) == SpineNodes(s) + Nodes(t)
    ensures Nodes(RightTree(s, t)) == SpineNodes(s) + Nodes(t)
    decreases s
  {
    match s
    case End =>
    case Link(n, sub, rest) =>
      SpineTreeNodes(rest, Branch(sub, n, t));
      SpineTreeNodes(rest, Branch(t, n, sub));
  }

  // ----- Order -----

  ghost predicate Ordered(t: Tree, lo: int, hi: int) {
    match t
    case Leaf => true
    case Branch(l, n, r) => lo < n.key < hi && Ordered(l, lo, n.key) && Ordered(r, n.key, hi)
  }

  ghost function Lo(s: Spine): int { if s.End? then LOW else s.n.key }

  ghost function Hi(s: Spine): int { if s.End? then HIGH else s.n.key }

  ghost predicate LeftOrdered(s: Spine) {
    s.End? || (Lo(s.rest) < s.n.key && Ordered(s.sub, Lo(s.rest), s.n.key) && LeftOrdered(s.rest))
  }

  ghost predicate RightOrdered(s: Spine) {
    s.End? || (s.n.key < Hi(s.rest) && Ordered(s.sub, s.n.key, Hi(s.rest)) && RightOrdered(s.rest))
  }

  lemma {:induction false} OrderedKeys(t: Tree, lo: int, hi: int)
    requires Ordered(t, lo, hi)
    ensures forall n :: n in Nodes(t) ==> lo < n.key < hi
  {
    match t
    case Leaf =>
    case Branch(l, n, r) =>
      OrderedKeys(l, lo, n.key);
      OrderedKeys(r, n.key, hi);
  }

  lemma {:induction false} LeftKeys(s: Spine)
    requires LeftOrdered(s)
    ensures forall n :: n in SpineNodes(s) ==> n.key <= Lo(s)
  {
    if !s.End? {
      LeftKeys(s.rest);
      OrderedKeys(s.sub, Lo(s.rest), s.n.key);
    }
  }

  lemma {:induction false} RightKeys(s: Spine)
    requires RightOrdered(s)
    ensures forall n :: n in SpineNodes(s) ==> n.key >= Hi(s)
  {
    if !s.End? {
      RightKeys(s.rest);
      OrderedKeys(s.sub, s.n.key, Hi(s.rest));
    }
  }

  lemma {:induction false} LeftTreeOrdered(s: Spine, t: Tree, hi: int)
    requires LeftOrdered(s) && Ordered(t, Lo(s), hi) && Lo(s) < hi
    ensures Ordered(LeftTree(s, t), LOW, hi)
    decreases s
  {
    if !s.End? {
      LeftTreeOrdered(s.rest, Branch(s.sub, s.n, t), hi);
    }
  }

  lemma {:induction false} RightTreeOrdered(s: Spine, t: Tree, lo: int)
    requires RightOrdered(s) && Ordered(t, lo, Hi(s)) && lo < Hi(s)
    ensures Ordered(RightTree(s, t), lo, HIGH)
    decreases s
  {
    if !s.End? {
      RightTreeOrdered(s.rest, Branch(t, s.n, s.sub), lo);
    }
  }

  // ----- The heap -----

  datatype Links = Links(left: Node?, right: Node?)

  type Heap = map<Node, Links>

  ghost function Snapshot(nodes: set<Node>): (m: Heap)
    reads nodes
    ensures m.Keys == nodes
  {
    map n | n in nodes :: Links(n.left, n.right)
  }

  ghost predicate Is(m: Heap, t: Tree, p: Node?)
    decreases t
  {
    match t
    case Leaf => p == null
    case Branch(l, n, r) => p == n && n in m && Is(m, l, m[n].left) && Is(m, r, m[n].right)
  }

  /** A left spine that hangs from the header's right link and ends at node last; the right link of last
      is not part of it. */
  ghost predicate LeftIs(m: Heap, header: Node, last: Node, s: Spine)
    decreases s
  {
    match s
    case End => last == header
    case Link(n, sub, rest) =>
      var prev := if rest.End? then header else rest.n;
      && last == n && n in m && Is(m, sub, m[n].left)
      && prev in m && m[prev].right == n && LeftIs(m, header, prev, rest)
  }

  /** A right spine that hangs from the header's left link. */
  ghost predicate RightIs(m: Heap, header: Node, last: Node, s: Spine)
    decreases s
  {
    match s
    case End => last == header
    case Link(n, sub, rest) =>
      var prev := if rest.End? then header else rest.n;
      && last == n && n in m && Is(m, sub, m[n].right)
      && prev in m && m[prev].left == n && RightIs(m, header, prev, rest)
  }

  ghost predicate SameOn(m: Heap, m': Heap, nodes: set<Node>) {
    forall n :: n in nodes && n in m ==> n in m' && m'[n] == m[n]
  }

  lemma {:induction false} IsFrame(m: Heap, m': Heap, t: Tree, p: Node?)
    requires Is(m, t, p) && SameOn(m, m', Nodes(t))
    ensures Is(m', t, p)
    decreases t
  {
    match t
    case Leaf =>
    case Branch(l, n, r) =>
      IsFrame(m, m', l, m[n].left);
      IsFrame(m, m', r, m[n].right);
  }

  lemma {:induction false} LeftFrame(m: Heap, m': Heap, header: Node, last: Node, s: Spine)
    requires LeftIs(m, header, last, s) && LeftOrdered(s) && header !in SpineNodes(s)
    requires forall n :: n in SpineNodes(s) && n != last && n in m ==> n in m' && m'[n] == m[n]
    requires !s.End? ==> last in m && last in m' && m'[last].left == m[last].left
    requires !s.End? ==> header in m && header in m' && m'[header].right == m[header].right
    ensures LeftIs(m', header, last, s)
    decreases s
  {
    if !s.End? {
      OrderedKeys(s.sub, Lo(s.rest), s.n.key);
      LeftKeys(s.rest);
      IsFrame(m, m', s.sub, m[s.n].left);
      LeftFrame(m, m', header, if s.rest.End? then header else s.rest.n, s.rest);
    }
  }

  lemma {:induction false} RightFrame(m: Heap, m': Heap, header: Node, last: Node, s: Spine)
    requires RightIs(m, header, last, s) && RightOrdered(s) && header !in SpineNodes(s)
    requires forall n :: n in SpineNodes(s) && n != last && n in m ==> n in m' && m'[n] == m[n]
    requires !s.End? ==> last in m && last in m' && m'[last].right == m[last].right
    requires !s.End? ==> header in m && header in m' && m'[header].left == m[header].left
    ensures RightIs(m', header, last, s)
    decreases s
  {
    if !s.End? {
      OrderedKeys(s.sub, s.n.key, Hi(s.rest));
      RightKeys(s.rest);
      IsFrame(m, m', s.sub, m[s.n].right);
      RightFrame(m, m', header, if s.rest.End? then header else s.rest.n, s.rest);
    }
  }

  // ----- A splay under way -----

  /** The three parts of a tree that is being splayed for key k, and the header. */
  ghost predicate Parts(m: Heap, header: Node, root: Node?, left: Node, right: Node, ls: Spine, t: Tree, rs: Spine,
      k: int) {
    && LeftIs(m, header, left, ls) && RightIs(m, header, right, rs) && Is(m, t, root)
    && LeftOrdered(ls) && RightOrdered(rs) && Ordered(t, Lo(ls), Hi(rs)) && Lo(ls) < k < Hi(rs)
    && header in m && m.Keys == {header} + SpineNodes(ls) + SpineNodes(rs) + Nodes(t)
    && header !in SpineNodes(ls) && header !in SpineNodes(rs) && header !in Nodes(t)
  }

  /** The parts share no node. */
  lemma PartsApart(m: Heap, header: Node, root: Node?, left: Node, right: Node, ls: Spine, t: Tree, rs: Spine, k: int)
    requires Parts(m, header, root, left, right, ls, t, rs, k)
    ensures SpineNodes(ls) !! Nodes(t) && SpineNodes(rs) !! Nodes(t) && SpineNodes(ls) !! SpineNodes(rs)
    ensures left in m && right in m && (left == header <==> ls.End?) && (right == header <==> rs.End?)
    ensures !ls.End? ==> left == ls.n && left in SpineNodes(ls) && left !in Nodes(t)
    ensures !rs.End? ==> right == rs.n && right in SpineNodes(rs) && right !in Nodes(t)
    ensures t.Leaf? <==> root == null
    ensures t.Branch? ==> root == t.n && root in m && Is(m, t.left, m[root].left) && Is(m, t.right, m[root].right)
  {
    hide Is, LeftIs, RightIs;
    OrderedKeys(t, Lo(ls), Hi(rs));
    LeftKeys(ls);
    RightKeys(rs);
    EndsOf(m, header, root, left, right, ls, t, rs);
  }

  lemma EndsOf(m: Heap, header: Node, root: Node?, left: Node, right: Node, ls: Spine, t: Tree, rs: Spine)
    requires LeftIs(m, header, left, ls) && RightIs(m, header, right, rs) && Is(m, t, root)
    ensures left == (if ls.End? then header else ls.n) && right == (if rs.End? then header else rs.n)
    ensures t.Leaf? <==> root == null
    ensures t.Branch? ==> root == t.n && root in m && Is(m, t.left, m[root].left) && Is(m, t.right, m[root].right)
  {}

  lemma LinkedSets(header: Node, ls: set<Node>, rs: set<Node>, l: set<Node>, n: Node, r: set<Node>)
    ensures {header} + ls + rs + (l + {n} + r) == {header} + ls + ({n} + r + rs) + l
    ensures {header} + ls + rs + (l + {n} + r) == {header} + ({n} + l + ls) + rs + r
  {}

  /** SPLAY_LINKLEFT: the root joins the right spine and its left subtree is what is left. */
  lemma LinkedLeft(m: Heap, m': Heap, header: Node, root: Node, left: Node, right: Node, ls: Spine, t: Tree,
      rs: Spine, k: int)
    requires Parts(m, header, root, left, right, ls, t, rs, k) && t.Branch? && k < t.n.key
    requires right in m && m' == m[right := m[right].(left := root)]
    ensures Parts(m', header, m[root].left, left, root, ls, t.left, Link(t.n, t.right, rs), k)
    ensures root in m && root != right && m'[root] == m[root]
  {
    hide Is, LeftIs, RightIs;
    PartsApart(m, header, root, left, right, ls, t, rs, k);
    LinkedLeftIs(m, m', header, root, left, right, ls, t, rs, k);
    LinkedSets(header, SpineNodes(ls), SpineNodes(rs), Nodes(t.left), t.n, Nodes(t.right));
    assert m'.Keys == m.Keys;
  }

  lemma LinkedLeftIs(m: Heap, m': Heap, header: Node, root: Node, left: Node, right: Node, ls: Spine, t: Tree,
      rs: Spine, k: int)
    requires Parts(m, header, root, left, right, ls, t, rs, k) && t.Branch?
    requires right in m && m' == m[right := m[right].(left := root)]
    ensures root in m && LeftIs(m', header, left, ls)
    ensures RightIs(m', header, root, Link(t.n, t.right, rs)) && Is(m', t.left, m[root].left)
  {
    hide Ordered;
    PartsApart(m, header, root, left, right, ls, t, rs, k);
    IsFrame(m, m', t.left, m[root].left);
    IsFrame(m, m', t.right, m[root].right);
    LeftFrame(m, m', header, left, ls);
    RightFrame(m, m', header, right, rs);
  }

  /** SPLAY_LINKRIGHT */
  lemma LinkedRight(m: Heap, m': Heap, header: Node, root: Node, left: Node, right: Node, ls: Spine, t: Tree,
      rs: Spine, k: int)
    requires Parts(m, header, root, left, right, ls, t, rs, k) && t.Branch? && k > t.n.key
    requires left in m && m' == m[left := m[left].(right := root)]
    ensures Parts(m', header, m[root].right, root, right, Link(t.n, t.left, ls), t.right, rs, k)
    ensures root in m && root != left && m'[root] == m[root]
  {
    hide Is, LeftIs, RightIs;
    PartsApart(m, header, root, left, right, ls, t, rs, k);
    LinkedRightIs(m, m', header, root, left, right, ls, t, rs, k);
    LinkedSets(header, SpineNodes(ls), SpineNodes(rs), Nodes(t.left), t.n, Nodes(t.right));
    assert m'.Keys == m.Keys;
  }

  lemma LinkedRightIs(m: Heap, m': Heap, header: Node, root: Node, left: Node, right: Node, ls: Spine, t: Tree,
      rs: Spine, k: int)
    requires Parts(m, header, root, left, right, ls, t, rs, k) && t.Branch?
    requires left in m && m' == m[left := m[left].(right := root)]
    ensures root in m && LeftIs(m', header, root, Link(t.n, t.left, ls))
    ensures RightIs(m', header, right, rs) && Is(m', t.right, m[root].right)
  {
    hide Ordered;
    PartsApart(m, header, root, left, right, ls, t, rs, k);
    IsFrame(m, m', t.left, m[root].left);
    IsFrame(m, m', t.right, m[root].right);
    LeftFrame(m, m', header, left, ls);
    RightFrame(m, m', header, right, rs);
  }

  ghost function RotatedRight(t: Tree): Tree
    requires t.Branch? && t.left.Branch?
  {
    Branch(t.left.left, t.left.n, Branch(t.left.right, t.n, t.right))
  }

  ghost function RotatedLeft(t: Tree): Tree
    requires t.Branch? && t.right.Branch?
  {
    Branch(Branch(t.left, t.n, t.right.left), t.right.n, t.right.right)
  }

  lemma RotationOrder(t: Tree)
    requires t.Branch?
    ensures t.left.Branch? ==> InOrder(RotatedRight(t)) == InOrder(t) && Nodes(RotatedRight(t)) == Nodes(t)
    ensures t.right.Branch? ==> InOrder(RotatedLeft(t)) == InOrder(t) && Nodes(RotatedLeft(t)) == Nodes(t)
  {
    if t.left.Branch? {
      Five(InOrder(t.left.left), t.left.n, InOrder(t.left.right), t.n, InOrder(t.right));
    }
    if t.right.Branch? {
      Five(InOrder(t.left), t.n, InOrder(t.right.left), t.right.n, InOrder(t.right.right));
    }
  }

  lemma Five<T>(a: seq<T>, x: T, b: seq<T>, y: T, c: seq<T>)
    ensures (a + [x] + b) + [y] + c == a + [x] + (b + [y] + c)
  {}

  /** SPLAY_ROTATE_RIGHT at the root. */
  lemma RotatedRightIs(m: Heap, m': Heap, t: Tree, lo: int, hi: int, root: Node, tmp: Node)
    requires Is(m, t, root) && Ordered(t, lo, hi) && t.Branch? && t.left.Branch? && tmp == t.left.n
    requires root in m && tmp in m && m' == m[root := m[root].(left := m[tmp].right)][tmp := m[tmp].(right := root)]
    ensures Is(m', RotatedRight(t), tmp) && Ordered(RotatedRight(t), lo, hi) && root != tmp && m'.Keys == m.Keys
  {
    assert Is(m, t.left, m[root].left);
    OrderedKeys(t.left, lo, t.n.key);
    OrderedKeys(t.right, t.n.key, hi);
    OrderedKeys(t.left.left, lo, tmp.key);
    OrderedKeys(t.left.right, tmp.key, t.n.key);
    IsFrame(m, m', t.left.left, m[tmp].left);
    IsFrame(m, m', t.left.right, m[tmp].right);
    IsFrame(m, m', t.right, m[root].right);
  }

  /** SPLAY_ROTATE_LEFT at the root. */
  lemma RotatedLeftIs(m: Heap, m': Heap, t: Tree, lo: int, hi: int, root: Node, tmp: Node)
    requires Is(m, t, root) && Ordered(t, lo, hi) && t.Branch? && t.right.Branch? && tmp == t.right.n
    requires root in m && tmp in m && m' == m[root := m[root].(right := m[tmp].left)][tmp := m[tmp].(left := root)]
    ensures Is(m', RotatedLeft(t), tmp) && Ordered(RotatedLeft(t), lo, hi) && root != tmp && m'.Keys == m.Keys
  {
    assert Is(m, t.right, m[root].right);
    OrderedKeys(t.left, lo, t.n.key);
    OrderedKeys(t.right, t.n.key, hi);
    OrderedKeys(t.right.left, t.n.key, tmp.key);
    OrderedKeys(t.right.right, tmp.key, hi);
    IsFrame(m, m', t.right.left, m[tmp].left);
    IsFrame(m, m', t.right.right, m[tmp].right);
    IsFrame(m, m', t.left, m[root].left);
  }

  /** Changes at nodes of the middle part only leave the spines alone. */
  lemma PartsKept(m: Heap, m': Heap, header: Node, root: Node?, root': Node?, left: Node, right: Node, ls: Spine,
      t: Tree, t': Tree, rs: Spine, k: int)
    requires Parts(m, header, root, left, right, ls, t, rs, k) && m'.Keys == m.Keys && Nodes(t') == Nodes(t)
    requires forall n :: n in m && n !in Nodes(t) ==> m'[n] == m[n]
    requires Is(m', t', root') && Ordered(t', Lo(ls), Hi(rs))
    ensures Parts(m', header, root', left, right, ls, t', rs, k)
  {
    PartsApart(m, header, root, left, right, ls, t, rs, k);
    LeftFrame(m, m', header, left, ls);
    RightFrame(m, m', header, right, rs);
  }

  // ----- The end of a splay -----

  lemma {:induction false} LeftPlugIs(m: Heap, header: Node, last: Node, s: Spine, t: Tree)
    requires LeftIs(m, header, last, s) && last in m && Is(m, t, m[last].right) && header in m
    ensures Is(m, LeftTree(s, t), m[header].right)
    decreases s
  {
    if !s.End? {
      LeftPlugIs(m, header, if s.rest.End? then header else s.rest.n, s.rest, Branch(s.sub, s.n, t));
    }
  }

  lemma {:induction false} RightPlugIs(m: Heap, header: Node, last: Node, s: Spine, t: Tree)
    requires RightIs(m, header, last, s) && last in m && Is(m, t, m[last].left) && header in m
    ensures Is(m, RightTree(s, t), m[header].left)
    decreases s
  {
    if !s.End? {
      RightPlugIs(m, header, if s.rest.End? then header else s.rest.n, s.rest, Branch(t, s.n, s.sub));
    }
  }

  ghost function Assembled(ls: Spine, t: Tree, rs: Spine): Tree
    requires t.Branch?
  {
    Branch(LeftTree(ls, t.left), t.n, RightTree(rs, t.right))
  }

  /** The heap after the first two links of SPLAY_ASSEMBLE. */
  ghost function Tails(m: Heap, root: Node, left: Node, right: Node): Heap
    requires root in m && left in m && right in m
  {
    var m1 := m[left := m[left].(right := m[root].left)];
    m1[right := m1[right].(left := m[root].right)]
  }

  lemma TailsIs(m: Heap, header: Node, root: Node, left: Node, right: Node, ls: Spine, t: Tree, rs: Spine, k: int)
    requires Parts(m, header, root, left, right, ls, t, rs, k) && t.Branch?
    ensures root in m && left in m && right in m && header in m
    ensures var m' := Tails(m, root, left, right);
            && Is(m', LeftTree(ls, t.left), m'[header].right) && Is(m', RightTree(rs, t.right), m'[header].left)
            && m'.Keys == m.Keys && m'[root] == m[root]
  {
    hide Ordered, LeftOrdered, RightOrdered;
    PartsApart(m, header, root, left, right, ls, t, rs, k);
    var m' := Tails(m, root, left, right);
    TailsFrame(m, m', header, root, left, right, ls, t, rs, k);
    LeftPlugIs(m', header, left, ls, t.left);
    RightPlugIs(m', header, right, rs, t.right);
  }

  lemma TailsFrame(m: Heap, m': Heap, header: Node, root: Node, left: Node, right: Node, ls: Spine, t: Tree,
      rs: Spine, k: int)
    requires Parts(m, header, root, left, right, ls, t, rs, k) && t.Branch?
    requires root in m && left in m && right in m && m' == Tails(m, root, left, right)
    ensures LeftIs(m', header, left, ls) && RightIs(m', header, right, rs)
    ensures Is(m', t.left, m[root].left) && Is(m', t.right, m[root].right)
  {
    hide Ordered, LeftTree, RightTree;
    PartsApart(m, header, root, left, right, ls, t, rs, k);
    LeftFrame(m, m', header, left, ls);
    RightFrame(m, m', header, right, rs);
    IsFrame(m, m', t.left, m[root].left);
    IsFrame(m, m', t.right, m[root].right);
  }

  /** SPLAY_ASSEMBLE */
  lemma AssembledIs(m: Heap, m': Heap, header: Node, root: Node, left: Node, right: Node, ls: Spine, t: Tree,
      rs: Spine, k: int)
    requires Parts(m, header, root, left, right, ls, t, rs, k) && t.Branch? && root in m && left in m && right in m
    requires var m2 := Tails(m, root, left, right);
        header in m2 && m' == m2[root := Links(m2[header].right, m2[header].left)]
    ensures Is(m', Assembled(ls, t, rs), root) && m'.Keys == m.Keys
  {
    hide Ordered, LeftIs, RightIs, Is, Parts;
    var m2 := Tails(m, root, left, right);
    TailsIs(m, header, root, left, right, ls, t, rs, k);
    RootOutside(m, header, root, left, right, ls, t, rs, k);
    IsFrame(m2, m', LeftTree(ls, t.left), m2[header].right);
    IsFrame(m2, m', RightTree(rs, t.right), m2[header].left);
    BranchIs(m', Assembled(ls, t, rs), root);
  }

  lemma BranchIs(m: Heap, t: Tree, p: Node)
    requires t.Branch? && p == t.n && p in m && Is(m, t.left, m[p].left) && Is(m, t.right, m[p].right)
    ensures Is(m, t, p)
  {}

  lemma RootOutside(m: Heap, header: Node, root: Node, left: Node, right: Node, ls: Spine, t: Tree, rs: Spine, k: int)
    requires Parts(m, header, root, left, right, ls, t, rs, k) && t.Branch?
    ensures root !in Nodes(LeftTree(ls, t.left)) && root !in Nodes(RightTree(rs, t.right)) && root == t.n
  {
    PartsApart(m, header, root, left, right, ls, t, rs, k);
    SpineTreeNodes(ls, t.left);
    SpineTreeNodes(rs, t.right);
    OrderedKeys(t.left, Lo(ls), t.n.key);
    OrderedKeys(t.right, t.n.key, Hi(rs));
  }

  lemma AssembledOrder(ls: Spine, t: Tree, rs: Spine)
    requires t.Branch? && LeftOrdered(ls) && RightOrdered(rs) && Ordered(t, Lo(ls), Hi(rs))
    ensures var w := Assembled(ls, t, rs);
            && InOrder(w) == LeftOrder(ls) + InOrder(t) + RightOrder(rs)
            && Nodes(w) == SpineNodes(ls) + SpineNodes(rs) + Nodes(t) && Ordered(w, LOW, HIGH)
  {
    LeftTreeOrder(ls, t.left);
    RightTreeOrder(rs, t.right);
    SpineTreeNodes(ls, t.left);
    SpineTreeNodes(rs, t.right);
    LeftTreeOrdered(ls, t.left, t.n.key);
    RightTreeOrdered(rs, t.right, t.n.key);
    Outer(LeftOrder(ls), InOrder(t.left), t.n, InOrder(t.right), RightOrder(rs));
  }

  lemma Outer<T>(a: seq<T>, b: seq<T>, x: T, c: seq<T>, d: seq<T>)
    ensures (a + b) + [x] + (c + d) == a + (b + [x] + c) + d
  {}

  /** n has the sought key, or is the next node below it or above it. */
  ghost predicate Nearest(nodes: set<Node>, k: int, n: Node) {
    && n in nodes
    && (k < n.key ==> forall x :: x in nodes ==> x.key < k || x.key >= n.key)
    && (k > n.key ==> forall x :: x in nodes ==> x.key > k || x.key <= n.key)
  }

  /** The search can end at the root of the middle part. */
  ghost predicate Ends(t: Tree, k: int) {
    t.Branch? && (t.n.key == k || (k < t.n.key && t.left.Leaf?) || (k > t.n.key && t.right.Leaf?))
  }

  lemma EndsNearest(ls: Spine, t: Tree, rs: Spine, k: int)
    requires LeftOrdered(ls) && RightOrdered(rs) && Ordered(t, Lo(ls), Hi(rs)) && Lo(ls) < k < Hi(rs) && Ends(t, k)
    ensures Nearest(SpineNodes(ls) + SpineNodes(rs) + Nodes(t), k, t.n)
  {
    LeftKeys(ls);
    RightKeys(rs);
    OrderedKeys(t.left, Lo(ls), t.n.key);
    OrderedKeys(t.right, t.n.key, Hi(rs));
  }

  /** Nothing lies right of the nearest node when all keys are below the sought one, and nothing left of
      it when all are above. */
  lemma NearestExtreme(t: Tree, k: int)
    requires t.Branch? && Ordered(t, LOW, HIGH) && Nearest(Nodes(t), k, t.n)
    ensures (forall n :: n in Nodes(t) ==> n.key < k) ==> t.right.Leaf?
    ensures (forall n :: n in Nodes(t) ==> n.key > k) ==> t.left.Leaf?
  {
    if t.right.Branch? {
      assert t.right.n in Nodes(t);
    }
    if t.left.Branch? {
      assert t.left.n in Nodes(t);
    }
  }

  /** The pointers that a step of the splay reads. */
  lemma Rotatable(m: Heap, header: Node, root: Node?, left: Node, right: Node, ls: Spine, t: Tree, rs: Spine, k: int)
    requires Parts(m, header, root, left, right, ls, t, rs, k) && t.Branch?
    ensures root == t.n && root in m && left in m && right in m && Is(m, t, root) && Ordered(t, Lo(ls), Hi(rs))
        && root in Nodes(t)
    ensures root != left && root != right && root != header && left in SpineNodes(ls) + {header}
        && right in SpineNodes(rs) + {header}
    ensures m[root].left == (if t.left.Leaf? then null else t.left.n)
        && m[root].right == (if t.right.Leaf? then null else t.right.n)
    ensures t.left.Branch? ==> t.left.n in m && t.left.n != root && t.left.n in Nodes(t)
    ensures t.right.Branch? ==> t.right.n in m && t.right.n != root && t.right.n in Nodes(t)
  {
    PartsApart(m, header, root, left, right, ls, t, rs, k);
    OrderedKeys(t.left, Lo(ls), t.n.key);
    OrderedKeys(t.right, t.n.key, Hi(rs));
  }

  lemma LinkedOrder(ls: Spine, t: Tree, rs: Spine)
    requires t.Branch?
    ensures var all := LeftOrder(ls) + InOrder(t) + RightOrder(rs);
            && LeftOrder(ls) + InOrder(t.left) + RightOrder(Link(t.n, t.right, rs)) == all
            && LeftOrder(Link(t.n, t.left, ls)) + InOrder(t.right) + RightOrder(rs) == all
    ensures var all := SpineNodes(ls) + SpineNodes(rs) + Nodes(t);
            && SpineNodes(ls) + SpineNodes(Link(t.n, t.right, rs)) + Nodes(t.left) == all
            && SpineNodes(Link(t.n, t.left, ls)) + SpineNodes(rs) + Nodes(t.right) == all
  {
    Relinked(LeftOrder(ls), InOrder(t.left), t.n, InOrder(t.right), RightOrder(rs));
  }

  lemma Relinked<T>(a: seq<T>, b: seq<T>, x: T, c: seq<T>, d: seq<T>)
    ensures a + b + ([x] + c + d) == a + (b + [x] + c) + d
    ensures (a + b + [x]) + c + d == a + (b + [x] + c) + d
  {}

  lemma AssembledFacts(m: Heap, header: Node, root: Node, left: Node, right: Node, ls: Spine, t: Tree, rs: Spine,
      k: int)
    requires Parts(m, header, root, left, right, ls, t, rs, k) && Ends(t, k)
    ensures var w := Assembled(ls, t, rs);
            && InOrder(w) == LeftOrder(ls) + InOrder(t) + RightOrder(rs)
            && Nodes(w) == SpineNodes(ls) + SpineNodes(rs) + Nodes(t) && Ordered(w, LOW, HIGH)
            && Nearest(Nodes(w), k, root) && w.Branch? && w.n == root && root == t.n
  {
    hide LeftIs, RightIs, InOrder, Nearest;
    AssembledOrder(ls, t, rs);
    EndsNearest(ls, t, rs, k);
  }

  ghost function Size(t: Tree): nat {
    if t.Leaf? then 0 else Size(t.left) + 1 + Size(t.right)
  }

  /** Before the first turn both spines are empty. */
  lemma SplayStarts(m: Heap, m': Heap, header: Node, root: Node, t: Tree, k: int)
    requires Is(m, t, root) && Ordered(t, LOW, HIGH) && m.Keys == Nodes(t) && header !in m && LOW < k < HIGH
    requires m'.Keys == m.Keys + {header} && forall n :: n in m ==> m'[n] == m[n]
    ensures Parts(m', header, root, header, header, End, t, End, k) && t.Branch? && root == t.n
    ensures LeftOrder(End) + InOrder(t) + RightOrder(End) == InOrder(t) && SpineNodes(End) == {}
  {
    IsFrame(m, m', t, root);
  }

  // ----- Insertion and removal at the root -----

  lemma RootLinks(m: Heap, t: Tree, root: Node)
    requires Is(m, t, root)
    ensures t.Branch? && root == t.n && root in m
    ensures m[root].left == (if t.left.Leaf? then null else t.left.n)
        && m[root].right == (if t.right.Leaf? then null else t.right.n)
    ensures Is(m, t.left, m[root].left) && Is(m, t.right, m[root].right)
  {}

  /** The tree with a new node at the root: the old root keeps its subtree on the far side. */
  ghost function OnTop(t: Tree, elm: Node): Tree
    requires t.Branch?
  {
    if elm.key < t.n.key then Branch(t.left, elm, Branch(Leaf, t.n, t.right))
      else Branch(Branch(t.left, t.n, Leaf), elm, t.right)
  }

  lemma OnTopNodes(t: Tree, elm: Node)
    requires t.Branch?
    ensures Nodes(OnTop(t, elm)) == Nodes(t) + {elm}
    ensures Nodes(t.left) <= Nodes(t) && Nodes(t.right) <= Nodes(t)
  {}

  lemma OnTopOrdered(t: Tree, elm: Node)
    requires t.Branch? && Ordered(t, LOW, HIGH) && Nearest(Nodes(t), elm.key, t.n) && elm.key != t.n.key
    ensures Ordered(OnTop(t, elm), LOW, HIGH) && Nodes(OnTop(t, elm)) == Nodes(t) + {elm}
    ensures forall n :: n in Nodes(t) ==> n.key != elm.key
  {
    hide Nodes;
    OnTopNodes(t, elm);
    OrderedKeys(t.left, LOW, t.n.key);
    OrderedKeys(t.right, t.n.key, HIGH);
    if elm.key < t.n.key {
      KeysNarrow(t.left, LOW, t.n.key, LOW, elm.key);
      assert Ordered(Branch(Leaf, t.n, t.right), elm.key, HIGH);
    } else {
      KeysNarrow(t.right, t.n.key, HIGH, elm.key, HIGH);
      assert Ordered(Leaf, t.n.key, elm.key);
      assert Ordered(Branch(t.left, t.n, Leaf), LOW, elm.key);
      assert OnTop(t, elm) == Branch(Branch(t.left, t.n, Leaf), elm, t.right);
    }
  }

  lemma OnTopIs(m: Heap, m': Heap, t: Tree, root: Node, elm: Node)
    requires Is(m, t, root) && t.Branch? && Ordered(t, LOW, HIGH) && m.Keys == Nodes(t) && elm !in m && root in m
    requires m' == if elm.key < root.key then m[root := m[root].(left := null)][elm := Links(m[root].left, root)]
                   else m[root := m[root].(right := null)][elm := Links(root, m[root].right)]
    ensures Is(m', OnTop(t, elm), elm)
  {
    OrderedKeys(t.left, LOW, t.n.key);
    OrderedKeys(t.right, t.n.key, HIGH);
    IsFrame(m, m', t.left, m[root].left);
    IsFrame(m, m', t.right, m[root].right);
  }

  /** The tree without its root: the splayed left subtree takes the right one. */
  lemma JoinedIs(m: Heap, m': Heap, l: Tree, r: Tree, lo: int, key: int, hi: int, root: Node, p: Node?)
    requires Is(m, l, root) && l.Branch? && l.right.Leaf? && Is(m, r, p) && Ordered(l, lo, key) && Ordered(r, key, hi)
        && key < hi
    requires root in m && m' == m[root := m[root].(right := p)]
    ensures var t := Branch(l.left, l.n, r); Is(m', t, root) && Ordered(t, lo, hi) && Nodes(t) == Nodes(l) + Nodes(r)
  {
    OrderedKeys(l, lo, key);
    OrderedKeys(l.left, lo, l.n.key);
    OrderedKeys(r, key, hi);
    OrderedWider(r, key, hi, l.n.key, hi);
    IsFrame(m, m', l.left, m[root].left);
    IsFrame(m, m', r, p);
  }

  lemma {:induction false} OrderedWider(t: Tree, lo: int, hi: int, lo': int, hi': int)
    requires Ordered(t, lo, hi) && lo' <= lo && hi <= hi'
    ensures Ordered(t, lo', hi')
    decreases t
  {
    if t.Branch? {
      OrderedWider(t.left, lo, t.n.key, lo', t.n.key);
      OrderedWider(t.right, t.n.key, hi, t.n.key, hi');
    }
  }

  lemma {:induction false} KeysNarrow(t: Tree, lo: int, hi: int, lo': int, hi': int)
    requires Ordered(t, lo, hi) && forall n :: n in Nodes(t) ==> lo' < n.key < hi'
    ensures Ordered(t, lo', hi')
    decreases t
  {
    if t.Branch? {
      assert t.n in Nodes(t);
      OrderedKeys(t.left, lo, t.n.key);
      OrderedKeys(t.right, t.n.key, hi);
      KeysNarrow(t.left, lo, t.n.key, lo', t.n.key);
      KeysNarrow(t.right, t.n.key, hi, t.n.key, hi');
    }
  }

  /** The two subtrees of the root and their nodes. */
  lemma Halves(m: Heap, t: Tree, root: Node)
    requires Is(m, t, root) && t.Branch? && Ordered(t, LOW, HIGH) && m.Keys == Nodes(t)
    ensures Nodes(t.left) <= m.Keys && Nodes(t.right) <= m.Keys && Nodes(t.left) + Nodes(t.right) == m.Keys - {root}
    ensures Nodes(t.left) !! Nodes(t.right) && root !in Nodes(t.left) && root !in Nodes(t.right)
    ensures Ordered(t.left, LOW, root.key) && Ordered(t.right, root.key, HIGH) && Ordered(t.left, LOW, HIGH)
        && Ordered(t.right, LOW, HIGH)
    ensures forall n :: n in Nodes(t.left) ==> n.key < root.key
    ensures t.left.Leaf? ==> Nodes(t.left) == {}
  {
    OrderedKeys(t.left, LOW, t.n.key);
    OrderedKeys(t.right, t.n.key, HIGH);
    OrderedWider(t.left, LOW, t.n.key, LOW, HIGH);
    OrderedWider(t.right, t.n.key, HIGH, LOW, HIGH);
  }

  // ----- The next node -----

  lemma InTree(m: Heap, t: Tree, p: Node?, n: Node)
    requires Is(m, t, p) && n in Nodes(t)
    ensures p != null
  {}

  lemma {:induction false} KeysUnique(t: Tree, lo: int, hi: int)
    requires Ordered(t, lo, hi)
    ensures forall a, b :: a in Nodes(t) && b in Nodes(t) && a.key == b.key ==> a == b
  {
    if t.Branch? {
      KeysUnique(t.left, lo, t.n.key);
      KeysUnique(t.right, t.n.key, hi);
      OrderedKeys(t.left, lo, t.n.key);
      OrderedKeys(t.right, t.n.key, hi);
    }
  }

  /** Splaying for a node of the tree brings that node to the root. */
  lemma SplayedRoot(t: Tree, root: Node, elm: Node)
    requires Ordered(t, LOW, HIGH) && elm in Nodes(t) && Nearest(Nodes(t), elm.key, root)
    ensures root == elm
  {
    KeysUnique(t, LOW, HIGH);
  }

  lemma RightPart(t: Tree, root: Node)
    requires t.Branch? && t.n == root && Ordered(t, LOW, HIGH)
    ensures forall x :: x in Nodes(t) && x.key > root.key ==> x in Nodes(t.right)
    ensures Nodes(t.right) <= Nodes(t) && Ordered(t.right, root.key, HIGH) && (t.right.Leaf? ==> Nodes(t.right) == {})
  {
    OrderedKeys(t.left, LOW, t.n.key);
  }

  lemma LeftPart(t: Tree, lo: int)
    requires t.Branch? && Ordered(t, lo, HIGH) && t.left.Branch?
    ensures Ordered(t.left, lo, HIGH) && Nodes(t.left) <= Nodes(t) && t.left.n.key < t.n.key
    ensures forall x :: x in Nodes(t) && x !in Nodes(t.left) ==> x.key > t.left.n.key
  {
    OrderedWider(t.left, lo, t.n.key, lo, HIGH);
    OrderedKeys(t.left, lo, t.n.key);
    OrderedKeys(t.right, t.n.key, HIGH);
    assert t.left.n in Nodes(t.left);
  }

  lemma LeastIs(t: Tree, lo: int)
    requires t.Branch? && Ordered(t, lo, HIGH) && t.left.Leaf?
    ensures t.n.key > lo && forall x :: x in Nodes(t) ==> x.key >= t.n.key
  {
    OrderedKeys(t.right, t.n.key, HIGH);
  }
}
