/** Shapes of the extent trees of ext4fsd/ext4_extent.c.

    A Tree is the ghost picture of a tree block and all below it; a Ctx is the picture of everything
    around one tree block, read from that block up to the root. The operations of module ExtentTree
    work on one tree block at a time; the lemmas here say what that does to the whole.
  */
module ExtentShape {
  import opened ExtentFields
  import opened ExtentMap

  // ----- Tree blocks -----

  /** struct ext4_extent_index: the first logical block of a subtree and the number of its top block. */
  datatype Index = Index(first: nat, leaf: nat)

  /** A tree block: its header (depth, capacity, number of entries) and its entries. */
  datatype Node =
    | Leaf(max: nat, exts: seq<Extent>)
    | Inner(depth: nat, max: nat, idxs: seq<Index>)

  type Store = map<nat, Node>

  /** The root lies in the inode and has room for four entries. */
  const ROOT_SPACE := 4
  const ROOT: nat := 0

  // ----- Pictures -----

  datatype Kid = Kid(key: nat, tree: Tree)

  datatype Tree =
    | Tip(block: nat, exts: seq<Extent>)
    | Fork(block: nat, kids: seq<Kid>)

  datatype Ctx =
    | Top
    | In(block: nat, left: seq<Kid>, key: nat, right: seq<Kid>, up: Ctx)

  ghost function Fill(ctx: Ctx, t: Tree): Tree
    requires !ctx.Top?
  {
    Fork(ctx.block, ctx.left + [Kid(ctx.key, t)] + ctx.right)
  }

  ghost function Plug(ctx: Ctx, t: Tree): Tree
    decreases ctx
  {
    if ctx.Top? then t else Plug(ctx.up, Fill(ctx, t))
  }

  /** The level of a place, counted from the root. */
  ghost function Level(ctx: Ctx): nat { if ctx.Top? then 0 else 1 + Level(ctx.up) }

  // ----- Extents of a tree -----

  ghost function Exts(t: Tree): seq<Extent>
    decreases t, 0
  {
    match t
    case Tip(_, exts) => exts
    case Fork(_, kids) => KidsExts(kids)
  }

  ghost function KidsExts(kids: seq<Kid>): seq<Extent>
    decreases kids, 1
  {
    if kids == [] then [] else
      assert kids[0].tree < kids[0];
      Exts(kids[0].tree) + KidsExts(kids[1..])
  }

  ghost function Pre(ctx: Ctx): seq<Extent> {
    if ctx.Top? then [] else Pre(ctx.up) + KidsExts(ctx.left)
  }

  ghost function Post(ctx: Ctx): seq<Extent> {
    if ctx.Top? then [] else KidsExts(ctx.right) + Post(ctx.up)
  }

  lemma {:induction false} KidsExtsJoin(a: seq<Kid>, b: seq<Kid>)
    ensures KidsExts(a + b) == KidsExts(a) + KidsExts(b)
  {
    if a == [] {
      assert a + b == b;
    } else {
      assert (a + b)[1..] == a[1..] + b;
      KidsExtsJoin(a[1..], b);
    }
  }

  lemma FillExts(ctx: Ctx, t: Tree)
    requires !ctx.Top?
    ensures Exts(Fill(ctx, t)) == KidsExts(ctx.left) + Exts(t) + KidsExts(ctx.right)
  {
    var k := [Kid(ctx.key, t)];
    KidsExtsJoin(ctx.left + k, ctx.right);
    KidsExtsJoin(ctx.left, k);
    assert KidsExts(k) == Exts(t) + KidsExts(k[1..]);
  }

  lemma {:induction false} PlugExts(ctx: Ctx, t: Tree)
    ensures Exts(Plug(ctx, t)) == Pre(ctx) + Exts(t) + Post(ctx)
    decreases ctx
  {
    if !ctx.Top? {
      FillExts(ctx, t);
      PlugExts(ctx.up, Fill(ctx, t));
    }
  }

  // ----- Blocks of a tree -----

  ghost function Blocks(t: Tree): multiset<nat>
    decreases t, 0
  {
    match t
    case Tip(b, _) => multiset{b}
    case Fork(b, kids) => multiset{b} + KidsBlocks(kids)
  }

  ghost function KidsBlocks(kids: seq<Kid>): multiset<nat>
    decreases kids, 1
  {
    if kids == [] then multiset{} else
      assert kids[0].tree < kids[0];
      Blocks(kids[0].tree) + KidsBlocks(kids[1..])
  }

  ghost function CtxBlocks(ctx: Ctx): multiset<nat> {
    if ctx.Top? then multiset{}
    else multiset{ctx.block} + KidsBlocks(ctx.left) + KidsBlocks(ctx.right) + CtxBlocks(ctx.up)
  }

  lemma {:induction false} KidsBlocksJoin(a: seq<Kid>, b: seq<Kid>)
    ensures KidsBlocks(a + b) == KidsBlocks(a) + KidsBlocks(b)
  {
    if a == [] {
      assert a + b == b;
    } else {
      assert (a + b)[1..] == a[1..] + b;
      KidsBlocksJoin(a[1..], b);
    }
  }

  lemma FillBlocks(ctx: Ctx, t: Tree)
    requires !ctx.Top?
    ensures Blocks(Fill(ctx, t)) == multiset{ctx.block} + KidsBlocks(ctx.left) + KidsBlocks(ctx.right) + Blocks(t)
  {
    var k := [Kid(ctx.key, t)];
    KidsBlocksJoin(ctx.left + k, ctx.right);
    KidsBlocksJoin(ctx.left, k);
    assert KidsBlocks(k) == Blocks(t) + KidsBlocks(k[1..]);
  }

  lemma {:induction false} PlugBlocks(ctx: Ctx, t: Tree)
    ensures Blocks(Plug(ctx, t)) == CtxBlocks(ctx) + Blocks(t)
    decreases ctx
  {
    if !ctx.Top? {
      FillBlocks(ctx, t);
      PlugBlocks(ctx.up, Fill(ctx, t));
    }
  }

  lemma {:induction false} KidBlocks(kids: seq<Kid>, i: nat)
    requires i < |kids|
    ensures Blocks(kids[i].tree) <= KidsBlocks(kids)
  {
    if i > 0 {
      KidBlocks(kids[1..], i - 1);
    }
  }

  // ----- Order, depth and capacity -----

  ghost predicate Ascending(exts: seq<Extent>) {
    forall i, j :: 0 <= i < j < |exts| ==> exts[i].first < exts[j].first
  }

  ghost predicate Increasing(kids: seq<Kid>) {
    forall i, j :: 0 <= i < j < |kids| ==> kids[i].key < kids[j].key
  }

  ghost predicate ExtsSound(exts: seq<Extent>, lo: nat, hi: nat) {
    Ascending(exts) && forall i :: 0 <= i < |exts| ==> Good(exts[i]) && lo <= exts[i].first < hi
  }

  /** A key is the first one below it. */
  ghost predicate Tied(t: Tree, key: nat) {
    match t
    case Tip(_, exts) => exts == [] || exts[0].first == key
    case Fork(_, kids) => kids == [] || kids[0].key == key
  }

  ghost function Upper(kids: seq<Kid>, i: nat, hi: nat): nat {
    if i + 1 < |kids| then kids[i + 1].key else hi
  }

  /** Uniform depth, no node over capacity, entries in order and every key the lower bound of its subtree. */
  ghost predicate Sound(t: Tree, d: nat, lo: nat, hi: nat, cap: nat, space: nat)
    decreases d, 0
  {
    match t
    case Tip(_, exts) => d == 0 && |exts| <= cap && ExtsSound(exts, lo, hi)
    case Fork(_, kids) => d > 0 && |kids| <= cap && KidsSound(kids, d - 1, lo, hi, space)
  }

  ghost predicate KidsSound(kids: seq<Kid>, d: nat, lo: nat, hi: nat, space: nat)
    decreases d, 2
  {
    && Increasing(kids)
    && (forall i :: 0 <= i < |kids| ==> lo <= kids[i].key < hi)
    && (forall i :: 0 <= i < |kids| ==> KidSound(kids, i, d, hi, space))
  }

  ghost predicate KidSound(kids: seq<Kid>, i: nat, d: nat, hi: nat, space: nat)
    requires i < |kids|
    decreases d, 1
  {
    Tied(kids[i].tree, kids[i].key) && Sound(kids[i].tree, d, kids[i].key, Upper(kids, i, hi), space, space)
  }

  ghost function Cap(ctx: Ctx, space: nat): nat { if ctx.Top? then ROOT_SPACE else space }

  ghost function Lo(ctx: Ctx): nat { if ctx.Top? then 0 else ctx.key }

  ghost function Hi(ctx: Ctx): nat {
    if ctx.Top? then LOGICAL_LIMIT else if ctx.right != [] then ctx.right[0].key else Hi(ctx.up)
  }

  /** The other entries of a block around the one with the given key. */
  ghost predicate FrameSound(left: seq<Kid>, key: nat, right: seq<Kid>, d: nat, lo: nat, hi: nat, space: nat) {
    && KidsSound(left, d, lo, key, space) && KidsSound(right, d, key + 1, hi, space)
    && lo <= key < if right != [] then right[0].key else hi
  }

  /** What is around a place of depth d is in order. */
  ghost predicate CtxSound(ctx: Ctx, d: nat, space: nat)
    decreases ctx
  {
    if ctx.Top? then true else
      && |ctx.left| + 1 + |ctx.right| <= Cap(ctx.up, space)
      && FrameSound(ctx.left, ctx.key, ctx.right, d, Lo(ctx.up), Hi(ctx.up), space)
      && (ctx.up.Top? || ctx.up.key == if ctx.left == [] then ctx.key else ctx.left[0].key)
      && CtxSound(ctx.up, d + 1, space)
  }

  /** A tree of depth d fits the place. */
  ghost predicate PlaceSound(ctx: Ctx, t: Tree, d: nat, space: nat) {
    Sound(t, d, Lo(ctx), Hi(ctx), Cap(ctx, space), space) && (ctx.Top? || Tied(t, ctx.key))
  }

  lemma KidsSoundParts(a: seq<Kid>, b: seq<Kid>, d: nat, lo: nat, hi: nat, space: nat)
    requires b != [] && KidsSound(a + b, d, lo, hi, space)
    ensures KidsSound(a, d, lo, b[0].key, space) && KidsSound(b, d, lo, hi, space)
  {
    var s := a + b;
    assert s[|a|] == b[0];
    forall i | 0 <= i < |a|
      ensures a[i] == s[i] && lo <= a[i].key < b[0].key && KidSound(a, i, d, b[0].key, space)
    {
      assert KidSound(s, i, d, hi, space);
    }
    forall i | 0 <= i < |b|
      ensures b[i] == s[|a| + i] && lo <= b[i].key < hi && KidSound(b, i, d, hi, space)
    {
      assert KidSound(s, |a| + i, d, hi, space);
    }
  }

  lemma KidsSoundJoin(a: seq<Kid>, b: seq<Kid>, d: nat, lo: nat, hi: nat, space: nat)
    requires b != [] && KidsSound(a, d, lo, b[0].key, space) && KidsSound(b, d, lo, hi, space)
    ensures KidsSound(a + b, d, lo, hi, space)
  {
    var s := a + b;
    forall i | 0 <= i < |s|
      ensures lo <= s[i].key < hi && KidSound(s, i, d, hi, space)
    {
      if i < |a| {
        assert s[i] == a[i] && Upper(s, i, hi) == Upper(a, i, b[0].key) && KidSound(a, i, d, b[0].key, space);
      } else {
        assert s[i] == b[i - |a|] && Upper(s, i, hi) == Upper(b, i - |a|, hi) && KidSound(b, i - |a|, d, hi, space);
      }
    }
  }

  lemma KidsSoundSingle(k: Kid, d: nat, lo: nat, hi: nat, space: nat)
    ensures KidsSound([k], d, lo, hi, space) <==>
        lo <= k.key < hi && Tied(k.tree, k.key) && Sound(k.tree, d, k.key, hi, space, space)
  {
    var s := [k];
    assert Upper(s, 0, hi) == hi && s[0] == k;
    assert KidSound(s, 0, d, hi, space) <==> Tied(k.tree, k.key) && Sound(k.tree, d, k.key, hi, space, space);
  }

  lemma KidsSoundBelow(b: seq<Kid>, d: nat, lo: nat, lo': nat, hi: nat, space: nat)
    requires KidsSound(b, d, lo, hi, space) && (b != [] ==> lo' <= b[0].key)
    ensures KidsSound(b, d, lo', hi, space)
  {}

  lemma KidsSoundSplit(a: seq<Kid>, k: Kid, b: seq<Kid>, d: nat, lo: nat, hi: nat, space: nat)
    ensures KidsSound(a + [k] + b, d, lo, hi, space) <==>
            && KidsSound(a, d, lo, k.key, space) && KidsSound(b, d, k.key + 1, hi, space)
            && lo <= k.key < (if b == [] then hi else b[0].key)
            && Tied(k.tree, k.key) && Sound(k.tree, d, k.key, if b == [] then hi else b[0].key, space, space)
  {
    var mid := if b == [] then hi else b[0].key;
    KidsSoundSingle(k, d, lo, mid, space);
    assert a + [k] + b == a + ([k] + b);
    assert b == [] ==> [k] + b == [k];
    if KidsSound(a + [k] + b, d, lo, hi, space) {
      KidsSoundParts(a, [k] + b, d, lo, hi, space);
      if b != [] {
        KidsSoundParts([k], b, d, lo, hi, space);
        KidsSoundBelow(b, d, lo, k.key + 1, hi, space);
      }
    }
    if && KidsSound(a, d, lo, k.key, space) && KidsSound(b, d, k.key + 1, hi, space)
       && lo <= k.key < mid && Tied(k.tree, k.key) && Sound(k.tree, d, k.key, mid, space, space)
    {
      if b != [] {
        KidsSoundBelow(b, d, k.key + 1, lo, hi, space);
        KidsSoundJoin([k], b, d, lo, hi, space);
      }
      KidsSoundJoin(a, [k] + b, d, lo, hi, space);
    }
  }

  lemma {:induction false} PlugSound(ctx: Ctx, t: Tree, d: nat, space: nat)
    ensures Sound(Plug(ctx, t), d + Level(ctx), 0, LOGICAL_LIMIT, ROOT_SPACE, space) <==>
            CtxSound(ctx, d, space) && PlaceSound(ctx, t, d, space)
    decreases ctx
  {
    if !ctx.Top? {
      PlugSound(ctx.up, Fill(ctx, t), d + 1, space);
      KidsSoundSplit(ctx.left, Kid(ctx.key, t), ctx.right, d, Lo(ctx.up), Hi(ctx.up), space);
    }
  }

  // ----- No empty blocks -----

  ghost predicate Filled(t: Tree)
    decreases t, 0
  {
    match t
    case Tip(_, exts) => exts != []
    case Fork(_, kids) => kids != [] && KidsFilled(kids)
  }

  ghost predicate KidsFilled(kids: seq<Kid>)
    decreases kids, 1
  {
    kids == [] || (assert kids[0].tree < kids[0]; Filled(kids[0].tree) && KidsFilled(kids[1..]))
  }

  ghost predicate CtxFilled(ctx: Ctx) {
    ctx.Top? || (KidsFilled(ctx.left) && KidsFilled(ctx.right) && CtxFilled(ctx.up))
  }

  lemma {:induction false} KidsFilledJoin(a: seq<Kid>, b: seq<Kid>)
    ensures KidsFilled(a + b) <==> KidsFilled(a) && KidsFilled(b)
  {
    if a == [] {
      assert a + b == b;
    } else {
      assert (a + b)[1..] == a[1..] + b;
      KidsFilledJoin(a[1..], b);
    }
  }

  lemma {:induction false} PlugFilled(ctx: Ctx, t: Tree)
    ensures Filled(Plug(ctx, t)) <==> CtxFilled(ctx) && Filled(t)
    decreases ctx
  {
    if !ctx.Top? {
      PlugFilled(ctx.up, Fill(ctx, t));
      KidsFilledJoin(ctx.left + [Kid(ctx.key, t)], ctx.right);
      KidsFilledJoin(ctx.left, [Kid(ctx.key, t)]);
    }
  }

  // ----- The stored tree -----

  ghost function Entries(kids: seq<Kid>): seq<Index> {
    seq(|kids|, i requires 0 <= i < |kids| => Index(kids[i].key, kids[i].tree.block))
  }

  /** The contents of the topmost block of a tree. */
  ghost function Head(t: Tree, d: nat, cap: nat): Node {
    match t
    case Tip(_, exts) => Leaf(cap, exts)
    case Fork(_, kids) => Inner(d, cap, Entries(kids))
  }

  /** The stored blocks below the topmost block of t look like t. */
  ghost predicate Rep(m: Store, t: Tree, d: nat, cap: nat, space: nat)
    decreases d, 0
  {
    && t.block in m && m[t.block] == Head(t, d, cap)
    && match t
       case Tip(_, _) => d == 0
       case Fork(_, kids) => d > 0 && KidsRep(m, kids, d - 1, space)
  }

  ghost predicate KidsRep(m: Store, kids: seq<Kid>, d: nat, space: nat)
    decreases d, 1
  {
    forall i :: 0 <= i < |kids| ==> Rep(m, kids[i].tree, d, space, space)
  }

  /** The stored blocks around the place of a block look like ctx. */
  ghost predicate CtxRep(m: Store, ctx: Ctx, child: nat, d: nat, space: nat)
    decreases ctx
  {
    if ctx.Top? then true else
      && ctx.block in m
      && m[ctx.block] ==
        Inner(d + 1, Cap(ctx.up, space), Entries(ctx.left) + [Index(ctx.key, child)] + Entries(ctx.right))
      && KidsRep(m, ctx.left, d, space) && KidsRep(m, ctx.right, d, space) && CtxRep(m, ctx.up, ctx.block, d + 1, space)
  }

  lemma KidsRepSplit(m: Store, a: seq<Kid>, k: Kid, b: seq<Kid>, d: nat, space: nat)
    ensures KidsRep(m, a + [k] + b, d, space) <==>
        KidsRep(m, a, d, space) && Rep(m, k.tree, d, space, space) && KidsRep(m, b, d, space)
    ensures Entries(a + [k] + b) == Entries(a) + [Index(k.key, k.tree.block)] + Entries(b)
  {
    var s := a + [k] + b;
    assert forall i :: 0 <= i < |a| ==> s[i] == a[i];
    assert s[|a|] == k;
    assert forall i :: 0 <= i < |b| ==> s[|a| + 1 + i] == b[i];
    assert forall i :: |a| < i < |s| ==> s[i] == b[i - |a| - 1];
  }

  lemma {:induction false} PlugRep(m: Store, ctx: Ctx, t: Tree, d: nat, space: nat)
    ensures Rep(m, Plug(ctx, t), d + Level(ctx), ROOT_SPACE, space) <==>
            CtxRep(m, ctx, t.block, d, space) && Rep(m, t, d, Cap(ctx, space), space)
    decreases ctx
  {
    if !ctx.Top? {
      PlugRep(m, ctx.up, Fill(ctx, t), d + 1, space);
      KidsRepSplit(m, ctx.left, Kid(ctx.key, t), ctx.right, d, space);
    }
  }

  ghost predicate SameOn(m: Store, m': Store, blocks: multiset<nat>) {
    forall b :: b in blocks && b in m ==> b in m' && m'[b] == m[b]
  }

  lemma {:induction false} RepFrame(m: Store, m': Store, t: Tree, d: nat, cap: nat, space: nat)
    requires Rep(m, t, d, cap, space) && SameOn(m, m', Blocks(t))
    ensures Rep(m', t, d, cap, space)
    decreases d, 0
  {
    if t.Fork? {
      KidsRepFrame(m, m', t.kids, d - 1, space);
    }
  }

  lemma {:induction false} KidsRepFrame(m: Store, m': Store, kids: seq<Kid>, d: nat, space: nat)
    requires KidsRep(m, kids, d, space) && SameOn(m, m', KidsBlocks(kids))
    ensures KidsRep(m', kids, d, space)
    decreases d, 1
  {
    forall i | 0 <= i < |kids|
      ensures Rep(m', kids[i].tree, d, space, space)
    {
      KidBlocks(kids, i);
      RepFrame(m, m', kids[i].tree, d, space, space);
    }
  }

  lemma {:induction false} CtxRepFrame(m: Store, m': Store, ctx: Ctx, child: nat, d: nat, space: nat)
    requires CtxRep(m, ctx, child, d, space) && SameOn(m, m', CtxBlocks(ctx))
    ensures CtxRep(m', ctx, child, d, space)
    decreases ctx
  {
    if !ctx.Top? {
      KidsRepFrame(m, m', ctx.left, d, space);
      KidsRepFrame(m, m', ctx.right, d, space);
      CtxRepFrame(m, m', ctx.up, ctx.block, d + 1, space);
    }
  }
}
