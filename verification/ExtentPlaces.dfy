/** Search paths into extent trees, and what a search finds. */
module ExtentPlaces {
  import opened ExtentFields
  import opened ExtentMap
  import opened ExtentShape

  /** An entry of struct ext4_extent_path: the tree block at one level and the position of its
      index or extent pointer, which is negative for a null pointer. */
  datatype Step = Step(block: nat, at: int)

  /** The steps of a path from position base on lead to the place with surroundings ctx. */
  ghost predicate PathIs(path: seq<Step>, ctx: Ctx, base: nat) {
    ctx.Top? ||
    (&& base + Level(ctx) <= |path| && path[base + Level(ctx) - 1] == Step(ctx.block, |ctx.left|)
     && PathIs(path, ctx.up, base))
  }

  lemma {:induction false} PathFrame(path: seq<Step>, path': seq<Step>, ctx: Ctx, base: nat)
    requires PathIs(path, ctx, base) && base + Level(ctx) <= |path'|
    requires forall k :: base <= k < base + Level(ctx) && k < |path| ==> path'[k] == path[k]
    ensures PathIs(path', ctx, base)
    decreases ctx
  {
    if !ctx.Top? {
      PathFrame(path, path', ctx.up, base);
    }
  }

  /** Every turn of the path to a place is the one that a search for block b takes. */
  ghost predicate Reached(ctx: Ctx, b: nat) {
    ctx.Top? || ((ctx.left == [] || ctx.key <= b) && (ctx.right == [] || b < ctx.right[0].key) && Reached(ctx.up, b))
  }

  function DepthOf(m: Store): nat
    requires ROOT in m
  {
    if m[ROOT].Leaf? then 0 else m[ROOT].depth
  }

  ghost predicate Stored(m: Store, t: Tree, space: nat) {
    && t.block == ROOT && ROOT in m && Rep(m, t, DepthOf(m), ROOT_SPACE, space)
    && multiset(m.Keys) == Blocks(t)
  }

  /** Uniform depth, counts within capacity, sorted disjoint extents, every index key the first block
      of its subtree, and no empty block but the root of an empty file. */
  ghost predicate WellFormed(t: Tree, d: nat, space: nat) {
    Sound(t, d, 0, LOGICAL_LIMIT, ROOT_SPACE, space) && (t.Tip? || Filled(t)) && Apart(Exts(t))
  }

  /** A search for b in the stored tree whole ends at position path[d].at of the leaf t. */
  ghost predicate Found(m: Store, whole: Tree, d: nat, path: seq<Step>, ctx: Ctx, t: Tree, b: nat) {
    && Plug(ctx, t) == whole && t.Tip? && Level(ctx) == d && |path| == d + 1
    && PathIs(path, ctx, 0) && path[d].block == t.block && t.block in m && m[t.block].Leaf? && m[t.block].exts == t.exts
    && Reached(ctx, b) && LeafPos(t.exts, path[d].at, b)
  }

  /** The surroundings of a child. */
  ghost function Down(ctx: Ctx, t: Tree, p: nat): Ctx
    requires t.Fork? && p < |t.kids|
    ensures !Down(ctx, t, p).Top? && Fill(Down(ctx, t, p), t.kids[p].tree) == t
  {
    assert t.kids == t.kids[..p] + [Kid(t.kids[p].key, t.kids[p].tree)] + t.kids[p + 1..];
    In(t.block, t.kids[..p], t.kids[p].key, t.kids[p + 1..], ctx)
  }

  /** What the stored tree says about the block at a place. */
  lemma PlaceFacts(m: Store, whole: Tree, ctx: Ctx, t: Tree, d: nat, space: nat)
    requires Stored(m, whole, space) && Plug(ctx, t) == whole && d + Level(ctx) == DepthOf(m)
    ensures Rep(m, t, d, Cap(ctx, space), space) && CtxRep(m, ctx, t.block, d, space)
    ensures ctx.Top? <==> t.block == ROOT
  {
    PlugRep(m, ctx, t, d, space);
    PlugBlocks(ctx, t);
    if !ctx.Top? {
      RootAbove(ctx, t);
    }
  }

  /** What a search reads at a place of depth d. */
  lemma SearchFacts(m: Store, whole: Tree, ctx: Ctx, t: Tree, d: nat, space: nat)
    requires Stored(m, whole, space) && WellFormed(whole, DepthOf(m), space)
    requires Plug(ctx, t) == whole && d + Level(ctx) == DepthOf(m)
    ensures t.block in m && PlaceSound(ctx, t, d, space)
    ensures d == 0 ==> t.Tip? && m[t.block] == Leaf(Cap(ctx, space), t.exts) && Ascending(t.exts)
    ensures d > 0 ==>
        t.Fork? && m[t.block] == Inner(d, Cap(ctx, space), Entries(t.kids)) && Increasing(t.kids) && Filled(t)
  {
    PlaceFacts(m, whole, ctx, t, d, space);
    PlaceOrder(ctx, t, d, space);
  }

  lemma PlaceOrder(ctx: Ctx, t: Tree, d: nat, space: nat)
    requires WellFormed(Plug(ctx, t), d + Level(ctx), space)
    ensures CtxSound(ctx, d, space) && PlaceSound(ctx, t, d, space)
    ensures if d == 0 then t.Tip? && Ascending(t.exts) else t.Fork? && Increasing(t.kids) && Filled(t)
    ensures t.Tip? || Filled(t)
  {
    PlugSound(ctx, t, d, space);
    PlugFilled(ctx, t);
    TipAtBottom(ctx, t);
    if t.Fork? {
      SoundKids(t, d, Lo(ctx), Hi(ctx), Cap(ctx, space), space);
    }
  }

  lemma SoundKids(t: Tree, d: nat, lo: nat, hi: nat, cap: nat, space: nat)
    requires Sound(t, d, lo, hi, cap, space) && t.Fork?
    ensures d > 0 && KidsSound(t.kids, d - 1, lo, hi, space) && Increasing(t.kids)
  {}

  lemma {:induction false} TipAtBottom(ctx: Ctx, t: Tree)
    ensures Plug(ctx, t).Tip? ==> ctx.Top?
    decreases ctx
  {
    if !ctx.Top? {
      TipAtBottom(ctx.up, Fill(ctx, t));
      assert ctx.up.Top? ==> Plug(ctx, t) == Fill(ctx, t);
    }
  }

  lemma {:induction false} RootAbove(ctx: Ctx, t: Tree)
    requires !ctx.Top?
    ensures Plug(ctx, t).block in CtxBlocks(ctx)
    decreases ctx
  {
    if !ctx.up.Top? {
      RootAbove(ctx.up, Fill(ctx, t));
    }
  }

  lemma Descend(path: seq<Step>, ctx: Ctx, t: Tree, at: nat, block: nat)
    requires t.Fork? && at < |t.kids| && Filled(t) && PathIs(path, ctx, 0) && |path| == Level(ctx)
        && Reached(ctx, block)
    requires at == 0 || t.kids[at].key <= block
    requires at + 1 < |t.kids| ==> block < t.kids[at + 1].key
    ensures PathIs(path + [Step(t.block, at)], Down(ctx, t, at), 0)
    ensures Reached(Down(ctx, t, at), block) && Filled(t.kids[at].tree)
  {
    PathFrame(path, path + [Step(t.block, at)], ctx, 0);
    PlugFilled(Down(Top, t, at), t.kids[at].tree);
  }

  // ----- What a search finds -----

  lemma {:induction false} FirstExtent(t: Tree, d: nat, lo: nat, hi: nat, cap: nat, space: nat)
    requires Sound(t, d, lo, hi, cap, space) && Filled(t)
    ensures Exts(t) != [] && forall i :: 0 <= i < |Exts(t)| ==> Good(Exts(t)[i]) && lo <= Exts(t)[i].first < hi
    ensures forall k :: Tied(t, k) ==> Exts(t)[0].first == k
    decreases d, 0
  {
    if t.Fork? {
      KidsExtents(t.kids, d - 1, lo, hi, space);
    }
  }

  lemma {:induction false} KidsExtents(kids: seq<Kid>, d: nat, lo: nat, hi: nat, space: nat)
    requires KidsSound(kids, d, lo, hi, space) && KidsFilled(kids)
    ensures forall i :: 0 <= i < |KidsExts(kids)| ==> Good(KidsExts(kids)[i]) && lo <= KidsExts(kids)[i].first < hi
    ensures kids != [] ==> KidsExts(kids) != [] && KidsExts(kids)[0].first == kids[0].key
    decreases d, 1, |kids|
  {
    if kids != [] {
      var k, rest := kids[0], kids[1..];
      assert KidSound(kids, 0, d, hi, space);
      FirstExtent(k.tree, d, k.key, Upper(kids, 0, hi), space, space);
      if rest != [] {
        assert kids == [k] + rest;
        KidsSoundParts([k], rest, d, lo, hi, space);
        KidsExtents(rest, d, lo, hi, space);
      }
    }
  }

  lemma ExtentsGood(t: Tree, d: nat, space: nat)
    requires WellFormed(t, d, space)
    ensures AllGood(Exts(t))
  {
    if t.Fork? {
      FirstExtent(t, d, 0, LOGICAL_LIMIT, ROOT_SPACE, space);
    }
  }

  lemma {:induction false} ExtentsBefore(ctx: Ctx, d: nat, b: nat, space: nat)
    requires CtxSound(ctx, d, space) && Reached(ctx, b) && Pre(ctx) != []
    ensures !ctx.Top? && ctx.key <= b
    decreases ctx
  {
    if !ctx.Top? && ctx.left == [] {
      ExtentsBefore(ctx.up, d + 1, b, space);
    }
  }

  /** The key of the next subtree along the path. */
  ghost function NextKey(ctx: Ctx): nat {
    if ctx.Top? then EXT_MAX_BLOCKS else if ctx.right != [] then ctx.right[0].key else NextKey(ctx.up)
  }

  lemma {:induction false} ExtentsAfter(ctx: Ctx, d: nat, b: nat, space: nat)
    requires CtxSound(ctx, d, space) && CtxFilled(ctx)
    ensures if Post(ctx) == [] then NextKey(ctx) == EXT_MAX_BLOCKS else NextKey(ctx) == Post(ctx)[0].first
    ensures Reached(ctx, b) && Post(ctx) != [] ==> b < Post(ctx)[0].first
    decreases ctx
  {
    if !ctx.Top? {
      if ctx.right != [] {
        KidsExtents(ctx.right, d, ctx.key + 1, Hi(ctx.up), space);
      } else {
        ExtentsAfter(ctx.up, d + 1, b, space);
      }
    }
  }

  /** The position of a leaf entry in the list of all extents. */
  ghost function Position(ctx: Ctx, at: int): int { if at < 0 then -1 else |Pre(ctx)| + at }

  /** Searching the tree is searching the list of its extents. */
  lemma FoundInList(ctx: Ctx, t: Tree, at: int, b: nat, space: nat)
    requires WellFormed(Plug(ctx, t), Level(ctx), space) && t.Tip? && Reached(ctx, b) && LeafPos(t.exts, at, b)
    ensures LeafPos(Exts(Plug(ctx, t)), Position(ctx, at), b)
    ensures at >= 0 ==> Exts(Plug(ctx, t))[Position(ctx, at)] == t.exts[at]
    ensures NextFirst(Exts(Plug(ctx, t)), Position(ctx, at)) ==
            if at >= 0 && at + 1 < |t.exts| then t.exts[at + 1].first else NextKey(ctx)
  {
    if !ctx.Top? {
      LeafIn(ctx, t, space);
      BeforeLeaf(ctx, t, b, space);
      AfterLeaf(ctx, t, b, space);
    }
    FoundByParts(ctx, t, at, b);
  }

  lemma FoundByParts(ctx: Ctx, t: Tree, at: int, b: nat)
    requires t.Tip? && LeafPos(t.exts, at, b)
    requires !ctx.Top? ==> t.exts != [] && (Pre(ctx) != [] ==> t.exts[0].first <= b)
    requires Post(ctx) != [] ==> b < Post(ctx)[0].first
    requires if Post(ctx) == [] then NextKey(ctx) == EXT_MAX_BLOCKS else NextKey(ctx) == Post(ctx)[0].first
    ensures LeafPos(Exts(Plug(ctx, t)), Position(ctx, at), b)
    ensures at >= 0 ==> Exts(Plug(ctx, t))[Position(ctx, at)] == t.exts[at]
    ensures NextFirst(Exts(Plug(ctx, t)), Position(ctx, at)) ==
            if at >= 0 && at + 1 < |t.exts| then t.exts[at + 1].first else NextKey(ctx)
  {
    PlugExts(ctx, t);
    if t.exts != [] {
      PositionInside(Pre(ctx), t.exts, Post(ctx), at, b);
    }
  }

  lemma LeafIn(ctx: Ctx, t: Tree, space: nat)
    requires WellFormed(Plug(ctx, t), Level(ctx), space) && t.Tip? && !ctx.Top?
    ensures t.exts != [] && t.exts[0].first == ctx.key && CtxFilled(ctx) && Ascending(t.exts)
  {
    PlaceOrder(ctx, t, 0, space);
    PlugFilled(ctx, t);
    TipAtBottom(ctx, t);
  }

  lemma BeforeLeaf(ctx: Ctx, t: Tree, b: nat, space: nat)
    requires WellFormed(Plug(ctx, t), Level(ctx), space) && Reached(ctx, b) && !ctx.Top?
    ensures Pre(ctx) != [] ==> ctx.key <= b
  {
    PlugSound(ctx, t, 0, space);
    if Pre(ctx) != [] {
      ExtentsBefore(ctx, 0, b, space);
    }
  }

  lemma AfterLeaf(ctx: Ctx, t: Tree, b: nat, space: nat)
    requires WellFormed(Plug(ctx, t), Level(ctx), space) && CtxFilled(ctx)
    ensures if Post(ctx) == [] then NextKey(ctx) == EXT_MAX_BLOCKS else NextKey(ctx) == Post(ctx)[0].first
    ensures Reached(ctx, b) && Post(ctx) != [] ==> b < Post(ctx)[0].first
  {
    PlugSound(ctx, t, 0, space);
    ExtentsAfter(ctx, 0, b, space);
  }
}
