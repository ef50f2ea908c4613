/** Removing blocks and entries from an extent tree. */
module ExtentRemovals {
  import opened ExtentFields
  import opened ExtentMap
  import opened ExtentShape
  import opened ExtentPlaces
  import opened ExtentChanges
  import opened ExtentSplits
  import opened ExtentMerges
  import opened ExtentCuts

  // ----- An entry leaves its block -----

  /** The block above a place without the entry of the place. */
  ghost function Dropped(ctx: Ctx): Tree
    requires !ctx.Top?
  {
    Fork(ctx.block, ctx.left + ctx.right)
  }

  /** The first key that the source finds in the block above a place once the first entry has left:
      the next one, or the old one, still in memory, when the block is empty. */
  ghost function NextSlot(ctx: Ctx): nat
    requires !ctx.Top?
  {
    if ctx.right != [] then ctx.right[0].key else ctx.key
  }

  ghost function DroppedCtx(ctx: Ctx): Ctx
    requires !ctx.Top?
  {
    if ctx.left == [] then Corrected(ctx.up, NextSlot(ctx)) else ctx.up
  }

  lemma {:induction false} TieFits(ctx: Ctx, d: nat, border: nat, space: nat)
    requires CtxSound(ctx, d, space) && (ctx.Top? || border >= ctx.key)
    ensures BorderFits(ctx, border)
    decreases ctx
  {
    if !ctx.Top? && ctx.left == [] && !ctx.up.Top? {
      TieFits(ctx.up, d + 1, border, space);
    }
  }

  lemma DroppedKids(ctx: Ctx, d: nat, space: nat)
    requires !ctx.Top? && CtxSound(ctx, d, space)
    ensures KidsSound(ctx.left + ctx.right, d, Lo(ctx.up), Hi(ctx.up), space)
    ensures ctx.left == [] ==> KidsSound(ctx.right, d, NextSlot(ctx), Hi(ctx.up), space)
  {
    hide KidSound;
    HiBelow(ctx, d, space);
    if ctx.right == [] {
      assert ctx.left + ctx.right == ctx.left;
      KidsSoundWider(ctx.left, d, Lo(ctx.up), ctx.key, Hi(ctx.up), space);
    } else {
      KidsSoundBelow(ctx.right, d, ctx.key + 1, Lo(ctx.up), Hi(ctx.up), space);
      KidsSoundBelow(ctx.right, d, ctx.key + 1, NextSlot(ctx), Hi(ctx.up), space);
      KidsSoundWider(ctx.left, d, Lo(ctx.up), ctx.key, ctx.right[0].key, space);
      KidsSoundJoin(ctx.left, ctx.right, d, Lo(ctx.up), Hi(ctx.up), space);
    }
  }

  lemma SlotFits(ctx: Ctx, d: nat, space: nat)
    requires !ctx.Top? && CtxSound(ctx, d, space)
    ensures NextSlot(ctx) < Hi(ctx.up) && (ctx.left == [] && !ctx.up.Top? ==> NextSlot(ctx) >= ctx.up.key)
  {
    HiBelow(ctx, d, space);
  }

  lemma DroppedSound(ctx: Ctx, d: nat, space: nat)
    requires !ctx.Top? && CtxSound(ctx, d, space)
    ensures CtxSound(DroppedCtx(ctx), d + 1, space) && PlaceSound(DroppedCtx(ctx), Dropped(ctx), d + 1, space)
  {
    hide KidsSound, FrameSound;
    DroppedKids(ctx, d, space);
    SlotFits(ctx, d, space);
    CorrectedSame(ctx.up, NextSlot(ctx));
    if ctx.left == [] {
      assert ctx.left + ctx.right == ctx.right;
      TieFits(ctx.up, d + 1, NextSlot(ctx), space);
      CorrectedSound(ctx.up, d + 1, NextSlot(ctx), space);
    }
  }

  lemma DroppedExts(ctx: Ctx)
    requires !ctx.Top?
    ensures Pre(DroppedCtx(ctx)) + KidsExts(ctx.left) == Pre(ctx)
        && KidsExts(ctx.right) + Post(DroppedCtx(ctx)) == Post(ctx)
    ensures Level(DroppedCtx(ctx)) + 1 == Level(ctx) && CtxBlocks(DroppedCtx(ctx)) == CtxBlocks(ctx.up)
    ensures CtxFilled(ctx) ==> CtxFilled(DroppedCtx(ctx)) && KidsFilled(ctx.left + ctx.right)
  {
    CorrectedSame(ctx.up, NextSlot(ctx));
    KidsFilledJoin(ctx.left, ctx.right);
  }

  lemma DroppedBlocks(m: Store, ctx: Ctx, t: Tree, space: nat)
    requires Stored(m, Plug(ctx, t), space) && !ctx.Top? && Below(t) == multiset{}
    ensures multiset(m.Keys) ==
        multiset{t.block} + (multiset{ctx.block} + (KidsBlocks(ctx.left) + KidsBlocks(ctx.right) + CtxBlocks(ctx.up)))
    ensures Blocks(Dropped(ctx)) == multiset{ctx.block} + (KidsBlocks(ctx.left) + KidsBlocks(ctx.right))
    ensures !ctx.up.Top? ==> ROOT in CtxBlocks(ctx.up)
    ensures ctx.up.Top? ==> ctx.block == ROOT
  {
    hide Rep, Blocks, KidsBlocks;
    PlugBlocks(ctx, t);
    TopAndBelow(t);
    TopAndBelow(Dropped(ctx));
    KidsBlocksJoin(ctx.left, ctx.right);
    if ctx.up.Top? {
      assert Plug(ctx, t) == Fill(ctx, t);
    } else {
      RootAbove(ctx.up, Fill(ctx, t));
    }
  }

  /** One block goes and another changes; what is stored elsewhere stays. */
  lemma GoneFrame(m: Store, m': Store, gone: nat, b: nat, n: Node, rest: multiset<nat>, part: multiset<nat>)
    requires multiset(m.Keys) == multiset{gone} + (multiset{b} + rest) && part <= rest && m' == (m - {gone})[b := n]
    ensures SameOn(m, m', part) && gone != b && m'.Keys == m.Keys - {gone} && gone in m && b in m'
  {
    forall x | x in part
      ensures x in m && x != b && x != gone
    {
      assert multiset(m.Keys)[x] == multiset{gone}[x] + (multiset{b}[x] + rest[x]);
    }
    assert multiset(m.Keys)[b] == multiset{gone}[b] + (1 + rest[b]);
    assert multiset(m.Keys)[gone] == 1 + (multiset{b}[gone] + rest[gone]);
  }

  lemma OneLess(keys: set<nat>, x: nat, rest: multiset<nat>)
    requires multiset(keys) == multiset{x} + rest
    ensures multiset(keys - {x}) == rest
  {
    forall y
      ensures multiset(keys - {x})[y] == rest[y]
    {
      assert multiset(keys)[y] == multiset{x}[y] + rest[y];
    }
  }

  lemma Reassociated<T>(a: multiset<T>, b: multiset<T>, c: multiset<T>)
    ensures a + (b + c) == c + (a + b)
  {}

  lemma Around(m: Store, ctx: Ctx, t: Tree, d: nat, space: nat)
    requires Stored(m, Plug(ctx, t), space) && !ctx.Top? && d + Level(ctx) == DepthOf(m)
    ensures KidsRep(m, ctx.left, d, space) && KidsRep(m, ctx.right, d, space)
  {
    hide Rep, KidsRep, Entries;
    PlaceFacts(m, Plug(ctx, t), ctx, t, d, space);
  }

  lemma DroppedStored(m: Store, m': Store, ctx: Ctx, t: Tree, d: nat, space: nat)
    requires Stored(m, Plug(ctx, t), space) && !ctx.Top? && Below(t) == multiset{} && d + Level(ctx) == DepthOf(m)
    requires m' == (m - {t.block})[ctx.block :=
        Inner(d + 1, Cap(ctx.up, space), Entries(ctx.left) + Entries(ctx.right))]
    ensures Stored(m', Plug(ctx.up, Dropped(ctx)), space) && DepthOf(m') == DepthOf(m)
    ensures m'.Keys == m.Keys - {t.block} && t.block in m
  {
    hide Rep, KidsRep, CtxRep, Blocks, KidsBlocks, CtxBlocks, SameOn, Entries, Stored;
    DroppedBlocks(m, ctx, t, space);
    DroppedRep(m, m', ctx, t, d, space);
    var kids := KidsBlocks(ctx.left) + KidsBlocks(ctx.right);
    OneLess(m.Keys, t.block, multiset{ctx.block} + (kids + CtxBlocks(ctx.up)));
    Reassociated(multiset{ctx.block}, kids, CtxBlocks(ctx.up));
    Replaced(m, m', ctx.up, Fill(ctx, t), Dropped(ctx), d + 1, space);
  }

  lemma DroppedRep(m: Store, m': Store, ctx: Ctx, t: Tree, d: nat, space: nat)
    requires Stored(m, Plug(ctx, t), space) && !ctx.Top? && Below(t) == multiset{} && d + Level(ctx) == DepthOf(m)
    requires m' == (m - {t.block})[ctx.block :=
        Inner(d + 1, Cap(ctx.up, space), Entries(ctx.left) + Entries(ctx.right))]
    ensures Rep(m', Dropped(ctx), d + 1, Cap(ctx.up, space), space) && SameOn(m, m', CtxBlocks(ctx.up))
    ensures m'.Keys == m.Keys - {t.block} && t.block in m && ROOT in m' && (ctx.up.Top? ==> DepthOf(m') == d + 1)
  {
    hide KidsRep, CtxRep, Blocks, KidsBlocks, CtxBlocks, Stored, Entries;
    DroppedBlocks(m, ctx, t, space);
    DroppedFrames(m, m', ctx, t, d, space);
    EntriesConcat(ctx.left, ctx.right);
    KidsRepConcat(m', ctx.left, ctx.right, d, space);
  }

  lemma DroppedFrames(m: Store, m': Store, ctx: Ctx, t: Tree, d: nat, space: nat)
    requires Stored(m, Plug(ctx, t), space) && !ctx.Top? && Below(t) == multiset{} && d + Level(ctx) == DepthOf(m)
    requires m' == (m - {t.block})[ctx.block :=
        Inner(d + 1, Cap(ctx.up, space), Entries(ctx.left) + Entries(ctx.right))]
    ensures KidsRep(m', ctx.left, d, space) && KidsRep(m', ctx.right, d, space) && SameOn(m, m', CtxBlocks(ctx.up))
    ensures m'.Keys == m.Keys - {t.block} && t.block in m && ROOT in m' && t.block != ctx.block
  {
    hide Rep, KidsRep, CtxRep, Blocks, KidsBlocks, CtxBlocks, Entries, SameOn, Stored;
    var n := Inner(d + 1, Cap(ctx.up, space), Entries(ctx.left) + Entries(ctx.right));
    DroppedBlocks(m, ctx, t, space);
    Around(m, ctx, t, d, space);
    var rest := KidsBlocks(ctx.left) + KidsBlocks(ctx.right) + CtxBlocks(ctx.up);
    GoneFrame(m, m', t.block, ctx.block, n, rest, KidsBlocks(ctx.left));
    GoneFrame(m, m', t.block, ctx.block, n, rest, KidsBlocks(ctx.right));
    GoneFrame(m, m', t.block, ctx.block, n, rest, CtxBlocks(ctx.up));
    KidsRepFrame(m, m', ctx.left, d, space);
    KidsRepFrame(m, m', ctx.right, d, space);
    RootLeft(m, m', ctx, t, space);
  }

  lemma RootLeft(m: Store, m': Store, ctx: Ctx, t: Tree, space: nat)
    requires Stored(m, Plug(ctx, t), space) && !ctx.Top? && Below(t) == multiset{} && SameOn(m, m', CtxBlocks(ctx.up))
    requires ctx.block in m'
    ensures ROOT in m'
  {
    hide Rep;
    DroppedBlocks(m, ctx, t, space);
  }

  lemma DropEntry<T>(a: seq<T>, x: T, b: seq<T>)
    ensures var s := a + [x] + b;
            s[|a|] == x && s[..|a|] + s[|a| + 1..] == a + b
  {}

  lemma SlotRead(ctx: Ctx, t: Tree)
    requires !ctx.Top? && ctx.left == []
    ensures NextSlot(ctx) == if ctx.right != [] then (Entries(ctx.left) + Entries(ctx.right))[0].first else ctx.key
    ensures |Entries(ctx.left) + Entries(ctx.right)| == |ctx.right|
  {}

  lemma LeafRoot(m: Store, ctx: Ctx, t: Tree, space: nat)
    requires Stored(m, Plug(ctx, t), space) && Level(ctx) == DepthOf(m) && t.Tip?
    ensures t.block == ROOT <==> DepthOf(m) == 0
    ensures t.exts == [] ==> Below(t) == multiset{}
  {
    hide Rep;
    PlaceFacts(m, Plug(ctx, t), ctx, t, 0, space);
  }

  // ----- The walk over the tree -----

  /** A removal of blocks from up to to out of the extents all; before: the blocks released and the
      tree blocks in use before it. */
  datatype Cut = Cut(all: seq<Extent>, from: nat, to: nat, before: multiset<nat>)

  /** The first j extents are dealt with, and the blocks released so far are those of their cut parts
      and the tree blocks that are gone. */
  ghost predicate Balanced(c: Cut, j: nat, m: Store, released: seq<nat>)
    requires j <= |c.all|
  {
    multiset(released) + multiset(m.Keys) == c.before + multiset(Freed(c.all[..j], c.from, c.to))
  }

  ghost predicate After(c: Cut, j: nat) { forall k :: j <= k < |c.all| ==> c.all[k].first > c.from }

  ghost predicate InTree(m: Store, whole: Tree, path: seq<Step>, i: nat, ctx: Ctx, t: Tree, d: nat, space: nat) {
    && Stored(m, whole, space) && DepthOf(m) == d && whole == Plug(ctx, t)
    && Sound(whole, d, 0, LOGICAL_LIMIT, ROOT_SPACE, space) && CtxFilled(ctx)
    && Level(ctx) == i <= d && |path| == d + 1 && PathIs(path, ctx, 0) && path[i].block == t.block && path[i].at >= 0
  }

  /** The walk is at an index block: what lies before the current entry is cut, the rest is untouched. */
  ghost predicate AtIndex(c: Cut, j: nat, m: Store, whole: Tree, path: seq<Step>, i: nat, ctx: Ctx, t: Tree, d: nat,
      space: nat) {
    && InTree(m, whole, path, i, ctx, t, d, space) && t.Fork? && path[i].at <= |t.kids| && KidsFilled(t.kids)
    && j <= |c.all| && After(c, j) && Pre(ctx) + KidsExts(t.kids[..path[i].at]) == Kept(c.all[..j], c.from, c.to)
    && KidsExts(t.kids[path[i].at..]) + Post(ctx) == c.all[j..]
  }

  /** The walk is at a leaf. */
  ghost predicate AtLeaf(c: Cut, j: nat, m: Store, whole: Tree, path: seq<Step>, ctx: Ctx, t: Tree, d: nat,
      space: nat) {
    && InTree(m, whole, path, d, ctx, t, d, space) && t.Tip?
    && Cuttable(t.exts, path[d].at, c.from, c.to) && t.exts[path[d].at].first <= c.to
    && j + |t.exts| <= |c.all| && After(c, j + |t.exts|) && Pre(ctx) == Kept(c.all[..j], c.from, c.to)
    && t.exts + Post(ctx) == c.all[j..]
  }

  /** The walk is over. */
  ghost predicate AtEnd(c: Cut, m: Store, whole: Tree, d: nat, space: nat) {
    && Stored(m, whole, space) && DepthOf(m) == d && Sound(whole, d, 0, LOGICAL_LIMIT, ROOT_SPACE, space)
    && (whole.Tip? || KidsFilled(whole.kids)) && Exts(whole) == Kept(c.all, c.from, c.to)
  }

  lemma Segment(all: seq<Extent>, j: nat, a: seq<Extent>, b: seq<Extent>)
    requires j <= |all| && a + b == all[j..]
    ensures j + |a| <= |all| && all[..j + |a|] == all[..j] + a && all[j + |a|..] == b
  {
    assert all == all[..j] + (a + b);
  }

  /** Subtrees whose keys are beyond the range count as dealt with. */
  lemma RestBeyond(c: Cut, j: nat, ctx: Ctx, kids: seq<Kid>, p: nat, d: nat, lo: nat, hi: nat, space: nat)
    requires KidsSound(kids, d, lo, hi, space) && KidsFilled(kids) && p <= |kids| && (p < |kids| ==> kids[p].key > c.to)
    requires j <= |c.all| && KidsExts(kids[p..]) + Post(ctx) == c.all[j..]
    ensures var n := j + |KidsExts(kids[p..])|;
            && n <= |c.all| && Post(ctx) == c.all[n..]
            && Kept(c.all[..n], c.from, c.to) == Kept(c.all[..j], c.from, c.to) + KidsExts(kids[p..])
            && Freed(c.all[..n], c.from, c.to) == Freed(c.all[..j], c.from, c.to)
  {
    hide KidsSound, Kept, Freed;
    var rest := KidsExts(kids[p..]);
    Segment(c.all, j, rest, Post(ctx));
    KeptJoin(c.all[..j], rest, c.from, c.to);
    assert kids == kids[..p] + kids[p..];
    KidsFilledJoin(kids[..p], kids[p..]);
    if p < |kids| {
      KidsSoundParts(kids[..p], kids[p..], d, lo, hi, space);
      KidsSoundBelow(kids[p..], d, lo, kids[p].key, hi, space);
      KidsExtents(kids[p..], d, kids[p].key, hi, space);
    }
    KeptOutside(rest, c.from, c.to);
  }

  lemma IndexSound(m: Store, whole: Tree, path: seq<Step>, i: nat, ctx: Ctx, t: Tree, d: nat, space: nat)
    requires InTree(m, whole, path, i, ctx, t, d, space)
    ensures CtxSound(ctx, d - i, space) && PlaceSound(ctx, t, d - i, space)
    ensures t.Fork? ==> i < d && KidsSound(t.kids, d - i - 1, Lo(ctx), Hi(ctx), space)
    ensures t.Tip? ==> i == d
  {
    hide CtxSound, KidsSound;
    PlugSound(ctx, t, d - i, space);
  }

  /** Nothing more to remove below a block: the walk goes up past it. */
  lemma GoneUp(c: Cut, j: nat, m: Store, whole: Tree, path: seq<Step>, i: nat, ctx: Ctx, t: Tree, d: nat, space: nat)
    requires AtIndex(c, j, m, whole, path, i, ctx, t, d, space) && i > 0 && t.kids != []
    requires path[i].at < |t.kids| ==> t.kids[path[i].at].key > c.to
    ensures var n := j + |KidsExts(t.kids[path[i].at..])|;
            && n <= |c.all| && Freed(c.all[..n], c.from, c.to) == Freed(c.all[..j], c.from, c.to)
            && AtIndex(c, n, m, whole, path[i - 1 := path[i - 1].(at := path[i - 1].at + 1)], i - 1, ctx.up,
              Fill(ctx, t), d, space)
  {
    hide CtxSound, PlaceSound, Sound, KidsSound, Kept, Freed, Stored, KidsExts;
    IndexSound(m, whole, path, i, ctx, t, d, space);
    RestBeyond(c, j, ctx, t.kids, path[i].at, d - i - 1, Lo(ctx), Hi(ctx), space);
    UpExts(ctx, t, path[i].at);
    UpFilled(ctx, t);
    PathFrame(path, path[i - 1 := path[i - 1].(at := path[i - 1].at + 1)], ctx.up, 0);
  }

  lemma UpExts(ctx: Ctx, t: Tree, p: nat)
    requires !ctx.Top? && t.Fork? && p <= |t.kids|
    ensures var kids := Fill(ctx, t).kids;
            && |ctx.left| + 1 <= |kids| && KidsExts(kids[|ctx.left| + 1..]) + Post(ctx.up) == Post(ctx)
            && Pre(ctx.up) + KidsExts(kids[..|ctx.left| + 1]) ==
              Pre(ctx) + KidsExts(t.kids[..p]) + KidsExts(t.kids[p..])
  {
    assert t.kids == t.kids[..p] + t.kids[p..];
    KidsExtsJoin(t.kids[..p], t.kids[p..]);
    FilledSplit(ctx, t);
  }

  lemma FilledSplit(ctx: Ctx, t: Tree)
    requires !ctx.Top?
    ensures var kids := Fill(ctx, t).kids;
            && |ctx.left| + 1 <= |kids| && KidsExts(kids[|ctx.left| + 1..]) + Post(ctx.up) == Post(ctx)
            && Pre(ctx.up) + KidsExts(kids[..|ctx.left| + 1]) == Pre(ctx) + Exts(t)
  {
    hide KidsExts, Exts;
    var kids, k := Fill(ctx, t).kids, [Kid(ctx.key, t)];
    Halfway(ctx.left, k[0], ctx.right);
    KidsExtsJoin(ctx.left, k);
    SingleExts(k[0]);
    Three(Pre(ctx.up), KidsExts(ctx.left), Exts(t));
  }

  lemma Three<T>(a: seq<T>, b: seq<T>, c: seq<T>)
    ensures a + (b + c) == a + b + c
  {}

  lemma UpFilled(ctx: Ctx, t: Tree)
    requires !ctx.Top? && CtxFilled(ctx) && Filled(t)
    ensures KidsFilled(Fill(ctx, t).kids) && CtxFilled(ctx.up)
  {
    KidsFilledJoin(ctx.left + [Kid(ctx.key, t)], ctx.right);
    KidsFilledJoin(ctx.left, [Kid(ctx.key, t)]);
  }

  /** An empty block has left the tree. */
  lemma DroppedState(m: Store, whole: Tree, path: seq<Step>, i: nat, ctx: Ctx, t: Tree, m': Store, whole': Tree,
      d: nat, space: nat)
    requires InTree(m, whole, path, i, ctx, t, d, space) && i > 0
    requires Stored(m', whole', space) && DepthOf(m') == d && whole' == Plug(DroppedCtx(ctx), Dropped(ctx))
    ensures InTree(m', whole', path, i - 1, DroppedCtx(ctx), Dropped(ctx), d, space) && path[i - 1].at == |ctx.left|
    ensures KidsFilled(Dropped(ctx).kids) && Dropped(ctx).Fork?
  {
    hide CtxSound, PlaceSound, Sound, KidsSound, Stored, PathIs, Plug, KidsFilled, CtxFilled;
    LevelPositive(m, whole, path, i, ctx, t, d, space);
    IndexSound(m, whole, path, i, ctx, t, d, space);
    DroppedSound(ctx, d - i, space);
    DroppedExts(ctx);
    PlugSound(DroppedCtx(ctx), Dropped(ctx), d - i + 1, space);
    DroppedPath(path, ctx);
  }

  lemma DroppedPath(path: seq<Step>, ctx: Ctx)
    requires PathIs(path, ctx, 0) && !ctx.Top?
    ensures PathIs(path, DroppedCtx(ctx), 0) && Level(ctx) <= |path|
        && path[Level(ctx) - 1] == Step(ctx.block, |ctx.left|)
  {
    if ctx.left == [] {
      CorrectedPath(path, ctx.up, NextSlot(ctx));
    }
  }

  lemma DroppedList(ctx: Ctx)
    requires !ctx.Top?
    ensures var kids := Dropped(ctx).kids;
            && |ctx.left| <= |kids| && Pre(DroppedCtx(ctx)) + KidsExts(kids[..|ctx.left|]) == Pre(ctx)
            && KidsExts(kids[|ctx.left|..]) + Post(DroppedCtx(ctx)) == Post(ctx)
  {
    DroppedExts(ctx);
    assert Dropped(ctx).kids[..|ctx.left|] == ctx.left;
    assert Dropped(ctx).kids[|ctx.left|..] == ctx.right;
  }

  lemma EmptyUp(c: Cut, j: nat, m: Store, whole: Tree, path: seq<Step>, i: nat, ctx: Ctx, t: Tree, m': Store,
      whole': Tree, d: nat, space: nat)
    requires AtIndex(c, j, m, whole, path, i, ctx, t, d, space) && i > 0 && t.kids == []
    requires Stored(m', whole', space) && DepthOf(m') == d && whole' == Plug(DroppedCtx(ctx), Dropped(ctx))
    ensures AtIndex(c, j, m', whole', path, i - 1, DroppedCtx(ctx), Dropped(ctx), d, space)
  {
    hide InTree, Sound, Kept, Stored;
    DroppedState(m, whole, path, i, ctx, t, m', whole', d, space);
    LevelPositive(m, whole, path, i, ctx, t, d, space);
    DroppedList(ctx);
    assert t.kids[..path[i].at] == [] && t.kids[path[i].at..] == [];
  }

  lemma LevelPositive(m: Store, whole: Tree, path: seq<Step>, i: nat, ctx: Ctx, t: Tree, d: nat, space: nat)
    requires InTree(m, whole, path, i, ctx, t, d, space)
    ensures i == Level(ctx) <= d && |path| == d + 1 && (i > 0 ==> !ctx.Top?) && (i == 0 ==> ctx.Top? && whole == t)
    ensures Stored(m, whole, space) && DepthOf(m) == d && path[i].block == t.block && path[i].at >= 0
    ensures whole == Plug(ctx, t) && PathIs(path, ctx, 0)
  {
    hide Sound, Stored, PathIs;
  }

  /** The walk leaves the root. */
  lemma WalkOver(c: Cut, j: nat, m: Store, whole: Tree, path: seq<Step>, ctx: Ctx, t: Tree, d: nat, space: nat)
    requires AtIndex(c, j, m, whole, path, 0, ctx, t, d, space)
    requires path[0].at < |t.kids| ==> t.kids[path[0].at].key > c.to
    ensures AtEnd(c, m, whole, d, space)
    ensures Freed(c.all, c.from, c.to) == Freed(c.all[..j], c.from, c.to)
  {
    hide CtxSound, PlaceSound, KidsSound, Kept, Freed;
    IndexSound(m, whole, path, 0, ctx, t, d, space);
    RestBeyond(c, j, ctx, t.kids, path[0].at, d - 1, Lo(ctx), Hi(ctx), space);
    var p := path[0].at;
    var n := j + |KidsExts(t.kids[p..])|;
    assert t.kids == t.kids[..p] + t.kids[p..];
    KidsExtsJoin(t.kids[..p], t.kids[p..]);
    assert c.all[n..] == [] && c.all[..n] == c.all;
  }

  // ----- Down to the next child -----

  lemma DownState(m: Store, whole: Tree, path: seq<Step>, i: nat, ctx: Ctx, t: Tree, p: nat, d: nat, space: nat)
    requires InTree(m, whole, path, i, ctx, t, d, space) && t.Fork? && path[i].at == p < |t.kids| && KidsFilled(t.kids)
    ensures i < d && t.block in m && m[t.block].Inner? && p < |m[t.block].idxs|
        && m[t.block].idxs[p] == Index(t.kids[p].key, t.kids[p].tree.block)
    ensures InTree(m, whole, path[i + 1 := Step(t.kids[p].tree.block, 0)], i + 1, Down(ctx, t, p), t.kids[p].tree, d,
        space)
    ensures Filled(t.kids[p].tree) && Tied(t.kids[p].tree, t.kids[p].key) && (t.kids[p].tree.Tip? <==> i + 1 == d)
  {
    hide CtxSound, Sound, KidsSound, Stored, Tied;
    IndexSound(m, whole, path, i, ctx, t, d, space);
    var path' := path[i + 1 := Step(t.kids[p].tree.block, 0)];
    DownNode(m, whole, path, i, ctx, t, d, space);
    DownTied(t, d - i, Lo(ctx), Hi(ctx), p, space);
    PathFrame(path, path', ctx, 0);
    DownFilled(ctx, t, p);
  }

  lemma DownFilled(ctx: Ctx, t: Tree, p: nat)
    requires t.Fork? && p < |t.kids| && KidsFilled(t.kids) && CtxFilled(ctx)
    ensures CtxFilled(Down(ctx, t, p)) && Filled(t.kids[p].tree)
  {
    var k := [Kid(t.kids[p].key, t.kids[p].tree)];
    assert t.kids == t.kids[..p] + k + t.kids[p + 1..];
    KidsFilledJoin(t.kids[..p] + k, t.kids[p + 1..]);
    KidsFilledJoin(t.kids[..p], k);
  }

  lemma DownTied(t: Tree, d: nat, lo: nat, hi: nat, p: nat, space: nat)
    requires t.Fork? && p < |t.kids| && d > 0 && KidsSound(t.kids, d - 1, lo, hi, space)
    ensures Tied(t.kids[p].tree, t.kids[p].key) && (t.kids[p].tree.Tip? <==> d == 1)
  {
    assert KidSound(t.kids, p, d - 1, hi, space);
    assert Sound(t.kids[p].tree, d - 1, t.kids[p].key, Upper(t.kids, p, hi), space, space);
  }

  lemma DownNode(m: Store, whole: Tree, path: seq<Step>, i: nat, ctx: Ctx, t: Tree, d: nat, space: nat)
    requires InTree(m, whole, path, i, ctx, t, d, space) && t.Fork?
    ensures t.block in m && m[t.block].Inner? && |m[t.block].idxs| == |t.kids|
    ensures forall k :: 0 <= k < |t.kids| ==> m[t.block].idxs[k] == Index(t.kids[k].key, t.kids[k].tree.block)
    ensures t.kids == [] ==> Below(t) == multiset{}
  {
    hide Sound;
    PlaceFacts(m, whole, ctx, t, d - i, space);
  }

  lemma DownList(ctx: Ctx, t: Tree, p: nat)
    requires t.Fork? && p < |t.kids|
    ensures Pre(Down(ctx, t, p)) == Pre(ctx) + KidsExts(t.kids[..p])
    ensures Exts(t.kids[p].tree) + Post(Down(ctx, t, p)) == KidsExts(t.kids[p..]) + Post(ctx)
  {
    assert t.kids[p..] == [t.kids[p]] + t.kids[p + 1..];
    assert KidsExts(t.kids[p..]) == Exts(t.kids[p].tree) + KidsExts(t.kids[p..][1..]);
  }

  lemma DownIndex(c: Cut, j: nat, m: Store, whole: Tree, path: seq<Step>, i: nat, ctx: Ctx, t: Tree, d: nat, space: nat)
    requires AtIndex(c, j, m, whole, path, i, ctx, t, d, space) && path[i].at < |t.kids| && i + 1 < d
    ensures var p := path[i].at; var u := t.kids[p].tree;
            AtIndex(c, j, m, whole, path[i + 1 := Step(u.block, 0)], i + 1, Down(ctx, t, p), u, d, space)
  {
    hide InTree, Sound, Kept, Stored;
    LevelPositive(m, whole, path, i, ctx, t, d, space);
    var p := path[i].at;
    var u := t.kids[p].tree;
    DownState(m, whole, path, i, ctx, t, p, d, space);
    DownList(ctx, t, p);
    assert u.kids[..0] == [] && u.kids[0..] == u.kids;
  }

  lemma DownLeaf(c: Cut, j: nat, m: Store, whole: Tree, path: seq<Step>, i: nat, ctx: Ctx, t: Tree, d: nat, space: nat)
    requires AtIndex(c, j, m, whole, path, i, ctx, t, d, space) && path[i].at < |t.kids| && i + 1 == d
    requires t.kids[path[i].at].key <= c.to && Apart(c.all) && AllGood(c.all) && c.from <= c.to
    ensures var p := path[i].at; var u := t.kids[p].tree;
            AtLeaf(c, j, m, whole, path[i + 1 := Step(u.block, 0)], Down(ctx, t, p), u, d, space)
  {
    hide InTree, Sound, Kept, Stored, Apart, AllGood, Good, Cuttable;
    LevelPositive(m, whole, path, i, ctx, t, d, space);
    var p := path[i].at;
    var u := t.kids[p].tree;
    DownState(m, whole, path, i, ctx, t, p, d, space);
    DownList(ctx, t, p);
    FreshCuttable(c, j, u.exts, Post(Down(ctx, t, p)));
    Segment(c.all, j, u.exts, Post(Down(ctx, t, p)));
  }

  lemma FreshCuttable(c: Cut, j: nat, exts: seq<Extent>, post: seq<Extent>)
    requires Apart(c.all) && AllGood(c.all) && c.from <= c.to && j <= |c.all| && exts + post == c.all[j..]
        && After(c, j) && exts != []
    ensures Cuttable(exts, 0, c.from, c.to)
  {
    assert forall k :: 0 <= k < |exts| ==> exts[k] == c.all[j + k];
  }

  // ----- A leaf after its cut -----

  lemma {:induction false} HiIsNext(ctx: Ctx, d: nat, space: nat)
    requires CtxSound(ctx, d, space) && CtxFilled(ctx)
    ensures Hi(ctx) == if Post(ctx) == [] then LOGICAL_LIMIT else Post(ctx)[0].first
    decreases ctx
  {
    if !ctx.Top? {
      if ctx.right != [] {
        KidsExtents(ctx.right, d, ctx.key + 1, Hi(ctx.up), space);
      } else {
        HiIsNext(ctx.up, d + 1, space);
      }
    }
  }

  lemma ApartAscending(s: seq<Extent>, lo: nat, hi: nat)
    requires Apart(s) && AllGood(s) && forall i :: 0 <= i < |s| ==> lo <= s[i].first && End(s[i]) <= hi
    ensures ExtsSound(s, lo, hi)
  {
    forall i, j | 0 <= i < j < |s|
      ensures s[i].first < s[j].first
    {
      assert Good(s[i]) && End(s[i]) <= s[j].first;
    }
    assert forall i :: 0 <= i < |s| ==> Good(s[i]);
  }

  lemma {:induction false} KeptEnds(s: seq<Extent>, from: nat, to: nat, hi: nat)
    requires AllGood(s) && from <= to && forall i :: 0 <= i < |s| ==> End(s[i]) <= hi
    ensures forall i :: 0 <= i < |Kept(s, from, to)| ==> End(Kept(s, from, to)[i]) <= hi
  {
    if s != [] {
      assert forall i :: 0 <= i < |s[1..]| ==> s[1..][i] == s[i + 1];
      KeptRun(s[0], from, to);
      KeptEnds(s[1..], from, to, hi);
    }
  }

  lemma KeptSound(s: seq<Extent>, at: nat, from: nat, to: nat, hi: nat)
    requires Cuttable(s, at, from, to) && forall i :: 0 <= i < |s| ==> End(s[i]) <= hi
    ensures var r := Kept(s, from, to);
            && |r| <= |s| && ExtsSound(r, if r == [] then 0 else r[0].first, hi)
            && (r != [] ==> r[0].first >= s[0].first) && (at > 0 ==> r != [] && r[0] == s[0])
  {
    hide Kept;
    CutShape(s, at, from, to);
    KeptApart(s, from, to, s[0].first);
    KeptMap(s, from, to);
    KeptEnds(s, from, to, hi);
    var r := Kept(s, from, to);
    if r != [] {
      forall i | 0 <= i < |r|
        ensures r[0].first <= r[i].first
      {
        assert Good(r[0]) && (i > 0 ==> End(r[0]) <= r[i].first);
      }
    }
    ApartAscending(r, if r == [] then 0 else r[0].first, hi);
  }

  lemma CutLeafSound(ctx: Ctx, t: Tree, at: nat, from: nat, to: nat, space: nat)
    requires CtxSound(ctx, 0, space) && PlaceSound(ctx, t, 0, space) && t.Tip? && CtxFilled(ctx)
        && Cuttable(t.exts, at, from, to)
    requires forall i :: 0 <= i < |t.exts| ==> End(t.exts[i]) <= Hi(ctx)
    ensures var exts := Kept(t.exts, from, to);
            var c := Retied(ctx, at, exts);
            CtxSound(c, 0, space) && PlaceSound(c, Tip(t.block, exts), 0, space) && CtxFilled(c)
  {
    hide CtxSound, PlaceSound, Kept, Cuttable;
    var exts := Kept(t.exts, from, to);
    KeptSound(t.exts, at, from, to, Hi(ctx));
    TipPlace(ctx, t.block, t.exts, space);
    TipPlace(Retied(ctx, at, exts), t.block, exts, space);
    if exts != [] {
      KeptFits(ctx, at, exts, space);
    }
  }

  lemma KeptFits(ctx: Ctx, at: nat, exts: seq<Extent>, space: nat)
    requires CtxSound(ctx, 0, space) && CtxFilled(ctx) && exts != [] && exts[0].first < Hi(ctx)
    requires ctx.Top? || exts[0].first >= ctx.key
    ensures var c := Retied(ctx, at, exts);
            && CtxSound(c, 0, space) && CtxFilled(c) && Hi(c) == Hi(ctx) && c.Top? == ctx.Top?
            && Lo(c) == (if at == 0 && !ctx.Top? then exts[0].first else Lo(ctx)) && (at > 0 ==> c == ctx)
  {
    hide CtxSound;
    TieFits(ctx, 0, exts[0].first, space);
    CorrectedSame(ctx, exts[0].first);
    CorrectedSound(ctx, 0, exts[0].first, space);
  }

  lemma LeafEnds(c: Cut, j: nat, ctx: Ctx, exts: seq<Extent>, space: nat)
    requires CtxSound(ctx, 0, space) && CtxFilled(ctx) && Apart(c.all) && AllGood(c.all)
    requires j <= |c.all| && exts + Post(ctx) == c.all[j..]
    ensures forall i :: 0 <= i < |exts| ==> End(exts[i]) <= Hi(ctx)
  {
    HiIsNext(ctx, 0, space);
    var post := Post(ctx);
    assert forall k :: 0 <= k < |exts| ==> exts[k] == c.all[j + k];
    assert post != [] ==> post[0] == c.all[j + |exts|];
    forall i | 0 <= i < |exts|
      ensures End(exts[i]) <= Hi(ctx)
    {
      assert Good(c.all[j + i]);
      assert post != [] ==> End(c.all[j + i]) <= c.all[j + |exts|].first;
    }
  }

  lemma CutLeafWhole(c: Cut, j: nat, m: Store, whole: Tree, path: seq<Step>, ctx: Ctx, t: Tree, d: nat, space: nat)
    requires AtLeaf(c, j, m, whole, path, ctx, t, d, space) && Apart(c.all) && AllGood(c.all)
    ensures var exts := Kept(t.exts, c.from, c.to);
            var c2 := Retied(ctx, path[d].at, exts);
            Sound(Plug(c2, Tip(t.block, exts)), d, 0, LOGICAL_LIMIT, ROOT_SPACE, space) && CtxFilled(c2)
            && Pre(c2) == Pre(ctx) && Post(c2) == Post(ctx) && Level(c2) == d && PathIs(path, c2, 0)
              && c2.Top? == ctx.Top?
  {
    hide CtxSound, PlaceSound, Sound, Kept, Cuttable, Stored, Apart, AllGood;
    IndexSound(m, whole, path, d, ctx, t, d, space);
    LeafEnds(c, j, ctx, t.exts, space);
    CutLeafSound(ctx, t, path[d].at, c.from, c.to, space);
    var exts := Kept(t.exts, c.from, c.to);
    PlugSound(Retied(ctx, path[d].at, exts), Tip(t.block, exts), 0, space);
    if exts != [] {
      CorrectedSame(ctx, exts[0].first);
      CorrectedPath(path, ctx, exts[0].first);
    }
  }

  lemma CutLeafList(c: Cut, j: nat, ctx: Ctx, exts: seq<Extent>)
    requires j <= |c.all| && Pre(ctx) == Kept(c.all[..j], c.from, c.to) && exts + Post(ctx) == c.all[j..]
    ensures var n := j + |exts|;
            && n <= |c.all| && Post(ctx) == c.all[n..]
            && Pre(ctx) + Kept(exts, c.from, c.to) == Kept(c.all[..n], c.from, c.to)
            && Freed(c.all[..n], c.from, c.to) == Freed(c.all[..j], c.from, c.to) + Freed(exts, c.from, c.to)
  {
    hide Kept, Freed;
    Segment(c.all, j, exts, Post(ctx));
    KeptJoin(c.all[..j], exts, c.from, c.to);
  }

  /** A leaf with entries left: the walk goes up past it. */
  lemma LeafUp(c: Cut, j: nat, m: Store, whole: Tree, path: seq<Step>, ctx: Ctx, t: Tree, m': Store, whole': Tree,
      d: nat, space: nat)
    requires AtLeaf(c, j, m, whole, path, ctx, t, d, space) && Apart(c.all) && AllGood(c.all) && d > 0
    requires Kept(t.exts, c.from, c.to) != [] && Stored(m', whole', space) && DepthOf(m') == d
    requires var exts := Kept(t.exts, c.from, c.to); whole' == Plug(Retied(ctx, path[d].at, exts), Tip(t.block, exts))
    ensures var exts := Kept(t.exts, c.from, c.to); var c2 := Retied(ctx, path[d].at, exts);
            !c2.Top? && AtIndex(c, j + |t.exts|, m', whole', path[d - 1 := path[d - 1].(at := path[d - 1].at + 1)],
              d - 1, c2.up, Fill(c2, Tip(t.block, exts)), d, space)
  {
    hide CtxSound, PlaceSound, Sound, Kept, Cuttable, Stored, Apart, AllGood, Retied, KidsExts, InTree, CtxFilled,
      KidsFilled;
    LevelPositive(m, whole, path, d, ctx, t, d, space);
    var exts := Kept(t.exts, c.from, c.to);
    var c2, t2 := Retied(ctx, path[d].at, exts), Tip(t.block, exts);
    CutLeafWhole(c, j, m, whole, path, ctx, t, d, space);
    CutLeafList(c, j, ctx, t.exts);
    FilledSplit(c2, t2);
    LeafUpTree(m', whole', path, c2, t2, d, space);
  }

  lemma LeafUpTree(m: Store, whole: Tree, path: seq<Step>, ctx: Ctx, t: Tree, d: nat, space: nat)
    requires Stored(m, whole, space) && DepthOf(m) == d && whole == Plug(ctx, t) && t.Tip? && t.exts != [] && d > 0
    requires Sound(whole, d, 0, LOGICAL_LIMIT, ROOT_SPACE, space) && CtxFilled(ctx)
    requires Level(ctx) == d && |path| == d + 1 && PathIs(path, ctx, 0)
    ensures !ctx.Top? && path[d - 1] == Step(ctx.block, |ctx.left|)
    ensures InTree(m, whole, path[d - 1 := path[d - 1].(at := path[d - 1].at + 1)], d - 1, ctx.up, Fill(ctx, t), d,
        space)
    ensures KidsFilled(Fill(ctx, t).kids)
  {
    hide Sound, Stored;
    UpFilled(ctx, t);
    PathFrame(path, path[d - 1 := path[d - 1].(at := path[d - 1].at + 1)], ctx.up, 0);
  }

  /** A leaf without entries has left the tree. */
  lemma LeafGone(c: Cut, j: nat, m: Store, whole: Tree, path: seq<Step>, ctx: Ctx, t: Tree, m': Store, whole': Tree,
      d: nat, space: nat)
    requires AtLeaf(c, j, m, whole, path, ctx, t, d, space) && d > 0 && Kept(t.exts, c.from, c.to) == []
    requires Stored(m', whole', space) && DepthOf(m') == d && whole' == Plug(DroppedCtx(ctx), Dropped(ctx))
    ensures AtIndex(c, j + |t.exts|, m', whole', path, d - 1, DroppedCtx(ctx), Dropped(ctx), d, space)
  {
    hide InTree, Sound, Kept, Freed, Stored, Cuttable, KidsExts, KidsFilled, Dropped, DroppedCtx, Pre, Post;
    DroppedState(m, whole, path, d, ctx, t, m', whole', d, space);
    LevelPositive(m, whole, path, d, ctx, t, d, space);
    CutLeafList(c, j, ctx, t.exts);
    DroppedList(ctx);
    assert Pre(ctx) + [] == Pre(ctx);
  }

  lemma LeafLast(c: Cut, j: nat, ctx: Ctx, exts: seq<Extent>)
    requires ctx.Top? && j <= |c.all| && exts + Post(ctx) == c.all[j..]
    ensures j + |exts| == |c.all|
  {}

  /** The root was the leaf. */
  lemma LeafOver(c: Cut, j: nat, m: Store, whole: Tree, path: seq<Step>, ctx: Ctx, t: Tree, m': Store, whole': Tree,
      space: nat)
    requires AtLeaf(c, j, m, whole, path, ctx, t, 0, space) && Apart(c.all) && AllGood(c.all)
    requires Stored(m', whole', space) && DepthOf(m') == 0
    requires var exts := Kept(t.exts, c.from, c.to); whole' == Plug(Retied(ctx, path[0].at, exts), Tip(t.block, exts))
    ensures AtEnd(c, m', whole', 0, space)
        && Freed(c.all, c.from, c.to) == Freed(c.all[..j], c.from, c.to) + Freed(t.exts, c.from, c.to)
  {
    hide CtxSound, PlaceSound, Sound, Kept, Cuttable, Stored, Apart, AllGood;
    CutLeafWhole(c, j, m, whole, path, ctx, t, 0, space);
    CutLeafList(c, j, ctx, t.exts);
    assert c.all[..j + |t.exts|] == c.all;
  }

  lemma LeafRange(s: seq<Extent>, at: nat, from: nat, to: nat)
    requires Cuttable(s, at, from, to)
    ensures at < |s| && End(s[|s| - 1]) > 0 && from <= to
  {
    assert Good(s[|s| - 1]);
  }

  // ----- Termination of the walk -----

  /** The blocks to the right of a place. */
  ghost function Ahead(ctx: Ctx): nat {
    if ctx.Top? then 0 else |KidsBlocks(ctx.right)| + Ahead(ctx.up)
  }

  /** The blocks that the walk may still come to: below the entries from p on, and to the right. */
  ghost function Work(ctx: Ctx, t: Tree, p: int): nat {
    Ahead(ctx) + if t.Fork? && 0 <= p <= |t.kids| then |KidsBlocks(t.kids[p..])| else 0
  }

  lemma {:induction false} CorrectedAhead(ctx: Ctx, border: nat)
    ensures Ahead(Corrected(ctx, border)) == Ahead(ctx)
    decreases ctx
  {
    if !ctx.Top? && ctx.left == [] {
      CorrectedAhead(ctx.up, border);
    }
  }

  lemma RetiedAhead(ctx: Ctx, at: int, exts: seq<Extent>)
    ensures var c := Retied(ctx, at, exts);
            Ahead(c) == Ahead(ctx) && (!ctx.Top? ==> !c.Top? && |c.left| == |ctx.left|)
  {
    if exts != [] {
      CorrectedAhead(ctx, exts[0].first);
    }
  }

  lemma WorkUp(ctx: Ctx, t: Tree)
    requires !ctx.Top?
    ensures Work(ctx.up, Fill(ctx, t), |ctx.left| + 1) == Ahead(ctx)
  {
    assert Fill(ctx, t).kids[|ctx.left| + 1..] == ctx.right;
  }

  lemma WorkDropped(ctx: Ctx)
    requires !ctx.Top?
    ensures Work(DroppedCtx(ctx), Dropped(ctx), |ctx.left|) == Ahead(ctx)
  {
    assert Dropped(ctx).kids[|ctx.left|..] == ctx.right;
    CorrectedAhead(ctx.up, NextSlot(ctx));
  }

  lemma WorkDown(ctx: Ctx, t: Tree, p: nat)
    requires t.Fork? && p < |t.kids|
    ensures Work(Down(ctx, t, p), t.kids[p].tree, 0) < Work(ctx, t, p)
  {
    var u := t.kids[p].tree;
    assert t.kids[p..][1..] == t.kids[p + 1..];
    assert KidsBlocks(t.kids[p..]) == Blocks(u) + KidsBlocks(t.kids[p + 1..]);
    TopAndBelow(u);
    if u.Fork? {
      assert u.kids[0..] == u.kids;
    }
  }

  // ----- What is released -----

  lemma BalancedLeaf(c: Cut, j: nat, n: nat, m: Store, m': Store, r: seq<nat>, r': seq<nat>, freed: seq<nat>)
    requires j <= |c.all| && n <= |c.all| && Balanced(c, j, m, r)
        && Freed(c.all[..n], c.from, c.to) == Freed(c.all[..j], c.from, c.to) + freed
    requires m'.Keys == m.Keys && r' == r + freed
    ensures Balanced(c, n, m', r')
  {
    hide Freed;
    var f := Freed(c.all[..j], c.from, c.to);
    assert multiset(r + freed) == multiset(r) + multiset(freed);
    assert multiset(f + freed) == multiset(f) + multiset(freed);
    SumShift(multiset(r), multiset(m.Keys), c.before, multiset(f), multiset(freed));
  }

  lemma SumShift<T>(r: multiset<T>, k: multiset<T>, b: multiset<T>, f: multiset<T>, g: multiset<T>)
    requires r + k == b + f
    ensures (r + g) + k == b + (f + g)
  {
    assert (r + g) + k == (r + k) + g;
  }

  lemma BalancedDropped(c: Cut, j: nat, n: nat, m: Store, m': Store, r: seq<nat>, r': seq<nat>, freed: seq<nat>, b: nat)
    requires j <= |c.all| && n <= |c.all| && Balanced(c, j, m, r)
        && Freed(c.all[..n], c.from, c.to) == Freed(c.all[..j], c.from, c.to) + freed
    requires b in m && m'.Keys == m.Keys - {b} && r' == r + freed + [b]
    ensures Balanced(c, n, m', r')
  {
    hide Balanced, Freed;
    BalancedLeaf(c, j, n, m, m, r, r + freed, freed);
    BalancedGone(c, n, m, m', r + freed, r', b);
  }

  lemma BalancedGone(c: Cut, j: nat, m: Store, m': Store, r: seq<nat>, r': seq<nat>, b: nat)
    requires j <= |c.all| && Balanced(c, j, m, r) && b in m && m'.Keys == m.Keys - {b} && r' == r + [b]
    ensures Balanced(c, j, m', r')
  {
    OneMore(m'.Keys, b);
    assert m.Keys == m'.Keys + {b};
    assert multiset(r + [b]) == multiset(r) + multiset{b};
  }

  lemma BalancedSame(c: Cut, j: nat, n: nat, m: Store, r: seq<nat>)
    requires j <= |c.all| && n <= |c.all| && Balanced(c, j, m, r)
    requires Freed(c.all[..n], c.from, c.to) == Freed(c.all[..j], c.from, c.to) ||
             (n == |c.all| && Freed(c.all, c.from, c.to) == Freed(c.all[..j], c.from, c.to))
    ensures Balanced(c, n, m, r)
  {
    assert c.all[..|c.all|] == c.all;
  }

  lemma WalkFacts(c: Cut, j: nat, m: Store, whole: Tree, path: seq<Step>, i: nat, ctx: Ctx, t: Tree, d: nat, space: nat)
    requires AtIndex(c, j, m, whole, path, i, ctx, t, d, space)
    ensures |path| == d + 1 && 0 <= path[i].at <= |t.kids| && t.Fork? && path[i].block == t.block && i < d
    ensures t.block in m && m[t.block].Inner? && |m[t.block].idxs| == |t.kids|
    ensures forall k :: 0 <= k < |t.kids| ==> m[t.block].idxs[k] == Index(t.kids[k].key, t.kids[k].tree.block)
  {
    hide Sound, Kept, KidsSound;
    DownNode(m, whole, path, i, ctx, t, d, space);
    IndexSound(m, whole, path, i, ctx, t, d, space);
  }

  lemma LeafWork(c: Cut, j: nat, m: Store, whole: Tree, path: seq<Step>, ctx: Ctx, t: Tree, d: nat, space: nat)
    requires AtLeaf(c, j, m, whole, path, ctx, t, d, space)
    ensures |path| == d + 1 && Work(ctx, t, path[d].at) == Ahead(ctx) && j <= |c.all|
  {}

  // ----- The ends of the walk -----

  lemma FoundRange(m: Store, whole: Tree, path: seq<Step>, ctx: Ctx, t: Tree, b: nat, d: nat, space: nat)
    requires Stored(m, whole, space) && WellFormed(whole, d, space) && Found(m, whole, d, path, ctx, t, b)
    ensures var at, all := path[d].at, Exts(whole);
            && Apart(all) && AllGood(all) && -1 <= at < |t.exts|
            && (at < 0 ==> b !in MapOf(all))
            && (at >= 0 ==> (b in MapOf(all) <==> t.exts[at].first <= b < End(t.exts[at])) && 0 < Len(t.exts[at]))
            && (at >= 0 ==> |Pre(ctx)| + at < |all| && all[|Pre(ctx)| + at] == t.exts[at])
            && (at >= 0 && b in MapOf(all) ==> MapOf(all)[b] == PlaceOf(t.exts[at], b))
  {
    hide Sound, MapOf, Apart, Rep;
    ExtentsGood(whole, d, space);
    FoundInList(ctx, t, path[d].at, b, space);
    PositionDecides(Exts(whole), Position(ctx, path[d].at), b);
    if path[d].at >= 0 {
      GoodAt(Exts(whole), |Pre(ctx)| + path[d].at);
    }
  }

  lemma BeforeFound(all: seq<Extent>, pre: seq<Extent>, exts: seq<Extent>, post: seq<Extent>, at: nat, from: nat,
      to: nat)
    requires all == pre + exts + post && Apart(all) && AllGood(all) && at < |exts|
        && exts[at].first <= from < End(exts[at]) && from <= to
    requires exts[at].first < from ==> End(exts[at]) <= to + 1
    ensures Cuttable(exts, at, from, to) && Kept(pre, from, to) == pre && Freed(pre, from, to) == []
    ensures forall k :: |pre| + |exts| <= k < |all| ==> all[k].first > from
  {
    hide Kept, Freed, Good;
    var n := |pre| + at;
    assert all[n] == exts[at];
    assert forall k :: 0 <= k < |exts| ==> exts[k] == all[|pre| + k];
    assert forall k :: 0 <= k < |pre| ==> pre[k] == all[k];
    assert forall k :: 0 <= k < n ==> End(all[k]) <= all[n].first;
    assert forall k :: n < k < |all| ==> End(all[n]) <= all[k].first;
    KeptOutside(pre, from, to);
  }

  /** The walk starts at the leaf where the search for the first block ended. */
  lemma WalkStarts(c: Cut, m: Store, whole: Tree, path: seq<Step>, ctx: Ctx, t: Tree, released: seq<nat>, d: nat,
      space: nat)
    requires Stored(m, whole, space) && DepthOf(m) == d && WellFormed(whole, d, space)
        && Found(m, whole, d, path, ctx, t, c.from)
    requires c.all == Exts(whole) && c.from <= c.to && c.before == multiset(released) + multiset(m.Keys)
    requires var at := path[d].at;
             at >= 0 && t.exts[at].first <= c.from < End(t.exts[at])
               && (t.exts[at].first < c.from ==> End(t.exts[at]) <= c.to + 1)
    ensures |Pre(ctx)| <= |c.all| && AtLeaf(c, |Pre(ctx)|, m, whole, path, ctx, t, d, space)
        && Balanced(c, |Pre(ctx)|, m, released)
  {
    hide Sound, Cuttable, Kept, Freed, Apart, AllGood, Stored, Good, MapOf, PlaceOf, Blocks, Reached, LeafPos;
    FoundRange(m, whole, path, ctx, t, c.from, d, space);
    PlugExts(ctx, t);
    BeforeFound(c.all, Pre(ctx), t.exts, Post(ctx), path[d].at, c.from, c.to);
    FilledAround(ctx, t);
    assert c.all[..|Pre(ctx)|] == Pre(ctx) && c.all[|Pre(ctx)|..] == t.exts + Post(ctx);
  }

  lemma FilledAround(ctx: Ctx, t: Tree)
    requires Plug(ctx, t).Tip? || Filled(Plug(ctx, t))
    ensures CtxFilled(ctx)
  {
    PlugFilled(ctx, t);
    TipAtBottom(ctx, t);
  }

  /** An emptied root becomes the leaf of an empty file. */
  lemma RootReset(m: Store, m': Store, whole: Tree, d: nat, space: nat)
    requires Stored(m, whole, space) && DepthOf(m) == d && Sound(whole, d, 0, LOGICAL_LIMIT, ROOT_SPACE, space)
    requires (whole.Tip? && whole.exts == []) || (whole.Fork? && whole.kids == [])
    requires m' == m[ROOT := Leaf(ROOT_SPACE, [])]
    ensures Stored(m', Tip(ROOT, []), space) && m'.Keys == m.Keys && WellFormed(Tip(ROOT, []), 0, space)
        && Exts(whole) == []
  {
    TopAndBelow(whole);
    TopAndBelow(Tip(ROOT, []));
    assert m'.Keys == m.Keys;
  }

  lemma EndFormed(c: Cut, m: Store, whole: Tree, d: nat, space: nat)
    requires AtEnd(c, m, whole, d, space) && Apart(c.all) && AllGood(c.all) && c.from <= c.to
    ensures Apart(Exts(whole))
    ensures whole.Tip? || whole.kids != [] ==> WellFormed(whole, d, space)
    ensures ROOT in m && RootCount(m) == if whole.Tip? then |whole.exts| else |whole.kids|
  {
    hide Sound, Kept, AllGood;
    KeptApart(c.all, c.from, c.to, 0);
  }

  /** The number of entries in the root. */
  ghost function RootCount(m: Store): nat
    requires ROOT in m
  {
    match m[ROOT] case Leaf(_, exts) => |exts| case Inner(_, _, idxs) => |idxs|
  }

  lemma {:induction false} ReachedOn(ctx: Ctx, d: nat, b: nat, b': nat, space: nat)
    requires CtxSound(ctx, d, space) && Reached(ctx, b) && b <= b' < Hi(ctx)
    ensures Reached(ctx, b')
    decreases ctx
  {
    if !ctx.Top? {
      HiBelow(ctx, d, space);
      ReachedOn(ctx.up, d + 1, b, b', space);
    }
  }

  /** With the found extent cut short, the same path leads to where its tail belongs. */
  lemma FoundTail(m: Store, m': Store, whole: Tree, path: seq<Step>, ctx: Ctx, t: Tree, b: nat, b': nat, e: Extent,
      d: nat, space: nat)
    requires Stored(m, whole, space) && WellFormed(whole, d, space) && Found(m, whole, d, path, ctx, t, b)
        && path[d].at >= 0
    requires t.exts[path[d].at].first <= b <= b' < End(t.exts[path[d].at]) && e.first == t.exts[path[d].at].first
    requires t.block in m' && m'[t.block].Leaf? && m'[t.block].exts == t.exts[path[d].at := e]
    ensures var t' := Tip(t.block, t.exts[path[d].at := e]);
            Found(m', Plug(ctx, t'), d, path, ctx, t', b')
  {
    hide Sound, Stored, PathIs, CtxSound, Apart, AllGood, PlaceSound, MapOf, Good, Filled, CtxFilled, Plug;
    var at := path[d].at;
    FoundRange(m, whole, path, ctx, t, b, d, space);
    PlaceOrder(ctx, t, 0, space);
    FilledAround(ctx, t);
    PlugExts(ctx, t);
    TailBelow(Exts(whole), Pre(ctx), t.exts, Post(ctx), at);
    HiIsNext(ctx, 0, space);
    GoodAt(Exts(whole), |Pre(ctx)| + at);
    ReachedOn(ctx, 0, b, b', space);
  }

  lemma TailBelow(all: seq<Extent>, pre: seq<Extent>, exts: seq<Extent>, post: seq<Extent>, at: nat)
    requires all == pre + exts + post && Apart(all) && at < |exts|
    ensures at + 1 < |exts| ==> End(exts[at]) <= exts[at + 1].first
    ensures post != [] ==> End(exts[at]) <= post[0].first
  {
    assert all[|pre| + at] == exts[at];
    assert at + 1 < |exts| ==> all[|pre| + at + 1] == exts[at + 1];
    assert post != [] ==> all[|pre| + |exts|] == post[0];
  }

  lemma BalancedEnd(c: Cut, m: Store, released: seq<nat>)
    requires Balanced(c, |c.all|, m, released)
    ensures multiset(released) + multiset(m.Keys) == c.before + multiset(Freed(c.all, c.from, c.to))
  {
    assert c.all[..|c.all|] == c.all;
  }

  lemma FoundLeaf(m: Store, whole: Tree, path: seq<Step>, ctx: Ctx, t: Tree, b: nat, d: nat, space: nat)
    requires Stored(m, whole, space) && Found(m, whole, d, path, ctx, t, b)
    ensures whole == Plug(ctx, t) && t.Tip? && Level(ctx) == d && |path| == d + 1 && path[d].block == t.block
    ensures t.block in m && m[t.block].Leaf? && m[t.block].exts == t.exts
  {}

  lemma WellApart(t: Tree, d: nat, space: nat)
    requires WellFormed(t, d, space)
    ensures Apart(Exts(t))
  {}

  /** A search for a block that an extent covers finds that extent. */
  lemma FoundAt(m: Store, whole: Tree, path: seq<Step>, ctx: Ctx, t: Tree, n: nat, b: nat, d: nat, space: nat)
    requires Stored(m, whole, space) && WellFormed(whole, d, space) && Found(m, whole, d, path, ctx, t, b)
    requires n < |Exts(whole)| && Exts(whole)[n].first <= b < End(Exts(whole)[n])
    ensures path[d].at >= 0 && path[d].at < |t.exts| && |Pre(ctx)| + path[d].at == n
        && t.exts[path[d].at] == Exts(whole)[n]
  {
    hide Sound, Rep, MapOf;
    FoundRange(m, whole, path, ctx, t, b, d, space);
    FoundInList(ctx, t, path[d].at, b, space);
    var s := Exts(whole);
    assert n + 1 < |s| ==> End(s[n]) <= s[n + 1].first;
    ApartFirsts(s);
    PosUnique(s, Position(ctx, path[d].at), n, b);
  }

  lemma ApartFirsts(s: seq<Extent>)
    requires Apart(s) && AllGood(s)
    ensures Ascending(s)
  {
    forall i, j | 0 <= i < j < |s|
      ensures s[i].first < s[j].first
    {
      assert Good(s[i]) && End(s[i]) <= s[j].first;
    }
  }

  lemma FoundPosition(m: Store, whole: Tree, path: seq<Step>, ctx: Ctx, t: Tree, b: nat, d: nat, space: nat)
    requires Stored(m, whole, space) && WellFormed(whole, d, space) && Found(m, whole, d, path, ctx, t, b)
    ensures LeafPos(Exts(whole), Position(ctx, path[d].at), b)
  {
    hide Sound, Rep;
    FoundInList(ctx, t, path[d].at, b, space);
  }

  /** The extent around a mapped block maps all its blocks. */
  lemma RunMapped(s: seq<Extent>, n: nat, b: nat)
    requires Apart(s) && n < |s| && s[n].first <= b < End(s[n])
    ensures forall x :: b <= x < End(s[n]) ==>
        x in MapOf(s) && MapOf(s)[x] == Place(s[n].start + (b - s[n].first) + (x - b), !Unwritten(s[n].field))
  {
    forall x | b <= x < End(s[n])
      ensures x in MapOf(s) && MapOf(s)[x] == Place(s[n].start + (b - s[n].first) + (x - b), !Unwritten(s[n].field))
    {
      MapOfAt(s, n, x);
    }
  }
}
