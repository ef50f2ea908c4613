/** The extent tree operations of ext4fsd/ext4_extent.c on the blocks of one file's tree. */
module ExtentTree {
  import opened ExtentFields
  import opened ExtentMap
  import opened ExtentShape
  import opened ExtentPlaces
  import opened ExtentChanges
  import opened ExtentMerges
  import opened ExtentSplits
  import opened ExtentCuts
  import opened ExtentRemovals
  import opened ExtentConversions
  import opened ExtentMeaning

  /** ext4_ext_binsearch_idx */
  method BinSearchIdx(idxs: seq<Index>, block: nat) returns (at: nat)
    requires idxs != [] && forall i, j :: 0 <= i < j < |idxs| ==> idxs[i].first < idxs[j].first
    ensures at < |idxs| && (at == 0 || idxs[at].first <= block)
    ensures at + 1 < |idxs| ==> block < idxs[at + 1].first
  {
    var l, r := 1, |idxs| - 1;
    while l <= r
      invariant 1 <= l <= r + 1 <= |idxs|
      invariant l == 1 || idxs[l - 1].first <= block
      invariant r + 1 < |idxs| ==> block < idxs[r + 1].first
      decreases r - l
    {
      var m := l + (r - l) / 2;
      if block < idxs[m].first {
        r := m - 1;
      } else {
        l := m + 1;
      }
    }
    at := l - 1;
  }

  /** ext4_ext_binsearch: a null position in an empty leaf. */
  method BinSearch(exts: seq<Extent>, block: nat) returns (at: int)
    requires Ascending(exts)
    ensures LeafPos(exts, at, block)
  {
    if |exts| == 0 {
      return -1;
    }
    var l, r := 1, |exts| - 1;
    while l <= r
      invariant 1 <= l <= r + 1 <= |exts|
      invariant l == 1 || exts[l - 1].first <= block
      invariant r + 1 < |exts| ==> block < exts[r + 1].first
      decreases r - l
    {
      var m := l + (r - l) / 2;
      if block < exts[m].first {
        r := m - 1;
      } else {
        l := m + 1;
      }
    }
    at := l - 1;
  }

  /** The number of entries of a tree block. */
  function Used(n: Node): nat {
    match n case Leaf(_, exts) => |exts| case Inner(_, _, idxs) => |idxs|
  }

  class Inode {
    /** The entries that fit a tree block. */
    const space: nat
    /** The tree blocks by their numbers; the root lies in the inode. */
    var nodes: Store
    /** The blocks that the allocator may hand out. */
    var free: set<nat>
    /** The blocks given back to the allocator, in the order of the calls. */
    var released: seq<nat>
    ghost var tree: Tree

    /** An empty file: a root without entries, and tree blocks with room for as many entries of 12 bytes as
        fit behind a header of 12 bytes. */
    constructor (blockSize: nat, free: set<nat>)
      requires 1024 <= blockSize && ROOT !in free
      ensures Valid() && Map() == map[] && this.free == free && released == []
      ensures 12 + 12 * space <= blockSize < 12 + 12 * (space + 1)
    {
      this.space, this.free, released := (blockSize - 12) / 12, free, [];
      nodes := map[ROOT := Leaf(ROOT_SPACE, [])];
      tree := Tip(ROOT, []);
    }

    function Depth(): nat
      requires ROOT in nodes
      reads this
    {
      DepthOf(nodes)
    }

    ghost predicate Valid()
      reads this
    {
      && 84 <= space && Stored(nodes, tree, space) && WellFormed(tree, Depth(), space)
      && free !! nodes.Keys
    }

    /** What the file's tree maps. */
    ghost function Map(): map<nat, Place>
      reads this
    {
      MapOf(Exts(tree))
    }

    /** The file's tree is what its blocks say: the map is read off their extents, every block is in order,
        and no free block is one of them. */
    lemma Meaning()
      requires Valid()
      ensures Exts(tree) == Read(nodes, 0, Depth()) && forall b :: b in nodes ==>
          b !in free && BlockRight(nodes, b, space)
      ensures forall b: nat :: MapRight(Exts(tree), Map(), b)
    {
      hide MapOf, Sound, Filled, Rep, BlockRight, Read, MapRight;
      StoreMeans(nodes, tree, space);
      WellApart(tree, Depth(), space);
      forall b: nat ensures MapRight(Exts(tree), Map(), b) {
        MapMeans(Exts(tree), b);
      }
    }

    /** ext4_find_extent */
    method Find(block: nat) returns (path: seq<Step>, ghost ctx: Ctx, ghost t: Tree)
      requires Stored(nodes, tree, space) && WellFormed(tree, Depth(), space)
      ensures Found(nodes, tree, Depth(), path, ctx, t, block)
    {
      var i, b := Depth(), ROOT;
      path, ctx, t := [], Top, tree;
      while i != 0
        invariant 0 <= i && i + Level(ctx) == Depth() && |path| == Level(ctx)
        invariant Plug(ctx, t) == tree && t.block == b && (ctx.Top? || Filled(t))
        invariant PathIs(path, ctx, 0) && Reached(ctx, block)
      {
        SearchFacts(nodes, tree, ctx, t, i, space);
        var at := BinSearchIdx(nodes[b].idxs, block);
        Descend(path, ctx, t, at, block);
        path := path + [Step(b, at)];
        b := nodes[b].idxs[at].leaf;
        i := i - 1;
        ctx, t := Down(ctx, t, at), t.kids[at].tree;
      }
      SearchFacts(nodes, tree, ctx, t, 0, space);
      var at := BinSearch(nodes[b].exts, block);
      PathFrame(path, path + [Step(b, at)], ctx, 0);
      path := path + [Step(b, at)];
    }

    /** ext4_ext_next_allocated_block */
    method NextAllocated(path: seq<Step>, ghost ctx0: Ctx, ghost t: Tree, ghost block: nat) returns (next: nat)
      requires Stored(nodes, tree, space) && WellFormed(tree, Depth(), space)
      requires Found(nodes, tree, Depth(), path, ctx0, t, block)
      ensures next == NextFirst(Exts(tree), Position(ctx0, path[Depth()].at))
    {
      FoundInList(ctx0, t, path[Depth()].at, block, space);
      var depth := Depth();
      if depth == 0 && path[0].at < 0 {
        return EXT_MAX_BLOCKS;
      }
      ghost var ctx, sub := ctx0, t;
      while depth >= 0
        invariant -1 <= depth <= Depth()
        invariant Level(ctx) == (if depth == Depth() then depth else depth + 1) && Plug(ctx, sub) == tree
        invariant PathIs(path, ctx, 0) && NextKey(ctx) == NextKey(ctx0)
        invariant depth < Depth() ==> path[Depth()].at < 0 || path[Depth()].at + 1 >= |t.exts|
        decreases depth
      {
        if depth == Depth() {
          if path[depth].at >= 0 && path[depth].at + 1 < |nodes[path[depth].block].exts| {
            return nodes[path[depth].block].exts[path[depth].at + 1].first;
          }
        } else {
          PlaceFacts(nodes, tree, ctx, sub, Depth() - Level(ctx), space);
          if path[depth].at + 1 < |nodes[path[depth].block].idxs| {
            return nodes[path[depth].block].idxs[path[depth].at + 1].first;
          }
          ctx, sub := ctx.up, Fill(ctx, sub);
        }
        depth := depth - 1;
      }
      next := EXT_MAX_BLOCKS;
    }

    method SetKey(step: Step, border: nat, ghost ctx: Ctx, ghost t: Tree, ghost d: nat)
      requires Stored(nodes, tree, space) && tree == Plug(ctx, t) && !ctx.Top? && d + Level(ctx) == Depth()
      requires step == Step(ctx.block, |ctx.left|)
      modifies this`nodes, this`tree
      ensures Stored(nodes, tree, space) && tree == Plug(ctx.(key := border), t) && Depth() == old(Depth())
      ensures nodes.Keys == old(nodes.Keys)
    {
      FrameNode(nodes, ctx, t, d, space);
      ghost var m := nodes;
      nodes := nodes[step.block := Rekey(nodes[step.block], step.at, border)];
      Rekeyed(m, nodes, ctx, t, d, border, space);
      tree := Plug(ctx.(key := border), t);
    }

    /** The loops of ext4_ext_correct_indexes and ext4_ext_remove_idx: the key of a place at level k changes,
        and so do those above as long as they are the first of their block. */
    method PropagateKey(path: seq<Step>, k0: nat, border: nat, ghost ctx0: Ctx, ghost t: Tree)
      requires Stored(nodes, tree, space) && tree == Plug(ctx0, t) && 0 < k0 == Level(ctx0) <= Depth()
      requires |path| == Depth() + 1 && PathIs(path, ctx0, 0)
      modifies this`nodes, this`tree
      ensures Stored(nodes, tree, space) && tree == Plug(Corrected(ctx0, border), t)
      ensures Depth() == old(Depth()) && nodes.Keys == old(nodes.Keys)
    {
      var depth, k := Depth(), k0 - 1;
      SetKey(path[k], border, ctx0, t, depth - k0);
      ghost var ctx, sub := ctx0.up, Fill(ctx0.(key := border), t);
      while k > 0
        invariant Stored(nodes, tree, space) && Depth() == depth && 0 <= k < depth && nodes.Keys == old(nodes.Keys)
        invariant tree == Plug(ctx, sub) && Level(ctx) == k && PathIs(path, ctx, 0)
        invariant Plug(Corrected(ctx0, border), t) == Plug(if path[k].at == 0 then Corrected(ctx, border) else ctx, sub)
      {
        if path[k].at != 0 {
          break;
        }
        k := k - 1;
        SetKey(path[k], border, ctx, sub, depth - k - 1);
        ctx, sub := ctx.up, Fill(ctx.(key := border), sub);
      }
    }

    /** ext4_ext_correct_indexes */
    method CorrectIndexes(path: seq<Step>, ghost ctx: Ctx, ghost t: Tree)
      requires Stored(nodes, tree, space) && tree == Plug(ctx, t) && t.Tip? && Level(ctx) == Depth()
      requires |path| == Depth() + 1 && PathIs(path, ctx, 0) && path[Depth()].block == t.block
      requires 0 <= path[Depth()].at < |t.exts|
      modifies this`nodes, this`tree
      ensures Stored(nodes, tree, space) && tree == Plug(Retied(ctx, path[old(Depth())].at, t.exts), t)
      ensures Depth() == old(Depth()) && nodes.Keys == old(nodes.Keys)
    {
      var depth := Depth();
      PlaceFacts(nodes, tree, ctx, t, 0, space);
      if depth == 0 || path[depth].at != 0 {
        return;
      }
      PropagateKey(path, depth, nodes[path[depth].block].exts[0].first, ctx, t);
    }

    /** ext4_ext_insert_leaf */
    method InsertLeaf(path: seq<Step>, newext: Extent, noCombine: bool, ghost ctx: Ctx, ghost t: Tree)
      returns (ok: bool, needSplit: bool)
      requires Stored(nodes, tree, space) && tree == Plug(ctx, t) && t.Tip? && Level(ctx) == Depth()
      requires |path| == Depth() + 1 && PathIs(path, ctx, 0) && path[Depth()].block == t.block
      requires -1 <= path[Depth()].at < |t.exts| <= Cap(ctx, space)
      modifies this`nodes, this`tree
      ensures Stored(nodes, tree, space) && Depth() == old(Depth()) && nodes.Keys == old(nodes.Keys)
      ensures var at, exts := path[old(Depth())].at, t.exts;
              if at >= 0 && newext.first == exts[at].first then
                !ok && !needSplit && nodes == old(nodes) && tree == old(tree)
              else if at >= 0 && !noCombine && Merged(exts[at], newext).Some? then
                ok && !needSplit && tree == Plug(ctx, Tip(t.block, exts[at := Merged(exts[at], newext).value]))
              else if |exts| == Cap(ctx, space) then
                !ok && needSplit && nodes == old(nodes) && tree == old(tree)
              else
                var exts' := Inserted(exts, PutIndex(exts, at, newext), newext);
                ok && !needSplit && tree == Plug(Retied(ctx, at, exts'), Tip(t.block, exts'))
    {
      PlaceFacts(nodes, tree, ctx, t, 0, space);
      ghost var m := nodes;
      var depth := Depth();
      var b, at := path[depth].block, path[depth].at;
      var node := nodes[b];
      ok, needSplit := false, false;
      if at >= 0 && newext.first == node.exts[at].first {
        return;
      }
      if at >= 0 && !noCombine {
        var merged := Merged(node.exts[at], newext);
        if merged.Some? {
          nodes := nodes[b := node.(exts := node.exts[at := merged.value])];
          TipRewritten(m, nodes, ctx, t, node.exts[at := merged.value], space);
          tree := Plug(ctx, Tip(b, node.exts[at := merged.value]));
          return true, false;
        }
      }
      if |node.exts| == node.max {
        return false, true;
      }
      var ex := if at < 0 then 0 else if newext.first > node.exts[at].first then at + 1 else at;
      var exts := node.exts[..ex] + [newext] + node.exts[ex..];
      nodes := nodes[b := node.(exts := exts)];
      TipRewritten(m, nodes, ctx, t, exts, space);
      tree := Plug(ctx, Tip(b, exts));
      var path' := path[depth := Step(b, if at < 0 then 0 else at)];
      PathFrame(path, path', ctx, 0);
      CorrectIndexes(path', ctx, Tip(b, exts));
      ok := true;
    }

    /** ext4_new_meta_blocks for a tree block: any free block will do. */
    method AllocBlock() returns (b: nat)
      requires free != {}
      modifies this`free
      ensures b in old(free) && free == old(free) - {b}
    {
      b :| b in free;
      free := free - {b};
    }

    /** ext4_ext_insert_index after the entry of a split place, whose block has room. */
    method InsertIndex(step: Step, key: nat, leaf: nat, ghost ctx: Ctx, ghost l: Tree, ghost r: Tree, ghost d: nat)
      returns (ok: bool)
      requires Floating(nodes, Plug(ctx, l), r, d, space) && SplitAt(ctx, l, key, r, d, space)
          && d + Level(ctx) == Depth()
      requires !ctx.Top? && |ctx.left| + 1 + |ctx.right| < Cap(ctx.up, space)
      requires step == Step(ctx.block, |ctx.left|) && leaf == r.block
      modifies this`nodes
      ensures ok && Stored(nodes, Plug(ctx.up, Both(ctx, l, key, r)), space) && Depth() == old(Depth())
      ensures nodes.Keys == old(nodes.Keys)
    {
      hide Floating, SplitAt, Rep, Stored, KidsRep, CtxRep, Entries, Blocks, KidsBlocks, CtxBlocks, Both, Plug;
      FloatingFacts(nodes, ctx, l, r, d, space);
      EntriesLength(ctx.left);
      EntriesLength(ctx.right);
      KeyOrder(ctx, l, key, r, d, space);
      Widened(Entries(ctx.left), Index(ctx.key, l.block), Entries(ctx.right), Index(key, leaf));
      ghost var m := nodes;
      var node := nodes[step.block];
      if key == node.idxs[step.at].first || |node.idxs| == node.max {
        return false;
      }
      var ix := if key > node.idxs[step.at].first then step.at + 1 else step.at;
      nodes := nodes[step.block := node.(idxs := node.idxs[..ix] + [Index(key, leaf)] + node.idxs[ix..])];
      IndexInserted(m, nodes, ctx, l, r, key, d, space);
      ok := true;
    }

    /** ext4_ext_split_node at the leaf: the entries after the current one move to a new block. */
    method SplitLeaf(step: Step, ghost ctx: Ctx, ghost t: Tree) returns (nb: nat, moved: nat)
      requires Stored(nodes, Plug(ctx, t), space) && Level(ctx) == Depth() && t.Tip? && !ctx.Top?
      requires step.block == t.block && 0 <= step.at < |t.exts| == space && free !! nodes.Keys && free != {}
      modifies this`nodes, this`free
      ensures Floating(nodes, Plug(ctx, Tip(t.block, t.exts[..step.at + 1])), Tip(nb, t.exts[step.at + 1..]), 0, space)
      ensures ROOT in nodes && Depth() == old(Depth()) && moved == |t.exts| - step.at - 1
      ensures nb in old(free) && free == old(free) - {nb} && nodes.Keys == old(nodes.Keys) + {nb}
    {
      hide Floating, Rep;
      PlaceFacts(nodes, Plug(ctx, t), ctx, t, 0, space);
      LeafFacts(nodes, ctx, t, space);
      ghost var m := nodes;
      nb := AllocBlock();
      var node := nodes[step.block];
      moved := node.max - 1 - step.at;
      nodes := nodes[step.block := node.(exts := node.exts[..step.at + 1])];
      ghost var m1 := nodes;
      nodes := nodes[nb := Leaf(space, node.exts[step.at + 1..])];
      LeafSplit(m, m1, nodes, ctx, t, node.exts[..step.at + 1], node.exts[step.at + 1..], nb, space);
    }

    /** ext4_ext_split_node at an index block: the entries after the current one move to a new block,
        after one for the new part below. */
    method SplitIndex(step: Step, key: nat, child: nat, ghost ctx: Ctx, ghost l: Tree, ghost r: Tree, ghost d: nat)
      returns (nb: nat)
      requires Floating(nodes, Plug(ctx, l), r, d, space) && d + Level(ctx) == Depth() && !ctx.Top? && !ctx.up.Top?
      requires FrameFull(ctx, space) && step == Step(ctx.block, |ctx.left|) && child == r.block
      requires free !! nodes.Keys && free != {}
      modifies this`nodes, this`free
      ensures Floating(nodes, Plug(ctx.up, LeftHalf(ctx, l)), RightHalf(ctx, nb, key, r), d + 1, space)
      ensures ROOT in nodes && Depth() == old(Depth())
      ensures nb in old(free) && free == old(free) - {nb} && nodes.Keys == old(nodes.Keys) + {nb}
    {
      hide Floating, Rep, KidsRep, CtxRep, Entries, Blocks, KidsBlocks, CtxBlocks;
      FloatingFacts(nodes, ctx, l, r, d, space);
      EntriesLength(ctx.left);
      Halfway(Entries(ctx.left), Index(ctx.key, l.block), Entries(ctx.right));
      ghost var m := nodes;
      nb := AllocBlock();
      var node := nodes[step.block];
      nodes := nodes[step.block := node.(idxs := node.idxs[..step.at + 1])]
                    [nb := Inner(node.depth, space, [Index(key, child)] + node.idxs[step.at + 1..])];
      IndexSplit(m, nodes, ctx, l, r, key, nb, d, space);
    }

    /** The first step of ext4_ext_split_node: the leaf in two, and the key between the halves. */
    method HalveLeaf(path: seq<Step>, newext: Extent, ghost ctx: Ctx, ghost t: Tree)
      returns (key: nat, npath: seq<Step>, ghost h: Halves)
      requires Stored(nodes, tree, space) && tree == Plug(ctx, t) && Aimed(path, ctx, t, newext.first, Depth(), space)
      requires newext.first < LOGICAL_LIMIT && ROOT_SPACE <= space && 1 <= Depth() < |path| && t.Tip?
      requires 0 <= path[Depth()].at < |t.exts| && t.exts[path[Depth()].at].first != newext.first
      requires |t.exts| == space && free !! nodes.Keys && free != {}
      modifies this`nodes, this`free
      ensures ROOT in nodes && Depth() == old(Depth()) && |npath| == 1 && h.ctx == ctx
      ensures Floating(nodes, Plug(h.ctx, h.l), h.r, 0, space)
      ensures Halved(h, key, newext.first, old(Exts(tree)), 0, space) && WaysDown(h, path, npath, Depth())
      ensures var ex, nb := path[Depth()].at, npath[0].block;
        && h.leafL == Tip(t.block, t.exts[..ex + 1]) && h.leafR == Tip(nb, t.exts[ex + 1..])
        && (if h.leafR.exts == [] then key == newext.first && npath[0].at == -1
            else newext.first < key && LeafPos(h.leafL.exts, ex, newext.first))
        && nb in old(free) && free == old(free) - {nb} && nodes.Keys == old(nodes.Keys) + {nb}
    {
      hide Floating, Halved, WaysDown, Rep, SplitAt, CtxSound, Sound, PathIs, Reached, Filled, CtxFilled, Exts,
        PlaceSound, Aimed;
      hide Plug, LeafPos, Blocks;
      var depth := Depth();
      AimedFacts(path, ctx, t, newext.first, depth, space);
      var ex := path[depth].at;
      LeafFacts(nodes, ctx, t, space);
      var leaf := nodes[path[depth].block];
      key := if ex + 1 != leaf.max then leaf.exts[ex + 1].first else newext.first;
      NotAtTop(ctx, depth);
      var nb, moved := SplitLeaf(path[depth], ctx, t);
      LeafHalved(ctx, t, ex, key, newext.first, nb, path, depth, space);
      npath := [Step(nb, if moved != 0 then 0 else -1)];
      ghost var leafL, leafR := Tip(t.block, t.exts[..ex + 1]), Tip(nb, t.exts[ex + 1..]);
      h := Halves(ctx, leafL, leafR, Top, Top, leafL, leafR);
    }

    lemma NotAtTop(ctx: Ctx, d: nat)
      requires Level(ctx) == d > 0
      ensures !ctx.Top?
    {}

    /** ext4_ext_split_node: every block from the leaf up to level at splits after its current entry, and
        the block above level at takes an entry for the new part. */
    method SplitNode(path: seq<Step>, at: nat, newext: Extent, ghost ctx0: Ctx, ghost t: Tree)
      returns (insRight: bool, path': seq<Step>, ghost ctx': Ctx, ghost t': Tree)
      requires Stored(nodes, tree, space) && tree == Plug(ctx0, t) && Aimed(path, ctx0, t, newext.first, Depth(), space)
      requires newext.first < LOGICAL_LIMIT && ROOT_SPACE <= space
      requires 1 <= at <= Depth() && 0 <= path[Depth()].at && t.exts[path[Depth()].at].first != newext.first
      requires |t.exts| == space && FullUp(ctx0, Depth() - at, space)
      requires RoomUp(ctx0, Depth() - at, space)
      requires free !! nodes.Keys && |free| > Depth()
      modifies this`nodes, this`free, this`tree
      ensures Stored(nodes, tree, space) && Depth() == old(Depth())
      ensures tree == Plug(ctx', t') && Aimed(path', ctx', t', newext.first, Depth(), space)
      ensures Exts(tree) == old(Exts(tree)) && |t'.exts| < space
      ensures t'.exts == [] || t'.exts[path'[Depth()].at] == t.exts[path[Depth()].at]
      ensures free <= old(free) && nodes.Keys == old(nodes.Keys) + (old(free) - free)
      ensures |free| >= |old(free)| - Depth()
    {
      hide Floating, Halved, WaysDown, Rep, SplitAt, CtxSound, Sound, PathIs, Reached, Filled, CtxFilled, RoomUp,
        FullUp, Exts, PlaceSound, Aimed, Plug, LeafPos, Blocks, DepthOf, Level, Cap;
      var depth := Depth();
      AimedFacts(path, ctx0, t, newext.first, depth, space);
      ghost var all := Exts(tree);
      var key, npath;
      ghost var h;
      key, npath, h := HalveLeaf(path, newext, ctx0, t);
      ghost var nb := npath[0].block;
      npath, h := SplitUp(path, at, key, newext.first, npath, ctx0, h, all);
      TakenOnce(old(nodes.Keys), old(free), nb, free);
      insRight, path', ctx', t' := JoinSplit(path, at, key, newext.first, npath, h, all, depth - at);
    }

    /** The loop of ext4_ext_split_node over the index blocks. */
    method SplitUp(path: seq<Step>, at: nat, key: nat, first: nat, npath0: seq<Step>, ghost ctx0: Ctx,
        ghost h0: Halves, ghost all: seq<Extent>)
      returns (npath: seq<Step>, ghost h: Halves)
      requires ROOT in nodes && 1 <= at <= Depth() && |path| == Depth() + 1 && |npath0| == 1 && ROOT_SPACE <= space
      requires Floating(nodes, Plug(h0.ctx, h0.l), h0.r, 0, space) && Halved(h0, key, first, all, 0, space)
      requires WaysDown(h0, path, npath0, Depth()) && h0.ctx == ctx0
      requires FullUp(ctx0, Depth() - at, space) && RoomUp(ctx0, Depth() - at, space)
      requires free !! nodes.Keys && |free| >= Depth()
      modifies this`nodes, this`free
      ensures ROOT in nodes && Depth() == old(Depth()) && |npath| == Depth() - at + 1
          && npath[Depth() - at] == npath0[0]
      ensures Floating(nodes, Plug(h.ctx, h.l), h.r, Depth() - at, space)
          && Halved(h, key, first, all, Depth() - at, space)
      ensures WaysDown(h, path, npath, at) && h.leafL == h0.leafL && h.leafR == h0.leafR
      ensures !h.ctx.Top? && |h.ctx.left| + 1 + |h.ctx.right| < Cap(h.ctx.up, space)
      ensures free <= old(free) && nodes.Keys == old(nodes.Keys) + (old(free) - free)
      ensures |free| >= |old(free)| - Depth() + 1
    {
      hide Floating, Halved, WaysDown, Rep, RoomUp, FullUp, Plug, Sound, Filled, Exts;
      var depth := Depth();
      WaysLevel(h0, path, npath0, depth);
      npath, h := npath0, h0;
      var i := depth - 1;
      while i >= at
        invariant at - 1 <= i < depth && ROOT in nodes && Depth() == depth
        invariant Floating(nodes, Plug(h.ctx, h.l), h.r, depth - 1 - i, space)
            && Halved(h, key, first, all, depth - 1 - i, space)
        invariant WaysDown(h, path, npath, i + 1) && |npath| == depth - i && npath[depth - i - 1] == npath0[0]
        invariant h.leafL == h0.leafL && h.leafR == h0.leafR && h.ctx == UpBy(ctx0, depth - 1 - i)
        invariant |free| >= |old(free)| - (depth - 1 - i)
        invariant free <= old(free) && |free| > i && nodes.Keys == old(nodes.Keys) + (old(free) - free)
            && free !! nodes.Keys
      {
        StepFacts(h, path, npath, i + 1, ctx0, depth - 1 - i, depth - at, space);
        var b := SplitIndex(path[i], key, npath[0].block, h.ctx, h.l, h.r, depth - 1 - i);
        NextWaysDown(h, path, npath, i + 1, b, key);
        NextHalved(h, key, first, all, b, depth - 1 - i, space);
        h := Next(h, b, key);
        npath := [Step(b, 0)] + npath;
        i := i - 1;
      }
      StepFacts(h, path, npath, i + 1, ctx0, depth - 1 - i, depth - at, space);
    }

    /** The end of ext4_ext_split_node: the new part enters the block above. */
    method JoinSplit(path: seq<Step>, at: nat, key: nat, first: nat, npath: seq<Step>, ghost h: Halves,
        ghost all: seq<Extent>, ghost d: nat)
      returns (insRight: bool, path': seq<Step>, ghost ctx': Ctx, ghost t': Tree)
      requires Floating(nodes, Plug(h.ctx, h.l), h.r, d, space) && d + at == Depth() && at > 0 && !h.ctx.Top?
      requires Halved(h, key, first, all, d, space) && WaysDown(h, path, npath, at)
      requires |npath| == d + 1 && |path| == at + d + 1
      requires |h.ctx.left| + 1 + |h.ctx.right| < Cap(h.ctx.up, space)
      requires h.leafL.Tip? && h.leafR.Tip? && h.leafL.block == path[at + d].block && h.leafR.block == npath[d].block
      requires if h.leafR.exts == [] then key <= first && npath[d].at == -1
               else first < key && LeafPos(h.leafL.exts, path[at + d].at, first)
      modifies this`nodes, this`tree
      ensures Stored(nodes, tree, space) && Depth() == old(Depth()) && nodes.Keys == old(nodes.Keys)
      ensures tree == Plug(ctx', t') && Aimed(path', ctx', t', first, Depth(), space)
      ensures Exts(tree) == all && t' == if insRight then h.leafR else h.leafL
      ensures insRight == (h.leafR.exts == []) && (!insRight ==> path' == path)
    {
      hide Floating, Halved, Rep, CtxSound, Sound, Reached, Filled, CtxFilled, Exts, Aimed, Joined;
      insRight := first >= key;
      BothExts(h, key, first, all, d, space);
      BothPlugs(h, key, path, npath, at);
      WaysFacts(h, path, npath, at);
      var ok := InsertIndex(path[at - 1], key, npath[0].block, h.ctx, h.l, h.r, d);
      tree := Plug(h.ctx.up, Both(h.ctx, h.l, key, h.r));
      if insRight {
        RightAimed(h, key, first, all, path, npath, at, d, space);
        path' := path[..at - 1] + [Step(path[at - 1].block, path[at - 1].at + 1)] + npath;
        ctx', t' := RightCtx(h, key), h.leafR;
      } else {
        LeftAimed(h, key, first, all, path, npath, at, d, space);
        path', ctx', t' := path, LeftCtx(h, key), h.leafL;
      }
    }

    /** ext4_ext_grow_indepth: the root's entries move to a new block and every leaf gets one level deeper. */
    method GrowIndepth() returns (nb: nat)
      requires Stored(nodes, tree, space) && WellFormed(tree, Depth(), space) && Filled(tree) && ROOT_SPACE <= space
      requires free !! nodes.Keys && free != {}
      modifies this`nodes, this`free, this`tree
      ensures Stored(nodes, tree, space) && Depth() == old(Depth()) + 1 && WellFormed(tree, Depth(), space)
      ensures Exts(tree) == old(Exts(tree)) && tree == Grown(old(tree), nb) && Filled(tree)
      ensures nb in old(free) && free == old(free) - {nb} && nodes.Keys == old(nodes.Keys) + {nb}
    {
      hide Apart, Sound;
      ghost var m := nodes;
      nb := AllocBlock();
      var root := nodes[ROOT];
      var first := if root.Leaf? then root.exts[0].first else root.idxs[0].first;
      nodes := nodes[nb := root.(max := space)];
      nodes := nodes[ROOT := Inner(if root.Leaf? then 1 else root.depth + 1, ROOT_SPACE, [Index(first, nb)])];
      GrownStored(m, nodes, tree, nb, space);
      GrownWellFormed(tree, nb, DepthOf(m), space);
      tree := Grown(tree, nb);
    }

    /** The search of ext4_ext_insert_extent for a block with room, from the leaf up; -1 if there is none. */
    method FindFree(path: seq<Step>, ghost ctx: Ctx, ghost t: Tree) returns (i: int)
      requires Stored(nodes, Plug(ctx, t), space) && t.Tip? && Level(ctx) == Depth() && PathIs(path, ctx, 0)
      requires |path| == Depth() + 1 && path[Depth()].block == t.block && |t.exts| == Cap(ctx, space)
      requires CtxSound(ctx, 0, space)
      ensures -1 <= i < Depth() && FullUp(ctx, Depth() - 1 - i, space)
      ensures i >= 0 ==> RoomUp(ctx, Depth() - 1 - i, space)
    {
      hide PathIs, CtxSound, Rep;
      var depth := Depth();
      LeafFacts(nodes, ctx, t, space);
      i := depth;
      while i >= 0 && Used(nodes[path[i].block]) == nodes[path[i].block].max
        invariant -1 <= i <= depth && (i < depth ==> FullUp(ctx, depth - 1 - i, space))
        invariant i >= 0 ==> path[i].block in nodes
        invariant 0 <= i < depth ==> !UpBy(ctx, depth - 1 - i).Top?
        invariant 0 <= i < depth ==>
          (Used(nodes[path[i].block]) == nodes[path[i].block].max <==> FrameFull(UpBy(ctx, depth - 1 - i), space))
        invariant i == depth ==> Used(nodes[path[i].block]) == nodes[path[i].block].max
      {
        if i < depth {
          FullMore(ctx, depth - 1 - i, space);
        }
        i := i - 1;
        if i >= 0 {
          ScanFacts(nodes, path, ctx, t, depth - 1 - i, space);
        }
      }
      if i >= 0 {
        SizeUp(ctx, 0, depth - 1 - i, space);
      }
    }

    /** The part of ext4_ext_insert_extent after a full leaf: a new level when every block is full, and
        splits from the leaf up to the first block with room. */
    method MakeRoom(path0: seq<Step>, newext: Extent, ghost ctx0: Ctx, ghost t0: Tree)
      returns (path: seq<Step>, ghost ctx: Ctx, ghost t: Tree)
      requires Stored(nodes, tree, space) && WellFormed(tree, Depth(), space) && tree == Plug(ctx0, t0) && 84 <= space
      requires Aimed(path0, ctx0, t0, newext.first, Depth(), space) && newext.first < LOGICAL_LIMIT
      requires 0 <= path0[Depth()].at && t0.exts[path0[Depth()].at].first != newext.first
          && |t0.exts| == Cap(ctx0, space)
      requires free !! nodes.Keys && |free| >= Depth() + 3
      modifies this`nodes, this`free, this`tree
      ensures Stored(nodes, tree, space) && tree == Plug(ctx, t)
      ensures Aimed(path, ctx, t, newext.first, Depth(), space) && |t.exts| < Cap(ctx, space)
      ensures t.exts == [] || t.exts[path[Depth()].at] == t0.exts[path0[old(Depth())].at]
      ensures Exts(tree) == old(Exts(tree))
      ensures free <= old(free) && nodes.Keys == old(nodes.Keys) + (old(free) - free)
      ensures |free| >= |old(free)| - old(Depth()) - 2 && Depth() <= old(Depth()) + 1
    {
      hide Sound, CtxSound, Rep, Apart, Filled, PathIs, Reached, Aimed, FullUp, RoomUp, Exts, Plug, WellFormed;
      var depth := Depth();
      AimedFacts(path0, ctx0, t0, newext.first, depth, space);
      var i := FindFree(path0, ctx0, t0);
      var level := depth - i;
      path, ctx, t := path0, ctx0, t0;
      if i < 0 {
        path, ctx, t := GrowAndFind(path0, newext, ctx0, t0);
        level := level - 1;
        depth := depth + 1;
      }
      AimedFacts(path, ctx, t, newext.first, depth, space);
      if level > 0 {
        var insRight;
        ghost var free1 := free;
        insRight, path, ctx, t := SplitNode(path, depth - (level - 1), newext, ctx, t);
        TakenTwice(old(nodes.Keys), old(free), free1, free);
        AimedFacts(path, ctx, t, newext.first, depth, space);
      }
    }

    /** Every block on the path is full: a new level, and the path in the deeper tree. */
    method GrowAndFind(path0: seq<Step>, newext: Extent, ghost ctx0: Ctx, ghost t0: Tree)
      returns (path: seq<Step>, ghost ctx: Ctx, ghost t: Tree)
      requires Stored(nodes, tree, space) && WellFormed(tree, Depth(), space) && tree == Plug(ctx0, t0) && 84 <= space
      requires Aimed(path0, ctx0, t0, newext.first, Depth(), space)
      requires |t0.exts| == Cap(ctx0, space) && FullUp(ctx0, Depth(), space)
      requires free !! nodes.Keys && free != {}
      modifies this`nodes, this`free, this`tree
      ensures Stored(nodes, tree, space) && WellFormed(tree, Depth(), space) && tree == Plug(ctx, t)
      ensures Depth() == old(Depth()) + 1 && Aimed(path, ctx, t, newext.first, Depth(), space)
      ensures t.exts == t0.exts && path[Depth()].at == path0[old(Depth())].at
      ensures old(Depth()) > 0 ==> FullUp(ctx, old(Depth()) - 1, space) && RoomUp(ctx, old(Depth()) - 1, space)
      ensures Exts(tree) == old(Exts(tree)) && |free| == |old(free)| - 1 && !ctx.Top?
      ensures free <= old(free) && nodes.Keys == old(nodes.Keys) + (old(free) - free)
    {
      hide Sound, CtxSound, Rep, Apart, PathIs, Exts, Plug, LeafPos, Reached, PlaceSound, CtxFilled;
      ghost var whole := tree;
      PlugFilled(ctx0, t0);
      var nb := GrowIndepth();
      path, ctx, t := Find(newext.first);
      FoundAimed(nodes, tree, path, ctx, t, newext.first, Depth(), space);
      GrownPath(whole, nb, ctx0, t0, ctx, t, newext.first, space);
      LeafAscending(ctx0, t0, space);
      PosUnique(t0.exts, path0[Depth() - 1].at, path[Depth()].at, newext.first);
      if !ctx0.Top? {
        GrownFull(ctx0, nb, FirstKey(whole), space);
      }
    }

    /** What ext4_ext_insert_extent makes of a tree with the extents of tree0, when the search for the new
        extent ended at position at of that list. */
    ghost predicate InsertOutcome(nodes0: Store, tree0: Tree, free0: set<nat>, at: int, newext: Extent,
        noCombine: bool, ok: bool, k: nat)
      reads this
    {
      var s := Exts(tree0);
      if StartsAt(s, at, newext.first) then
        !ok && nodes == nodes0 && tree == tree0 && free == free0
      else if !noCombine && MergedAt(s, at, newext).Some? then
        && ok && Stored(nodes, tree, space) && Exts(tree) == s[at := MergedAt(s, at, newext).value]
        && (WellFormed(tree, Depth(), space)
            <==> CanAppend(s[at], newext) || (Depth() == 0 && Good(MergedAt(s, at, newext).value)))
      else
        && ok && Stored(nodes, tree, space) && WellFormed(tree, Depth(), space)
        && k <= |s| && Exts(tree) == Inserted(s, k, newext) && MapOf(Exts(tree)) == MapOf(s) + RunOf(newext)
    }

    /** ext4_ext_insert_extent, with the path that a search for the new extent's first block found. at is
        the position of that search in the list of all extents. Free blocks are needed only for a full
        leaf. The second attempt always finds room. */
    method InsertExtent(path0: seq<Step>, newext: Extent, noCombine: bool, ghost ctx0: Ctx, ghost t0: Tree)
      returns (ok: bool, ghost k: nat)
      requires Valid() && Found(nodes, tree, Depth(), path0, ctx0, t0, newext.first)
      requires Good(newext) && (|t0.exts| == Cap(ctx0, space) ==> |free| >= Depth() + 3)
      requires StartsAt(Exts(tree), Position(ctx0, path0[Depth()].at), newext.first) || Clear(Exts(tree), newext)
      modifies this`nodes, this`free, this`tree
      ensures InsertOutcome(old(nodes), old(tree), old(free), Position(ctx0, path0[old(Depth())].at), newext,
          noCombine, ok, k)
      ensures !noCombine && Clear(old(Exts(tree)), newext) ==>
                var s := old(Exts(tree));
                forall i :: 0 <= i < |s| && Follows(s[i], newext) && Fit(s[i], newext) ==>
                  ok && Exts(tree) == s[i := JointExtent(s[i].first, s[i].start, s[i], newext)]
      ensures free <= old(free) && nodes.Keys == old(nodes.Keys) + (old(free) - free)
      ensures |free| >= |old(free)| - old(Depth()) - 2 && Depth() <= old(Depth()) + 1
    {
      hide Sound, CtxSound, Rep, Apart, AllGood, Clear, Filled, PathIs, Reached, Good, Merged, LeafPos, PlaceSound,
        Aimed;
      ghost var at := Position(ctx0, path0[Depth()].at);
      FoundPosition(nodes, tree, path0, ctx0, t0, newext.first, Depth(), space);
      WellApart(tree, Depth(), space);
      ghost var s := Exts(tree);
      InsertFacts(nodes, tree, path0, ctx0, t0, newext.first, space);
      FoundAimed(nodes, tree, path0, ctx0, t0, newext.first, Depth(), space);
      AimedFacts(path0, ctx0, t0, newext.first, Depth(), space);
      var path, again := path0, true;
      ghost var ctx, t, roomy := ctx0, t0, false;
      ok, k := false, 0;
      while again
        invariant again ==> Trying(old(tree), at, newext, noCombine, path, ctx, t, roomy)
        invariant again && !roomy ==> nodes == old(nodes) && tree == old(tree) && free == old(free)
        invariant !again ==> InsertOutcome(old(nodes), old(tree), old(free), at, newext, noCombine, ok, k)
        invariant ROOT in nodes && |free| >= |old(free)| - (if roomy then old(Depth()) + 2 else 0)
            && Depth() <= old(Depth()) + if roomy then 1 else 0
        invariant free <= old(free) && nodes.Keys == old(nodes.Keys) + (old(free) - free)
        decreases again, !roomy
      {
        ok, again, path, ctx, t, k :=
          Attempt(old(nodes), old(tree), old(free), at, newext, noCombine, path, ctx, t, roomy);
        roomy := true;
      }
      if !noCombine && Clear(s, newext) {
        JointIsMerged(s, at, newext);
      }
    }

    /** What holds before each attempt of ext4_ext_insert_extent at a leaf; after the first one the leaf
        has room. */
    ghost predicate Trying(tree0: Tree, at: int, newext: Extent, noCombine: bool, path: seq<Step>, ctx: Ctx, t: Tree,
        roomy: bool)
      reads this
    {
      var s := Exts(tree0);
      && Stored(nodes, tree, space) && tree == Plug(ctx, t) && Exts(tree) == s && 84 <= space
      && Apart(s) && AllGood(s) && Good(newext) && (StartsAt(s, at, newext.first) || Clear(s, newext))
      && Aimed(path, ctx, t, newext.first, Depth(), space) && -1 <= path[Depth()].at < |t.exts|
      && (t.exts == [] || (path[Depth()].at >= 0 && 0 <= at < |s| && t.exts[path[Depth()].at] == s[at]))
      && (if roomy
          then |t.exts| < Cap(ctx, space) && !StartsAt(s, at, newext.first) && (noCombine
            || MergedAt(s, at, newext).None?)
          else WellFormed(tree, Depth(), space) && at == Position(ctx, path[Depth()].at)
               && free !! nodes.Keys && (|t.exts| == Cap(ctx, space) ==> |free| >= Depth() + 3))
    }

    /** One attempt of ext4_ext_insert_extent. */
    method Attempt(ghost nodes0: Store, ghost tree0: Tree, ghost free0: set<nat>, ghost at: int, newext: Extent,
        noCombine: bool,
                   path0: seq<Step>, ghost ctx0: Ctx, ghost t0: Tree, ghost roomy: bool)
      returns (ok: bool, again: bool, path: seq<Step>, ghost ctx: Ctx, ghost t: Tree, ghost k: nat)
      requires Trying(tree0, at, newext, noCombine, path0, ctx0, t0, roomy)
      requires !roomy ==> nodes == nodes0 && tree == tree0 && free == free0
      modifies this`nodes, this`free, this`tree
      ensures again ==> !roomy && Trying(tree0, at, newext, noCombine, path, ctx, t, true)
      ensures !again ==> InsertOutcome(nodes0, tree0, free0, at, newext, noCombine, ok, k)
      ensures free <= old(free) && nodes.Keys == old(nodes.Keys) + (old(free) - free)
      ensures |free| >= |old(free)| - old(Depth()) - 2 && Depth() <= old(Depth()) + 1 && (!again ==> free == old(free))
      ensures !again ==> Depth() == old(Depth())
    {
      hide Sound, CtxSound, Rep, Apart, AllGood, Clear, Filled, PathIs, Reached, Good, Merged, LeafPos, PlaceSound,
        Aimed, InsertOutcome;
      var needSplit;
      path, ctx, t, k := path0, ctx0, t0, 0;
      GoodFirst(newext);
      ok, needSplit, k := TryLeaf(nodes0, tree0, free0, at, newext, noCombine, path, ctx, t, roomy);
      again := needSplit;
      if needSplit {
        path, ctx, t := MakeRoom(path, newext, ctx, t);
        AimedFacts(path, ctx, t, newext.first, Depth(), space);
      }
    }

    method TryLeaf(ghost nodes0: Store, ghost tree0: Tree, ghost free0: set<nat>, ghost at: int, newext: Extent,
        noCombine: bool,
                   path: seq<Step>, ghost ctx: Ctx, ghost t: Tree, ghost roomy: bool)
      returns (ok: bool, needSplit: bool, ghost k: nat)
      requires Trying(tree0, at, newext, noCombine, path, ctx, t, roomy)
      requires !roomy ==> nodes == nodes0 && tree == tree0 && free == free0
      modifies this`nodes, this`tree
      ensures nodes.Keys == old(nodes.Keys) && ROOT in nodes && Depth() == old(Depth())
      ensures -1 <= path[old(Depth())].at < |t.exts|
      ensures !needSplit ==> InsertOutcome(nodes0, tree0, free0, at, newext, noCombine, ok, k)
      ensures needSplit ==> nodes == old(nodes) && tree == old(tree) && !roomy && |t.exts| == Cap(ctx, space)
      ensures needSplit ==>
                && !StartsAt(Exts(tree0), at, newext.first)
                && (noCombine || MergedAt(Exts(tree0), at, newext).None?)
      ensures needSplit ==> path[Depth()].at >= 0 && t.exts[path[Depth()].at].first != newext.first
    {
      hide Sound, CtxSound, Rep, Apart, AllGood, Clear, Filled, PathIs, Reached, Good, Merged, LeafPos, PlaceSound,
        Aimed, Inserted, Retied, PutIndex, Exts, Plug, WellFormed, RunOf, MapOf, CanAppend, CanPrepend, Blocks, KidsRep;
      ghost var s := Exts(tree);
      k := 0;
      AimedFacts(path, ctx, t, newext.first, Depth(), space);
      ok, needSplit := InsertLeaf(path, newext, noCombine, ctx, t);
      if ok && !noCombine && MergedAt(s, at, newext).Some? {
        MergedWhole(s, ctx, t, path[Depth()].at, newext, space);
      } else if ok {
        k := |Pre(ctx)| + PutIndex(t.exts, path[Depth()].at, newext);
        PutResult(path, ctx, t, path[Depth()].at, newext, Depth(), space);
      }
    }

    /** ext4_ext_free_blocks */
    method FreeBlocks(start: nat, count: nat)
      modifies this`released
      ensures released == old(released) + BlockRun(start, count)
    {
      released := released + BlockRun(start, count);
    }

    /** ext4_ext_remove_blocks */
    method RemoveBlocks(ex: Extent, from: nat, to: nat)
      requires ex.first <= from <= to + 1
      modifies this`released
      ensures released == old(released) + BlockRun(ex.start + (from - ex.first), to + 1 - from)
    {
      var len := to - from + 1;
      var num := from - ex.first;
      FreeBlocks(ex.start + num, len);
    }

    /** The loop of ext4_ext_remove_leaf over the entries of a leaf, and the move that closes the gap. */
    method RemoveEntries(exts0: seq<Extent>, at: nat, from: nat, to: nat) returns (exts: seq<Extent>)
      requires Cuttable(exts0, at, from, to)
      modifies this`released
      ensures exts == Kept(exts0, from, to) && released == old(released) + Freed(exts0, from, to)
    {
      hide Cuttable, Cutting, Good, KeptOf, FreedOf, Kept, Freed;
      exts := exts0;
      var ex: nat, startEx: nat, ex2: int := at, at, -1;
      var entries := |exts|;
      CuttingStarts(exts0, at, from, to);
      while ex < |exts| && exts[ex].first <= to
        invariant |exts| == |exts0| && at <= ex <= |exts|
        invariant Cutting(exts0, exts, at, ex, startEx, ex2, from, to) && (ex == at ==> startEx == at)
        invariant ex2 != -1 ==> ex == |exts| || exts[ex].first > to
        invariant released == old(released) + Freed(exts0[at..ex], from, to)
        invariant entries == |exts| - ((if ex2 == -1 then ex else ex2) - startEx)
        decreases |exts| - ex
      {
        var e := exts[ex];
        var start, len, newLen, newStart, newblock := e.first, Len(e), 0, e.first, e.start;
        EntryFacts(exts0, exts, at, ex, startEx, ex2, from, to);
        KeptStep(exts0, at, ex, from, to);
        if start < from {
          len := len - (from - start);
          newLen := from - start;
          start := from;
          startEx := startEx + 1;
          CutHead(exts0, exts, at, from, to, Piece(e, e.first, from));
        } else if start + len - 1 > to {
          newLen := start + len - 1 - to;
          len := len - newLen;
          newStart := to + 1;
          newblock := newblock + (to + 1 - start);
          ex2 := ex;
          CutTail(exts0, exts, at, ex, startEx, from, to, Piece(e, to + 1, End(e)));
        } else {
          CutAll(exts0, exts, at, ex, startEx, from, to);
        }
        RemoveBlocks(e, start, start + len - 1);
        if newLen == 0 {
          entries := entries - 1;
        } else {
          exts := exts[ex := Extent(newStart, EncodeLen(newLen, Unwritten(e.field)), newblock)];
        }
        ex := ex + 1;
      }
      CutDone(exts0, exts, at, ex, startEx, ex2, from, to);
      if ex2 == -1 {
        ex2 := ex;
      }
      exts := exts[..startEx] + exts[ex2..];
      assert |exts| == entries;
    }

    /** ext4_ext_remove_idx: the entry of an empty block leaves the block above, at level i, and the empty
        block is freed. The keys above follow when it was the first entry. */
    method RemoveIdx(path: seq<Step>, i: nat, ghost ctx: Ctx, ghost t: Tree)
      requires Stored(nodes, tree, space) && tree == Plug(ctx, t) && Level(ctx) == i + 1 <= Depth()
          && Below(t) == multiset{}
      requires |path| == Depth() + 1 && PathIs(path, ctx, 0)
      modifies this`nodes, this`tree, this`released
      ensures ROOT in nodes && Depth() == old(Depth())
      ensures Stored(nodes, tree, space) && tree == Plug(DroppedCtx(ctx), Dropped(ctx))
      ensures nodes.Keys == old(nodes.Keys) - {t.block} && t.block in old(nodes)
          && released == old(released) + [t.block]
    {
      hide Rep, KidsRep, CtxRep, Blocks, Plug;
      var depth := Depth();
      ghost var m := nodes;
      FrameNode(nodes, ctx, t, depth - i - 1, space);
      EntriesLength(ctx.left);
      EntriesLength(ctx.right);
      DropEntry(Entries(ctx.left), Index(ctx.key, t.block), Entries(ctx.right));
      var step := path[i];
      var node := nodes[step.block];
      var removed := node.idxs[step.at];
      nodes := (nodes - {removed.leaf})[step.block := node.(idxs := node.idxs[..step.at] + node.idxs[step.at + 1..])];
      DroppedStored(m, nodes, ctx, t, depth - i - 1, space);
      tree := Plug(ctx.up, Dropped(ctx));
      FreeBlocks(removed.leaf, 1);
      if i > 0 && step.at == 0 {
        var idxs := nodes[step.block].idxs;
        SlotRead(ctx, t);
        PropagateKey(path, i, if step.at < |idxs| then idxs[step.at].first else removed.first, ctx.up, Dropped(ctx));
      }
    }

    /** New entries for a leaf, and the index keys above it corrected when its first entry changed. */
    method RewriteLeaf(path: seq<Step>, exts: seq<Extent>, ghost ctx: Ctx, ghost t: Tree)
      requires Stored(nodes, tree, space) && tree == Plug(ctx, t) && t.Tip? && Level(ctx) == Depth()
      requires |path| == Depth() + 1 && PathIs(path, ctx, 0) && path[Depth()].block == t.block && path[Depth()].at >= 0
      requires path[Depth()].at == 0 || path[Depth()].at <= |exts|
      modifies this`nodes, this`tree
      ensures Stored(nodes, tree, space) && Depth() == old(Depth()) && nodes.Keys == old(nodes.Keys)
      ensures tree == Plug(Retied(ctx, path[old(Depth())].at, exts), Tip(t.block, exts))
    {
      hide Rep, KidsRep, CtxRep, Plug, Sound, Filled, Exts, PathIs, Corrected;
      var depth := Depth();
      LeafFacts(nodes, ctx, t, space);
      ghost var m := nodes;
      var b := path[depth].block;
      nodes := nodes[b := nodes[b].(exts := exts)];
      TipRewritten(m, nodes, ctx, t, exts, space);
      tree := Plug(ctx, Tip(b, exts));
      if path[depth].at == 0 && exts != [] {
        CorrectIndexes(path, ctx, Tip(b, exts));
      }
    }

    /** ext4_ext_remove_leaf */
    method RemoveLeaf(path0: seq<Step>, from: nat, to: nat, ghost ctx: Ctx, ghost t: Tree) returns (path: seq<Step>)
      requires Stored(nodes, tree, space) && tree == Plug(ctx, t) && t.Tip? && Level(ctx) == Depth()
      requires |path0| == Depth() + 1 && PathIs(path0, ctx, 0) && path0[Depth()].block == t.block
          && path0[Depth()].at >= 0
      requires Cuttable(t.exts, path0[Depth()].at, from, to)
      modifies this`nodes, this`tree, this`released
      ensures Stored(nodes, tree, space) && Depth() == old(Depth())
      ensures var exts := Kept(t.exts, from, to);
              if exts == [] && Depth() > 0 then
                && tree == Plug(DroppedCtx(ctx), Dropped(ctx)) && path == path0
                && nodes.Keys == old(nodes.Keys) - {t.block} && t.block in old(nodes)
                && released == old(released) + Freed(t.exts, from, to) + [t.block]
              else
                && tree == Plug(Retied(ctx, path0[Depth()].at, exts), Tip(t.block, exts))
                && nodes.Keys == old(nodes.Keys) && released == old(released) + Freed(t.exts, from, to)
                && (if Depth() == 0 then path == path0
                  else path == path0[Depth() - 1 := path0[Depth() - 1].(at := path0[Depth() - 1].at + 1)])
    {
      hide Rep, KidsRep, CtxRep, Cuttable, Plug, Kept, Freed, Sound, Filled, Exts, PathIs, DroppedCtx, Dropped,
        Corrected;
      var depth := Depth();
      LeafFacts(nodes, ctx, t, space);
      CutShape(t.exts, path0[depth].at, from, to);
      path := path0;
      var b := path[depth].block;
      var exts := RemoveEntries(nodes[b].exts, path[depth].at, from, to);
      RewriteLeaf(path, exts, ctx, t);
      if exts == [] {
        LeafRoot(nodes, ctx, Tip(b, exts), space);
      }
      if exts == [] && b != ROOT {
        RemoveIdx(path, depth - 1, ctx, Tip(b, exts));
      } else if depth > 0 {
        path := path[depth - 1 := path[depth - 1].(at := path[depth - 1].at + 1)];
      }
    }

    /** The turn of ext4_extent_remove_space's loop at a leaf. */
    method CutLeaf(path0: seq<Step>, from: nat, to: nat, ghost c: Cut, ghost j: nat, ghost ctx0: Ctx, ghost t0: Tree)
      returns (path: seq<Step>, ghost n: nat, ghost ctx: Ctx, ghost t: Tree)
      requires ROOT in nodes && AtLeaf(c, j, nodes, tree, path0, ctx0, t0, Depth(), space) && c.from == from
          && c.to == to
      requires Apart(c.all) && AllGood(c.all) && Balanced(c, j, nodes, released)
      modifies this`nodes, this`tree, this`released
      ensures ROOT in nodes && Depth() == old(Depth()) && nodes.Keys <= old(nodes.Keys) && n <= |c.all|
      ensures Depth() > 0 ==> AtIndex(c, n, nodes, tree, path, Depth() - 1, ctx, t, Depth(), space)
      ensures Depth() > 0 ==> Work(ctx, t, path[Depth() - 1].at) == Ahead(ctx0)
      ensures Depth() == 0 ==> AtEnd(c, nodes, tree, 0, space) && n == |c.all|
      ensures Balanced(c, n, nodes, released)
    {
      hide Stored, Sound, Cuttable, Kept, Freed, Balanced, KidsExts, CtxFilled, Apart, AllGood, DroppedCtx, Dropped,
        Rep, Filled, Plug, Work, Ahead, InTree, AtIndex;
      var depth := Depth();
      ghost var m, whole := nodes, tree;
      LevelPositive(nodes, tree, path0, depth, ctx0, t0, depth, space);
      LeafRange(t0.exts, path0[depth].at, from, to);
      LeafFacts(nodes, ctx0, t0, space);
      ClipCuttable(t0.exts, path0[depth].at, from, to);
      CutLeafList(c, j, ctx0, t0.exts);
      var exts := nodes[path0[depth].block].exts;
      var leafFrom, leafTo := exts[0].first, End(exts[|exts| - 1]) - 1;
      leafFrom := if leafFrom < from then from else leafFrom;
      leafTo := if leafTo > to then to else leafTo;
      path := RemoveLeaf(path0, leafFrom, leafTo, ctx0, t0);
      n := j + |t0.exts|;
      ghost var kept := Kept(t0.exts, from, to);
      ghost var c2 := Retied(ctx0, path0[depth].at, kept);
      if kept == [] && depth > 0 {
        ctx, t := DroppedCtx(ctx0), Dropped(ctx0);
        LeafGone(c, j, m, whole, path0, ctx0, t0, nodes, tree, depth, space);
        BalancedDropped(c, j, n, m, nodes, old(released), released, Freed(t0.exts, from, to), t0.block);
        DroppedPath(path0, ctx0);
        WorkDropped(ctx0);
      } else {
        BalancedLeaf(c, j, n, m, nodes, old(released), released, Freed(t0.exts, from, to));
        if depth > 0 {
          ctx, t := c2.up, Fill(c2, Tip(t0.block, kept));
          LeafUp(c, j, m, whole, path0, ctx0, t0, nodes, tree, depth, space);
          RetiedAhead(ctx0, path0[depth].at, kept);
          DroppedPath(path0, ctx0);
          WorkUp(c2, Tip(t0.block, kept));
        } else {
          ctx, t := ctx0, t0;
          LeafOver(c, j, m, whole, path0, ctx0, t0, nodes, tree, space);
          LeafLast(c, j, ctx0, t0.exts);
        }
      }
    }

    /** ext4_ext_more_to_rm */
    method MoreToRm(step: Step, to: nat) returns (more: bool)
      requires step.block in nodes && nodes[step.block].Inner? && step.at >= 0
      ensures more <==> step.at < |nodes[step.block].idxs| && nodes[step.block].idxs[step.at].first <= to
    {
      var idxs := nodes[step.block].idxs;
      if |idxs| == 0 || step.at > |idxs| - 1 || idxs[step.at].first > to {
        return false;
      }
      return true;
    }

    /** The turn of ext4_extent_remove_space's loop at an index block with nothing more to remove. */
    method GoUp(path0: seq<Step>, i: nat, ghost c: Cut, ghost j: nat, ghost ctx0: Ctx, ghost t0: Tree)
      returns (path: seq<Step>, ghost n: nat, ghost ctx: Ctx, ghost t: Tree)
      requires ROOT in nodes && AtIndex(c, j, nodes, tree, path0, i, ctx0, t0, Depth(), space)
          && Balanced(c, j, nodes, released)
      requires path0[i].at < |t0.kids| ==> t0.kids[path0[i].at].key > c.to
      modifies this`nodes, this`tree, this`released
      ensures ROOT in nodes && Depth() == old(Depth()) && nodes.Keys <= old(nodes.Keys) && n <= |c.all|
      ensures i > 0 ==> AtIndex(c, n, nodes, tree, path, i - 1, ctx, t, Depth(), space)
      ensures i > 0 ==> Work(ctx, t, path[i - 1].at) <= Work(ctx0, t0, path0[i].at)
      ensures i == 0 ==> AtEnd(c, nodes, tree, Depth(), space) && n == |c.all|
      ensures Balanced(c, n, nodes, released)
    {
      hide Stored, Sound, Kept, Freed, KidsExts, CtxFilled, KidsFilled, Balanced;
      var depth := Depth();
      ghost var m, whole := nodes, tree;
      LevelPositive(nodes, tree, path0, i, ctx0, t0, depth, space);
      DownNode(nodes, tree, path0, i, ctx0, t0, depth, space);
      path, ctx, t, n := path0, ctx0, t0, j;
      if i > 0 {
        DroppedPath(path0, ctx0);
        if |nodes[path0[i].block].idxs| == 0 {
          RemoveIdx(path0, i - 1, ctx0, t0);
          EmptyUp(c, j, m, whole, path0, i, ctx0, t0, nodes, tree, depth, space);
          BalancedGone(c, j, m, nodes, old(released), released, t0.block);
          ctx, t := DroppedCtx(ctx0), Dropped(ctx0);
          WorkDropped(ctx0);
        } else {
          GoneUp(c, j, m, whole, path0, i, ctx0, t0, depth, space);
          n := j + |KidsExts(t0.kids[path0[i].at..])|;
          path := path0[i - 1 := path0[i - 1].(at := path0[i - 1].at + 1)];
          BalancedSame(c, j, n, nodes, released);
          ctx, t := ctx0.up, Fill(ctx0, t0);
          WorkUp(ctx0, t0);
        }
      } else {
        WalkOver(c, j, m, whole, path0, ctx0, t0, depth, space);
        n := |c.all|;
        BalancedSame(c, j, n, nodes, released);
      }
    }

    /** The walk of ext4_extent_remove_space: up and down the tree, cutting leaves, from the leaf of the
        first block in the range until the walk has left the root. */
    method RemoveWalk(path0: seq<Step>, from: nat, to: nat, ghost c: Cut, ghost j0: nat, ghost ctx0: Ctx,
        ghost t0: Tree)
      requires ROOT in nodes && AtLeaf(c, j0, nodes, tree, path0, ctx0, t0, Depth(), space) && c.from == from
          && c.to == to
      requires Apart(c.all) && AllGood(c.all) && from <= to && Balanced(c, j0, nodes, released)
      modifies this`nodes, this`tree, this`released
      ensures ROOT in nodes && AtEnd(c, nodes, tree, Depth(), space) && nodes.Keys <= old(nodes.Keys)
      ensures Balanced(c, |c.all|, nodes, released)
    {
      hide Apart, AllGood, AtIndex, AtLeaf, AtEnd, Balanced, Work, Ahead;
      var depth := Depth();
      var path, i := path0, depth;
      ghost var j: nat, ctx: Ctx, t: Tree := j0, ctx0, t0;
      LeafWork(c, j, nodes, tree, path, ctx, t, depth, space);
      while i >= 0
        invariant -1 <= i <= depth && ROOT in nodes && Depth() == depth && nodes.Keys <= old(nodes.Keys) && j <= |c.all|
        invariant Balanced(c, j, nodes, released)
        invariant i == depth ==> AtLeaf(c, j, nodes, tree, path, ctx, t, depth, space)
        invariant 0 <= i < depth ==> AtIndex(c, j, nodes, tree, path, i, ctx, t, depth, space)
        invariant i == -1 ==> AtEnd(c, nodes, tree, depth, space) && j == |c.all|
        decreases if 0 <= i < |path| then Work(ctx, t, path[i].at) else 0, i + 1
      {
        if i == depth {
          LeafWork(c, j, nodes, tree, path, ctx, t, depth, space);
          path, j, ctx, t := CutLeaf(path, from, to, c, j, ctx, t);
          i := i - 1;
        } else {
          WalkFacts(c, j, nodes, tree, path, i, ctx, t, depth, space);
          var more := MoreToRm(path[i], to);
          if more {
            var idx := nodes[path[i].block].idxs[path[i].at];
            ghost var p := path[i].at;
            WorkDown(ctx, t, p);
            if i + 1 == depth {
              DownLeaf(c, j, nodes, tree, path, i, ctx, t, depth, space);
            } else {
              DownIndex(c, j, nodes, tree, path, i, ctx, t, depth, space);
            }
            path := path[i + 1 := Step(idx.leaf, 0)];
            ctx, t := Down(ctx, t, p), t.kids[p].tree;
            i := i + 1;
          } else {
            path, j, ctx, t := GoUp(path, i, c, j, ctx, t);
            i := i - 1;
          }
        }
      }
    }

    /** ext4_extent_remove_space for a range strictly inside one extent: the extent becomes its head, and
        its tail is a new extent. The blocks between them stay allocated. */
    method RemoveInside(path: seq<Step>, from: nat, to: nat, ghost ctx: Ctx, ghost t: Tree)
      requires Valid() && Found(nodes, tree, Depth(), path, ctx, t, from) && |free| >= Depth() + 3
      requires path[Depth()].at >= 0
      requires var e := t.exts[path[Depth()].at]; e.first < from <= to && to + 1 < End(e)
      modifies this`nodes, this`tree, this`free
      ensures Valid() && Exts(tree) == Kept(old(Exts(tree)), from, to)
      ensures free <= old(free) && nodes.Keys == old(nodes.Keys) + (old(free) - free)
    {
      hide Sound, Rep, Apart, AllGood, Filled, Good, PathIs, LeafPos, MapOf, Kept, Clear, RunOf, Piece, Found,
        Inserted, Plug, Exts, Cap, DepthOf, Merged, CanAppend, CanPrepend, Len, Blocks;
      ghost var all := Exts(tree);
      var depth := Depth();
      FoundLeaf(nodes, tree, path, ctx, t, from, depth, space);
      var at := path[depth].at;
      FoundRange(nodes, tree, path, ctx, t, from, depth, space);
      ghost var n := |Pre(ctx)| + at;
      InsideCut(all, n, from, to);
      var ex := nodes[path[depth].block].exts[at];
      ghost var t' := Tip(t.block, t.exts[at := Piece(ex, ex.first, from)]);
      ShortenExtent(path, at, Piece(ex, ex.first, from), from, to + 1, ctx, t);
      var newex := Piece(ex, to + 1, End(ex));
      var ok;
      ghost var k;
      ok, k := InsertExtent(path, newex, false, ctx, t');
      KeptApart(all, from, to, 0);
      OnePlace(all[n := Piece(ex, ex.first, from)], k, n + 1, newex);
    }

    /** The found extent gets shorter or changes its state; the path now leads to a later block of it. */
    method ShortenExtent(path: seq<Step>, at: nat, e: Extent, ghost b: nat, ghost b': nat, ghost ctx: Ctx,
        ghost t: Tree)
      requires Valid() && Found(nodes, tree, Depth(), path, ctx, t, b) && path[Depth()].at == at < |t.exts|
      requires t.exts[at].first <= b <= b' < End(t.exts[at]) && e.first == t.exts[at].first && Good(e)
      requires |Pre(ctx)| + at < |Exts(tree)| && Apart(Exts(tree)[|Pre(ctx)| + at := e])
      modifies this`nodes, this`tree
      ensures Valid() && Depth() == old(Depth()) && nodes.Keys == old(nodes.Keys)
      ensures tree == Plug(ctx, Tip(t.block, t.exts[at := e])) && Exts(tree) == old(Exts(tree))[|Pre(ctx)| + at := e]
      ensures Found(nodes, tree, Depth(), path, ctx, Tip(t.block, t.exts[at := e]), b')
    {
      hide Sound, Rep, Apart, AllGood, Filled, Good, PathIs, LeafPos, Found;
      ghost var m, whole := nodes, tree;
      var depth := Depth();
      FoundLeaf(nodes, tree, path, ctx, t, b, depth, space);
      LeafFacts(nodes, ctx, t, space);
      var leaf := path[depth].block;
      nodes := nodes[leaf := nodes[leaf].(exts := nodes[leaf].exts[at := e])];
      TipRewritten(m, nodes, ctx, t, t.exts[at := e], space);
      TipExts(ctx, t, at, e);
      LongerWhole(ctx, t, at, e, space);
      tree := Plug(ctx, Tip(leaf, t.exts[at := e]));
      FoundTail(m, nodes, whole, path, ctx, t, b, b', e, depth, space);
    }

    /** The end of ext4_extent_remove_space: a root without entries becomes a leaf. */
    method FinishWalk(ghost c: Cut)
      requires ROOT in nodes && AtEnd(c, nodes, tree, Depth(), space) && Apart(c.all) && AllGood(c.all)
          && c.from <= c.to
      requires 84 <= space && free !! nodes.Keys
      modifies this`nodes, this`tree
      ensures Valid() && Exts(tree) == Kept(c.all, c.from, c.to) && nodes.Keys == old(nodes.Keys)
    {
      hide Sound, Rep, Apart, AllGood, Kept;
      EndFormed(c, nodes, tree, Depth(), space);
      if Used(nodes[ROOT]) == 0 {
        ghost var m, d := nodes, Depth();
        nodes := nodes[ROOT := Leaf(ROOT_SPACE, [])];
        RootReset(m, nodes, tree, d, space);
        tree := Tip(ROOT, []);
      }
    }

    /** ext4_extent_remove_space */
    method RemoveSpace(from: nat, to: nat)
      requires Valid() && from <= to < LOGICAL_LIMIT
      requires from in Map() && Inside(Exts(tree), from, to) ==> |free| >= Depth() + 3
      modifies this`nodes, this`tree, this`released, this`free
      ensures Valid()
      ensures from !in old(Map()) ==>
                nodes == old(nodes) && tree == old(tree) && released == old(released) && free == old(free)
      ensures from in old(Map()) ==>
          Exts(tree) == Kept(old(Exts(tree)), from, to) && Map() == Without(old(Map()), from, to)
      ensures from in old(Map()) && Inside(old(Exts(tree)), from, to) ==>
                released == old(released) && free <= old(free) && nodes.Keys == old(nodes.Keys) + (old(free) - free)
      ensures from in old(Map()) && !Inside(old(Exts(tree)), from, to) ==>
                && free == old(free) && nodes.Keys <= old(nodes.Keys)
                && multiset(released) + multiset(nodes.Keys) ==
                   multiset(old(released)) + multiset(old(nodes.Keys)) + multiset(Freed(old(Exts(tree)), from, to))
      ensures from in old(Map()) ==> RemovedFrom(old(Map()), Map(), from, to)
      ensures Freed(old(Exts(tree)), from, to) == PhysicalIn(old(Map()), from, to + 1 - from)
    {
      hide Sound, Rep, Apart, AllGood, Filled, Good, PathIs, LeafPos, MapOf, AtLeaf, AtEnd, Balanced, Kept, Freed,
        Without, Cuttable, Inside;
      ghost var all := Exts(tree);
      var depth := Depth();
      var path;
      ghost var ctx, t;
      path, ctx, t := Find(from);
      ghost var c := Cut(all, from, to, multiset(released) + multiset(nodes.Keys));
      FoundRange(nodes, tree, path, ctx, t, from, depth, space);
      FreedMeans(all, from, to);
      WithoutMeans(MapOf(all), from, to);
      if path[depth].at < 0 {
        return;
      }
      var ex := nodes[path[depth].block].exts[path[depth].at];
      if !(ex.first <= from <= ex.first + Len(ex) - 1) {
        return;
      }
      InsideIs(all, |Pre(ctx)| + path[depth].at, from, to);
      KeptMap(all, from, to);
      if ex.first < from && to < ex.first + Len(ex) - 1 {
        RemoveInside(path, from, to, ctx, t);
      } else {
        WalkStarts(c, nodes, tree, path, ctx, t, released, depth, space);
        RemoveWalk(path, from, to, c, |Pre(ctx)|, ctx, t);
        BalancedEnd(c, nodes, released);
        FinishWalk(c);
      }
    }

    /** ext4_ext_split_extent_at on an unwritten extent: two parts with their own states, or the whole
        extent with a new state when split is its first block. */
    method SplitExtentAt(path: seq<Step>, split: nat, unwritten1: bool, unwritten2: bool, ghost n: nat,
                         ghost b: nat, ghost ctx: Ctx, ghost t: Tree)
      requires Valid() && Found(nodes, tree, Depth(), path, ctx, t, b) && path[Depth()].at >= 0
      requires n == |Pre(ctx)| + path[Depth()].at
      requires var e := t.exts[path[Depth()].at];
               && Unwritten(e.field) && e.first <= b <= split < End(e)
               && (split == e.first || |free| >= Depth() + 3)
      modifies this`nodes, this`tree, this`free
      ensures Valid() && free <= old(free) && nodes.Keys == old(nodes.Keys) + (old(free) - free)
      ensures |free| >= |old(free)| - old(Depth()) - 2 && Depth() <= old(Depth()) + 1
      ensures t.exts[path[old(Depth())].at].first == split ==> free == old(free)
      ensures var s := old(Exts(tree));
              && n < |s| && s[n].first <= split < End(s[n])
              && Exts(tree) == Spliced(s, n, SplitAs(s[n], split, unwritten1, unwritten2))
    {
      hide Sound, Rep, Apart, AllGood, Filled, Good, PathIs, LeafPos, MapOf, Clear, RunOf, Merged, Found, Inserted,
        Plug, Exts, Part, Spliced;
      ghost var all := Exts(tree);
      var depth := Depth();
      FoundLeaf(nodes, tree, path, ctx, t, b, depth, space);
      var at := path[depth].at;
      FoundRange(nodes, tree, path, ctx, t, b, depth, space);
      var ex := nodes[path[depth].block].exts[at];
      SplitParts(all, n, split, unwritten1, unwritten2);
      if split == ex.first {
        ShortenExtent(path, at, Part(ex, split, End(ex), unwritten2), b, b, ctx, t);
      } else {
        ShortenExtent(path, at, Part(ex, ex.first, split, unwritten1), b, split, ctx, t);
        var ok;
        ghost var k;
        ok, k := InsertExtent(path, Part(ex, split, End(ex), unwritten2), true, ctx,
          Tip(t.block, t.exts[at := Part(ex, ex.first, split, unwritten1)]));
        WellApart(tree, Depth(), space);
        OnePlace(all[n := Part(ex, ex.first, split, unwritten1)], k, n + 1, Part(ex, split, End(ex), unwritten2));
      }
    }

    /** ext4_ext_convert_to_initialized, with the path searched again between the two splits of the middle
        case. */
    method ConvertToInitialized(path: seq<Step>, split: nat, blocks: nat, ghost ctx: Ctx, ghost t: Tree)
      requires Valid() && Found(nodes, tree, Depth(), path, ctx, t, split) && path[Depth()].at >= 0
      requires var e := t.exts[path[Depth()].at];
               && Unwritten(e.field) && e.first <= split && 0 < blocks && split + blocks <= End(e)
               && |free| >= ConversionNeeds(e, split, blocks, Depth())
      modifies this`nodes, this`tree, this`free
      ensures Valid() && free <= old(free) && nodes.Keys == old(nodes.Keys) + (old(free) - free)
      ensures Map() == WrittenIn(old(Map()), split, split + blocks)
      ensures WrittenAlso(old(Map()), Map(), split, split + blocks)
    {
      hide *;
      Wellness();
      ghost var all := Exts(tree);
      var depth := Depth();
      FoundLeaf(nodes, tree, path, ctx, t, split, depth, space);
      FoundRange(nodes, tree, path, ctx, t, split, depth, space);
      ghost var n := |Pre(ctx)| + path[depth].at;
      var ex := nodes[path[depth].block].exts[path[depth].at];
      EndIs(ex);
      ConversionNeedsIs(ex, split, blocks, depth);
      ConversionRight(all, n, split, split + blocks);
      if split + blocks == ex.first + Len(ex) {
        SplitExtentAt(path, split, true, false, n, split, ctx, t);
      } else if ex.first == split {
        SplitExtentAt(path, split + blocks, false, true, n, split, ctx, t);
      } else {
        ConvertMiddle(path, split, blocks, n, ctx, t);
      }
      WrittenMeans(MapOf(all), split, split + blocks);
      Wellness();
    }

    lemma ConversionNeedsIs(e: Extent, split: nat, blocks: nat, depth: nat)
      ensures ConversionNeeds(e, split, blocks, depth) ==
              if e.first == split && split + blocks == End(e) then 0
              else if e.first == split || split + blocks == End(e) then depth + 3
              else 2 * depth + 6
    {}

    lemma Wellness()
      requires Valid()
      ensures ROOT in nodes && Stored(nodes, tree, space) && WellFormed(tree, Depth(), space)
          && Map() == MapOf(Exts(tree))
    {}

    lemma EndIs(e: Extent)
      ensures End(e) == e.first + Len(e)
    {}

    /** The middle case: the extent in three, the second of them written. */
    method ConvertMiddle(path: seq<Step>, split: nat, blocks: nat, ghost n: nat, ghost ctx: Ctx, ghost t: Tree)
      requires Valid() && Found(nodes, tree, Depth(), path, ctx, t, split) && |free| >= 2 * Depth() + 6
      requires n == |Pre(ctx)| + path[Depth()].at && path[Depth()].at >= 0
      requires var e := t.exts[path[Depth()].at];
               Unwritten(e.field) && e.first < split && 0 < blocks && split + blocks < End(e)
      modifies this`nodes, this`tree, this`free
      ensures Valid() && free <= old(free) && nodes.Keys == old(nodes.Keys) + (old(free) - free)
      ensures var s := old(Exts(tree));
              && n < |s| && s[n].first <= split && 0 < blocks && split + blocks <= End(s[n])
              && Exts(tree) == Spliced(s, n, ConvertedOf(s[n], split, split + blocks))
    {
      hide *;
      Wellness();
      ghost var all := Exts(tree);
      var depth := Depth();
      FoundLeaf(nodes, tree, path, ctx, t, split, depth, space);
      FoundRange(nodes, tree, path, ctx, t, split, depth, space);
      ConvertedSplits(all, n, split, split + blocks);
      SplitExtentAt(path, split + blocks, true, true, n, split, ctx, t);
      var again;
      ghost var ctx2, t2;
      Wellness();
      again, ctx2, t2 := Find(split);
      FoundLeaf(nodes, tree, again, ctx2, t2, split, Depth(), space);
      FoundAt(nodes, tree, again, ctx2, t2, n, split, Depth(), space);
      SplitExtentAt(again, split, true, false, n, split, ctx2, t2);
    }

    /** The free blocks that a request with create set may need: a hole takes one for the data and some
        for the tree, an unwritten run those of its conversion, a written run none. */
    ghost predicate CreationNeeds(iblock: nat, maxBlocks: nat)
      requires ROOT in nodes
      reads this
    {
      && (iblock !in Map() ==> |free| >= Depth() + 4 && forall b :: b in free ==> b < PHYSICAL_LIMIT)
      && (forall e :: e in Exts(tree) && e.first <= iblock < End(e) && Unwritten(e.field) ==>
            |free| >= ConversionNeeds(e, iblock, if End(e) - iblock > maxBlocks then maxBlocks
              else End(e) - iblock, Depth()))
    }

    /** ext4_extent_get_blocks: where block iblock and those after it lie, with at most maxBlocks of them;
        a hole gets one new block and an unwritten run is converted when create is set. at is the
        position of iblock in the list of the extents. */
    method GetBlocks(iblock: nat, maxBlocks: nat, create: bool) returns (result: nat, count: nat, ghost at: int)
      requires Valid() && iblock < LOGICAL_LIMIT && 0 < maxBlocks
      requires create ==> CreationNeeds(iblock, maxBlocks)
      modifies this`nodes, this`tree, this`free
      ensures free <= old(free) && (iblock in old(Map()) ==> nodes.Keys == old(nodes.Keys) + (old(free) - free))
      ensures LeafPos(old(Exts(tree)), at, iblock)
      ensures !create || (iblock in old(Map()) && old(Map())[iblock].written) ==>
                nodes == old(nodes) && tree == old(tree) && free == old(free)
      ensures iblock in old(Map()) ==>
                at >= 0 && 0 < count <= maxBlocks && iblock + count <= End(old(Exts(tree))[at])
                && (count == maxBlocks || iblock + count == End(old(Exts(tree))[at]))
      ensures iblock in old(Map()) && (create || old(Map())[iblock].written) ==>
                forall x :: iblock <= x < iblock + count ==>
                  x in old(Map()) && old(Map())[x] == Place(result + (x - iblock), old(Map())[iblock].written)
      ensures iblock in old(Map()) && !create && !old(Map())[iblock].written ==> result == 0
      ensures iblock in old(Map()) && create && !old(Map())[iblock].written ==>
                && Valid() && Map() == WrittenIn(old(Map()), iblock, iblock + count)
                && WrittenAlso(old(Map()), Map(), iblock, iblock + count)
      ensures iblock !in old(Map()) && !create ==> result == 0 && count == 0
      ensures iblock !in old(Map()) && create ==>
                && result in old(free) && result !in free && result !in nodes && count == 1
                && nodes.Keys == old(nodes.Keys) + (old(free) - free - {result})
                && Stored(nodes, tree, space) && AddedAt(old(Exts(tree)), at, Single(iblock, result))
    {
      hide Sound, Rep, Apart, AllGood, Filled, Good, PathIs, LeafPos, MapOf, Found, Plug, Exts, WrittenIn, Clear,
        Merged, RunOf;
      ghost var all := Exts(tree);
      var depth := Depth();
      var path;
      ghost var ctx, t;
      path, ctx, t := Find(iblock);
      FoundLeaf(nodes, tree, path, ctx, t, iblock, depth, space);
      FoundRange(nodes, tree, path, ctx, t, iblock, depth, space);
      FoundPosition(nodes, tree, path, ctx, t, iblock, depth, space);
      at := Position(ctx, path[depth].at);
      result, count := 0, 0;
      if path[depth].at >= 0 {
        var ex := nodes[path[depth].block].exts[path[depth].at];
        if ex.first <= iblock <= ex.first + Len(ex) - 1 {
          RunMapped(all, at, iblock);
          count := Len(ex) - (iblock - ex.first);
          if !Unwritten(ex.field) {
            result := iblock - ex.first + ex.start;
          } else if create {
            var zeroRange := if count > maxBlocks then maxBlocks else count;
            result := iblock - ex.first + ex.start;
            ConvertToInitialized(path, iblock, zeroRange, ctx, t);
          }
          count := if count > maxBlocks then maxBlocks else count;
          return;
        }
      }
      if !create {
        return;
      }
      result, count := AddBlock(path, iblock, maxBlocks, ctx, t);
    }

    /** The part of ext4_extent_get_blocks that fills a hole. The allocator hands out one block, whatever
        the room up to the next extent. */
    method AddBlock(path: seq<Step>, iblock: nat, maxBlocks: nat, ghost ctx: Ctx, ghost t: Tree)
        returns (result: nat, count: nat)
      requires Valid() && Found(nodes, tree, Depth(), path, ctx, t, iblock) && iblock < LOGICAL_LIMIT && 0 < maxBlocks
      requires |free| >= Depth() + 4 && iblock !in Map() && forall b :: b in free ==> b < PHYSICAL_LIMIT
      modifies this`nodes, this`tree, this`free
      ensures result in old(free) && result !in free && result !in nodes && count == 1
      ensures free <= old(free) && nodes.Keys == old(nodes.Keys) + (old(free) - free - {result})
      ensures Stored(nodes, tree, space)
      ensures AddedAt(old(Exts(tree)), Position(ctx, path[old(Depth())].at), Single(iblock, result))
    {
      hide Sound, Rep, Apart, AllGood, Filled, Good, PathIs, LeafPos, Found, Plug, Exts, Clear, Merged, RunOf, MapOf,
        WellFormed, Blocks, CanAppend, CanPrepend;
      ghost var all := Exts(tree);
      var next := NextAllocated(path, ctx, t, iblock);
      var room := if next - iblock > maxBlocks then maxBlocks else next - iblock;
      FoundLeaf(nodes, tree, path, ctx, t, iblock, Depth(), space);
      FoundRange(nodes, tree, path, ctx, t, iblock, Depth(), space);
      result := AllocBlock();
      count := 1;
      SingleRun(iblock, result);
      SingleClear(all, iblock, result);
      NotThere(all, iblock);
      ghost var k;
      var ok;
      ghost var at := Position(ctx, path[Depth()].at);
      ok, k := InsertExtent(path, Single(iblock, result), false, ctx, t);
      if MergedAt(all, at, Single(iblock, result)).Some? {
        AddedMap(all, at, Single(iblock, result), Exts(tree));
      }
    }

    /** The new block n is in the file, next to the extent at position at of the extents s it had before.
        Merging follows the source: it goes wrong unless n is appended to an extent of its own state. */
    ghost predicate AddedAt(s: seq<Extent>, at: int, n: Extent)
      reads this
    {
      var right := Map() == MapOf(s) + RunOf(n);
      if MergedAt(s, at, n).None? then Valid() && right
      else
        && (right <==> CanAppend(s[at], n) && !Unwritten(s[at].field))
        && ROOT in nodes && (Valid() <==> CanAppend(s[at], n) || (Depth() == 0 && Good(MergedAt(s, at, n).value)))
    }
  }
}
