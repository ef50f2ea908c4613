/** What a change of one tree block, or of a key, does to the stored tree as a whole. */
module ExtentChanges {
  import opened ExtentFields
  import opened ExtentMap
  import opened ExtentShape
  import opened ExtentPlaces

  /** Another subtree under the same block number takes the place of t. */
  lemma Replaced(m: Store, m': Store, ctx: Ctx, t: Tree, t': Tree, d: nat, space: nat)
    requires Stored(m, Plug(ctx, t), space) && d + Level(ctx) == DepthOf(m)
    requires t'.block == t.block && Rep(m', t', d, Cap(ctx, space), space) && SameOn(m, m', CtxBlocks(ctx))
    requires multiset(m'.Keys) == CtxBlocks(ctx) + Blocks(t') && ROOT in m' && (ctx.Top? ==> DepthOf(m') == d)
    ensures Stored(m', Plug(ctx, t'), space) && DepthOf(m') == DepthOf(m)
  {
    hide CtxRep, Rep;
    ReplacedRep(m, m', ctx, t, t', d, space);
    PlugBlocks(ctx, t');
    PlugBlock(ctx, t, t');
  }

  lemma ReplacedRep(m: Store, m': Store, ctx: Ctx, t: Tree, t': Tree, d: nat, space: nat)
    requires Stored(m, Plug(ctx, t), space) && d + Level(ctx) == DepthOf(m)
    requires t'.block == t.block && Rep(m', t', d, Cap(ctx, space), space) && SameOn(m, m', CtxBlocks(ctx))
    requires ROOT in m' && (ctx.Top? ==> DepthOf(m') == d)
    ensures Rep(m', Plug(ctx, t'), DepthOf(m), ROOT_SPACE, space) && DepthOf(m') == DepthOf(m)
  {
    hide *;
    ReplacedDepth(m, m', ctx, t, d, space);
    PlaceFacts(m, Plug(ctx, t), ctx, t, d, space);
    CtxRepFrame(m, m', ctx, t.block, d, space);
    PlugRep(m', ctx, t', d, space);
  }

  lemma ReplacedDepth(m: Store, m': Store, ctx: Ctx, t: Tree, d: nat, space: nat)
    requires Stored(m, Plug(ctx, t), space) && d + Level(ctx) == DepthOf(m) && SameOn(m, m', CtxBlocks(ctx))
    requires ROOT in m' && (ctx.Top? ==> DepthOf(m') == d)
    ensures ROOT in m && DepthOf(m') == DepthOf(m)
  {
    hide Rep;
    if !ctx.Top? {
      RootAbove(ctx, t);
    }
  }

  lemma {:induction false} PlugBlock(ctx: Ctx, t: Tree, t': Tree)
    requires t.block == t'.block
    ensures Plug(ctx, t).block == Plug(ctx, t').block
    decreases ctx
  {
    if !ctx.Top? {
      PlugBlock(ctx.up, Fill(ctx, t), Fill(ctx, t'));
    }
  }

  lemma OneBlock(keys: set<nat>, a: multiset<nat>, b: nat, c: multiset<nat>)
    requires multiset(keys) == a + (multiset{b} + c)
    ensures b in keys && b !in a && b !in c
  {
    assert multiset(keys)[b] == a[b] + 1 + c[b];
  }

  lemma Untouched(m: Store, m': Store, b: nat, blocks: multiset<nat>)
    requires b !in blocks && forall x :: x in m && x != b ==> x in m' && m'[x] == m[x]
    ensures SameOn(m, m', blocks)
  {}

  /** One block is rewritten. */
  ghost predicate WrittenAt(m: Store, m': Store, b: nat, n: Node) {
    b in m && m' == m[b := n]
  }

  lemma WrittenFrame(m: Store, m': Store, b: nat, n: Node, blocks: multiset<nat>)
    requires WrittenAt(m, m', b, n)
    ensures m'.Keys == m.Keys && m'[b] == n && (b !in blocks ==> SameOn(m, m', blocks))
  {}

  lemma WrittenTop(m: Store, m': Store, t': Tree, d: nat, cap: nat, space: nat)
    requires WrittenAt(m, m', t'.block, Head(t', d, cap))
    requires if t'.Tip? then d == 0 else d > 0 && t'.block !in Below(t') && KidsRep(m, t'.kids, d - 1, space)
    ensures Rep(m', t', d, cap, space)
  {
    WrittenFrame(m, m', t'.block, Head(t', d, cap), multiset{});
    if t'.Fork? {
      WrittenFrame(m, m', t'.block, Head(t', d, cap), KidsBlocks(t'.kids));
      KidsRepFrame(m, m', t'.kids, d - 1, space);
    }
  }

  ghost function Below(t: Tree): multiset<nat> { if t.Tip? then multiset{} else KidsBlocks(t.kids) }

  lemma TopAndBelow(t: Tree)
    ensures Blocks(t) == multiset{t.block} + Below(t)
  {}

  lemma PlaceApart(m: Store, ctx: Ctx, t: Tree, space: nat)
    requires Stored(m, Plug(ctx, t), space)
    ensures multiset(m.Keys) == CtxBlocks(ctx) + Blocks(t)
    ensures t.block !in CtxBlocks(ctx) && t.block !in Below(t)
  {
    PlugBlocks(ctx, t);
    TopAndBelow(t);
    OneBlock(m.Keys, CtxBlocks(ctx), t.block, Below(t));
  }

  /** Only the entries of one block change, and no block comes or goes. */
  lemma Rewritten(m: Store, m': Store, ctx: Ctx, t: Tree, t': Tree, d: nat, space: nat)
    requires Stored(m, Plug(ctx, t), space) && d + Level(ctx) == DepthOf(m)
    requires t'.block == t.block && WrittenAt(m, m', t.block, Head(t', d, Cap(ctx, space)))
    requires Blocks(t') == Blocks(t) && Below(t') == Below(t)
    requires if t'.Tip? then d == 0 else d > 0 && KidsRep(m, t'.kids, d - 1, space)
    ensures Stored(m', Plug(ctx, t'), space) && DepthOf(m') == DepthOf(m)
  {
    PlaceApart(m, ctx, t, space);
    WrittenTop(m, m', t', d, Cap(ctx, space), space);
    WrittenFrame(m, m', t.block, Head(t', d, Cap(ctx, space)), CtxBlocks(ctx));
    PlaceFacts(m, Plug(ctx, t), ctx, t, d, space);
    Replaced(m, m', ctx, t, t', d, space);
  }

  // ----- Keys along a path -----

  /** The keys from a place upwards take a new value, as long as they are the first of their block. */
  ghost function Corrected(ctx: Ctx, border: nat): Ctx {
    if ctx.Top? then Top
    else In(ctx.block, ctx.left, border, ctx.right, if ctx.left == [] then Corrected(ctx.up, border) else ctx.up)
  }

  ghost predicate BorderFits(ctx: Ctx, border: nat) {
    ctx.Top? || if ctx.left == [] then BorderFits(ctx.up, border) else ctx.key <= border
  }

  lemma {:induction false} SoundWider(t: Tree, d: nat, lo: nat, hi: nat, hi': nat, cap: nat, space: nat)
    requires Sound(t, d, lo, hi, cap, space) && hi <= hi'
    ensures Sound(t, d, lo, hi', cap, space)
    decreases d, 0
  {
    if t.Fork? {
      KidsSoundWider(t.kids, d - 1, lo, hi, hi', space);
    }
  }

  lemma {:induction false} KidsSoundWider(kids: seq<Kid>, d: nat, lo: nat, hi: nat, hi': nat, space: nat)
    requires KidsSound(kids, d, lo, hi, space) && hi <= hi'
    ensures KidsSound(kids, d, lo, hi', space)
    decreases d, 1
  {
    forall i | 0 <= i < |kids|
      ensures KidSound(kids, i, d, hi', space)
    {
      assert KidSound(kids, i, d, hi, space);
      if i + 1 == |kids| {
        SoundWider(kids[i].tree, d, kids[i].key, hi, hi', space, space);
      }
    }
  }

  lemma {:induction false} CorrectedSame(ctx: Ctx, border: nat)
    ensures var c := Corrected(ctx, border);
            && Pre(c) == Pre(ctx) && Post(c) == Post(ctx) && CtxBlocks(c) == CtxBlocks(ctx) && Hi(c) == Hi(ctx)
            && Level(c) == Level(ctx) && (CtxFilled(c) <==> CtxFilled(ctx)) && c.Top? == ctx.Top?
    decreases ctx
  {
    if !ctx.Top? && ctx.left == [] {
      CorrectedSame(ctx.up, border);
    }
  }

  lemma FrameRekeyed(left: seq<Kid>, key: nat, right: seq<Kid>, d: nat, lo: nat, lo': nat, hi: nat, border: nat,
      space: nat)
    requires FrameSound(left, key, right, d, lo, hi, space)
    requires border < if right != [] then right[0].key else hi
    requires if left == [] then lo' <= border else key <= border && lo' == lo
    ensures FrameSound(left, border, right, d, lo', hi, space)
  {
    KidsSoundBelow(right, d, key + 1, border + 1, hi, space);
    if left != [] {
      KidsSoundWider(left, d, lo, key, border, space);
    }
  }

  lemma {:induction false} CorrectedSound(ctx: Ctx, d: nat, border: nat, space: nat)
    requires CtxSound(ctx, d, space) && BorderFits(ctx, border) && border < Hi(ctx)
    ensures CtxSound(Corrected(ctx, border), d, space)
    decreases ctx
  {
    if !ctx.Top? {
      HiBelow(ctx, d, space);
      CorrectedSame(ctx.up, border);
      var up := if ctx.left == [] then Corrected(ctx.up, border) else ctx.up;
      if ctx.left == [] {
        CorrectedSound(ctx.up, d + 1, border, space);
      }
      FrameRekeyed(ctx.left, ctx.key, ctx.right, d, Lo(ctx.up), Lo(up), Hi(ctx.up), border, space);
    }
  }

  lemma HiBelow(ctx: Ctx, d: nat, space: nat)
    requires CtxSound(ctx, d, space) && !ctx.Top?
    ensures Hi(ctx) <= Hi(ctx.up)
  {}

  lemma {:induction false} ReachedBelow(ctx: Ctx, b: nat)
    requires Reached(ctx, b) && b < LOGICAL_LIMIT
    ensures b < Hi(ctx)
    decreases ctx
  {
    if !ctx.Top? {
      ReachedBelow(ctx.up, b);
    }
  }

  lemma {:induction false} ReachedFits(ctx: Ctx, d: nat, b: nat, border: nat, space: nat)
    requires CtxSound(ctx, d, space) && Reached(ctx, b) && (border >= b || (!ctx.Top? && border >= ctx.key))
    ensures BorderFits(ctx, border)
    decreases ctx
  {
    if !ctx.Top? && ctx.left == [] && !ctx.up.Top? {
      ReachedFits(ctx.up, d + 1, b, border, space);
    }
  }

  lemma {:induction false} CorrectedPath(path: seq<Step>, ctx: Ctx, border: nat)
    requires PathIs(path, ctx, 0)
    ensures PathIs(path, Corrected(ctx, border), 0)
    decreases ctx
  {
    CorrectedSame(ctx, border);
    if !ctx.Top? && ctx.left == [] {
      CorrectedPath(path, ctx.up, border);
    }
  }

  function Rekey(n: Node, at: nat, border: nat): Node
    requires n.Inner? && at < |n.idxs|
  {
    n.(idxs := n.idxs[at := n.idxs[at].(first := border)])
  }

  lemma FrameNode(m: Store, ctx: Ctx, t: Tree, d: nat, space: nat)
    requires Stored(m, Plug(ctx, t), space) && !ctx.Top? && d + Level(ctx) == DepthOf(m)
    ensures ctx.block in m && m[ctx.block] == Head(Fill(ctx, t), d + 1, Cap(ctx.up, space))
    ensures |ctx.left| < |m[ctx.block].idxs| && KidsRep(m, Fill(ctx, t).kids, d, space)
    ensures m[ctx.block].idxs == Entries(ctx.left) + [Index(ctx.key, t.block)] + Entries(ctx.right)
  {
    PlaceFacts(m, Plug(ctx, t), ctx.up, Fill(ctx, t), d + 1, space);
    KidsRepSplit(m, ctx.left, Kid(ctx.key, t), ctx.right, d, space);
  }

  lemma RekeyedHead(ctx: Ctx, t: Tree, d: nat, cap: nat, border: nat)
    requires !ctx.Top?
    ensures |ctx.left| < |Entries(Fill(ctx, t).kids)|
    ensures Rekey(Head(Fill(ctx, t), d, cap), |ctx.left|, border) == Head(Fill(ctx.(key := border), t), d, cap)
  {
    assert Rekey(Head(Fill(ctx, t), d, cap), |ctx.left|, border).idxs == Entries(Fill(ctx.(key := border), t).kids);
  }

  lemma RekeyedBlocks(ctx: Ctx, t: Tree, border: nat)
    requires !ctx.Top?
    ensures Blocks(Fill(ctx.(key := border), t)) == Blocks(Fill(ctx, t))
    ensures Below(Fill(ctx.(key := border), t)) == Below(Fill(ctx, t))
  {
    BelowFill(ctx, t);
    BelowFill(ctx.(key := border), t);
    TopAndBelow(Fill(ctx, t));
    TopAndBelow(Fill(ctx.(key := border), t));
  }

  lemma BelowFill(ctx: Ctx, t: Tree)
    requires !ctx.Top?
    ensures Below(Fill(ctx, t)) == KidsBlocks(ctx.left) + Blocks(t) + KidsBlocks(ctx.right)
  {
    KidsBlocksJoin(ctx.left + [Kid(ctx.key, t)], ctx.right);
    KidsBlocksJoin(ctx.left, [Kid(ctx.key, t)]);
    SingleBlocks(Kid(ctx.key, t));
  }

  lemma SingleBlocks(k: Kid)
    ensures KidsBlocks([k]) == Blocks(k.tree)
  {
    assert KidsBlocks([k]) == Blocks(k.tree) + KidsBlocks([k][1..]);
  }

  /** One key changes in its block. */
  lemma Rekeyed(m: Store, m': Store, ctx: Ctx, t: Tree, d: nat, border: nat, space: nat)
    requires Stored(m, Plug(ctx, t), space) && !ctx.Top? && d + Level(ctx) == DepthOf(m)
    requires ctx.block in m && m[ctx.block].Inner? && |ctx.left| < |m[ctx.block].idxs|
    requires WrittenAt(m, m', ctx.block, Rekey(m[ctx.block], |ctx.left|, border))
    ensures Stored(m', Plug(ctx.(key := border), t), space) && DepthOf(m') == DepthOf(m)
  {
    var ctx' := ctx.(key := border);
    FrameNode(m, ctx, t, d, space);
    RekeyedHead(ctx, t, d + 1, Cap(ctx.up, space), border);
    RekeyedBlocks(ctx, t, border);
    KidsRepSplit(m, ctx.left, Kid(ctx.key, t), ctx.right, d, space);
    KidsRepSplit(m, ctx.left, Kid(border, t), ctx.right, d, space);
    Rewritten(m, m', ctx.up, Fill(ctx, t), Fill(ctx', t), d + 1, space);
  }

  // ----- A leaf takes a new extent -----

  /** Where ext4_ext_insert_leaf puts a new extent, given the position of the search. */
  function PutIndex(exts: seq<Extent>, at: int, n: Extent): (k: nat)
    requires -1 <= at < |exts|
    ensures k <= |exts|
  {
    if at < 0 then 0 else if n.first > exts[at].first then at + 1 else at
  }

  /** The keys above a leaf after its first extent may have changed. */
  ghost function Retied(ctx: Ctx, at: int, exts: seq<Extent>): Ctx {
    if at <= 0 && exts != [] then Corrected(ctx, exts[0].first) else ctx
  }

  lemma TipRewritten(m: Store, m': Store, ctx: Ctx, t: Tree, exts: seq<Extent>, space: nat)
    requires Stored(m, Plug(ctx, t), space) && Level(ctx) == DepthOf(m) && t.Tip?
    requires WrittenAt(m, m', t.block, Leaf(Cap(ctx, space), exts))
    ensures Stored(m', Plug(ctx, Tip(t.block, exts)), space) && DepthOf(m') == DepthOf(m)
  {
    TopAndBelow(t);
    TopAndBelow(Tip(t.block, exts));
    Rewritten(m, m', ctx, t, Tip(t.block, exts), 0, space);
  }

  lemma PutAscending(exts: seq<Extent>, at: int, n: Extent, lo: nat, lo': nat, hi: nat)
    requires ExtsSound(exts, lo, hi) && LeafPos(exts, at, n.first) && Good(n) && n.first < hi
    requires at >= 0 ==> n.first != exts[at].first
    requires exts != [] ==> lo' <= exts[0].first
    requires lo' <= n.first
    ensures ExtsSound(Inserted(exts, PutIndex(exts, at, n), n), lo', hi)
    ensures at > 0 ==> Inserted(exts, PutIndex(exts, at, n), n)[0] == exts[0]
    ensures at <= 0 ==> var f := Inserted(exts, PutIndex(exts, at, n), n)[0].first;
                        f <= n.first && (f == n.first || (exts != [] && f == exts[0].first))
  {
    var k := PutIndex(exts, at, n);
    var r := Inserted(exts, k, n);
    InsertedAt(exts, k, n);
    assert k > 0 ==> exts[k - 1].first < n.first;
    assert k < |exts| ==> n.first < exts[k].first;
    forall i, j | 0 <= i < j < |r|
      ensures r[i].first < r[j].first
    {
      if i == k {
        assert r[j] == exts[j - 1];
      } else if j == k {
        assert r[i] == exts[i];
      } else {
        assert r[i] == exts[if i < k then i else i - 1] && r[j] == exts[if j < k then j else j - 1];
      }
    }
    forall i | 0 <= i < |r|
      ensures Good(r[i]) && lo' <= r[i].first < hi
    {
      if i != k {
        assert r[i] == exts[if i < k then i else i - 1];
      }
    }
  }

  lemma TipPlace(ctx: Ctx, b: nat, exts: seq<Extent>, space: nat)
    ensures PlaceSound(ctx, Tip(b, exts), 0, space) <==>
            |exts| <= Cap(ctx, space) && ExtsSound(exts, Lo(ctx), Hi(ctx))
              && (ctx.Top? || exts == [] || exts[0].first == ctx.key)
  {}

  lemma RetiedSound(ctx: Ctx, n: nat, border: nat, space: nat)
    requires CtxSound(ctx, 0, space) && CtxFilled(ctx) && Reached(ctx, n) && border < Hi(ctx)
    requires border >= n || (!ctx.Top? && border >= ctx.key)
    ensures CtxSound(Corrected(ctx, border), 0, space) && CtxFilled(Corrected(ctx, border))
  {
    ReachedFits(ctx, 0, n, border, space);
    CorrectedSame(ctx, border);
    CorrectedSound(ctx, 0, border, space);
  }

  /** The leaf of a search path takes a new extent. */
  lemma PutFits(ctx: Ctx, t: Tree, at: int, n: Extent, space: nat)
    requires PlaceSound(ctx, t, 0, space) && t.Tip?
    requires Reached(ctx, n.first) && LeafPos(t.exts, at, n.first) && Good(n)
    requires (at >= 0 ==> n.first != t.exts[at].first) && |t.exts| < Cap(ctx, space)
    ensures var exts := Inserted(t.exts, PutIndex(t.exts, at, n), n);
            && PlaceSound(Retied(ctx, at, exts), Tip(t.block, exts), 0, space)
            && (at <= 0 ==>
                  && exts[0].first < Hi(ctx)
                  && (exts[0].first >= n.first || (!ctx.Top? && exts[0].first >= ctx.key) || ctx.Top?))
  {
    var exts := Inserted(t.exts, PutIndex(t.exts, at, n), n);
    var f := exts[0].first;
    ReachedBelow(ctx, n.first);
    TipPlace(ctx, t.block, t.exts, space);
    TipPlace(Retied(ctx, at, exts), t.block, exts, space);
    if at <= 0 {
      CorrectedSame(ctx, f);
      PutAscending(t.exts, at, n, Lo(ctx), if ctx.Top? then 0 else f, Hi(ctx));
    } else {
      PutAscending(t.exts, at, n, Lo(ctx), Lo(ctx), Hi(ctx));
    }
  }

  lemma PutSound(ctx: Ctx, t: Tree, at: int, n: Extent, space: nat)
    requires CtxSound(ctx, 0, space) && CtxFilled(ctx) && PlaceSound(ctx, t, 0, space) && t.Tip?
    requires Reached(ctx, n.first) && LeafPos(t.exts, at, n.first) && Good(n)
    requires (at >= 0 ==> n.first != t.exts[at].first) && |t.exts| < Cap(ctx, space)
    ensures var exts := Inserted(t.exts, PutIndex(t.exts, at, n), n);
            var c := Retied(ctx, at, exts);
            CtxSound(c, 0, space) && CtxFilled(c) && PlaceSound(c, Tip(t.block, exts), 0, space)
  {
    PutFits(ctx, t, at, n, space);
    if at <= 0 && !ctx.Top? {
      var exts := Inserted(t.exts, PutIndex(t.exts, at, n), n);
      RetiedSound(ctx, n.first, exts[0].first, space);
    }
  }

  /** The neighbours of a new extent in the list of all extents. */
  lemma {:induction false} PreBelow(ctx: Ctx, d: nat, space: nat)
    requires CtxSound(ctx, d, space) && CtxFilled(ctx)
    ensures forall i :: 0 <= i < |Pre(ctx)| ==> Pre(ctx)[i].first < Lo(ctx)
    decreases ctx
  {
    if !ctx.Top? {
      PreBelow(ctx.up, d + 1, space);
      KidsExtents(ctx.left, d, Lo(ctx.up), ctx.key, space);
    }
  }

  lemma {:induction false} PostAbove(ctx: Ctx, d: nat, space: nat)
    requires CtxSound(ctx, d, space) && CtxFilled(ctx)
    ensures forall i :: 0 <= i < |Post(ctx)| ==> Post(ctx)[i].first >= Hi(ctx)
    decreases ctx
  {
    if !ctx.Top? {
      PostAbove(ctx.up, d + 1, space);
      HiBelow(ctx, d, space);
      if ctx.right != [] {
        KidsSoundBelow(ctx.right, d, ctx.key + 1, ctx.right[0].key, Hi(ctx.up), space);
        KidsExtents(ctx.right, d, ctx.right[0].key, Hi(ctx.up), space);
      }
    }
  }

  ghost predicate Between(pre: seq<Extent>, e: seq<Extent>, post: seq<Extent>, k: nat, n: Extent)
    requires k <= |e|
  {
    && (k > 0 ==> e[k - 1].first < n.first) && (k < |e| ==> n.first < e[k].first)
    && (k == 0 && pre != [] ==> pre[|pre| - 1].first < n.first) && (k == |e| && post != [] ==> n.first < post[0].first)
  }

  lemma PutNeighbours(ctx: Ctx, t: Tree, at: int, n: Extent, space: nat)
    requires CtxSound(ctx, 0, space) && CtxFilled(ctx) && t.Tip? && Reached(ctx, n.first) && n.first < LOGICAL_LIMIT
    requires LeafPos(t.exts, at, n.first) && (at >= 0 ==> n.first != t.exts[at].first)
    ensures Between(Pre(ctx), t.exts, Post(ctx), PutIndex(t.exts, at, n), n)
  {
    hide CtxSound, CtxFilled, Reached, Pre, Post;
    PreBelow(ctx, 0, space);
    PostAbove(ctx, 0, space);
    ReachedBelow(ctx, n.first);
    if Pre(ctx) != [] {
      ExtentsBefore(ctx, 0, n.first, space);
    }
  }

  lemma Concat<T>(a: seq<T>, x: seq<T>, n: T, y: seq<T>, b: seq<T>)
    ensures a + (x + [n] + y) + b == (a + x) + [n] + (y + b)
  {}

  lemma CutInside<T>(a: seq<T>, e: seq<T>, b: seq<T>, k: nat)
    requires k <= |e|
    ensures (a + e + b)[..|a| + k] == a + e[..k] && (a + e + b)[|a| + k..] == e[k..] + b
  {}

  lemma InsertedInside(pre: seq<Extent>, e: seq<Extent>, post: seq<Extent>, k: nat, n: Extent)
    requires k <= |e|
    ensures pre + Inserted(e, k, n) + post == Inserted(pre + e + post, |pre| + k, n)
  {
    CutInside(pre, e, post, k);
    Concat(pre, e[..k], n, e[k..], post);
  }

  lemma ApartInside(pre: seq<Extent>, e: seq<Extent>, post: seq<Extent>, k: nat, n: Extent)
    requires k <= |e| && Good(n) && Between(pre, e, post, k, n)
    requires var s := pre + e + post; Apart(s) && AllGood(s) && Clear(s, n)
    ensures Apart(Inserted(pre + e + post, |pre| + k, n))
  {
    var s, j := pre + e + post, |pre| + k;
    assert j > 0 ==> s[j - 1] == if k > 0 then e[k - 1] else pre[|pre| - 1];
    assert j < |s| ==> s[j] == if k < |e| then e[k] else post[0];
    InsertedApart(s, j, n);
  }

  /** Inserting at a leaf is inserting into the list of all extents. */
  lemma PutWhole(ctx: Ctx, t: Tree, at: int, n: Extent, space: nat)
    requires CtxSound(ctx, 0, space) && CtxFilled(ctx) && PlaceSound(ctx, t, 0, space) && t.Tip?
    requires Reached(ctx, n.first) && LeafPos(t.exts, at, n.first) && Good(n)
    requires (at >= 0 ==> n.first != t.exts[at].first) && |t.exts| < Cap(ctx, space)
    requires var s := Exts(Plug(ctx, t)); Apart(s) && AllGood(s) && Clear(s, n)
    ensures var exts := Inserted(t.exts, PutIndex(t.exts, at, n), n);
            WellFormed(Plug(Retied(ctx, at, exts), Tip(t.block, exts)), Level(ctx), space)
  {
    hide CtxSound, AllGood;
    var exts := Inserted(t.exts, PutIndex(t.exts, at, n), n);
    var c, t' := Retied(ctx, at, exts), Tip(t.block, exts);
    assert Apart(Exts(Plug(c, t'))) by {
      PutNeighbours(ctx, t, at, n, space);
      PutApart(ctx, t, at, n);
    }
    PutSound(ctx, t, at, n, space);
    Assembled(c, t', 0, space);
    CorrectedSame(ctx, exts[0].first);
  }

  /** A place and its surroundings in order make a well-formed tree. */
  lemma Assembled(ctx: Ctx, t: Tree, d: nat, space: nat)
    requires CtxSound(ctx, d, space) && PlaceSound(ctx, t, d, space) && CtxFilled(ctx)
        && ((ctx.Top? && t.Tip?) || Filled(t))
    requires Apart(Exts(Plug(ctx, t)))
    ensures WellFormed(Plug(ctx, t), d + Level(ctx), space)
  {
    PlugSound(ctx, t, d, space);
    PlugFilled(ctx, t);
  }

  lemma PutApart(ctx: Ctx, t: Tree, at: int, n: Extent)
    requires t.Tip? && Good(n) && -1 <= at < |t.exts|
    requires Between(Pre(ctx), t.exts, Post(ctx), PutIndex(t.exts, at, n), n)
    requires var s := Exts(Plug(ctx, t)); Apart(s) && AllGood(s) && Clear(s, n)
    ensures var exts := Inserted(t.exts, PutIndex(t.exts, at, n), n);
            Apart(Exts(Plug(Retied(ctx, at, exts), Tip(t.block, exts))))
  {
    hide Apart, AllGood, Clear, Between;
    var k := PutIndex(t.exts, at, n);
    PlugExts(ctx, t);
    ApartInside(Pre(ctx), t.exts, Post(ctx), k, n);
    PutList(ctx, t, at, n);
  }

  lemma PutList(ctx: Ctx, t: Tree, at: int, n: Extent)
    requires t.Tip? && -1 <= at < |t.exts|
    ensures var exts := Inserted(t.exts, PutIndex(t.exts, at, n), n);
            var s, k := Exts(Plug(ctx, t)), |Pre(ctx)| + PutIndex(t.exts, at, n);
            k <= |s| && Exts(Plug(Retied(ctx, at, exts), Tip(t.block, exts))) == Inserted(s, k, n)
  {
    hide Plug, Corrected, Pre, Post;
    var k := PutIndex(t.exts, at, n);
    var exts := Inserted(t.exts, k, n);
    CorrectedSame(ctx, exts[0].first);
    PlugExts(ctx, t);
    PlugExts(Retied(ctx, at, exts), Tip(t.block, exts));
    InsertedInside(Pre(ctx), t.exts, Post(ctx), k, n);
  }

  lemma LeafAscending(ctx: Ctx, t: Tree, space: nat)
    requires PlaceSound(ctx, t, 0, space) && t.Tip?
    ensures Ascending(t.exts)
  {}

  lemma PosUnique(exts: seq<Extent>, at: int, at': int, b: nat)
    requires Ascending(exts) && LeafPos(exts, at, b) && LeafPos(exts, at', b)
    ensures at == at'
  {}

  lemma InsertFacts(m: Store, whole: Tree, path: seq<Step>, ctx: Ctx, t: Tree, b: nat, space: nat)
    requires Stored(m, whole, space) && WellFormed(whole, DepthOf(m), space)
        && Found(m, whole, DepthOf(m), path, ctx, t, b)
    ensures AllGood(Exts(whole)) && -1 <= path[DepthOf(m)].at < |t.exts| <= Cap(ctx, space)
    ensures var at := Position(ctx, path[DepthOf(m)].at);
            -1 <= at < |Exts(whole)| && (at >= 0 <==> path[DepthOf(m)].at >= 0)
              && (at >= 0 ==> Exts(whole)[at] == t.exts[path[DepthOf(m)].at])
  {
    hide Sound, CtxSound, Apart, Rep;
    ExtentsGood(whole, DepthOf(m), space);
    FoundInList(ctx, t, path[DepthOf(m)].at, b, space);
    PlaceOrder(ctx, t, 0, space);
    TipPlace(ctx, t.block, t.exts, space);
  }

  lemma TipExts(ctx: Ctx, t: Tree, at: nat, e: Extent)
    requires t.Tip? && at < |t.exts|
    ensures var s := Exts(Plug(ctx, t));
            |Pre(ctx)| + at < |s| && Exts(Plug(ctx, Tip(t.block, t.exts[at := e]))) == s[|Pre(ctx)| + at := e]
  {
    PlugExts(ctx, t);
    PlugExts(ctx, Tip(t.block, t.exts[at := e]));
  }

  /** A leaf entry gets longer and keeps its place. */
  lemma LongerWhole(ctx: Ctx, t: Tree, at: nat, e: Extent, space: nat)
    requires WellFormed(Plug(ctx, t), Level(ctx), space) && t.Tip? && at < |t.exts|
    requires e.first == t.exts[at].first && Good(e)
    requires |Pre(ctx)| + at < |Exts(Plug(ctx, t))| && Apart(Exts(Plug(ctx, t))[|Pre(ctx)| + at := e])
    ensures WellFormed(Plug(ctx, Tip(t.block, t.exts[at := e])), Level(ctx), space)
  {
    hide Sound, CtxSound, Good, Apart, Filled;
    PlaceOrder(ctx, t, 0, space);
    TipExts(ctx, t, at, e);
    TipPlace(ctx, t.block, t.exts, space);
    TipPlace(ctx, t.block, t.exts[at := e], space);
    PlugFilled(ctx, t);
    TipAtBottom(ctx, t);
    TipFilled(t.block, t.exts[at := e]);
    if ctx.Top? {
    } else {
      Assembled(ctx, Tip(t.block, t.exts[at := e]), 0, space);
    }
    PlugSound(ctx, Tip(t.block, t.exts[at := e]), 0, space);
  }

  lemma TipFilled(b: nat, exts: seq<Extent>)
    ensures Filled(Tip(b, exts)) <==> exts != []
  {}
}
