/** Splitting the blocks along a path, and growing the tree. */
module ExtentSplits {
  import opened ExtentFields
  import opened ExtentMap
  import opened ExtentShape
  import opened ExtentPlaces
  import opened ExtentChanges
  import opened ExtentMerges

  // ----- One path above another -----

  ghost function Joined(inner: Ctx, outer: Ctx): Ctx {
    if inner.Top? then outer else In(inner.block, inner.left, inner.key, inner.right, Joined(inner.up, outer))
  }

  lemma {:induction false} JoinedPlug(inner: Ctx, outer: Ctx, t: Tree)
    ensures Plug(Joined(inner, outer), t) == Plug(outer, Plug(inner, t))
    ensures Level(Joined(inner, outer)) == Level(inner) + Level(outer)
    decreases inner
  {
    if !inner.Top? {
      JoinedPlug(inner.up, outer, Fill(inner, t));
    }
  }

  lemma {:induction false} JoinedReached(inner: Ctx, outer: Ctx, b: nat)
    ensures Reached(Joined(inner, outer), b) <==> Reached(inner, b) && Reached(outer, b)
    ensures CtxFilled(Joined(inner, outer)) <==> CtxFilled(inner) && CtxFilled(outer)
    decreases inner
  {
    if !inner.Top? {
      JoinedReached(inner.up, outer, b);
    }
  }

  lemma {:induction false} JoinedPath(path: seq<Step>, inner: Ctx, outer: Ctx, base: nat)
    ensures PathIs(path, Joined(inner, outer), base) <==>
        PathIs(path, inner, base + Level(outer)) && PathIs(path, outer, base)
    decreases inner
  {
    JoinedPlug(inner, outer, Tip(0, []));
    if !inner.Top? {
      JoinedPath(path, inner.up, outer, base);
    }
  }

  // ----- A block splits in two -----

  /** A stored tree whole, and apart from it a stored subtree that no block points to yet. */
  ghost predicate Floating(m: Store, whole: Tree, r: Tree, d: nat, space: nat) {
    && whole.block == ROOT && ROOT in m && Rep(m, whole, DepthOf(m), ROOT_SPACE, space)
    && Rep(m, r, d, space, space) && multiset(m.Keys) == Blocks(whole) + Blocks(r)
  }

  /** The two halves of the block above a place whose subtree split into l and r at key k. */
  ghost function LeftHalf(ctx: Ctx, l: Tree): Tree
    requires !ctx.Top?
  {
    Fork(ctx.block, ctx.left + [Kid(ctx.key, l)])
  }

  ghost function RightHalf(ctx: Ctx, nb: nat, k: nat, r: Tree): Tree
    requires !ctx.Top?
  {
    Fork(nb, [Kid(k, r)] + ctx.right)
  }

  /** The block above a place takes both parts. */
  ghost function Both(ctx: Ctx, l: Tree, k: nat, r: Tree): Tree
    requires !ctx.Top?
  {
    Fork(ctx.block, ctx.left + [Kid(ctx.key, l)] + ([Kid(k, r)] + ctx.right))
  }

  /** l keeps the part of a place below k and r takes the part from k on. */
  ghost predicate SplitAt(ctx: Ctx, l: Tree, k: nat, r: Tree, d: nat, space: nat) {
    && !ctx.Top? && CtxSound(ctx, d, space) && ctx.key < k < Hi(ctx)
    && Sound(l, d, ctx.key, k, space, space) && Tied(l, ctx.key)
    && Sound(r, d, k, Hi(ctx), space, space) && Tied(r, k)
  }

  lemma KeyOrder(ctx: Ctx, l: Tree, k: nat, r: Tree, d: nat, space: nat)
    requires SplitAt(ctx, l, k, r, d, space)
    ensures !ctx.Top? && ctx.key < k
  {}

  lemma HalvesSound(ctx: Ctx, l: Tree, k: nat, r: Tree, nb: nat, d: nat, space: nat)
    requires SplitAt(ctx, l, k, r, d, space) && !ctx.up.Top? && ROOT_SPACE <= space
    ensures SplitAt(ctx.up, LeftHalf(ctx, l), k, RightHalf(ctx, nb, k, r), d + 1, space)
  {
    hide Sound, KidsSound, Tied;
    HiBelow(ctx, d, space);
    LeftHalfSound(ctx, l, k, d, space);
    RightHalfSound(ctx, nb, k, r, d, space);
  }

  lemma LeftHalfSound(ctx: Ctx, l: Tree, k: nat, d: nat, space: nat)
    requires !ctx.Top? && CtxSound(ctx, d, space) && !ctx.up.Top? && ctx.key < k
    requires Sound(l, d, ctx.key, k, space, space) && Tied(l, ctx.key)
    ensures Sound(LeftHalf(ctx, l), d + 1, ctx.up.key, k, space, space) && Tied(LeftHalf(ctx, l), ctx.up.key)
  {
    hide KidsSound;
    var kid := [Kid(ctx.key, l)];
    KidsSoundSingle(kid[0], d, ctx.up.key, k, space);
    KidsSoundJoin(ctx.left, kid, d, ctx.up.key, k, space);
  }

  lemma RightHalfSound(ctx: Ctx, nb: nat, k: nat, r: Tree, d: nat, space: nat)
    requires !ctx.Top? && CtxSound(ctx, d, space) && ctx.key < k < Hi(ctx) && !ctx.up.Top?
    requires Sound(r, d, k, Hi(ctx), space, space) && Tied(r, k) && Hi(ctx) <= Hi(ctx.up)
    ensures Sound(RightHalf(ctx, nb, k, r), d + 1, k, Hi(ctx.up), space, space) && Tied(RightHalf(ctx, nb, k, r), k)
  {
    hide KidsSound;
    RestSound(ctx, k, r, d, space);
  }

  lemma RestSound(ctx: Ctx, k: nat, r: Tree, d: nat, space: nat)
    requires !ctx.Top? && CtxSound(ctx, d, space) && ctx.key < k < Hi(ctx) && Hi(ctx) <= Hi(ctx.up)
    requires Sound(r, d, k, Hi(ctx), space, space) && Tied(r, k)
    ensures KidsSound([Kid(k, r)] + ctx.right, d, k, Hi(ctx.up), space)
  {
    hide KidsSound;
    var kid := [Kid(k, r)];
    KidsSoundSingle(kid[0], d, k, Hi(ctx), space);
    if ctx.right == [] {
      assert kid + ctx.right == kid;
    } else {
      KidsSoundBelow(ctx.right, d, ctx.key + 1, k, Hi(ctx.up), space);
      KidsSoundJoin(kid, ctx.right, d, k, Hi(ctx.up), space);
    }
  }

  lemma BothSound(ctx: Ctx, l: Tree, k: nat, r: Tree, d: nat, space: nat)
    requires SplitAt(ctx, l, k, r, d, space) && |ctx.left| + 1 + |ctx.right| < Cap(ctx.up, space)
    ensures CtxSound(ctx.up, d + 1, space) && PlaceSound(ctx.up, Both(ctx, l, k, r), d + 1, space)
  {
    hide KidsSound;
    HiBelow(ctx, d, space);
    RestSound(ctx, k, r, d, space);
    var kid, rest := [Kid(ctx.key, l)], [Kid(k, r)] + ctx.right;
    KidsSoundSingle(kid[0], d, Lo(ctx.up), k, space);
    KidsSoundBelow(rest, d, k, Lo(ctx.up), Hi(ctx.up), space);
    KidsSoundJoin(kid, rest, d, Lo(ctx.up), Hi(ctx.up), space);
    KidsSoundJoin(ctx.left, kid + rest, d, Lo(ctx.up), Hi(ctx.up), space);
    assert ctx.left + kid + rest == ctx.left + (kid + rest);
  }

  /** The two parts of a leaf. */
  lemma LeafSplitAt(ctx: Ctx, t: Tree, at: nat, k: nat, nb: nat, space: nat)
    requires !ctx.Top? && CtxSound(ctx, 0, space) && PlaceSound(ctx, t, 0, space) && t.Tip? && at < |t.exts|
        && k < Hi(ctx)
    requires if at + 1 < |t.exts| then k == t.exts[at + 1].first else k > t.exts[at].first
    ensures SplitAt(ctx, Tip(t.block, t.exts[..at + 1]), k, Tip(nb, t.exts[at + 1..]), 0, space)
  {
    TipPlace(ctx, t.block, t.exts, space);
    var l, r := t.exts[..at + 1], t.exts[at + 1..];
    assert forall i :: 0 <= i <= at ==> l[i] == t.exts[i] && (i < at ==> t.exts[i].first < t.exts[at].first);
    assert forall i :: 0 <= i < |r| ==> r[i] == t.exts[at + 1 + i];
    assert ExtsSound(l, ctx.key, k);
    assert ExtsSound(r, k, Hi(ctx));
  }

  // ----- The stored blocks -----

  lemma AddedFrame(m: Store, m': Store, nb: nat, n: Node, blocks: multiset<nat>)
    requires nb !in m && m' == m[nb := n]
    requires forall b :: b in blocks ==> b in m
    ensures SameOn(m, m', blocks) && m'.Keys == m.Keys + {nb}
  {}

  lemma StoredBlocks(m: Store, t: Tree, space: nat)
    requires Stored(m, t, space)
    ensures forall b :: b in Blocks(t) ==> b in m
  {
    hide Rep;
    forall b | b in Blocks(t)
      ensures b in m
    {
      assert multiset(m.Keys)[b] == Blocks(t)[b];
    }
  }

  lemma OneMore(a: set<nat>, b: nat)
    requires b !in a
    ensures multiset(a + {b}) == multiset(a) + multiset{b}
  {}

  lemma LeafSplit(m: Store, m1: Store, m2: Store, ctx: Ctx, t: Tree, l: seq<Extent>, r: seq<Extent>, nb: nat,
      space: nat)
    requires Stored(m, Plug(ctx, t), space) && Level(ctx) == DepthOf(m) && t.Tip?
    requires WrittenAt(m, m1, t.block, Leaf(Cap(ctx, space), l)) && nb !in m && m2 == m1[nb := Leaf(space, r)]
    ensures Floating(m2, Plug(ctx, Tip(t.block, l)), Tip(nb, r), 0, space) && DepthOf(m2) == DepthOf(m)
  {
    hide Rep;
    var whole := Plug(ctx, Tip(t.block, l));
    TipRewritten(m, m1, ctx, t, l, space);
    StoredBlocks(m1, whole, space);
    AddedFrame(m1, m2, nb, Leaf(space, r), Blocks(whole));
    RepFrame(m1, m2, whole, DepthOf(m), ROOT_SPACE, space);
    OneMore(m1.Keys, nb);
    TipRep(m2, nb, r, space);
    TopAndBelow(Tip(nb, r));
  }

  lemma TipRep(m: Store, b: nat, exts: seq<Extent>, space: nat)
    requires b in m && m[b] == Leaf(space, exts)
    ensures Rep(m, Tip(b, exts), 0, space, space)
  {}

  /** What a floating subtree and the place of its other half say about the block above them. */
  lemma FloatingFacts(m: Store, ctx: Ctx, l: Tree, r: Tree, d: nat, space: nat)
    requires Floating(m, Plug(ctx, l), r, d, space) && !ctx.Top? && d + Level(ctx) == DepthOf(m)
    ensures ctx.block in m
    ensures m[ctx.block] ==
        Inner(d + 1, Cap(ctx.up, space), Entries(ctx.left) + [Index(ctx.key, l.block)] + Entries(ctx.right))
    ensures KidsRep(m, ctx.left, d, space) && KidsRep(m, ctx.right, d, space) && Rep(m, l, d, space, space)
    ensures CtxRep(m, ctx.up, ctx.block, d + 1, space)
    ensures multiset(m.Keys) ==
            multiset{ctx.block} +
              (KidsBlocks(ctx.left) + Blocks(l) + KidsBlocks(ctx.right) + CtxBlocks(ctx.up) + Blocks(r))
    ensures !ctx.up.Top? ==> ROOT in CtxBlocks(ctx.up)
  {
    hide Rep, KidsRep;
    PlugRep(m, ctx, l, d, space);
    FloatingBlocks(m, ctx, l, r, d, space);
    if !ctx.up.Top? {
      RootAbove(ctx.up, Fill(ctx, l));
    }
  }

  lemma FloatingBlocks(m: Store, ctx: Ctx, l: Tree, r: Tree, d: nat, space: nat)
    requires Floating(m, Plug(ctx, l), r, d, space) && !ctx.Top?
    ensures multiset(m.Keys) ==
            multiset{ctx.block} +
              (KidsBlocks(ctx.left) + Blocks(l) + KidsBlocks(ctx.right) + CtxBlocks(ctx.up) + Blocks(r))
  {
    hide Rep, Blocks, KidsBlocks;
    PlugBlocks(ctx, l);
  }

  /** Two blocks change, one of them new; what is stored elsewhere stays. */
  lemma TwoFrame(m: Store, m': Store, b: nat, n: Node, nb: nat, n': Node, rest: multiset<nat>, part: multiset<nat>)
    requires multiset(m.Keys) == multiset{b} + rest && part <= rest && nb !in m && m' == m[b := n][nb := n']
    ensures SameOn(m, m', part) && m'.Keys == m.Keys + {nb} && nb != b
  {
    forall x | x in part
      ensures x in m && x != b
    {
      assert multiset(m.Keys)[x] == multiset{b}[x] + rest[x];
    }
    assert multiset(m.Keys)[b] > 0;
  }

  lemma Widened<T>(a: seq<T>, x: T, b: seq<T>, n: T)
    ensures var s := a + [x] + b;
            s[|a|] == x && s[..|a| + 1] + [n] + s[|a| + 1..] == a + [x] + ([n] + b)
  {}

  lemma Halfway<T>(a: seq<T>, x: T, b: seq<T>)
    ensures var s := a + [x] + b;
            s[..|a| + 1] == a + [x] && s[|a| + 1..] == b
  {}

  lemma EntriesLength(kids: seq<Kid>)
    ensures |Entries(kids)| == |kids|
  {}

  lemma EntriesJoin(a: seq<Kid>, k: Kid, b: seq<Kid>)
    ensures Entries(a + [k]) == Entries(a) + [Index(k.key, k.tree.block)]
    ensures Entries([k] + b) == [Index(k.key, k.tree.block)] + Entries(b)
  {}

  lemma KidsRepJoin(m: Store, a: seq<Kid>, k: Kid, b: seq<Kid>, d: nat, space: nat)
    requires KidsRep(m, a, d, space) && Rep(m, k.tree, d, space, space) && KidsRep(m, b, d, space)
    ensures KidsRep(m, a + [k], d, space) && KidsRep(m, [k] + b, d, space)
  {
    hide Rep;
  }

  lemma HalfBlocks(ctx: Ctx, l: Tree, nb: nat, k: nat, r: Tree)
    requires !ctx.Top?
    ensures Blocks(LeftHalf(ctx, l)) == multiset{ctx.block} + (KidsBlocks(ctx.left) + Blocks(l))
    ensures Blocks(RightHalf(ctx, nb, k, r)) == multiset{nb} + (Blocks(r) + KidsBlocks(ctx.right))
    ensures Blocks(Both(ctx, l, k, r)) ==
            multiset{ctx.block} + (KidsBlocks(ctx.left) + Blocks(l) + (Blocks(r) + KidsBlocks(ctx.right)))
  {
    var a, b := [Kid(ctx.key, l)], [Kid(k, r)];
    SingleBlocks(a[0]);
    SingleBlocks(b[0]);
    KidsBlocksJoin(ctx.left, a);
    KidsBlocksJoin(b, ctx.right);
    KidsBlocksJoin(ctx.left + a, b + ctx.right);
  }

  lemma HalvesRep(m: Store, m': Store, ctx: Ctx, l: Tree, r: Tree, k: nat, nb: nat, d: nat, space: nat)
    requires Floating(m, Plug(ctx, l), r, d, space) && !ctx.Top? && d + Level(ctx) == DepthOf(m) && nb !in m
    requires m' == m[ctx.block := Inner(d + 1, space, Entries(ctx.left) + [Index(ctx.key, l.block)])]
                    [nb := Inner(d + 1, space, [Index(k, r.block)] + Entries(ctx.right))]
    ensures Rep(m', LeftHalf(ctx, l), d + 1, space, space) && Rep(m', RightHalf(ctx, nb, k, r), d + 1, space, space)
    ensures CtxRep(m', ctx.up, ctx.block, d + 1, space) && m'.Keys == m.Keys + {nb}
  {
    HalvesFrame(m, m', ctx, l, r, k, nb, d, space);
    EntriesJoin(ctx.left, Kid(ctx.key, l), []);
    EntriesJoin([], Kid(k, r), ctx.right);
    KidsRepJoin(m', ctx.left, Kid(ctx.key, l), [], d, space);
    KidsRepJoin(m', [], Kid(k, r), ctx.right, d, space);
  }

  lemma HalvesFrame(m: Store, m': Store, ctx: Ctx, l: Tree, r: Tree, k: nat, nb: nat, d: nat, space: nat)
    requires Floating(m, Plug(ctx, l), r, d, space) && !ctx.Top? && d + Level(ctx) == DepthOf(m) && nb !in m
    requires m' == m[ctx.block := Inner(d + 1, space, Entries(ctx.left) + [Index(ctx.key, l.block)])]
                    [nb := Inner(d + 1, space, [Index(k, r.block)] + Entries(ctx.right))]
    ensures KidsRep(m', ctx.left, d, space) && KidsRep(m', ctx.right, d, space)
    ensures Rep(m', l, d, space, space) && Rep(m', r, d, space, space)
    ensures CtxRep(m', ctx.up, ctx.block, d + 1, space) && m'.Keys == m.Keys + {nb} && nb != ctx.block
  {
    hide Rep, KidsRep, CtxRep, Blocks, KidsBlocks, CtxBlocks, Entries, SameOn;
    FloatingFacts(m, ctx, l, r, d, space);
    var n := Inner(d + 1, space, Entries(ctx.left) + [Index(ctx.key, l.block)]);
    var n' := Inner(d + 1, space, [Index(k, r.block)] + Entries(ctx.right));
    var rest := KidsBlocks(ctx.left) + Blocks(l) + KidsBlocks(ctx.right) + CtxBlocks(ctx.up) + Blocks(r);
    TwoFrame(m, m', ctx.block, n, nb, n', rest, KidsBlocks(ctx.left));
    TwoFrame(m, m', ctx.block, n, nb, n', rest, KidsBlocks(ctx.right));
    TwoFrame(m, m', ctx.block, n, nb, n', rest, Blocks(l));
    TwoFrame(m, m', ctx.block, n, nb, n', rest, Blocks(r));
    TwoFrame(m, m', ctx.block, n, nb, n', rest, CtxBlocks(ctx.up));
    KidsRepFrame(m, m', ctx.left, d, space);
    KidsRepFrame(m, m', ctx.right, d, space);
    RepFrame(m, m', l, d, space, space);
    RepFrame(m, m', r, d, space, space);
    CtxRepFrame(m, m', ctx.up, ctx.block, d + 1, space);
  }

  lemma HalvesBlocks(m: Store, m': Store, ctx: Ctx, l: Tree, r: Tree, k: nat, nb: nat, d: nat, space: nat)
    requires Floating(m, Plug(ctx, l), r, d, space) && !ctx.Top? && nb !in m && m'.Keys == m.Keys + {nb}
    ensures multiset(m'.Keys) == Blocks(Plug(ctx.up, LeftHalf(ctx, l))) + Blocks(RightHalf(ctx, nb, k, r))
  {
    hide Rep, Blocks, KidsBlocks, CtxBlocks;
    FloatingBlocks(m, ctx, l, r, d, space);
    OneMore(m.Keys, nb);
    HalfBlocks(ctx, l, nb, k, r);
    PlugBlocks(ctx.up, LeftHalf(ctx, l));
  }

  /** The block above a split place, full as it is, splits as well. */
  lemma IndexSplit(m: Store, m': Store, ctx: Ctx, l: Tree, r: Tree, k: nat, nb: nat, d: nat, space: nat)
    requires Floating(m, Plug(ctx, l), r, d, space) && !ctx.Top? && !ctx.up.Top? && d + Level(ctx) == DepthOf(m)
        && nb !in m
    requires m' == m[ctx.block := Inner(d + 1, space, Entries(ctx.left) + [Index(ctx.key, l.block)])]
                    [nb := Inner(d + 1, space, [Index(k, r.block)] + Entries(ctx.right))]
    ensures Floating(m', Plug(ctx.up, LeftHalf(ctx, l)), RightHalf(ctx, nb, k, r), d + 1, space)
    ensures ROOT in m' && DepthOf(m') == DepthOf(m)
  {
    hide Rep, KidsRep, Entries, Blocks, CtxRep, KidsBlocks, CtxBlocks;
    FloatingFacts(m, ctx, l, r, d, space);
    HalvesRep(m, m', ctx, l, r, k, nb, d, space);
    HalvesBlocks(m, m', ctx, l, r, k, nb, d, space);
    RootKept(m, m', ctx, l, r, k, nb, d, space);
    PlugRep(m', ctx.up, LeftHalf(ctx, l), d + 1, space);
    PlugBlock(ctx.up, Fill(ctx, l), LeftHalf(ctx, l));
  }

  lemma RootKept(m: Store, m': Store, ctx: Ctx, l: Tree, r: Tree, k: nat, nb: nat, d: nat, space: nat)
    requires Floating(m, Plug(ctx, l), r, d, space) && !ctx.Top? && !ctx.up.Top? && d + Level(ctx) == DepthOf(m)
        && nb !in m
    requires m' == m[ctx.block := Inner(d + 1, space, Entries(ctx.left) + [Index(ctx.key, l.block)])]
                    [nb := Inner(d + 1, space, [Index(k, r.block)] + Entries(ctx.right))]
    ensures ROOT in m && ROOT in m' && DepthOf(m') == DepthOf(m)
  {
    hide Rep, KidsRep, CtxRep, Blocks, KidsBlocks, CtxBlocks, Entries;
    FloatingFacts(m, ctx, l, r, d, space);
    var rest := KidsBlocks(ctx.left) + Blocks(l) + KidsBlocks(ctx.right) + CtxBlocks(ctx.up) + Blocks(r);
    TwoFrame(m, m', ctx.block, m'[ctx.block], nb, m'[nb], rest, CtxBlocks(ctx.up));
  }

  /** The block above a split place has room: the new part joins the tree. */
  lemma IndexInserted(m: Store, m': Store, ctx: Ctx, l: Tree, r: Tree, k: nat, d: nat, space: nat)
    requires Floating(m, Plug(ctx, l), r, d, space) && !ctx.Top? && d + Level(ctx) == DepthOf(m)
    requires ctx.block in m
    requires m' == m[ctx.block := Inner(d + 1, Cap(ctx.up, space),
                       Entries(ctx.left) + [Index(ctx.key, l.block)] + ([Index(k, r.block)] + Entries(ctx.right)))]
    ensures Stored(m', Plug(ctx.up, Both(ctx, l, k, r)), space) && DepthOf(m') == DepthOf(m)
  {
    hide Rep, KidsRep, Entries, Blocks, CtxRep, KidsBlocks, CtxBlocks;
    FloatingFacts(m, ctx, l, r, d, space);
    BothRep(m, m', ctx, l, r, k, d, space);
    FloatingBlocks(m, ctx, l, r, d, space);
    HalfBlocks(ctx, l, 0, k, r);
    PlugBlocks(ctx.up, Both(ctx, l, k, r));
    PlugRep(m', ctx.up, Both(ctx, l, k, r), d + 1, space);
    PlugBlock(ctx.up, Fill(ctx, l), Both(ctx, l, k, r));
  }

  lemma BothRep(m: Store, m': Store, ctx: Ctx, l: Tree, r: Tree, k: nat, d: nat, space: nat)
    requires Floating(m, Plug(ctx, l), r, d, space) && !ctx.Top? && d + Level(ctx) == DepthOf(m)
    requires ctx.block in m
    requires m' == m[ctx.block := Inner(d + 1, Cap(ctx.up, space),
                       Entries(ctx.left) + [Index(ctx.key, l.block)] + ([Index(k, r.block)] + Entries(ctx.right)))]
    ensures Rep(m', Both(ctx, l, k, r), d + 1, Cap(ctx.up, space), space) && CtxRep(m', ctx.up, ctx.block, d + 1, space)
    ensures m'.Keys == m.Keys && ROOT in m && DepthOf(m') == DepthOf(m)
  {
    BothFrame(m, m', ctx, l, r, k, d, space);
    var a, b := [Kid(ctx.key, l)], [Kid(k, r)];
    EntriesJoin(ctx.left, a[0], []);
    EntriesJoin([], b[0], ctx.right);
    EntriesConcat(ctx.left + a, b + ctx.right);
    KidsRepJoin(m', ctx.left, a[0], [], d, space);
    KidsRepJoin(m', [], b[0], ctx.right, d, space);
    KidsRepConcat(m', ctx.left + a, b + ctx.right, d, space);
  }

  lemma EntriesConcat(a: seq<Kid>, b: seq<Kid>)
    ensures Entries(a + b) == Entries(a) + Entries(b)
  {}

  lemma KidsRepConcat(m: Store, a: seq<Kid>, b: seq<Kid>, d: nat, space: nat)
    requires KidsRep(m, a, d, space) && KidsRep(m, b, d, space)
    ensures KidsRep(m, a + b, d, space)
  {
    hide Rep;
  }

  lemma BothFrame(m: Store, m': Store, ctx: Ctx, l: Tree, r: Tree, k: nat, d: nat, space: nat)
    requires Floating(m, Plug(ctx, l), r, d, space) && !ctx.Top? && d + Level(ctx) == DepthOf(m)
    requires ctx.block in m
    requires m' == m[ctx.block := Inner(d + 1, Cap(ctx.up, space),
                       Entries(ctx.left) + [Index(ctx.key, l.block)] + ([Index(k, r.block)] + Entries(ctx.right)))]
    ensures KidsRep(m', ctx.left, d, space) && KidsRep(m', ctx.right, d, space)
    ensures Rep(m', l, d, space, space) && Rep(m', r, d, space, space)
    ensures CtxRep(m', ctx.up, ctx.block, d + 1, space) && m'.Keys == m.Keys && ROOT in m && DepthOf(m') == DepthOf(m)
  {
    hide Rep, KidsRep, CtxRep, Blocks, KidsBlocks, CtxBlocks, Entries, SameOn;
    FloatingFacts(m, ctx, l, r, d, space);
    var rest := KidsBlocks(ctx.left) + Blocks(l) + KidsBlocks(ctx.right) + CtxBlocks(ctx.up) + Blocks(r);
    OneFrame(m, m', ctx.block, m'[ctx.block], rest, KidsBlocks(ctx.left));
    OneFrame(m, m', ctx.block, m'[ctx.block], rest, KidsBlocks(ctx.right));
    OneFrame(m, m', ctx.block, m'[ctx.block], rest, Blocks(l));
    OneFrame(m, m', ctx.block, m'[ctx.block], rest, Blocks(r));
    OneFrame(m, m', ctx.block, m'[ctx.block], rest, CtxBlocks(ctx.up));
    KidsRepFrame(m, m', ctx.left, d, space);
    KidsRepFrame(m, m', ctx.right, d, space);
    RepFrame(m, m', l, d, space, space);
    RepFrame(m, m', r, d, space, space);
    CtxRepFrame(m, m', ctx.up, ctx.block, d + 1, space);
    RootStays(m, m', ctx, l, r, d, space);
  }

  lemma RootStays(m: Store, m': Store, ctx: Ctx, l: Tree, r: Tree, d: nat, space: nat)
    requires Floating(m, Plug(ctx, l), r, d, space) && !ctx.Top? && d + Level(ctx) == DepthOf(m)
    requires ctx.block in m && ctx.block in m' && m'[ctx.block].Inner? && m'[ctx.block].depth == d + 1
    requires SameOn(m, m', CtxBlocks(ctx.up))
    ensures ROOT in m && ROOT in m' && DepthOf(m') == DepthOf(m)
  {
    hide Rep, KidsRep, CtxRep, Blocks, KidsBlocks, Entries;
    FloatingFacts(m, ctx, l, r, d, space);
    if ctx.up.Top? {
      PlugBlock(ctx.up, Fill(ctx, l), Fill(ctx, l));
      assert Plug(ctx, l) == Fill(ctx, l);
    }
  }

  lemma OneFrame(m: Store, m': Store, b: nat, n: Node, rest: multiset<nat>, part: multiset<nat>)
    requires multiset(m.Keys) == multiset{b} + rest && part <= rest && m' == m[b := n]
    ensures SameOn(m, m', part) && b in m && m'.Keys == m.Keys
  {
    forall x | x in part
      ensures x in m && x != b
    {
      assert multiset(m.Keys)[x] == multiset{b}[x] + rest[x];
    }
    assert multiset(m.Keys)[b] > 0;
  }

  // ----- Splitting along a path -----

  /** A path leads to the leaf t, where a new extent that starts at block b belongs. */
  ghost predicate Aimed(path: seq<Step>, ctx: Ctx, t: Tree, b: nat, d: nat, space: nat) {
    && t.Tip? && Level(ctx) == d && |path| == d + 1 && PathIs(path, ctx, 0) && path[d].block == t.block
    && CtxSound(ctx, 0, space) && CtxFilled(ctx) && PlaceSound(ctx, t, 0, space)
    && Reached(ctx, b) && LeafPos(t.exts, path[d].at, b)
  }

  ghost predicate FrameFull(ctx: Ctx, space: nat)
    requires !ctx.Top?
  {
    |ctx.left| + 1 + |ctx.right| == Cap(ctx.up, space)
  }

  /** The n blocks above a place are full. */
  ghost predicate FullUp(ctx: Ctx, n: nat, space: nat) {
    n == 0 || (!ctx.Top? && FrameFull(ctx, space) && FullUp(ctx.up, n - 1, space))
  }

  /** The state of a split that has come up to some level: the place ctx of the left part l, the right
      part r, and the ways down to the two halves of the leaf. */
  datatype Halves = Halves(ctx: Ctx, l: Tree, r: Tree, innerL: Ctx, innerR: Ctx, leafL: Tree, leafR: Tree)

  ghost function Next(h: Halves, nb: nat, k: nat): Halves
    requires !h.ctx.Top?
  {
    var c := h.ctx;
    Halves(c.up, LeftHalf(c, h.l), RightHalf(c, nb, k, h.r),
           Joined(h.innerL, In(c.block, c.left, c.key, [], Top)), Joined(h.innerR, In(nb, [], k, c.right, Top)),
           h.leafL, h.leafR)
  }

  ghost predicate WaysDown(h: Halves, path: seq<Step>, npath: seq<Step>, i: nat) {
    && Level(h.ctx) == i && h.l == Plug(h.innerL, h.leafL) && h.r == Plug(h.innerR, h.leafR)
    && Level(h.innerL) + 1 == Level(h.innerR) + 1 == |npath|
    && PathIs(path, h.ctx, 0) && PathIs(path, h.innerL, i) && PathIs(npath, h.innerR, 0) && npath[0].block == h.r.block
  }

  ghost predicate Halved(h: Halves, k: nat, b: nat, all: seq<Extent>, d: nat, space: nat) {
    && SplitAt(h.ctx, h.l, k, h.r, d, space)
    && CtxFilled(h.ctx) && CtxFilled(h.innerL) && CtxFilled(h.innerR) && Filled(h.l)
      && (h.leafR.Tip? && h.leafR.exts != [] ==> Filled(h.r))
    && Reached(h.ctx, b) && Reached(h.innerL, b) && Reached(h.innerR, b)
    && Pre(h.ctx) + Exts(h.l) + Exts(h.r) + Post(h.ctx) == all
  }

  lemma WaysFacts(h: Halves, path: seq<Step>, npath: seq<Step>, i: nat)
    requires WaysDown(h, path, npath, i) && i > 0
    ensures !h.ctx.Top? && Level(h.ctx) == i && path[i - 1] == Step(h.ctx.block, |h.ctx.left|)
        && npath[0].block == h.r.block
  {}

  lemma TakenOnce(keys: set<nat>, free: set<nat>, nb: nat, free': set<nat>)
    requires nb in free && free' <= free - {nb}
    ensures keys + {nb} + (free - {nb} - free') == keys + (free - free')
  {}

  lemma TakenTwice(keys: set<nat>, f0: set<nat>, f1: set<nat>, f2: set<nat>)
    requires f2 <= f1 <= f0
    ensures keys + (f0 - f1) + (f1 - f2) == keys + (f0 - f2)
  {}

  lemma WaysLevel(h: Halves, path: seq<Step>, npath: seq<Step>, i: nat)
    requires WaysDown(h, path, npath, i)
    ensures Level(h.ctx) == i
  {}

  lemma NextWaysDown(h: Halves, path: seq<Step>, npath: seq<Step>, i: nat, nb: nat, k: nat)
    requires WaysDown(h, path, npath, i) && i > 0
    ensures WaysDown(Next(h, nb, k), path, [Step(nb, 0)] + npath, i - 1)
  {
    var c, path' := h.ctx, [Step(nb, 0)] + npath;
    var fl, fr := In(c.block, c.left, c.key, [], Top), In(nb, [], k, c.right, Top);
    JoinedPlug(h.innerL, fl, h.leafL);
    JoinedPlug(h.innerR, fr, h.leafR);
    assert Fill(fl, h.l) == LeftHalf(c, h.l);
    assert Fill(fr, h.r) == RightHalf(c, nb, k, h.r);
    JoinedPath(path, h.innerL, fl, i - 1);
    PathShift(npath, h.innerR, Step(nb, 0));
    JoinedPath(path', h.innerR, fr, 0);
  }

  lemma {:induction false} PathShift(path: seq<Step>, ctx: Ctx, s: Step)
    requires PathIs(path, ctx, 0)
    ensures PathIs([s] + path, ctx, 1)
    decreases ctx
  {
    if !ctx.Top? {
      PathShift(path, ctx.up, s);
    }
  }

  lemma NextHalved(h: Halves, k: nat, b: nat, all: seq<Extent>, nb: nat, d: nat, space: nat)
    requires Halved(h, k, b, all, d, space) && !h.ctx.Top? && !h.ctx.up.Top? && ROOT_SPACE <= space
    ensures Halved(Next(h, nb, k), k, b, all, d + 1, space)
  {
    hide SplitAt, CtxSound, Sound;
    var c := h.ctx;
    var fl, fr := In(c.block, c.left, c.key, [], Top), In(nb, [], k, c.right, Top);
    assert SplitAt(h.ctx, h.l, k, h.r, d, space);
    HalvesSound(c, h.l, k, h.r, nb, d, space);
    JoinedReached(h.innerL, fl, b);
    JoinedReached(h.innerR, fr, b);
    NextFilled(h, nb, k);
    NextExts(h, nb, k);
  }

  lemma NextFilled(h: Halves, nb: nat, k: nat)
    requires !h.ctx.Top? && CtxFilled(h.ctx)
    ensures Filled(h.l) ==> Filled(LeftHalf(h.ctx, h.l))
    ensures Filled(h.r) ==> Filled(RightHalf(h.ctx, nb, k, h.r))
  {
    KidsFilledJoin(h.ctx.left, [Kid(h.ctx.key, h.l)]);
    KidsFilledJoin([Kid(k, h.r)], h.ctx.right);
  }

  lemma NextExts(h: Halves, nb: nat, k: nat)
    requires !h.ctx.Top?
    ensures Pre(h.ctx.up) + Exts(LeftHalf(h.ctx, h.l)) + Exts(RightHalf(h.ctx, nb, k, h.r)) + Post(h.ctx.up) ==
            Pre(h.ctx) + Exts(h.l) + Exts(h.r) + Post(h.ctx)
  {
    var c := h.ctx;
    var a, b := [Kid(c.key, h.l)], [Kid(k, h.r)];
    KidsExtsJoin(c.left, a);
    KidsExtsJoin(b, c.right);
    SingleExts(a[0]);
    SingleExts(b[0]);
    Six(Pre(c.up), KidsExts(c.left), Exts(h.l), Exts(h.r), KidsExts(c.right), Post(c.up));
  }

  lemma SingleExts(k: Kid)
    ensures KidsExts([k]) == Exts(k.tree)
  {
    assert KidsExts([k]) == Exts(k.tree) + KidsExts([k][1..]);
  }

  lemma Six<T>(a: seq<T>, b: seq<T>, c: seq<T>, d: seq<T>, e: seq<T>, f: seq<T>)
    ensures a + (b + c) + (d + e) + f == (a + b) + c + d + (e + f)
  {}

  ghost function LeftCtx(h: Halves, k: nat): Ctx
    requires !h.ctx.Top?
  {
    Joined(h.innerL, In(h.ctx.block, h.ctx.left, h.ctx.key, [Kid(k, h.r)] + h.ctx.right, h.ctx.up))
  }

  ghost function RightCtx(h: Halves, k: nat): Ctx
    requires !h.ctx.Top?
  {
    Joined(h.innerR, In(h.ctx.block, h.ctx.left + [Kid(h.ctx.key, h.l)], k, h.ctx.right, h.ctx.up))
  }

  lemma BothPlugs(h: Halves, k: nat, path: seq<Step>, npath: seq<Step>, i: nat)
    requires WaysDown(h, path, npath, i) && !h.ctx.Top?
    ensures var whole := Plug(h.ctx.up, Both(h.ctx, h.l, k, h.r));
            Plug(LeftCtx(h, k), h.leafL) == whole && Plug(RightCtx(h, k), h.leafR) == whole
    ensures Level(LeftCtx(h, k)) == Level(h.innerL) + i && Level(RightCtx(h, k)) == Level(h.innerR) + i
  {
    var c := h.ctx;
    var fl := In(c.block, c.left, c.key, [Kid(k, h.r)] + c.right, c.up);
    var fr := In(c.block, c.left + [Kid(c.key, h.l)], k, c.right, c.up);
    JoinedPlug(h.innerL, fl, h.leafL);
    JoinedPlug(h.innerR, fr, h.leafR);
    assert Fill(fl, h.l) == Both(c, h.l, k, h.r);
    assert c.left + [Kid(c.key, h.l)] + ([Kid(k, h.r)] + c.right) ==
      c.left + [Kid(c.key, h.l)] + [Kid(k, h.r)] + c.right;
    assert Fill(fr, h.r) == Both(c, h.l, k, h.r);
  }

  /** With the new part in the tree, the path leads to the half of the leaf where the new extent belongs. */
  lemma LeftAimed(h: Halves, k: nat, b: nat, all: seq<Extent>, path: seq<Step>, npath: seq<Step>, i: nat, d: nat,
      space: nat)
    requires Halved(h, k, b, all, d, space) && WaysDown(h, path, npath, i) && !h.ctx.Top? && |npath| == d + 1
        && |path| == i + d + 1
    requires |h.ctx.left| + 1 + |h.ctx.right| < Cap(h.ctx.up, space)
    requires h.leafL.Tip? && h.leafR.Tip? && h.leafR.exts != [] && b < k
    requires path[i + d].block == h.leafL.block && LeafPos(h.leafL.exts, path[i + d].at, b)
    ensures Aimed(path, LeftCtx(h, k), h.leafL, b, i + d, space)
  {
    hide SplitAt, CtxSound, Sound, Filled, LeafPos;
    var c := h.ctx;
    var fl := In(c.block, c.left, c.key, [Kid(k, h.r)] + c.right, c.up);
    BothSound(c, h.l, k, h.r, d, space);
    BothPlugs(h, k, path, npath, i);
    PlugSound(c.up, Both(c, h.l, k, h.r), d + 1, space);
    PlugSound(LeftCtx(h, k), h.leafL, 0, space);
    JoinedReached(h.innerL, fl, b);
    NextFilled(h, 0, k);
    JoinedPath(path, h.innerL, fl, 0);
  }

  lemma RightAimed(h: Halves, k: nat, b: nat, all: seq<Extent>, path: seq<Step>, npath: seq<Step>, i: nat, d: nat,
      space: nat)
    requires Halved(h, k, b, all, d, space) && WaysDown(h, path, npath, i) && !h.ctx.Top? && |npath| == d + 1
        && |path| == i + d + 1
    requires |h.ctx.left| + 1 + |h.ctx.right| < Cap(h.ctx.up, space)
    requires h.leafR.Tip? && k <= b
    requires npath[d].block == h.leafR.block && LeafPos(h.leafR.exts, npath[d].at, b)
    ensures path[i - 1] == Step(h.ctx.block, |h.ctx.left|)
    ensures Aimed(path[..i - 1] + [Step(h.ctx.block, |h.ctx.left| + 1)] + npath, RightCtx(h, k), h.leafR, b, i + d,
        space)
  {
    hide SplitAt, CtxSound, Sound, Filled, LeafPos;
    var c := h.ctx;
    var fr := In(c.block, c.left + [Kid(c.key, h.l)], k, c.right, c.up);
    var path' := path[..i - 1] + [Step(c.block, |c.left| + 1)] + npath;
    BothSound(c, h.l, k, h.r, d, space);
    BothPlugs(h, k, path, npath, i);
    PlugSound(c.up, Both(c, h.l, k, h.r), d + 1, space);
    PlugSound(RightCtx(h, k), h.leafR, 0, space);
    JoinedReached(h.innerR, fr, b);
    NextFilled(h, 0, k);
    PathFrame(path, path', c.up, 0);
    PathMoved(path[..i - 1] + [Step(c.block, |c.left| + 1)], npath, h.innerR);
    JoinedPath(path', h.innerR, fr, 0);
  }

  lemma {:induction false} PathMoved(front: seq<Step>, path: seq<Step>, ctx: Ctx)
    requires PathIs(path, ctx, 0)
    ensures PathIs(front + path, ctx, |front|)
    decreases ctx
  {
    if !ctx.Top? {
      PathMoved(front, path, ctx.up);
    }
  }

  lemma BothExts(h: Halves, k: nat, b: nat, all: seq<Extent>, d: nat, space: nat)
    requires Halved(h, k, b, all, d, space) && !h.ctx.Top?
    ensures SplitAt(h.ctx, h.l, k, h.r, d, space) && Exts(Plug(h.ctx.up, Both(h.ctx, h.l, k, h.r))) == all
  {
    hide SplitAt;
    var c := h.ctx;
    var a, e := [Kid(c.key, h.l)], [Kid(k, h.r)];
    PlugExts(c.up, Both(c, h.l, k, h.r));
    KidsExtsJoin(c.left + a, e + c.right);
    KidsExtsJoin(c.left, a);
    KidsExtsJoin(e, c.right);
    SingleExts(a[0]);
    SingleExts(e[0]);
    Six(Pre(c.up), KidsExts(c.left), Exts(h.l), Exts(h.r), KidsExts(c.right), Post(c.up));
    Seven(Pre(c.up), KidsExts(c.left), Exts(h.l), Exts(h.r), KidsExts(c.right), Post(c.up));
  }

  lemma Seven<T>(a: seq<T>, b: seq<T>, c: seq<T>, d: seq<T>, e: seq<T>, f: seq<T>)
    ensures a + ((b + c) + (d + e)) + f == a + (b + c) + (d + e) + f
  {}

  /** The first step: the leaf in two. */
  lemma LeafHalved(ctx: Ctx, t: Tree, at: nat, k: nat, b: nat, nb: nat, path: seq<Step>, d: nat, space: nat)
    requires Aimed(path, ctx, t, b, d, space) && d > 0 && path[d].at == at && b < LOGICAL_LIMIT
    requires t.exts[at].first != b && |t.exts| == space && space > 1
    requires k == if at + 1 < |t.exts| then t.exts[at + 1].first else b
    ensures var l, r := Tip(t.block, t.exts[..at + 1]), Tip(nb, t.exts[at + 1..]);
            var h := Halves(ctx, l, r, Top, Top, l, r);
            && Halved(h, k, b, Exts(Plug(ctx, t)), 0, space)
            && WaysDown(h, path, [Step(nb, if r.exts == [] then -1 else 0)], d)
    ensures at + 1 < |t.exts| ==> b < k && LeafPos(t.exts[..at + 1], at, b)
    ensures !ctx.Top?
  {
    var l, r := t.exts[..at + 1], t.exts[at + 1..];
    ReachedBelow(ctx, b);
    LeafHi(ctx, t, space);
    LeafSplitAt(ctx, t, at, k, nb, space);
    PlugExts(ctx, t);
    assert t.exts == l + r;
    assert Pre(ctx) + (l + r) + Post(ctx) == Pre(ctx) + l + r + Post(ctx);
  }

  lemma LeafHi(ctx: Ctx, t: Tree, space: nat)
    requires PlaceSound(ctx, t, 0, space) && t.Tip?
    ensures forall i :: 0 <= i < |t.exts| ==> t.exts[i].first < Hi(ctx)
  {}

  ghost function UpBy(ctx: Ctx, n: nat): Ctx { if n == 0 || ctx.Top? then ctx else UpBy(ctx.up, n - 1) }

  /** The block n levels above a place has room for another entry. */
  ghost predicate RoomUp(ctx: Ctx, n: nat, space: nat) {
    var top := UpBy(ctx, n);
    !top.Top? && |top.left| + 1 + |top.right| < Cap(top.up, space)
  }

  lemma {:induction false} UpByNext(ctx: Ctx, n: nat)
    requires n < Level(ctx)
    ensures !UpBy(ctx, n).Top? && UpBy(ctx, n + 1) == UpBy(ctx, n).up
    decreases ctx
  {
    if n > 0 {
      UpByNext(ctx.up, n - 1);
    }
  }

  lemma {:induction false} FullAt(ctx: Ctx, n: nat, k: nat, space: nat)
    requires FullUp(ctx, n, space) && k < n
    ensures !UpBy(ctx, k).Top? && FrameFull(UpBy(ctx, k), space)
    decreases ctx
  {
    if k > 0 {
      FullAt(ctx.up, n - 1, k - 1, space);
    }
  }

  /** The leaf of a stored tree. */
  lemma LeafFacts(m: Store, ctx: Ctx, t: Tree, space: nat)
    requires Stored(m, Plug(ctx, t), space) && Level(ctx) == DepthOf(m) && t.Tip?
    ensures t.block in m && m[t.block] == Leaf(Cap(ctx, space), t.exts)
  {
    PlaceFacts(m, Plug(ctx, t), ctx, t, 0, space);
  }

  /** What one turn of the splitting loop reads from the path. */
  lemma StepFacts(h: Halves, path: seq<Step>, npath: seq<Step>, i: nat, ctx0: Ctx, k: nat, n: nat, space: nat)
    requires WaysDown(h, path, npath, i) && i > 0 && h.ctx == UpBy(ctx0, k) && Level(ctx0) == k + i
        && FullUp(ctx0, n, space)
    ensures !h.ctx.Top? && path[i - 1] == Step(h.ctx.block, |h.ctx.left|) && npath != [] && npath[0].block == h.r.block
    ensures k < n ==> FrameFull(h.ctx, space)
    ensures i > 1 ==> !h.ctx.up.Top?
    ensures UpBy(ctx0, k + 1) == h.ctx.up && Level(h.ctx) == i
    ensures k == n && RoomUp(ctx0, n, space) ==> |h.ctx.left| + 1 + |h.ctx.right| < Cap(h.ctx.up, space)
  {
    UpByNext(ctx0, k);
    assert Level(h.ctx.up) == i - 1;
    if k < n {
      FullAt(ctx0, n, k, space);
    }
  }

  lemma {:induction false} FullMore(ctx: Ctx, n: nat, space: nat)
    requires FullUp(ctx, n, space) && n < Level(ctx) && !UpBy(ctx, n).Top? && FrameFull(UpBy(ctx, n), space)
    ensures FullUp(ctx, n + 1, space)
    decreases ctx
  {
    if n > 0 {
      FullMore(ctx.up, n - 1, space);
    }
  }

  /** The block n + 1 levels up along a path: its step and its entries. */
  lemma {:induction false} ScanFacts(m: Store, path: seq<Step>, ctx: Ctx, t: Tree, n: nat, space: nat)
    requires Stored(m, Plug(ctx, t), space) && PathIs(path, ctx, 0) && n < Level(ctx) <= DepthOf(m)
    ensures !UpBy(ctx, n).Top? && Level(ctx) <= |path|
    ensures var f := UpBy(ctx, n);
            && path[Level(ctx) - 1 - n] == Step(f.block, |f.left|) && f.block in m && m[f.block].Inner?
            && m[f.block].max == Cap(f.up, space) && |m[f.block].idxs| == |f.left| + 1 + |f.right|
    decreases ctx
  {
    if n == 0 {
      FrameNode(m, ctx, t, DepthOf(m) - Level(ctx), space);
    } else {
      ScanFacts(m, path, ctx.up, Fill(ctx, t), n - 1, space);
    }
  }

  // ----- A deeper tree -----

  ghost function FirstKey(t: Tree): nat {
    match t
    case Tip(_, exts) => if exts == [] then 0 else exts[0].first
    case Fork(_, kids) => if kids == [] then 0 else kids[0].key
  }

  ghost function Moved(t: Tree, nb: nat): Tree {
    match t case Tip(_, exts) => Tip(nb, exts) case Fork(_, kids) => Fork(nb, kids)
  }

  /** The root's entries move to block nb and the root keeps one entry for it. */
  ghost function Grown(t: Tree, nb: nat): Tree {
    Fork(ROOT, [Kid(FirstKey(t), Moved(t, nb))])
  }

  lemma GrownWellFormed(t: Tree, nb: nat, d: nat, space: nat)
    requires WellFormed(t, d, space) && Filled(t) && ROOT_SPACE <= space
    ensures WellFormed(Grown(t, nb), d + 1, space) && Exts(Grown(t, nb)) == Exts(t)
  {
    hide Apart, Good;
    var moved := Moved(t, nb);
    assert Sound(moved, d, FirstKey(t), LOGICAL_LIMIT, space, space) by {
      if t.Fork? {
        KidsSoundBelow(t.kids, d - 1, 0, FirstKey(t), LOGICAL_LIMIT, space);
      }
    }
    KidsSoundSingle(Kid(FirstKey(t), moved), d, 0, LOGICAL_LIMIT, space);
    SingleExts(Kid(FirstKey(t), moved));
    match t {
      case Tip(_, exts) => assert exts[0].first < LOGICAL_LIMIT;
      case Fork(_, kids) =>
        SoundKids(t, d, 0, LOGICAL_LIMIT, ROOT_SPACE, space);
        assert kids[0].key < LOGICAL_LIMIT;
    }
    assert Exts(Grown(t, nb)) == Exts(t);
    assert Filled(moved) && KidsFilled([Kid(FirstKey(t), moved)][1..]);
    assert Filled(Grown(t, nb));
  }

  lemma GrownStored(m: Store, m': Store, t: Tree, nb: nat, space: nat)
    requires Stored(m, t, space) && nb !in m
    requires match t case Tip(_, exts) => exts != [] case Fork(_, kids) => kids != []
    requires m' == m[nb := Head(t, DepthOf(m), space)][ROOT :=
        Inner(DepthOf(m) + 1, ROOT_SPACE, [Index(FirstKey(t), nb)])]
    ensures Stored(m', Grown(t, nb), space) && DepthOf(m') == DepthOf(m) + 1
  {
    var d, moved := DepthOf(m), Moved(t, nb);
    TopAndBelow(t);
    TopAndBelow(moved);
    TopAndBelow(Grown(t, nb));
    SingleBlocks(Kid(FirstKey(t), moved));
    GrownBelow(m, m', t, nb, space);
    assert m'.Keys == m.Keys + {nb};
    OneMore(m.Keys, nb);
    assert Entries(Grown(t, nb).kids) == [Index(FirstKey(t), nb)];
  }

  lemma GrownBelow(m: Store, m': Store, t: Tree, nb: nat, space: nat)
    requires Stored(m, t, space) && nb !in m
    requires match t case Tip(_, exts) => exts != [] case Fork(_, kids) => kids != []
    requires m' == m[nb := Head(t, DepthOf(m), space)][ROOT :=
        Inner(DepthOf(m) + 1, ROOT_SPACE, [Index(FirstKey(t), nb)])]
    ensures Rep(m', Moved(t, nb), DepthOf(m), space, space)
  {
    if t.Fork? {
      TopAndBelow(t);
      StoredBlocks(m, t, space);
      forall b | b in KidsBlocks(t.kids)
        ensures b in m && b != ROOT
      {
        assert multiset(m.Keys)[b] == multiset{ROOT}[b] + KidsBlocks(t.kids)[b];
      }
      KidsRepFrame(m, m', t.kids, DepthOf(m) - 1, space);
    }
  }

  ghost function GrownCtx(ctx: Ctx, nb: nat, k: nat): Ctx {
    if ctx.Top? then In(ROOT, [], k, [], Top)
    else In(if ctx.up.Top? then nb else ctx.block, ctx.left, ctx.key, ctx.right, GrownCtx(ctx.up, nb, k))
  }

  lemma {:induction false} GrownPlug(ctx: Ctx, t: Tree, nb: nat, k: nat)
    ensures Plug(GrownCtx(ctx, nb, k), if ctx.Top? then Moved(t, nb) else t) ==
        Fork(ROOT, [Kid(k, Moved(Plug(ctx, t), nb))])
    ensures Level(GrownCtx(ctx, nb, k)) == Level(ctx) + 1
    decreases ctx
  {
    if ctx.Top? {
      var moved := Moved(t, nb);
      assert Fill(In(ROOT, [], k, [], Top), moved).kids == [Kid(k, moved)];
    } else {
      GrownPlug(ctx.up, Fill(ctx, t), nb, k);
    }
  }

  lemma {:induction false} GrownReached(ctx: Ctx, nb: nat, k: nat, b: nat)
    requires Reached(ctx, b)
    ensures Reached(GrownCtx(ctx, nb, k), b)
    decreases ctx
  {
    if !ctx.Top? {
      GrownReached(ctx.up, nb, k, b);
    }
  }

  /** A path of full blocks has room at the old root once the tree has grown. */
  lemma {:induction false} GrownFull(ctx: Ctx, nb: nat, k: nat, space: nat)
    requires FullUp(ctx, Level(ctx), space) && !ctx.Top? && ROOT_SPACE < space
    ensures FullUp(GrownCtx(ctx, nb, k), Level(ctx) - 1, space) && RoomUp(GrownCtx(ctx, nb, k), Level(ctx) - 1, space)
    decreases ctx
  {
    if !ctx.up.Top? {
      GrownFull(ctx.up, nb, k, space);
    }
  }

  lemma FirstFew<T>(a: seq<T>, x: T, b: seq<T>, a': seq<T>, x': T, b': seq<T>)
    requires a + [x] + b == a' + [x'] + b'
    ensures |a| == |a'| ==> a == a' && x == x' && b == b'
    ensures |a| < |a'| ==> b != [] && b[0] == (a' + [x'])[|a| + 1] && a' != []
    ensures |a'| < |a| ==> b' != [] && b'[0] == (a + [x])[|a'| + 1] && a != []
  {
    var s := a + [x] + b;
    if |a| == |a'| {
      assert a == s[..|a|] == a';
      assert x == s[|a|] == x';
      assert b == s[|a| + 1..] == b';
    } else if |a| < |a'| {
      assert s[|a| + 1] == b[0];
      assert s[|a| + 1] == (a' + [x'] + b')[|a| + 1];
    } else {
      assert (a' + [x'] + b')[|a'| + 1] == b'[0];
      assert s[|a'| + 1] == (a + [x])[|a'| + 1];
    }
  }

  /** In a block whose keys increase only one entry can be the turn for b. */
  lemma SameTurn(c: Ctx, t: Tree, c': Ctx, t': Tree, d: nat, b: nat, space: nat)
    requires !c.Top? && !c'.Top? && Fill(c, t) == Fill(c', t')
    requires CtxSound(c, d, space) && CtxSound(c', d, space) && Reached(c, b) && Reached(c', b)
    ensures c.left == c'.left && c.key == c'.key && c.right == c'.right && t == t' && c.block == c'.block
  {
    FirstFew(c.left, Kid(c.key, t), c.right, c'.left, Kid(c'.key, t'), c'.right);
    if |c.left| < |c'.left| {
      LeftBelow(c', d, |c.left| + 1, t', space);
    } else if |c'.left| < |c.left| {
      LeftBelow(c, d, |c'.left| + 1, t, space);
    }
  }

  lemma LeftBelow(c: Ctx, d: nat, i: nat, t: Tree, space: nat)
    requires !c.Top? && CtxSound(c, d, space) && i <= |c.left|
    ensures (c.left + [Kid(c.key, t)])[i].key <= c.key
  {}

  /** A search has only one result. */
  lemma {:induction false} Unique(c: Ctx, t: Tree, c': Ctx, t': Tree, d: nat, b: nat, space: nat)
    requires Plug(c, t) == Plug(c', t') && Level(c) == Level(c')
    requires CtxSound(c, d, space) && CtxSound(c', d, space) && Reached(c, b) && Reached(c', b)
    ensures c == c' && t == t'
    decreases c
  {
    if !c.Top? {
      Unique(c.up, Fill(c, t), c'.up, Fill(c', t'), d + 1, b, space);
      SameTurn(c, t, c', t', d, b, space);
    }
  }

  lemma FoundAimed(m: Store, whole: Tree, path: seq<Step>, ctx: Ctx, t: Tree, b: nat, d: nat, space: nat)
    requires Stored(m, whole, space) && WellFormed(whole, d, space) && Found(m, whole, d, path, ctx, t, b)
    ensures Aimed(path, ctx, t, b, d, space)
  {
    hide Sound, CtxSound, Stored, Apart;
    PlaceOrder(ctx, t, 0, space);
    PlugFilled(ctx, t);
    if !ctx.Top? {
      TipAtBottom(ctx, t);
    }
  }

  /** Where a search goes after the root has moved one level down. */
  lemma GrownPath(whole: Tree, nb: nat, ctx: Ctx, t: Tree, ctx': Ctx, t': Tree, b: nat, space: nat)
    requires WellFormed(whole, Level(ctx), space) && Filled(whole) && Plug(ctx, t) == whole && Reached(ctx, b)
        && ROOT_SPACE <= space
    requires Plug(ctx', t') == Grown(whole, nb) && Level(ctx') == Level(ctx) + 1 && Reached(ctx', b)
    ensures ctx' == GrownCtx(ctx, nb, FirstKey(whole)) && t' == if ctx.Top? then Moved(t, nb) else t
  {
    hide *;
    var c, u := GrownCtx(ctx, nb, FirstKey(whole)), if ctx.Top? then Moved(t, nb) else t;
    GrownPathOrder(whole, nb, ctx, t, b, space);
    GrownOrder(whole, nb, ctx', t', Level(ctx) + 1, space);
    Unique(c, u, ctx', t', 0, b, space);
  }

  lemma GrownOrder(whole: Tree, nb: nat, ctx: Ctx, t: Tree, d: nat, space: nat)
    requires d > 0 && WellFormed(whole, d - 1, space) && Filled(whole) && ROOT_SPACE <= space && d == Level(ctx)
    requires Plug(ctx, t) == Grown(whole, nb)
    ensures CtxSound(ctx, 0, space)
  {
    hide Sound, CtxSound, Apart, Filled;
    GrownWellFormed(whole, nb, d - 1, space);
    PlugSound(ctx, t, 0, space);
  }

  lemma GrownPathOrder(whole: Tree, nb: nat, ctx: Ctx, t: Tree, b: nat, space: nat)
    requires WellFormed(whole, Level(ctx), space) && Filled(whole) && Plug(ctx, t) == whole && Reached(ctx, b)
        && ROOT_SPACE <= space
    ensures var c, u := GrownCtx(ctx, nb, FirstKey(whole)), if ctx.Top? then Moved(t, nb) else t;
            Plug(c, u) == Grown(whole, nb) && Level(c) == Level(ctx) + 1 && Reached(c, b) && CtxSound(c, 0, space)
  {
    hide WellFormed, Sound, CtxSound, Filled;
    var c, u := GrownCtx(ctx, nb, FirstKey(whole)), if ctx.Top? then Moved(t, nb) else t;
    GrownPlug(ctx, t, nb, FirstKey(whole));
    GrownReached(ctx, nb, FirstKey(whole), b);
    GrownOrder(whole, nb, c, u, Level(ctx) + 1, space);
  }

  lemma {:induction false} SizeUp(ctx: Ctx, d: nat, n: nat, space: nat)
    requires CtxSound(ctx, d, space) && n < Level(ctx)
    ensures !UpBy(ctx, n).Top? && |UpBy(ctx, n).left| + 1 + |UpBy(ctx, n).right| <= Cap(UpBy(ctx, n).up, space)
    decreases ctx
  {
    if n > 0 {
      SizeUp(ctx.up, d + 1, n - 1, space);
    }
  }

  lemma AimedFacts(path: seq<Step>, ctx: Ctx, t: Tree, b: nat, d: nat, space: nat)
    requires Aimed(path, ctx, t, b, d, space)
    ensures t.Tip? && Level(ctx) == d && |path| == d + 1 && PathIs(path, ctx, 0) && path[d].block == t.block
    ensures -1 <= path[d].at < |t.exts| <= Cap(ctx, space) && (t.exts != [] ==> path[d].at >= 0)
        && CtxSound(ctx, 0, space)
    ensures LeafPos(t.exts, path[d].at, b)
  {
    hide CtxSound, PathIs, Reached;
    TipPlace(ctx, t.block, t.exts, space);
  }

  /** A leaf entry merges with a new extent. The source corrects no index key when it prepends, so
      the tree stays well formed exactly when it appends, or when the root is the leaf and the old
      physical start has room for the joint length. */
  lemma MergedWhole(s: seq<Extent>, ctx: Ctx, t: Tree, at: nat, n: Extent, space: nat)
    requires WellFormed(Plug(ctx, t), Level(ctx), space) && Exts(Plug(ctx, t)) == s && t.Tip?
    requires at < |t.exts| && LeafPos(t.exts, at, n.first)
    requires Merged(t.exts[at], n).Some? && Good(n) && Clear(s, n) && AllGood(s)
    ensures var e := Merged(t.exts[at], n).value;
            var whole := Plug(ctx, Tip(t.block, t.exts[at := e]));
            && |Pre(ctx)| + at < |s| && Exts(whole) == s[|Pre(ctx)| + at := e]
            && (WellFormed(whole, Level(ctx), space) <==> CanAppend(t.exts[at], n) || (ctx.Top? && Good(e)))
  {
    hide Sound, Filled, Clear, AllGood, Apart;
    var e := Merged(t.exts[at], n).value;
    TipExts(ctx, t, at, e);
    PlugExts(ctx, t);
    GoodAt(s, |Pre(ctx)| + at);
    if CanAppend(t.exts[at], n) {
      AppendedIs(t.exts[at], n);
      AppendedApart(s, |Pre(ctx)| + at, n);
      LongerWhole(ctx, t, at, e, space);
    } else {
      PrependedIs(t.exts[at], n);
      PrependedWhole(ctx, t, n, space);
    }
  }

  lemma PrependedWhole(ctx: Ctx, t: Tree, n: Extent, space: nat)
    requires WellFormed(Plug(ctx, t), Level(ctx), space) && t.Tip? && t.exts != []
    requires Good(t.exts[0]) && Good(n) && CanPrepend(t.exts[0], n)
    ensures var e := Prepended(t.exts[0], n);
            WellFormed(Plug(ctx, Tip(t.block, t.exts[0 := e])), Level(ctx), space) <==> ctx.Top? && Good(e)
  {
    hide KidsSound, CtxSound;
    var e := Prepended(t.exts[0], n);
    PrependedIs(t.exts[0], n);
    PlugSound(ctx, t, 0, space);
    PlugSound(ctx, Tip(t.block, t.exts[0 := e]), 0, space);
    if ctx.Top? {
      var r := t.exts[0 := e];
      assert Plug(ctx, Tip(t.block, r)) == Tip(t.block, r);
      assert r[0] == e;
    }
  }

  /** A new extent enters a leaf with room: the whole tree. */
  lemma PutResult(path: seq<Step>, ctx: Ctx, t: Tree, at: int, n: Extent, d: nat, space: nat)
    requires Aimed(path, ctx, t, n.first, d, space) && at == path[d].at && |t.exts| < Cap(ctx, space)
    requires (at >= 0 ==> n.first != t.exts[at].first) && Good(n)
    requires var s := Exts(Plug(ctx, t)); Apart(s) && AllGood(s) && Clear(s, n)
    ensures var s, k, exts :=
        Exts(Plug(ctx, t)), |Pre(ctx)| + PutIndex(t.exts, at, n), Inserted(t.exts, PutIndex(t.exts, at, n), n);
            var whole := Plug(Retied(ctx, at, exts), Tip(t.block, exts));
            && k <= |s| && WellFormed(whole, d, space) && Exts(whole) == Inserted(s, k, n)
            && MapOf(Exts(whole)) == MapOf(s) + RunOf(n)
  {
    hide CtxSound, Sound, Apart, AllGood, Clear, Good, Filled, Plug, Exts, Retied, MapOf, RunOf, WellFormed;
    PutWhole(ctx, t, at, n, space);
    PutList(ctx, t, at, n);
    MapInserted(Exts(Plug(ctx, t)), |Pre(ctx)| + PutIndex(t.exts, at, n), n);
  }
}
